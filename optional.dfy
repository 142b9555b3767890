/** Java's nullable strings: `None` stands for `null`. */
module Optional {

  datatype Option<+T> = None | Some(value: T)

  /** `s != null ? s : ""`, the fallback the note store uses for missing text. */
  function OrEmpty(s: Option<string>): (r: string)
    ensures s.Some? ==> r == s.value
    ensures r == "" <==> s.None? || s.value == ""
  {
    if s.Some? then s.value else ""
  }
}
