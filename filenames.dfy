/** The note-name sanitiser: the only way a caller-supplied name reaches the file system. */
module FileNames {
  import opened Optional

  /** Longest sanitised name, in characters. */
  const MaxFileNameLength := 255

  /** The characters the sanitiser keeps: `[a-zA-Z0-9-_]`. */
  predicate IsAllowed(c: char)
  {
    ('a' <= c <= 'z') || ('A' <= c <= 'Z') || ('0' <= c <= '9') || c == '-' || c == '_'
  }

  /** `Character.isWhitespace`: the Unicode space, line and paragraph separators other than the
      no-break spaces U+00A0, U+2007 and U+202F, plus U+0009..U+000D and U+001C..U+001F. */
  predicate IsJavaWhitespace(c: char)
    ensures IsJavaWhitespace(c) ==> !IsAllowed(c)
    ensures c == ' ' || c == '\t' || c == '\n' || c == '\r' ==> IsJavaWhitespace(c)
    ensures c == '\U{A0}' || c == '\U{2007}' || c == '\U{202F}' ==> !IsJavaWhitespace(c)
  {
    var k := c as int;
    k == 0x20 || (0x09 <= k <= 0x0D) || (0x1C <= k <= 0x1F) || k == 0x1680
    || (0x2000 <= k <= 0x2006) || (0x2008 <= k <= 0x200A)
    || k == 0x2028 || k == 0x2029 || k == 0x205F || k == 0x3000
  }

  /** `String.isBlank`: empty, or whitespace only. */
  predicate IsBlank(s: string)
    ensures s == "" ==> IsBlank(s)
    ensures IsBlank(s) ==> forall i :: 0 <= i < |s| ==> !IsAllowed(s[i])
  {
    forall i :: 0 <= i < |s| ==> IsJavaWhitespace(s[i])
  }

  /** `replaceAll("[^a-zA-Z0-9\\-_]", "_")`: each code point outside the whitelist becomes `_`. */
  function ReplaceDisallowed(s: string): string
  {
    seq(|s|, i requires 0 <= i < |s| => if IsAllowed(s[i]) then s[i] else '_')
  }

  function Min(a: int, b: int): int
  {
    if a <= b then a else b
  }

  /** `sanitizeFileName`: rejects a null or blank name, replaces every character outside
      the whitelist by `_`, and keeps at most the first 255 characters. */
  function Sanitize(name: Option<string>): (r: Option<string>)
    ensures r.None? <==> name.None? || IsBlank(name.value)
    ensures r.Some? ==> 0 < |r.value| == Min(|name.value|, MaxFileNameLength)
    ensures r.Some? ==> forall i :: 0 <= i < |r.value| ==> IsAllowed(r.value[i])
    ensures r.Some? ==> forall i :: 0 <= i < |r.value| ==>
              r.value[i] == (if IsAllowed(name.value[i]) then name.value[i] else '_')
  {
    if name.None? || IsBlank(name.value) then None
    else
      var replaced := ReplaceDisallowed(name.value);
      Some(if |replaced| > MaxFileNameLength then replaced[..MaxFileNameLength] else replaced)
  }

  /** A non-empty name of at most 255 whitelisted characters is used as it is. */
  lemma SanitizeKeepsWhitelisted(n: string)
    requires 0 < |n| <= MaxFileNameLength
    requires forall i :: 0 <= i < |n| ==> IsAllowed(n[i])
    ensures Sanitize(Some(n)) == Some(n)
  {
    assert !IsJavaWhitespace(n[0]);
    assert ReplaceDisallowed(n) == n;
  }

  /** Sanitising a sanitised name changes nothing. */
  lemma SanitizeIdempotent(name: Option<string>)
    requires Sanitize(name).Some?
    ensures Sanitize(Sanitize(name)) == Sanitize(name)
  {
    SanitizeKeepsWhitelisted(Sanitize(name).value);
  }

  /** The traversal attempt of the create test: dots and slashes all become `_`. */
  lemma SanitizeTraversalName()
    ensures Sanitize(Some("my../../../etc/passwd")) == Some("my_________etc_passwd")
  {
    var name := "my../../../etc/passwd";
    assert !IsJavaWhitespace(name[0]);
    var r := ReplaceDisallowed(name);
    assert |r| == 21;
    assert forall i :: 0 <= i < 21 ==> r[i] == "my_________etc_passwd"[i];
    assert r == "my_________etc_passwd";
    assert !IsBlank(name);
  }
}
