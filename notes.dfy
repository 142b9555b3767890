/** The note store: a flat directory of `<name>.txt` files under one root, and the six
    operations offered to the assistant (search, list, read, create, delete, append). Each
    operation re-reads the directory; the object holds the directory's state in its fields. */
module Notes {
  import opened Optional
  import opened Strings
  import opened Listing
  import opened FileNames
  import opened Paths

  /** Largest note, in UTF-8 bytes (1 MiB). */
  const MaxNoteSizeBytes := 1024 * 1024

  const Extension := ".txt"

  const InvalidNoteName := "Error: Invalid note name"
  const InvalidFilePath := "Error: Invalid file path"
  const ContentTooLarge := "Error: Note content exceeds maximum size of 1MB"
  const AppendTooLarge := "Error: Adding this content would exceed maximum note size of 1MB"

  /** The file that stores the note with sanitised name `n`. */
  function NoteFileName(n: string): string
  {
    n + Extension
  }

  /** Whatever the caller passes, the file a sanitised name designates is a direct child of the
      notes root, so `isPathSafe` accepts it and "Error: Invalid file path" is never returned. */
  lemma SanitizedNoteIsConfined(root: Path, name: Option<string>)
    requires IsNormal(root) && !HasNul(root)
    requires Sanitize(name).Some?
    ensures var f := NoteFileName(Sanitize(name).value);
            && Normalize(Resolve(root, f)) == root + [f]
            && IsPathSafe(root, Resolve(root, f))
  {
    var n := Sanitize(name).value;
    var f := NoteFileName(n);
    assert |f| == |n| + 4;
    forall i | 0 <= i < |f| ensures f[i] != '/' && f[i] != '\0' {
      if i < |n| {
        assert f[i] == n[i] && IsAllowed(n[i]);
      } else {
        assert f[i] == Extension[i - |n|];
      }
    }
    ChildIsConfined(root, f);
  }

  /** The text an append writes starts with the old text and is as long, in bytes, as its
      three parts together. */
  lemma AppendedText(oldText: string, separator: string, content: string)
    ensures IsPrefix(oldText, oldText + separator + content)
    ensures Utf8Len(oldText + separator + content) == Utf8Len(oldText) + Utf8Len(separator) + Utf8Len(content)
  {
    Utf8LenAppend(oldText + separator, content);
    Utf8LenAppend(oldText, separator);
    assert (oldText + separator + content)[..|oldText|] == oldText;
  }

  class NotesService {
    /** `notesDirectory`: the absolute, normalised notes root. */
    const root: Path
    /** `System.lineSeparator()`, fixed for the life of the process. */
    const lineSeparator: string
    /** The root exists and is a directory. */
    var dirExists: bool
    /** The names the root directory holds, in the order `listFiles` enumerates them. */
    var entries: seq<string>
    /** The regular files among them, with their text. The other entries are directories. */
    var files: map<string, string>

    ghost predicate Valid()
      reads this
    {
      && IsNormal(root) && !HasNul(root)
      && NoDup(entries)
      && (forall f :: f in files ==> f in entries)
      && (!dirExists ==> entries == [])
    }

    /** `init`: resolves the configured path against the working directory and normalises it;
        when nothing is there, `mkdirs` creates the root (and may fail, which is only logged). */
    constructor (notesPath: string, workingDir: Path, lineSeparator: string,
                 rootIsDirectory: bool, listing: seq<string>, regularFiles: map<string, string>,
                 mkdirsSucceeds: bool)
      requires forall i :: 0 <= i < |workingDir| ==> IsComponent(workingDir[i])
      requires !HasNul(workingDir) && '\0' !in notesPath
      requires NoDup(listing) && (forall f :: f in regularFiles ==> f in listing)
      requires !rootIsDirectory ==> listing == []
      ensures Valid()
      ensures root == Normalize(Absolute(workingDir, notesPath))
      ensures this.lineSeparator == lineSeparator
      ensures dirExists == (rootIsDirectory || mkdirsSucceeds)
      ensures entries == listing && files == regularFiles
    {
      var p := Absolute(workingDir, notesPath);
      forall i | 0 <= i < |p| ensures IsComponent(p[i]) && '\0' !in p[i] {
        if |notesPath| == 0 || notesPath[0] != '/' {
          if i >= |workingDir| {
            assert p[i] == Components(notesPath)[i - |workingDir|];
          }
        }
      }
      NormalizeIsNormal(p);
      root := Normalize(p);
      this.lineSeparator := lineSeparator;
      dirExists := rootIsDirectory || mkdirsSucceeds;
      entries := listing;
      files := regularFiles;
    }

    /** The path of the file `new File(notesDirectory.toFile(), n + ".txt")`. */
    function NotePath(n: string): Path
    {
      Resolve(root, NoteFileName(n))
    }

    /** The regular files of the root, in enumeration order. */
    function FileEntries(): (r: seq<string>)
      reads this
      requires Valid()
      ensures forall n :: n in r <==> n in files
      ensures NoDup(r)
    {
      var fs := files;
      Filter(entries, n => n in fs)
    }

    /** `searchNotesByFileName`: the names of the regular files whose lower-cased name contains
        the lower-cased term (null counts as ""), in enumeration order; nothing when the root is
        missing. */
    function SearchNotesByFileName(notesName: Option<string>): (r: seq<string>)
      reads this
      requires Valid()
      ensures !dirExists ==> r == []
      ensures forall n :: n in r <==> n in files && Contains(Lower(n), Lower(OrEmpty(notesName)))
      ensures OrEmpty(notesName) == "" ==> forall n :: n in r <==> n in files
      ensures NoDup(r)
      ensures forall i, j :: 0 <= i < j < |r| ==> IndexOf(entries, r[i]) < IndexOf(entries, r[j])
    {
      if !dirExists then []
      else
        var fs := files;
        var search := Lower(OrEmpty(notesName));
        var keep := n => n in fs && Contains(Lower(n), search);
        FilterKeepsOrder(entries, keep);
        Filter(entries, keep)
    }

    /** `listAllNotes`: the names of the regular files, sorted ascending (hence without
        duplicates); nothing when the root is missing. */
    function ListAllNotes(): (r: seq<string>)
      reads this
      requires Valid()
      ensures !dirExists ==> r == []
      ensures forall n :: n in r <==> n in files
      ensures StrictlySorted(r)
      ensures |r| == |FileEntries()|
    {
      if !dirExists then []
      else
        var listed := FileEntries();
        var r := Sort(listed);
        assert forall n :: n in r <==> n in multiset(r);
        assert |r| == |multiset(r)|;
        r
    }

    /** `readNoteContent`: an invalid name, a missing note, a failed read, or else the stored
        text exactly. The root-escape branch is unreachable (SanitizedNoteIsConfined). */
    function ReadNoteContent(notesName: Option<string>, ioFails: bool, ioMessage: string): (r: string)
      reads this
      requires Valid()
      ensures Sanitize(notesName).None? ==> r == InvalidNoteName
      ensures Sanitize(notesName).Some? ==>
                var n := Sanitize(notesName).value;
                var f := NoteFileName(n);
                && (f !in entries ==> r == "Note not found: " + n)
                && (f in entries && (f !in files || ioFails) ==> r == "Error reading note: " + ioMessage)
                && (f in files && !ioFails ==> r == files[f])
    {
      match Sanitize(notesName)
      case None => InvalidNoteName
      case Some(n) =>
        var f := NoteFileName(n);
        SanitizedNoteIsConfined(root, notesName);
        if !IsPathSafe(root, NotePath(n)) then InvalidFilePath
        else if f !in entries then "Note not found: " + n
        else if f !in files || ioFails then "Error reading note: " + ioMessage
        else files[f]
    }

    /** `createNotes`: the size check comes first, then the existence check; on success
        exactly the key `name.txt` is added, holding the content (null as ""), and reading the
        note back gives that content. A failed write leaves the directory as it was. */
    method CreateNotes(notes: Option<string>, notesName: Option<string>, ioFails: bool, ioMessage: string)
      returns (msg: string)
      requires Valid()
      modifies this
      ensures Valid() && dirExists == old(dirExists)
      ensures Sanitize(notesName).None? ==> msg == InvalidNoteName && unchanged(this)
      ensures Sanitize(notesName).Some? ==>
                var n := Sanitize(notesName).value;
                var f := NoteFileName(n);
                if notes.Some? && Utf8Len(notes.value) > MaxNoteSizeBytes then
                  msg == ContentTooLarge && unchanged(this)
                else if f in old(entries) then
                  msg == "Note already exists: " + f && unchanged(this)
                else if !dirExists || ioFails then
                  msg == "Error creating note: " + ioMessage && unchanged(this)
                else
                  && msg == "Note created: " + f
                  && files == old(files)[f := OrEmpty(notes)]
                  && entries == old(entries) + [f]
                  && ReadNoteContent(notesName, false, "") == OrEmpty(notes)
    {
      var sanitizedName := Sanitize(notesName);
      if sanitizedName.None? {
        return InvalidNoteName;
      }
      var n := sanitizedName.value;
      if notes.Some? && Utf8Len(notes.value) > MaxNoteSizeBytes {
        return ContentTooLarge;
      }
      var f := NoteFileName(n);
      SanitizedNoteIsConfined(root, notesName);
      if !IsPathSafe(root, NotePath(n)) {
        return InvalidFilePath;
      }
      if f in entries {
        return "Note already exists: " + f;
      }
      if !dirExists || ioFails {
        return "Error creating note: " + ioMessage;
      }
      files := files[f := OrEmpty(notes)];
      entries := entries + [f];
      msg := "Note created: " + f;
    }

    /** `deleteNotes`: on success exactly the key `name.txt` is removed, the other entries stay in
        their enumeration order, and reading the note afterwards reports it missing. */
    method DeleteNotes(notesName: Option<string>, ioFails: bool)
      returns (msg: string)
      requires Valid()
      modifies this
      ensures Valid() && dirExists == old(dirExists)
      ensures Sanitize(notesName).None? ==> msg == InvalidNoteName && unchanged(this)
      ensures Sanitize(notesName).Some? ==>
                var n := Sanitize(notesName).value;
                var f := NoteFileName(n);
                if f !in old(entries) then
                  msg == "Note not found: " + n && unchanged(this)
                else if ioFails then
                  msg == "Could not delete note: " + n && unchanged(this)
                else
                  && msg == "Note deleted: " + n
                  && files == old(files) - {f}
                  && entries == Filter(old(entries), e => e != f)
                  && (forall e :: e in entries <==> e in old(entries) && e != f)
                  && (forall b, m :: ReadNoteContent(notesName, b, m) == "Note not found: " + n)
    {
      var sanitizedName := Sanitize(notesName);
      if sanitizedName.None? {
        return InvalidNoteName;
      }
      var n := sanitizedName.value;
      var f := NoteFileName(n);
      SanitizedNoteIsConfined(root, notesName);
      if !IsPathSafe(root, NotePath(n)) {
        return InvalidFilePath;
      }
      if f !in entries {
        return "Note not found: " + n;
      }
      if ioFails {
        return "Could not delete note: " + n;
      }
      files := files - {f};
      entries := Filter(entries, e => e != f);
      msg := "Note deleted: " + n;
    }

    /** `addToExistingNotes`: never creates a note; refuses when the current size plus the new
        content's size exceeds 1 MiB (the separator is not counted); otherwise the note becomes
        its old text, the line separator and the new content, and nothing else changes. */
    method AddToExistingNotes(notes: Option<string>, notesName: Option<string>, ioFails: bool, ioMessage: string)
      returns (msg: string)
      requires Valid()
      modifies this
      ensures Valid() && dirExists == old(dirExists) && entries == old(entries)
      ensures Sanitize(notesName).None? ==> msg == InvalidNoteName && unchanged(this)
      ensures Sanitize(notesName).Some? ==>
                var n := Sanitize(notesName).value;
                var f := NoteFileName(n);
                var currentSize := if f in old(files) then Utf8Len(old(files)[f]) else 0;
                if f !in old(entries) then
                  msg == "Note not found: " + n && unchanged(this)
                else if currentSize + Utf8Len(OrEmpty(notes)) > MaxNoteSizeBytes then
                  msg == AppendTooLarge && unchanged(this)
                else if f !in old(files) || ioFails then
                  msg == "Error writing to note: " + ioMessage && unchanged(this)
                else
                  && msg == "Content added to note: " + n
                  && files == old(files)[f := old(files)[f] + lineSeparator + OrEmpty(notes)]
                  && IsPrefix(old(files)[f], files[f])
                  && Utf8Len(files[f]) <= MaxNoteSizeBytes + Utf8Len(lineSeparator)
                  && ReadNoteContent(notesName, false, "") == files[f]
    {
      var sanitizedName := Sanitize(notesName);
      if sanitizedName.None? {
        return InvalidNoteName;
      }
      var n := sanitizedName.value;
      var f := NoteFileName(n);
      SanitizedNoteIsConfined(root, notesName);
      if !IsPathSafe(root, NotePath(n)) {
        return InvalidFilePath;
      }
      if f !in entries {
        return "Note not found: " + n;
      }
      var currentSize := if f in files then Utf8Len(files[f]) else 0;
      var appendSize := if notes.Some? then Utf8Len(notes.value) else 0;
      if currentSize + appendSize > MaxNoteSizeBytes {
        return AppendTooLarge;
      }
      if f !in files || ioFails {
        return "Error writing to note: " + ioMessage;
      }
      var oldText := files[f];
      var text := oldText + lineSeparator + OrEmpty(notes);
      assert appendSize == Utf8Len(OrEmpty(notes));
      AppendedText(oldText, lineSeparator, OrEmpty(notes));
      files := files[f := text];
      assert ReadNoteContent(notesName, false, "") == text;
      msg := "Content added to note: " + n;
    }
  }
}
