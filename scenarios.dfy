/** Client sessions that replay the service's unit tests, using nothing but the contracts of the
    note store: the create-read-append-delete sessions for every plain note name, the search and
    listing sessions on the tests' own file names. */
module NotesScenarios {
  import opened Optional
  import opened Strings
  import opened Listing
  import opened FileNames
  import opened Notes

  /** File names of more than this many bytes are refused by common Unix file systems
      (`NAME_MAX`); with `.txt` appended, a note name may have at most 251 characters. */
  const MaxPlainNameLength := 251

  /** A name the sanitiser keeps as it is (SanitizeKeepsWhitelisted: any non-empty name from
      `[a-zA-Z0-9-_]`, such as `demo` or `existing-note`) and whose file name the file system
      accepts. */
  predicate IsPlainName(n: string)
  {
    Sanitize(Some(n)) == Some(n) && |n| <= MaxPlainNameLength
  }

  /** A fresh, empty notes root at `/home/user/notes`, with `\n` as the line separator. */
  method EmptyStore() returns (store: NotesService)
    ensures fresh(store) && store.Valid()
    ensures store.dirExists && store.entries == [] && store.files == map[] && store.lineSeparator == "\n"
  {
    store := new NotesService("/home/user/notes", [], "\n", true, [], map[], true);
  }

  /** Create, read, append, read, delete, read on one note: the text reads back exactly, the
      appended text follows the old text after the separator, and the deleted note is gone. */
  method NoteLifecycle(n: string, hello: string, world: string)
    returns (created: string, first: string, appended: string, second: string, deleted: string, last: string)
    requires IsPlainName(n)
    requires Utf8Len(hello) + Utf8Len(world) <= MaxNoteSizeBytes
    ensures created == "Note created: " + NoteFileName(n)
    ensures first == hello
    ensures appended == "Content added to note: " + n
    ensures second == hello + "\n" + world && IsPrefix(hello, second)
    ensures deleted == "Note deleted: " + n
    ensures last == "Note not found: " + n
  {
    var store := EmptyStore();
    var name := Some(n);
    created := store.CreateNotes(Some(hello), name, false, "");
    first := store.ReadNoteContent(name, false, "");
    appended := store.AddToExistingNotes(Some(world), name, false, "");
    second := store.ReadNoteContent(name, false, "");
    deleted := store.DeleteNotes(name, false);
    last := store.ReadNoteContent(name, false, "");
  }

  /** Creating the same note twice: the second call is refused and the text stays the first one. */
  method CreateTwice(n: string, firstText: string, secondText: string)
    returns (first: string, second: string, text: string)
    requires IsPlainName(n) && Utf8Len(firstText) <= MaxNoteSizeBytes
    requires Utf8Len(secondText) <= MaxNoteSizeBytes  // otherwise the size check, which comes first, answers
    ensures first == "Note created: " + NoteFileName(n)
    ensures second == "Note already exists: " + NoteFileName(n)
    ensures text == firstText
  {
    var store := EmptyStore();
    var name := Some(n);
    first := store.CreateNotes(Some(firstText), name, false, "");
    second := store.CreateNotes(Some(secondText), name, false, "");
    text := store.ReadNoteContent(name, false, "");
  }

  /** An empty, blank or missing name is refused by every operation that takes one. */
  method InvalidNames(content: string) returns (created: string, read: string, deleted: string, appended: string)
    ensures created == InvalidNoteName && read == InvalidNoteName
    ensures deleted == InvalidNoteName && appended == InvalidNoteName
  {
    var store := EmptyStore();
    created := store.CreateNotes(Some(content), Some(""), false, "");
    read := store.ReadNoteContent(None, false, "");
    deleted := store.DeleteNotes(Some(" \t"), false);
    appended := store.AddToExistingNotes(Some(content), None, false, "");
  }

  /** ASCII content of exactly 1 MiB is accepted; one byte more is refused. */
  method SizeLimitBoundary(n: string, m: string, atLimit: string, overLimit: string)
    returns (accepted: string, refused: string)
    requires IsPlainName(n) && IsPlainName(m)
    requires |atLimit| == MaxNoteSizeBytes && |overLimit| == MaxNoteSizeBytes + 1
    requires forall i :: 0 <= i < |atLimit| ==> atLimit[i] == 'x'
    requires forall i :: 0 <= i < |overLimit| ==> overLimit[i] == 'x'
    ensures accepted == "Note created: " + NoteFileName(n)
    ensures refused == ContentTooLarge
  {
    var store := EmptyStore();
    accepted := store.CreateNotes(Some(atLimit), Some(n), false, "");
    refused := store.CreateNotes(Some(overLimit), Some(m), false, "");
  }

  /** Read, delete and append on a note that was never created all report it missing, append
      does not create it, and an empty root lists nothing. */
  method MissingNote(n: string) returns (read: string, deleted: string, appended: string, listed: seq<string>)
    requires IsPlainName(n)
    ensures read == "Note not found: " + n
    ensures deleted == "Note not found: " + n
    ensures appended == "Note not found: " + n
    ensures listed == []
  {
    var store := EmptyStore();
    var name := Some(n);
    read := store.ReadNoteContent(name, false, "");
    deleted := store.DeleteNotes(name, false);
    appended := store.AddToExistingNotes(Some("Content"), name, false, "");
    listed := store.ListAllNotes();
  }

  /** The append size check does not count the line separator: a note already at 1 MiB accepts
      an empty append and ends one byte over the limit. */
  method AppendPastLimit(n: string, full: string) returns (msg: string, text: string)
    requires IsPlainName(n)
    requires |full| == MaxNoteSizeBytes && forall i :: 0 <= i < |full| ==> full[i] == 'x'
    ensures msg == "Content added to note: " + n
    ensures text == full + "\n" && Utf8Len(text) == MaxNoteSizeBytes + 1
  {
    var f := NoteFileName(n);
    var store := new NotesService("/home/user/notes", [], "\n", true, [f], map[f := full], true);
    msg := store.AddToExistingNotes(Some(""), Some(n), false, "");
    text := store.ReadNoteContent(Some(n), false, "");
    assert text == full + "\n" + "";
    assert full + "\n" + "" == full + "\n";
    Utf8LenAppend(full, "\n");
  }

  /** The first elements of a listing are members of it. */
  lemma LeadingMembers(r: seq<string>)
    ensures |r| > 1 ==> r[0] in r && r[1] in r
    ensures |r| > 2 ==> r[2] in r
  {
  }

  /** A listing without duplicates whose only member is `x` is `[x]`. */
  lemma OnlyResult(r: seq<string>, x: string)
    requires NoDup(r) && forall n :: n in r <==> n == x
    ensures r == [x]
  {
    assert x in r;
    LeadingMembers(r);
  }

  /** `notes` occurs at position 8 of `<word>-notes.txt` once lower-cased. */
  lemma NotesSuffixMatches(name: string)
    requires |name| == 17 && name[8..] == "notes.txt"
    requires forall i :: 0 <= i < 8 ==> !('A' <= name[i] <= 'Z')
    ensures Contains(Lower(name), Lower("notes"))
  {
    var lowered, term := Lower(name), Lower("notes");
    assert term[0] == 'n' && term[1] == 'o' && term[2] == 't' && term[3] == 'e' && term[4] == 's';
    assert name[8] == 'n' && name[9] == 'o' && name[10] == 't' && name[11] == 'e' && name[12] == 's';
    assert lowered[8..13] == term;
    ContainedAt(lowered, term, 8);
  }

  /** `todo.txt` has no `n`, so it does not contain `notes`. */
  lemma TodoDoesNotMatch()
    ensures !Contains(Lower("todo.txt"), Lower("notes"))
  {
    var lowered, term := Lower("todo.txt"), Lower("notes");
    assert term[0] == 'n';
    assert lowered[0] == 't' && lowered[1] == 'o' && lowered[2] == 'd' && lowered[3] == 'o';
    assert lowered[4] == '.' && lowered[5] == 't' && lowered[6] == 'x' && lowered[7] == 't';
    assert lowered == "todo.txt";
    ContainedFirstChar(lowered, term);
  }

  /** `meeting-notes.txt` and `project-notes.txt` both contain `notes`. */
  lemma BothNotesMatch()
    ensures Contains(Lower("meeting-notes.txt"), Lower("notes"))
    ensures Contains(Lower("project-notes.txt"), Lower("notes"))
  {
    NotesSuffixMatches("meeting-notes.txt");
    NotesSuffixMatches("project-notes.txt");
  }

  /** A listing without duplicates drawn from the enumeration `[a, b, c]`, holding `a` and `b`
      but not `c`, and kept in enumeration order, is `[a, b]`. */
  lemma PairResult(r: seq<string>, a: string, b: string, c: string)
    requires a != b && NoDup(r) && forall n :: n in r ==> n in [a, b, c]
    requires a in r && b in r && c !in r
    requires forall i, j :: 0 <= i < j < |r| ==> IndexOf([a, b, c], r[i]) < IndexOf([a, b, c], r[j])
    ensures r == [a, b]
  {
    assert forall n :: n in r ==> n == a || n == b;
    LeadingMembers(r);
    assert IndexOf([a, b, c], a) == 0 && IndexOf([a, b, c], b) == 1;
  }

  /** A search for `notes` finds the two notes whose names contain it, in enumeration order,
      and not the third. */
  method SearchMatchingNotes() returns (results: seq<string>)
    ensures results == ["meeting-notes.txt", "project-notes.txt"]
  {
    var meeting, project, todo := "meeting-notes.txt", "project-notes.txt", "todo.txt";
    var store := new NotesService("/home/user/notes", [], "\n", true, [meeting, project, todo],
                                  map[meeting := "Content", project := "Content", todo := "Content"], true);
    BothNotesMatch();
    TodoDoesNotMatch();
    results := store.SearchNotesByFileName(Some("notes"));
    assert OrEmpty(Some("notes")) == "notes";
    assert meeting in results && project in results && todo !in results;
    assert forall n :: n in results ==> n in store.entries;
    PairResult(results, meeting, project, todo);
  }

  /** `MyNotes.txt` contains `mynotes` once both are lower-cased. */
  lemma MyNotesMatches()
    ensures Contains(Lower("MyNotes.txt"), Lower("mynotes"))
  {
    var lowered, term := Lower("MyNotes.txt"), Lower("mynotes");
    assert lowered[0] == 'm' && lowered[1] == 'y' && lowered[2] == 'n' && lowered[3] == 'o';
    assert lowered[4] == 't' && lowered[5] == 'e' && lowered[6] == 's';
    assert term[0] == 'm' && term[1] == 'y' && term[2] == 'n' && term[3] == 'o';
    assert term[4] == 't' && term[5] == 'e' && term[6] == 's';
    assert lowered[..7] == term;
    ContainedAt(lowered, term, 0);
  }

  /** Search ignores case: `mynotes` finds `MyNotes.txt`. */
  method SearchIgnoresCase() returns (results: seq<string>)
    ensures results == ["MyNotes.txt"]
  {
    var store := new NotesService("/home/user/notes", [], "\n", true, ["MyNotes.txt"],
                                  map["MyNotes.txt" := "Content"], true);
    MyNotesMatches();
    results := store.SearchNotesByFileName(Some("mynotes"));
    assert forall n :: n in results <==> n == "MyNotes.txt";
    OnlyResult(results, "MyNotes.txt");
  }

  /** Three names, each before the next, form a strictly sorted listing. */
  lemma ThreeAscending(a: string, b: string, c: string)
    requires LexLess(a, b) && LexLess(b, c)
    ensures StrictlySorted([a, b, c])
  {
    LexLessTransitive(a, b, c);
  }

  /** `note<d>.txt` names are ordered by their digit: after the common `note`, `d` decides. */
  lemma NoteOrder(d: char, e: char)
    requires d < e
    ensures LexLess("note" + [d] + ".txt", "note" + [e] + ".txt")
  {
    assert "note" + [d] + ".txt" == "note" + ([d] + ".txt");
    assert "note" + [e] + ".txt" == "note" + ([e] + ".txt");
    assert ([d] + ".txt")[0] == d && ([e] + ".txt")[0] == e;
    LexLessCommonPrefix("note", [d] + ".txt", [e] + ".txt");
  }

  /** The three names in ascending `compareTo` order. */
  lemma ThreeNotesAscending()
    ensures StrictlySorted(["note1.txt", "note2.txt", "note3.txt"])
  {
    NoteOrder('1', '2');
    NoteOrder('2', '3');
    assert "note" + ['1'] + ".txt" == "note1.txt";
    assert "note" + ['2'] + ".txt" == "note2.txt";
    assert "note" + ['3'] + ".txt" == "note3.txt";
    ThreeAscending("note1.txt", "note2.txt", "note3.txt");
  }

  /** Listing returns every note, in ascending order whatever order the directory enumerates. */
  method ListThreeNotes() returns (results: seq<string>)
    ensures results == ["note1.txt", "note2.txt", "note3.txt"]
  {
    var store := new NotesService("/home/user/notes", [], "\n", true, ["note3.txt", "note1.txt", "note2.txt"],
                                  map["note1.txt" := "Content", "note2.txt" := "Content",
                                      "note3.txt" := "Content"], true);
    results := store.ListAllNotes();
    ThreeNotesAscending();
    SortedListingIsUnique(results, ["note1.txt", "note2.txt", "note3.txt"]);
  }
}
