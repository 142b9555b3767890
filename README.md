# Notes store: a Dafny model of `NotesServiceImpl`

This project models the note store of a notes-taking tool server. The store keeps each note as
a file `<name>.txt` in one flat notes directory. Callers reach it through six operations: search
notes by file name, list all notes, read a note, create a note, delete a note, and append to a
note. Every caller-supplied name first goes through a whitelist sanitiser. The resulting file
path is then checked against the notes root (`isPathSafe`). Creating and appending enforce a
limit of 1 MiB of UTF-8 bytes. Every operation answers with a text that encodes its success or
its specific failure.

Modules, one per concern of the service:

- `Optional`: `Option`, which stands for Java's nullable strings.
- `Strings`: ASCII lower-casing, `String.contains`, the ordering of `String.compareTo`, and the
  UTF-8 byte length of a text (`getBytes()`).
- `Listing`: stream `filter` over a directory listing, and stream `sorted()` over file names.
- `FileNames`: `sanitizeFileName`.
- `Paths`: absolute paths as sequences of name components. It covers `new File(dir, child)`,
  `toAbsolutePath`, `normalize`, `startsWith`, and `isPathSafe`.
- `Notes`: the class `NotesService`. Its fields are the state of the notes directory:
  - `dirExists`: the root exists and is a directory.
  - `entries`: the names the root holds, in the order `listFiles` enumerates them.
  - `files`: the regular files among those names, with their text.

  Search, list and read are functions that read this state. Create, delete and append are
  methods that change it.
- `NotesScenarios`: client sessions that replay the repository's unit tests. The create, read,
  append and delete sessions hold for every plain note name. The search and listing sessions use
  the tests' own file names. All of them use only the contracts of the store.

Decisions about the environment:

- The line separator (`System.lineSeparator()`) is a constant chosen when the service is built.
- The working directory used by `toAbsolutePath` is a parameter of the constructor.
- The initial contents of the notes directory are parameters of the constructor.
- Whether `mkdirs` succeeds is a parameter of the constructor.
- Every file access that can throw `IOException` takes two parameters: `ioFails` and
  `ioMessage`. The access fails when `ioFails` is set. It also fails when the platform would
  refuse it: creating a file in a missing root, or reading or appending to a name that is a
  directory. A failed access returns the operation's error text followed by `ioMessage`, and it
  leaves the directory unchanged.

Points of the code's behaviour that the model keeps as written:

- `createNotes` checks the content size before the path check and before the existence check
  (`NotesServiceImpl.java:191-210`). As a result, an oversized second create of an existing note
  answers with the size error, not "already exists". `NotesScenarios.CreateTwice` needs a size
  precondition on the second text for exactly this reason.
- A name is blank when every character is `Character.isWhitespace` (`String.isBlank`); no
  trimming takes place.
- The append size check adds the current file size to the new content's size. It leaves out the
  line separator that is also written (`NotesServiceImpl.java:294-303`). A note can therefore
  grow to 1 MiB plus the separator's length. `AddToExistingNotes` proves this bound, and
  `NotesScenarios.AppendPastLimit` shows the bound is reached.
- Names are cut to 255 characters before `.txt` is appended (`NotesServiceImpl.java:31`,
  `:64-66`). A sanitised name of 252 to 255 characters therefore gives a file name of 256 to
  259 bytes. That is longer than the 255-byte `NAME_MAX` of common Unix file systems (ext4, xfs,
  btrfs), so on those every create of such a note fails with "Error creating note: ...", and
  read, delete and append answer "Note not found". The model leaves this to the `ioFails` input.
  The scenarios therefore only claim success for plain names of at most 251 characters
  (`NotesScenarios.IsPlainName`).

## Model

| member | source | states |
|---|---|---|
| FileNames.IsJavaWhitespace | src/main/java/com/mcp_server/notes/service/impl/NotesServiceImpl.java:58 | `Character.isWhitespace`: no whitespace character is whitelisted. Space, tab, line feed and carriage return are whitespace. The no-break spaces U+00A0, U+2007 and U+202F are not. |
| FileNames.IsBlank | src/main/java/com/mcp_server/notes/service/impl/NotesServiceImpl.java:58 | `String.isBlank`: the empty name is blank, and a blank name holds no whitelisted character. |
| FileNames.Sanitize | src/main/java/com/mcp_server/notes/service/impl/NotesServiceImpl.java:57-68 | The name is rejected (None) exactly when it is null or blank. Otherwise the result has length min(input length, 255) and holds only `[a-zA-Z0-9-_]`. At each position it keeps the input character if that character is whitelisted, and holds `_` otherwise. |
| FileNames.SanitizeKeepsWhitelisted | src/main/java/com/mcp_server/notes/service/impl/NotesServiceImpl.java:57-68 | A non-empty name of at most 255 whitelisted characters comes out unchanged. |
| FileNames.SanitizeIdempotent | src/main/java/com/mcp_server/notes/service/impl/NotesServiceImpl.java:57-68 | Sanitising a sanitised name gives the same name. |
| FileNames.SanitizeTraversalName | src/test/java/com/mcp_server/notes/service/impl/NotesServiceImplTest.java:50-59 | `my../../../etc/passwd` becomes `my_________etc_passwd`. |
| Paths.Components | src/main/java/com/mcp_server/notes/service/impl/NotesServiceImpl.java:154 | Parsing a path string at `/` yields non-empty components without `/`. Each component's characters come from the string. A string without `/` is a single component, and the empty string has none. |
| Paths.SplitFromSeparator | src/main/java/com/mcp_server/notes/service/impl/NotesServiceImpl.java:40 | A `/` ends the component being read. The rest of the string is split afresh, and its components follow. |
| Paths.ComponentsSeparator | src/main/java/com/mcp_server/notes/service/impl/NotesServiceImpl.java:154 | The components of `a/b` are the components of `a` followed by those of `b`. With the single-component and empty cases, this determines the parse of every string. |
| Paths.Absolute | src/main/java/com/mcp_server/notes/service/impl/NotesServiceImpl.java:40 | `toAbsolutePath`: a string starting with `/` is parsed on its own. Any other string is placed below the working directory. A path made of proper components stays made of proper components. |
| Paths.AbsoluteIgnoresWorkingDir | src/main/java/com/mcp_server/notes/service/impl/NotesServiceImpl.java:40 | An absolute notes path names the same root whatever the working directory. |
| Paths.Resolve | src/main/java/com/mcp_server/notes/service/impl/NotesServiceImpl.java:154 | `new File(dir, child)`: the directory is a prefix of the result, and a single proper name becomes exactly one more component. |
| Paths.Normalize | src/main/java/com/mcp_server/notes/service/impl/NotesServiceImpl.java:76 | `normalize` leaves no `.` or `..` component, keeps only components of its input, and never makes a path longer. |
| Paths.NormalizeFromAppend | src/main/java/com/mcp_server/notes/service/impl/NotesServiceImpl.java:76 | Normalising a path in two pieces is the same as normalising the whole path. |
| Paths.NormalizeNormal | src/main/java/com/mcp_server/notes/service/impl/NotesServiceImpl.java:76 | A path without `.` or `..` is left unchanged by `normalize`. |
| Paths.NormalizeIdempotent | src/main/java/com/mcp_server/notes/service/impl/NotesServiceImpl.java:76 | Normalising twice is the same as normalising once. |
| Paths.NormalizeIsNormal | src/main/java/com/mcp_server/notes/service/impl/NotesServiceImpl.java:40 | The normalised root that `init` computes is a normal path without NUL characters. |
| Paths.IsPathSafe | src/main/java/com/mcp_server/notes/service/impl/NotesServiceImpl.java:74-82 | The check accepts a path exactly when the path holds no NUL character (otherwise `toPath` throws and the check answers false) and, once normalised, is at least as long as the root and agrees with it on every root component (`startsWith`). |
| Paths.ChildIsConfined | src/main/java/com/mcp_server/notes/service/impl/NotesServiceImpl.java:74-82 | A file name that is one proper component resolves to `root + [name]`, which is a direct child of the root. `isPathSafe` accepts it. |
| Paths.ParentOfRootIsRefused | src/main/java/com/mcp_server/notes/service/impl/NotesServiceImpl.java:74-82 | `isPathSafe` refuses the parent of a non-empty root, so the check is not vacuous. |
| Notes.SanitizedNoteIsConfined | src/main/java/com/mcp_server/notes/service/impl/NotesServiceImpl.java:74-82 | For every input name that sanitises, `root/<name>.txt` normalises to a direct child of the root and passes `isPathSafe`. The "Error: Invalid file path" branch is therefore unreachable. |
| Notes.NotesService.constructor | src/main/java/com/mcp_server/notes/service/impl/NotesServiceImpl.java:38-51 | `init` sets the root to the normalised absolute notes path. The directory exists afterwards if it existed before or `mkdirs` succeeded. The store invariant holds. |
| Optional.OrEmpty | src/main/java/com/mcp_server/notes/service/impl/NotesServiceImpl.java:102 | A null string counts as the empty string, here and at lines 213, 295 and 303. A present string is kept. The result is empty exactly for null or "". |
| Listing.Filter | src/main/java/com/mcp_server/notes/service/impl/NotesServiceImpl.java:104-107 | A stream filter keeps exactly the elements that satisfy the predicate, adds no duplicates, and never makes the sequence longer. |
| Listing.FilterKeepsOrder | src/main/java/com/mcp_server/notes/service/impl/NotesServiceImpl.java:104-107 | A stream filter keeps the enumeration order of the elements it keeps. |
| Strings.Lower | src/main/java/com/mcp_server/notes/service/impl/NotesServiceImpl.java:102 | Lower-casing keeps the length and every character that is not an ASCII capital. It turns each capital into its small letter and leaves no capital behind. |
| Strings.LowerIdempotent | src/main/java/com/mcp_server/notes/service/impl/NotesServiceImpl.java:102-105 | Lower-casing a lower-cased text changes nothing, so lower-casing the term and the name once is enough. |
| Strings.Contains | src/main/java/com/mcp_server/notes/service/impl/NotesServiceImpl.java:105 | `String.contains`: a contained term is no longer than the name. The empty term and the name itself are contained. |
| Strings.ContainedFirstChar | src/main/java/com/mcp_server/notes/service/impl/NotesServiceImpl.java:105 | A non-empty term is contained only in a name that holds its first character. |
| Strings.ContainsAt | src/main/java/com/mcp_server/notes/service/impl/NotesServiceImpl.java:105 | `contains` holds exactly when the term occurs at some position of the name. The empty term occurs in every name. |
| Notes.NotesService.FileEntries | src/main/java/com/mcp_server/notes/service/impl/NotesServiceImpl.java:128-130 | The regular-file names of the listing, without directories and without duplicates. |
| Notes.NotesService.SearchNotesByFileName | src/main/java/com/mcp_server/notes/service/impl/NotesServiceImpl.java:94-110 | A missing root gives an empty result. Otherwise the result is exactly the regular-file names whose lower-cased form contains the lower-cased term, with null treated as "". An empty term returns every file. There are no duplicates, and the names are in enumeration order. |
| Strings.LexLess | src/main/java/com/mcp_server/notes/service/impl/NotesServiceImpl.java:131 | The order `sorted()` uses: of two names one of which is a prefix of the other, the shorter comes first. A name sorts before another only if its first character is not greater. |
| Strings.LexLessIrreflexive | src/main/java/com/mcp_server/notes/service/impl/NotesServiceImpl.java:131 | No name sorts before itself under `compareTo`. |
| Strings.LexLessTransitive | src/main/java/com/mcp_server/notes/service/impl/NotesServiceImpl.java:131 | The `compareTo` order is transitive. |
| Strings.LexLessTotal | src/main/java/com/mcp_server/notes/service/impl/NotesServiceImpl.java:131 | Of two different names, one sorts before the other under `compareTo`. |
| Strings.LexLessCommonPrefix | src/main/java/com/mcp_server/notes/service/impl/NotesServiceImpl.java:131 | A common prefix does not change the `compareTo` order of two names. |
| Strings.LexLessAsymmetric | src/main/java/com/mcp_server/notes/service/impl/NotesServiceImpl.java:131 | Two names never each sort before the other. |
| Listing.Insert | src/main/java/com/mcp_server/notes/service/impl/NotesServiceImpl.java:131 | Inserting a new name into a strictly ascending listing keeps it strictly ascending. The result holds the old names plus the new one. |
| Listing.Sort | src/main/java/com/mcp_server/notes/service/impl/NotesServiceImpl.java:131 | `sorted()` over distinct names returns the same names as a multiset, in strictly ascending order. |
| Listing.SortedListingIsUnique | src/main/java/com/mcp_server/notes/service/impl/NotesServiceImpl.java:131 | Two strictly ascending listings with the same names are equal, so the choice of sorting algorithm cannot change the result. |
| Notes.NotesService.ListAllNotes | src/main/java/com/mcp_server/notes/service/impl/NotesServiceImpl.java:121-135 | A missing root gives an empty list. Otherwise the list holds exactly the regular-file names, as many as the listing has, with directories excluded. It is strictly ascending, so it has no duplicates. |
| Strings.Utf8Len | src/main/java/com/mcp_server/notes/service/impl/NotesServiceImpl.java:192 | The UTF-8 byte length of a text is between one and four times its character count. It equals the character count for ASCII text. |
| Strings.Utf8LenAppend | src/main/java/com/mcp_server/notes/service/impl/NotesServiceImpl.java:294-296 | The byte length of a concatenation is the sum of the parts' byte lengths. |
| Notes.NotesService.ReadNoteContent | src/main/java/com/mcp_server/notes/service/impl/NotesServiceImpl.java:146-173 | An invalid name gives "Error: Invalid note name". A missing file gives "Note not found: " + the sanitised name. A failed read gives "Error reading note: " + the message. Otherwise the result is the stored text, exactly. |
| Notes.NotesService.CreateNotes | src/main/java/com/mcp_server/notes/service/impl/NotesServiceImpl.java:185-222 | Checks run in this order: invalid name, then size (more than 1,048,576 UTF-8 bytes is refused), then existence ("Note already exists: name.txt"), then write failure. Each failure leaves the store unchanged. On success exactly the key `name.txt` is added, holding the content (null as ""), and it is listed last. The message is "Note created: name.txt", and reading the note back gives the content. |
| Notes.NotesService.DeleteNotes | src/main/java/com/mcp_server/notes/service/impl/NotesServiceImpl.java:233-260 | A missing note gives "Note not found: " + name, and a failed delete gives "Could not delete note: " + name. Both leave the store unchanged. On success exactly `name.txt` is removed. All other files are kept, and the other entries keep their enumeration order (`Filter`). The message is "Note deleted: " + name. A later read reports the note missing. |
| Notes.AppendedText | src/main/java/com/mcp_server/notes/service/impl/NotesServiceImpl.java:301-303 | The text an append leaves starts with the old text. Its byte length is the sum of the old text's, the separator's and the content's. |
| Notes.NotesService.AddToExistingNotes | src/main/java/com/mcp_server/notes/service/impl/NotesServiceImpl.java:272-312 | A missing note gives "Note not found" and is never created. The append is refused, with the store unchanged, when the current bytes plus the new content's bytes exceed 1,048,576. On success only that note changes: it becomes old text + separator + content. The old text is a prefix of the new text, the note is at most 1 MiB plus the separator, and the message is "Content added to note: " + name. |
| NotesScenarios.NoteLifecycle | src/test/java/com/mcp_server/notes/service/impl/NotesServiceImplTest.java:172-182 | For any plain name (whitelisted, at most 251 characters): create, read, append, read, delete, read give "Note created: n.txt", the text, "Content added to note: n", old text + "\n" + new text, "Note deleted: n", and "Note not found: n". |
| NotesScenarios.CreateTwice | src/test/java/com/mcp_server/notes/service/impl/NotesServiceImplTest.java:41-48 | A second create of the same note answers "Note already exists: n.txt" and keeps the first text. |
| NotesScenarios.InvalidNames | src/test/java/com/mcp_server/notes/service/impl/NotesServiceImplTest.java:61-66 | An empty, blank or null name gives "Error: Invalid note name" from create, read, delete and append. |
| NotesScenarios.SizeLimitBoundary | src/test/java/com/mcp_server/notes/service/impl/NotesServiceImplTest.java:68-75 | ASCII content of exactly 1,048,576 bytes is created. Content of 1,048,577 bytes is refused with the size error. |
| NotesScenarios.MissingNote | src/test/java/com/mcp_server/notes/service/impl/NotesServiceImplTest.java:89-94 | Read, delete and append of a note that does not exist all answer "Note not found: n". An empty root lists nothing. This also covers the tests at lines 142-147, 162-167 and 184-189. |
| NotesScenarios.SearchMatchingNotes | src/test/java/com/mcp_server/notes/service/impl/NotesServiceImplTest.java:106-117 | With `meeting-notes.txt`, `project-notes.txt` and `todo.txt` in the root, a search for `notes` gives exactly the first two, in enumeration order. |
| NotesScenarios.SearchIgnoresCase | src/test/java/com/mcp_server/notes/service/impl/NotesServiceImplTest.java:119-126 | A search for `mynotes` gives exactly `MyNotes.txt`. |
| NotesScenarios.ListThreeNotes | src/test/java/com/mcp_server/notes/service/impl/NotesServiceImplTest.java:131-140 | With `note3.txt`, `note1.txt` and `note2.txt` enumerated in that order, the list is `note1.txt`, `note2.txt`, `note3.txt`. |
| NotesScenarios.AppendPastLimit | src/main/java/com/mcp_server/notes/service/impl/NotesServiceImpl.java:293-304 | Appending empty content to a note of exactly 1 MiB is accepted, and the note ends one byte over the limit with "\n" as the separator. |

## Left out

- `NotesApplication.java` (Spring Boot startup, tool registration, and a latch that blocks
  forever) and the interface `NotesService.java` (signatures only) are not part of this model.
- Logging, and the `@Value`, `@PostConstruct` and `@Tool` annotations, are not modelled.
- Concurrency is not modelled. The service has no locking, so concurrent callers are outside
  the model.
- The text of `IOException` messages is an input (`ioMessage`). Which operating-system
  condition raises them is not modelled beyond the structural cases listed above.
- Partial writes are not modelled. A write that fails leaves the store as it was, although a
  real `FileWriter` can leave a created or partially appended file behind.
- Deleting a directory entry is governed by `ioFails` alone. Whether the directory is empty is
  not tracked.
- Symbolic links, and any file-system semantics beyond Unix path syntax, are not modelled.
- A root that exists as a regular file is treated like a missing root. The code would not call
  `mkdirs` in that case.
- A NUL character in the configured notes path makes `init` throw at startup. The constructor
  excludes that case.
- Notes.NotesService.SearchNotesByFileName and Notes.NotesService.ListAllNotes: when the root
  exists but cannot be listed (no read permission, an I/O error), `listFiles` returns null and
  `Objects.requireNonNull` throws a NullPointerException out of both operations
  (`NotesServiceImpl.java:104`, `:128`). The model assumes a root that exists can always be
  listed, and both functions always return a list.
- File names longer than the file system's `NAME_MAX` (notes of 252 to 255 characters, see
  above) are not refused structurally. The model reaches that outcome only through `ioFails`.
- Enumeration order: a newly created file is enumerated last. The real order depends on the
  file system.
- `File.length()` of a directory is unspecified; the append size check takes it as 0.
- Notes hold text, not bytes. A file with invalid UTF-8 content, and Java strings with lone
  surrogates, cannot be expressed. Such a read takes the I/O-failure branch through `ioFails`.
- Strings.Lower: folds ASCII letters only, while `String.toLowerCase` folds all of Unicode
  according to the default locale. Search matches agree with the code for ASCII names and terms
  under every default locale except Turkish and Azeri. Under those two, `toLowerCase` maps `I` to
  the dotless `ı` (U+0131), so for example the term `info` does not match `INFO.txt` in the code,
  although it matches in the model.
- Strings.LexLess: compares code points, while `String.compareTo` compares UTF-16 code units.
  The two orders differ only between characters above U+FFFF and characters in
  U+E000..U+FFFF.
- Strings.Utf8Len: assumes the default charset is UTF-8, which holds on Java 18 and later.
