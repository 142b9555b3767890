/** Absolute Unix paths as sequences of name components, with the parts of `java.nio.file.Path`
    the note store uses: building a child path, `toAbsolutePath`, `normalize` and `startsWith`. */
module Paths {
  import opened Strings

  /** The components of an absolute path, root first: `/home/u/notes` is `["home", "u", "notes"]`. */
  type Path = seq<string>

  /** One name of a parsed path: never empty, never holding the separator. */
  predicate IsComponent(c: string)
  {
    c != "" && '/' !in c
  }

  /** What `normalize` leaves: proper names only, no `.` and no `..`. */
  predicate IsNormal(p: Path)
  {
    forall i :: 0 <= i < |p| ==> IsComponent(p[i]) && p[i] != "." && p[i] != ".."
  }

  /** Some component holds a NUL character, which `toPath` refuses. */
  predicate HasNul(p: Path)
  {
    exists i :: 0 <= i < |p| && '\0' in p[i]
  }

  /** Splits the rest of a path string at `/`; `cur` is the component read so far.
      Repeated and trailing separators give no empty component. */
  function SplitFrom(s: string, cur: string): (r: Path)
    requires '/' !in cur
    ensures forall i :: 0 <= i < |r| ==> IsComponent(r[i])
    ensures forall i, ch :: 0 <= i < |r| && ch in r[i] ==> ch in cur || ch in s
    ensures ('/' !in s && cur + s != "") ==> r == [cur + s]
    decreases |s|
  {
    if s == [] then
      assert cur + s == cur;
      if cur == [] then [] else [cur]
    else if s[0] == '/' then
      assert forall ch :: ch in s[1..] ==> ch in s;
      (if cur == [] then [] else [cur]) + SplitFrom(s[1..], [])
    else
      assert cur + s == (cur + [s[0]]) + s[1..];
      assert forall ch :: ch in s[1..] ==> ch in s;
      assert forall ch :: ch in cur + [s[0]] ==> ch in cur || ch in s;
      SplitFrom(s[1..], cur + [s[0]])
  }

  /** The components named by a path string; a name without `/` is a single component. */
  function Components(s: string): (r: Path)
    ensures forall i :: 0 <= i < |r| ==> IsComponent(r[i])
    ensures forall i, ch :: 0 <= i < |r| && ch in r[i] ==> ch in s
    ensures ('/' !in s && s != "") ==> r == [s]
    ensures s == "" ==> r == []
  {
    assert [] + s == s;
    SplitFrom(s, [])
  }

  /** A separator ends the component being read: what comes after it is split afresh. */
  lemma {:induction false} SplitFromSeparator(a: string, b: string, cur: string)
    requires '/' !in cur
    ensures SplitFrom(a + "/" + b, cur) == SplitFrom(a, cur) + SplitFrom(b, [])
    decreases |a|
  {
    var s := a + "/" + b;
    var head := if cur == [] then [] else [cur];
    if a == [] {
      assert s[0] == '/' && s[1..] == b;
      assert SplitFrom(s, cur) == head + SplitFrom(b, []);
      assert SplitFrom(a, cur) == head;
    } else {
      assert s[0] == a[0] && s[1..] == a[1..] + "/" + b;
      if a[0] == '/' {
        SplitFromSeparator(a[1..], b, []);
        assert SplitFrom(s, cur) == head + SplitFrom(s[1..], []);
        assert SplitFrom(a, cur) == head + SplitFrom(a[1..], []);
      } else {
        SplitFromSeparator(a[1..], b, cur + [a[0]]);
        assert SplitFrom(s, cur) == SplitFrom(s[1..], cur + [a[0]]);
        assert SplitFrom(a, cur) == SplitFrom(a[1..], cur + [a[0]]);
      }
    }
  }

  /** Parsing `a/b` gives the components of `a` followed by those of `b`; with the
      single-component and empty cases this fixes how a path string is split. */
  lemma ComponentsSeparator(a: string, b: string)
    ensures Components(a + "/" + b) == Components(a) + Components(b)
  {
    SplitFromSeparator(a, b, []);
  }

  /** `Path.of(s).toAbsolutePath()`: a relative path string is resolved against the working directory. */
  function Absolute(workingDir: Path, s: string): (r: Path)
    ensures |s| > 0 && s[0] == '/' ==> r == Components(s)
    ensures !(|s| > 0 && s[0] == '/') ==> IsPrefix(workingDir, r)
    ensures (forall i :: 0 <= i < |workingDir| ==> IsComponent(workingDir[i])) ==>
              forall i :: 0 <= i < |r| ==> IsComponent(r[i])
  {
    if |s| > 0 && s[0] == '/' then Components(s) else workingDir + Components(s)
  }

  /** An absolute path string names the same path whatever the working directory. */
  lemma AbsoluteIgnoresWorkingDir(w1: Path, w2: Path, s: string)
    requires |s| > 0 && s[0] == '/'
    ensures Absolute(w1, s) == Absolute(w2, s)
  {
  }

  /** `new File(dir, child).toPath()`: the child's components are appended to the directory's,
      even when the child string itself starts with `/`. */
  function Resolve(dir: Path, child: string): (r: Path)
    ensures IsPrefix(dir, r)
    ensures '/' !in child && child != "" ==> r == dir + [child]
  {
    dir + Components(child)
  }

  /** One step of `normalize` on an absolute path: `.` is dropped, `..` removes the previous
      name, and `..` at the root is dropped. */
  function Step(acc: Path, c: string): Path
  {
    if c == "." then acc
    else if c == ".." then (if acc == [] then [] else acc[..|acc| - 1])
    else acc + [c]
  }

  function NormalizeFrom(acc: Path, rest: Path): (r: Path)
    ensures |r| <= |acc| + |rest|
    ensures forall c :: c in r ==> c in acc || (c in rest && c != "." && c != "..")
    decreases |rest|
  {
    if rest == [] then acc else NormalizeFrom(Step(acc, rest[0]), rest[1..])
  }

  /** `Path.normalize`: the result never holds `.` or `..`, holds only names of the input, and is
      no longer than the input. */
  function Normalize(p: Path): (r: Path)
    ensures |r| <= |p|
    ensures forall c :: c in r ==> c in p && c != "." && c != ".."
  {
    NormalizeFrom([], p)
  }

  /** Normalising in two pieces is normalising the whole. */
  lemma {:induction false} NormalizeFromAppend(acc: Path, p: Path, q: Path)
    ensures NormalizeFrom(acc, p + q) == NormalizeFrom(NormalizeFrom(acc, p), q)
    decreases |p|
  {
    if p == [] {
      assert p + q == q;
    } else {
      assert (p + q)[0] == p[0] && (p + q)[1..] == p[1..] + q;
      NormalizeFromAppend(Step(acc, p[0]), p[1..], q);
    }
  }

  /** A path that is already normal is left as it is. */
  lemma {:induction false} NormalizeFromNormal(acc: Path, p: Path)
    requires IsNormal(p)
    ensures NormalizeFrom(acc, p) == acc + p
    decreases |p|
  {
    if p == [] {
      assert acc + p == acc;
    } else {
      assert IsNormal(p[1..]);
      NormalizeFromNormal(acc + [p[0]], p[1..]);
      assert acc + [p[0]] + p[1..] == acc + p;
    }
  }

  lemma NormalizeNormal(p: Path)
    requires IsNormal(p)
    ensures Normalize(p) == p
  {
    NormalizeFromNormal([], p);
  }

  /** `normalize` is idempotent on parsed paths. */
  lemma NormalizeIdempotent(p: Path)
    requires forall i :: 0 <= i < |p| ==> IsComponent(p[i])
    ensures Normalize(Normalize(p)) == Normalize(p)
  {
    var r := Normalize(p);
    forall i | 0 <= i < |r| ensures IsComponent(r[i]) && r[i] != "." && r[i] != ".." {
      assert r[i] in r;
    }
    NormalizeNormal(r);
  }

  /** Normalising a parsed path without NUL characters yields a normal path without them. */
  lemma NormalizeIsNormal(p: Path)
    requires forall i :: 0 <= i < |p| ==> IsComponent(p[i])
    requires !HasNul(p)
    ensures IsNormal(Normalize(p)) && !HasNul(Normalize(p))
  {
    var r := Normalize(p);
    forall i | 0 <= i < |r| ensures IsComponent(r[i]) && r[i] != "." && r[i] != ".." && '\0' !in r[i] {
      assert r[i] in r;
      var k :| 0 <= k < |p| && p[k] == r[i];
    }
  }

  /** `isPathSafe`: the path can be converted (no NUL character) and, once normalised, starts
      with the notes root component by component. */
  predicate IsPathSafe(root: Path, p: Path)
    ensures IsPathSafe(root, p) <==>
              && !HasNul(p)
              && |root| <= |Normalize(p)|
              && forall i :: 0 <= i < |root| ==> Normalize(p)[i] == root[i]
  {
    !HasNul(p) && IsPrefix(root, Normalize(p))
  }

  /** A file name that is a single proper name resolves to a direct child of the root, which
      `isPathSafe` accepts. */
  lemma ChildIsConfined(root: Path, file: string)
    requires IsNormal(root) && !HasNul(root)
    requires file != "" && '/' !in file && '\0' !in file && file != "." && file != ".."
    ensures Resolve(root, file) == root + [file]
    ensures Normalize(Resolve(root, file)) == root + [file]
    ensures IsPathSafe(root, Resolve(root, file))
  {
    var p := root + [file];
    assert IsNormal(p);
    NormalizeNormal(p);
    assert (root + [file])[..|root|] == root;
  }

  /** The check is not vacuous: the parent of a non-empty root is refused. */
  lemma ParentOfRootIsRefused(root: Path)
    requires IsNormal(root) && |root| > 0
    ensures !IsPathSafe(root, Resolve(root, ".."))
  {
    assert Resolve(root, "..") == root + [".."];
    NormalizeFromAppend([], root, [".."]);
    NormalizeNormal(root);
    assert |Normalize(root + [".."])| == |root| - 1;
  }
}
