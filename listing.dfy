/** Operations on directory listings: filtering a listing while keeping its order, and sorting
    file names in the natural order of strings. */
module Listing {
  import opened Strings

  predicate NoDup<T(==)>(s: seq<T>)
  {
    forall i, j :: 0 <= i < j < |s| ==> s[i] != s[j]
  }

  /** Position of the first occurrence of `x` in `s`. */
  function IndexOf<T(==)>(s: seq<T>, x: T): (k: nat)
    requires x in s
    ensures k < |s| && s[k] == x && x !in s[..k]
  {
    if s[0] == x then 0 else 1 + IndexOf(s[1..], x)
  }

  /** A stream `filter`: keeps the elements of `s` that satisfy `p`, in their order. */
  function Filter<T(==,!new)>(s: seq<T>, p: T -> bool): (r: seq<T>)
    ensures |r| <= |s|
    ensures forall x :: x in r <==> x in s && p(x)
    ensures NoDup(s) ==> NoDup(r)
  {
    if s == [] then []
    else if p(s[0]) then [s[0]] + Filter(s[1..], p)
    else Filter(s[1..], p)
  }

  /** Filtering keeps the relative order of the elements it keeps. */
  lemma {:induction false} FilterKeepsOrder<T(!new)>(s: seq<T>, p: T -> bool)
    requires NoDup(s)
    ensures forall i, j :: 0 <= i < j < |Filter(s, p)| ==>
              IndexOf(s, Filter(s, p)[i]) < IndexOf(s, Filter(s, p)[j])
  {
    if s != [] {
      var rest := Filter(s[1..], p);
      FilterKeepsOrder(s[1..], p);
      assert forall x :: x in rest ==> x != s[0] && IndexOf(s, x) == 1 + IndexOf(s[1..], x) by {
        forall x | x in rest ensures x != s[0] && IndexOf(s, x) == 1 + IndexOf(s[1..], x) {
          var k :| 0 <= k < |s[1..]| && s[1..][k] == x;
          assert s[k + 1] == x;
        }
      }
    }
  }

  /** No name is listed twice and the names ascend: `compareTo` order, each step strict. */
  predicate StrictlySorted(s: seq<string>)
  {
    forall i, j :: 0 <= i < j < |s| ==> LexLess(s[i], s[j])
  }

  lemma AllAbove(x: string, s: seq<string>)
    requires StrictlySorted(s) && |s| > 0 && LexLess(x, s[0])
    ensures forall j :: 0 <= j < |s| ==> LexLess(x, s[j])
  {
    forall j | 0 < j < |s| ensures LexLess(x, s[j]) {
      LexLessTransitive(x, s[0], s[j]);
    }
  }

  /** A name below every name of a strictly sorted listing can head it. */
  lemma ConsSorted(h: string, t: seq<string>)
    requires StrictlySorted(t)
    requires forall y :: y in t ==> LexLess(h, y)
    ensures StrictlySorted([h] + t)
  {
    forall i, j | 0 <= i < j < |[h] + t| ensures LexLess(([h] + t)[i], ([h] + t)[j]) {
      assert ([h] + t)[j] == t[j - 1];
      assert t[j - 1] in t;
      if i > 0 {
        assert ([h] + t)[i] == t[i - 1];
      }
    }
  }

  /** The step of `Insert` that keeps the head of the listing in front. */
  lemma InsertBehindHead(x: string, s: seq<string>, t: seq<string>)
    requires StrictlySorted(s) && |s| > 0 && x !in s && !LexLess(x, s[0])
    requires StrictlySorted(t) && multiset(t) == multiset(s[1..]) + multiset{x}
    ensures StrictlySorted([s[0]] + t)
    ensures multiset([s[0]] + t) == multiset(s) + multiset{x}
  {
    LexLessTotal(x, s[0]);
    assert s == [s[0]] + s[1..];
    forall y | y in t ensures LexLess(s[0], y) {
      assert y in multiset(t);
      if y != x {
        assert y in multiset(s[1..]);
        var k :| 0 <= k < |s[1..]| && s[1..][k] == y;
        assert s[k + 1] == y;
      }
    }
    ConsSorted(s[0], t);
  }

  /** Inserts a new name into a strictly sorted listing. */
  function Insert(x: string, s: seq<string>): (r: seq<string>)
    requires StrictlySorted(s) && x !in s
    ensures StrictlySorted(r)
    ensures multiset(r) == multiset(s) + multiset{x}
  {
    if s == [] then [x]
    else if LexLess(x, s[0]) then
      AllAbove(x, s);
      ConsSorted(x, s);
      [x] + s
    else
      var t := Insert(x, s[1..]);
      InsertBehindHead(x, s, t);
      [s[0]] + t
  }

  /** A stream `sorted()` over distinct names: the same names, in ascending order. */
  function Sort(s: seq<string>): (r: seq<string>)
    requires NoDup(s)
    ensures StrictlySorted(r)
    ensures multiset(r) == multiset(s)
  {
    if s == [] then []
    else
      assert s == [s[0]] + s[1..];
      var t := Sort(s[1..]);
      assert s[0] !in s[1..];
      assert s[0] !in multiset(t);
      Insert(s[0], t)
  }

  /** A strictly sorted listing is determined by the names it holds: any algorithm that sorts
      the directory listing produces the same result. */
  lemma {:induction false} SortedListingIsUnique(a: seq<string>, b: seq<string>)
    requires StrictlySorted(a) && StrictlySorted(b)
    requires forall x :: x in a <==> x in b
    ensures a == b
    decreases |a|
  {
    assert |a| > 0 ==> a[0] in a;
    assert |b| > 0 ==> b[0] in b;
    if a != [] && b != [] {
      if a[0] != b[0] {
        assert a[0] in a && b[0] in b;
        var k :| 0 <= k < |b| && b[k] == a[0];
        var m :| 0 <= m < |a| && a[m] == b[0];
        assert LexLess(b[0], a[0]);
        assert LexLess(a[0], b[0]);
        LexLessAsymmetric(a[0], b[0]);
      }
      forall x ensures x in a[1..] <==> x in b[1..] {
        if x in a[1..] {
          var k :| 0 <= k < |a[1..]| && a[1..][k] == x;
          assert LexLess(a[0], x);
          LexLessIrreflexive(x);
          assert x in b && x != b[0];
          var m :| 0 <= m < |b| && b[m] == x;
          assert m > 0 && b[1..][m - 1] == x;
        }
        if x in b[1..] {
          var k :| 0 <= k < |b[1..]| && b[1..][k] == x;
          assert LexLess(b[0], x);
          LexLessIrreflexive(x);
          assert x in a && x != a[0];
          var m :| 0 <= m < |a| && a[m] == x;
          assert m > 0 && a[1..][m - 1] == x;
        }
      }
      SortedListingIsUnique(a[1..], b[1..]);
      assert a == [a[0]] + a[1..] && b == [b[0]] + b[1..];
    }
  }
}
