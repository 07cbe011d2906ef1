/**
 * `Array.prototype.sort`, which is stable, modelled as an insertion sort
 * driven by the comparator's "a goes first" relation `before(a, b)`
 * (the comparator returning a negative number). The default string order
 * gives `SortedSet`, the `[...new Set(xs)].sort()` idiom.
 */
module Sorting {
  import opened Collections
  import Text

  /** Places `x` after the leading elements that go strictly before it. */
  function Insert<T(!new)>(x: T, s: seq<T>, before: (T, T) -> bool): (r: seq<T>)
    ensures multiset(r) == multiset(s) + multiset{x}
    ensures forall y :: y in r <==> y == x || y in s
  {
    if s != [] && before(s[0], x) then
      assert s == [s[0]] + s[1..];
      [s[0]] + Insert(x, s[1..], before)
    else [x] + s
  }

  function Sort<T(!new)>(s: seq<T>, before: (T, T) -> bool): (r: seq<T>)
    ensures multiset(r) == multiset(s)
    ensures forall y :: y in r <==> y in s
  {
    if s == [] then []
    else
      assert s == [s[0]] + s[1..];
      Insert(s[0], Sort(s[1..], before), before)
  }

  /** No element goes strictly before an element to its left. */
  ghost predicate Sorted<T(!new)>(s: seq<T>, before: (T, T) -> bool) {
    forall i, j :: 0 <= i < j < |s| ==> !before(s[j], s[i])
  }

  /** `before` is a strict weak order on `e`: asymmetric, and "does not go
   *  before" is transitive. This is what makes a comparator consistent. */
  ghost predicate StrictWeakOn<T(!new)>(e: set<T>, before: (T, T) -> bool) {
    && (forall a, b :: a in e && b in e && before(a, b) ==> !before(b, a))
    && (forall a, b, c :: a in e && b in e && c in e && !before(a, b) && !before(b, c) ==> !before(a, c))
  }

  lemma {:induction false} InsertSorted<T(!new)>(x: T, s: seq<T>, before: (T, T) -> bool, e: set<T>)
    requires StrictWeakOn(e, before) && x in e && forall y :: y in s ==> y in e
    requires Sorted(s, before)
    ensures Sorted(Insert(x, s, before), before)
  {
    if s != [] && before(s[0], x) {
      InsertSorted(x, s[1..], before, e);
      var r := Insert(x, s, before);
      assert r == [s[0]] + Insert(x, s[1..], before);
      forall j | 0 < j < |r| ensures !before(r[j], r[0]) {
        var y := r[j];
        assert y in Insert(x, s[1..], before);
        if y != x {
          assert y in s[1..];
          var k :| 0 <= k < |s[1..]| && s[1..][k] == y;
          assert s[k + 1] == y;
        }
      }
    } else if s != [] {
      var r := [x] + s;
      forall j | 0 < j < |r| ensures !before(r[j], r[0]) {
        assert r[j] == s[j - 1];
        if j > 1 { assert !before(s[j - 1], s[0]); }
      }
    }
  }

  lemma {:induction false} SortSortedIn<T(!new)>(s: seq<T>, before: (T, T) -> bool, e: set<T>)
    requires StrictWeakOn(e, before) && forall y :: y in s ==> y in e
    ensures Sorted(Sort(s, before), before)
  {
    if s != [] {
      SortSortedIn(s[1..], before, e);
      InsertSorted(s[0], Sort(s[1..], before), before, e);
    }
  }

  function Elements<T(!new)>(s: seq<T>): set<T> {
    set x | x in s
  }

  /** With a consistent comparator the result is in order. */
  lemma SortSorted<T(!new)>(s: seq<T>, before: (T, T) -> bool)
    requires StrictWeakOn(Elements(s), before)
    ensures Sorted(Sort(s, before), before)
  {
    SortSortedIn(s, before, Elements(s));
  }

  lemma {:induction false} InsertFilter<T(!new)>(x: T, s: seq<T>, before: (T, T) -> bool, p: T -> bool)
    requires p(x) ==> forall y :: y in s && p(y) ==> !before(y, x)
    ensures Filter(Insert(x, s, before), p) == if p(x) then [x] + Filter(s, p) else Filter(s, p)
  {
    if s != [] && before(s[0], x) {
      InsertFilter(x, s[1..], before, p);
      assert Insert(x, s, before) == [s[0]] + Insert(x, s[1..], before);
      assert Filter(s, p) == (if p(s[0]) then [s[0]] else []) + Filter(s[1..], p);
    } else {
      assert ([x] + s)[1..] == s;
    }
  }

  /** Stability: elements that the comparator treats as equal, described by
   *  `p`, come out in their original order. */
  lemma {:induction false} SortStable<T(!new)>(s: seq<T>, before: (T, T) -> bool, p: T -> bool)
    requires forall a, b :: a in s && b in s && p(a) && p(b) ==> !before(a, b)
    ensures Filter(Sort(s, before), p) == Filter(s, p)
  {
    if s != [] {
      SortStable(s[1..], before, p);
      InsertFilter(s[0], Sort(s[1..], before), before, p);
    }
  }

  lemma {:induction false} InsertDistinct<T(!new)>(x: T, s: seq<T>, before: (T, T) -> bool)
    requires Distinct(s) && x !in s
    ensures Distinct(Insert(x, s, before))
  {
    if s != [] && before(s[0], x) {
      InsertDistinct(x, s[1..], before);
      assert s[0] !in s[1..];
    }
  }

  lemma {:induction false} SortDistinct<T(!new)>(s: seq<T>, before: (T, T) -> bool)
    requires Distinct(s)
    ensures Distinct(Sort(s, before))
  {
    if s != [] {
      SortDistinct(s[1..], before);
      assert s[0] !in s[1..];
      InsertDistinct(s[0], Sort(s[1..], before), before);
    }
  }

  /** Each string strictly below the next, hence sorted and duplicate-free. */
  predicate StrictlyIncreasing(s: seq<string>) {
    forall i, j :: 0 <= i < j < |s| ==> Text.Less(s[i], s[j])
  }

  lemma LessStrictWeak(e: set<string>)
    ensures StrictWeakOn(e, Text.Less)
  {
    forall a, b | a in e && b in e && Text.Less(a, b) ensures !Text.Less(b, a) {
      Text.LessTrichotomy(a, b);
    }
    forall a, b, c | a in e && b in e && c in e && !Text.Less(a, b) && !Text.Less(b, c)
      ensures !Text.Less(a, c)
    {
      Text.LessTrichotomy(a, b);
      Text.LessTrichotomy(b, c);
      Text.LessTrichotomy(a, c);
      if b != a && c != b { Text.LessTransitive(c, b, a); }
    }
  }

  /** `[...new Set(xs)].sort()`: the strings of `xs`, each once, in order. */
  function SortedSet(xs: seq<string>): (r: seq<string>)
    ensures StrictlyIncreasing(r)
    ensures forall x :: x in r <==> x in xs
  {
    var d := Dedup(xs);
    var r := Sort(d, Text.Less);
    LessStrictWeak(Elements(d));
    SortSorted(d, Text.Less);
    SortDistinct(d, Text.Less);
    forall i, j | 0 <= i < j < |r| ensures Text.Less(r[i], r[j]) {
      Text.LessTrichotomy(r[i], r[j]);
    }
    r
  }

  lemma IncreasingHeadBelow(a: seq<string>, x: string)
    requires StrictlyIncreasing(a) && a != [] && x in a[1..]
    ensures Text.Less(a[0], x) && x != a[0]
  {
    var i :| 0 <= i < |a[1..]| && a[1..][i] == x;
    assert a[i + 1] == x;
    Text.LessIrreflexive(a[0]);
  }

  lemma InTail(a: seq<string>, x: string)
    requires a != [] && x in a && x != a[0]
    ensures x in a[1..]
  {
    assert a == [a[0]] + a[1..];
  }

  /** Two increasing lists of the same strings are the same list. */
  lemma {:induction false} IncreasingUnique(a: seq<string>, b: seq<string>)
    requires StrictlyIncreasing(a) && StrictlyIncreasing(b)
    requires forall x :: x in a <==> x in b
    ensures a == b
  {
    if a != [] { assert a[0] in a; }
    if b != [] { assert b[0] in b; }
    if a != [] && b != [] {
      assert a[0] == b[0] by {
        if a[0] != b[0] {
          InTail(b, a[0]);
          InTail(a, b[0]);
          IncreasingHeadBelow(b, a[0]);
          IncreasingHeadBelow(a, b[0]);
          Text.LessTrichotomy(a[0], b[0]);
        }
      }
      forall x ensures x in a[1..] <==> x in b[1..] {
        if x in a[1..] {
          IncreasingHeadBelow(a, x);
          assert x in a;
          InTail(b, x);
        }
        if x in b[1..] {
          IncreasingHeadBelow(b, x);
          assert x in b;
          InTail(a, x);
        }
      }
      IncreasingUnique(a[1..], b[1..]);
      assert a == [a[0]] + a[1..] && b == [b[0]] + b[1..];
    }
  }

  /** The sorted set of strings that are already increasing is that list. */
  lemma SortedSetOfIncreasing(xs: seq<string>)
    requires StrictlyIncreasing(xs)
    ensures SortedSet(xs) == xs
  {
    IncreasingUnique(SortedSet(xs), xs);
  }
}
