/** Sequences: elements, prefixes, reversal and joining. */
module Sequences {

  ghost predicate NoDuplicates<T>(s: seq<T>) {
    forall i, j | 0 <= i < j < |s| :: s[i] != s[j]
  }

  lemma PrefixGrows<T>(s: seq<T>, i: nat)
    requires i < |s|
    ensures s[..i + 1] == s[..i] + [s[i]]
  {
  }

  function Elements<T>(s: seq<T>): set<T> {
    set x | x in s
  }

  function Reversed<T>(s: seq<T>): (r: seq<T>)
    ensures |r| == |s| && forall i | 0 <= i < |s| :: r[i] == s[|s| - 1 - i]
  {
    if s == [] then [] else Reversed(s[1..]) + [s[0]]
  }

  lemma ReversedElements<T>(s: seq<T>)
    ensures Elements(Reversed(s)) == Elements(s)
  {
    forall x | x in s ensures x in Reversed(s) {
      var i :| 0 <= i < |s| && s[i] == x;
      assert Reversed(s)[|s| - 1 - i] == x;
    }
  }

  /** The parts in order, with the separator between neighbours. */
  function Join(parts: seq<string>, separator: string): string {
    if parts == [] then ""
    else if |parts| == 1 then parts[0]
    else parts[0] + separator + Join(parts[1..], separator)
  }

  // --------------------------------------------------------------- stable sorting

  /** Every element comes before every later one. */
  ghost predicate IsInOrder<T(!new)>(s: seq<T>, before: (T, T) -> bool) {
    forall i, j | 0 <= i < j < |s| :: before(s[i], s[j])
  }

  ghost predicate IsTotalOrder<T(!new)>(before: (T, T) -> bool) {
    && (forall x, y :: before(x, y) || before(y, x))
    && (forall x, y, z :: before(x, y) && before(y, z) ==> before(x, z))
  }

  /** Behind the last element that it may follow. */
  function Insert<T>(x: T, sorted: seq<T>, before: (T, T) -> bool): seq<T> {
    if sorted == [] then [x]
    else if before(sorted[|sorted| - 1], x) then sorted + [x]
    else Insert(x, sorted[..|sorted| - 1], before) + [sorted[|sorted| - 1]]
  }

  /** The stable sort of the standard library. */
  function Sorted<T>(s: seq<T>, before: (T, T) -> bool): seq<T> {
    if s == [] then [] else Insert(s[|s| - 1], Sorted(s[..|s| - 1], before), before)
  }

  lemma LastApart<T>(s: seq<T>)
    requires s != []
    ensures multiset(s) == multiset(s[..|s| - 1]) + multiset{s[|s| - 1]}
  {
    assert s == s[..|s| - 1] + [s[|s| - 1]];
  }

  lemma {:induction false} InsertPermutes<T>(x: T, sorted: seq<T>, before: (T, T) -> bool)
    ensures multiset(Insert(x, sorted, before)) == multiset(sorted) + multiset{x}
  {
    if sorted != [] {
      InsertPermutes(x, sorted[..|sorted| - 1], before);
      LastApart(sorted);
    }
  }

  lemma {:induction false} SortedPermutes<T>(s: seq<T>, before: (T, T) -> bool)
    ensures multiset(Sorted(s, before)) == multiset(s)
  {
    if s != [] {
      SortedPermutes(s[..|s| - 1], before);
      InsertPermutes(s[|s| - 1], Sorted(s[..|s| - 1], before), before);
      LastApart(s);
    }
  }

  lemma {:induction false} InsertKeepsOrder<T(!new)>(x: T, sorted: seq<T>, before: (T, T) -> bool)
    requires IsTotalOrder(before) && IsInOrder(sorted, before)
    ensures IsInOrder(Insert(x, sorted, before), before)
  {
    if sorted != [] {
      var init, last := sorted[..|sorted| - 1], sorted[|sorted| - 1];
      assert sorted == init + [last];
      if before(last, x) {
        forall y | y in sorted ensures before(y, x) {
          assert y == last || before(y, last);
        }
      } else {
        InsertKeepsOrder(x, init, before);
        InsertPermutes(x, init, before);
        forall y | y in Insert(x, init, before) ensures before(y, last) {
          assert y in multiset(Insert(x, init, before));
          assert y == x || y in init;
        }
      }
    }
  }

  lemma {:induction false} SortedIsSorted<T(!new)>(s: seq<T>, before: (T, T) -> bool)
    requires IsTotalOrder(before)
    ensures IsInOrder(Sorted(s, before), before) && multiset(Sorted(s, before)) == multiset(s)
  {
    SortedPermutes(s, before);
    if s != [] {
      SortedIsSorted(s[..|s| - 1], before);
      InsertKeepsOrder(s[|s| - 1], Sorted(s[..|s| - 1], before), before);
    }
  }

  /** The elements that may stand on either side of `c`. */
  function Alike<T>(s: seq<T>, c: T, before: (T, T) -> bool): seq<T> {
    if s == [] then []
    else
      var rest, last := Alike(s[..|s| - 1], c, before), s[|s| - 1];
      if before(last, c) && before(c, last) then rest + [last] else rest
  }

  lemma AlikeMore<T>(s: seq<T>, x: T, c: T, before: (T, T) -> bool)
    ensures Alike(s + [x], c, before) == Alike(s, c, before) + if before(x, c) && before(c, x) then [x] else []
  {
    assert (s + [x])[..|s|] == s;
  }

  lemma {:induction false} InsertIsStable<T(!new)>(x: T, sorted: seq<T>, c: T, before: (T, T) -> bool)
    requires IsTotalOrder(before)
    ensures Alike(Insert(x, sorted, before), c, before) == Alike(sorted + [x], c, before)
  {
    AlikeMore(sorted, x, c, before);
    if sorted == [] {
      assert [] + [x] == [x];
    } else if !before(sorted[|sorted| - 1], x) {
      var init, last := sorted[..|sorted| - 1], sorted[|sorted| - 1];
      InsertIsStable(x, init, c, before);
      AlikeMore(init, x, c, before);
      AlikeMore(Insert(x, init, before), last, c, before);
    }
  }

  /** Sorting keeps the order of elements that may stand on either side of each other. */
  lemma {:induction false} SortedIsStable<T(!new)>(s: seq<T>, c: T, before: (T, T) -> bool)
    requires IsTotalOrder(before)
    ensures Alike(Sorted(s, before), c, before) == Alike(s, c, before)
  {
    if s != [] {
      var init, last := s[..|s| - 1], s[|s| - 1];
      SortedIsStable(init, c, before);
      InsertIsStable(last, Sorted(init, before), c, before);
      AlikeMore(init, last, c, before);
      AlikeMore(Sorted(init, before), last, c, before);
      assert s == init + [last];
    }
  }
}
