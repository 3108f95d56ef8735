/**
 * `Array.prototype.sort` with a comparator, as both sorts of the program
 * use it: a stable insertion sort. Its result is a permutation of its input
 * with every adjacent pair in comparator order.
 */
module Sorting {
  /** The comparator orders any two elements one way or the other. */
  ghost predicate Total<T(!new)>(cmp: (T, T) -> int)
  {
    forall a, b :: cmp(a, b) <= 0 || cmp(b, a) <= 0
  }

  predicate SortedBy<T>(s: seq<T>, cmp: (T, T) -> int)
  {
    forall i :: 0 <= i < |s| - 1 ==> cmp(s[i], s[i + 1]) <= 0
  }

  /** Places `x` before the first element it does not compare above, so it
      stays ahead of the elements that tie with it. */
  function Insert<T>(x: T, sorted: seq<T>, cmp: (T, T) -> int): (r: seq<T>)
    ensures multiset(r) == multiset(sorted) + multiset{x}
    ensures r[0] == x || (|sorted| > 0 && r[0] == sorted[0])
  {
    if sorted == [] || cmp(x, sorted[0]) <= 0 then [x] + sorted
    else
      assert sorted == [sorted[0]] + sorted[1..];
      [sorted[0]] + Insert(x, sorted[1..], cmp)
  }

  /** Each element inserted, from the last to the first, into the sorted
      rest: equal elements keep their order. */
  function Sort<T>(s: seq<T>, cmp: (T, T) -> int): (r: seq<T>)
    ensures multiset(r) == multiset(s)
  {
    if s == [] then []
    else
      assert s == [s[0]] + s[1..];
      Insert(s[0], Sort(s[1..], cmp), cmp)
  }

  /** The position `x` is inserted at: the first element it does not
      compare above, or the end. */
  function Slot<T>(x: T, sorted: seq<T>, cmp: (T, T) -> int): (k: nat)
    ensures k <= |sorted|
    ensures forall l :: 0 <= l < k ==> cmp(x, sorted[l]) > 0
    ensures k < |sorted| ==> cmp(x, sorted[k]) <= 0
  {
    if sorted == [] || cmp(x, sorted[0]) <= 0 then 0
    else 1 + Slot(x, sorted[1..], cmp)
  }

  /** `x` goes in at its slot, and the elements of `sorted` keep their
      order around it. */
  lemma {:induction false} InsertSplits<T>(x: T, sorted: seq<T>, cmp: (T, T) -> int)
    ensures var k := Slot(x, sorted, cmp); Insert(x, sorted, cmp) == sorted[..k] + [x] + sorted[k..]
    decreases |sorted|
  {
    if sorted == [] || cmp(x, sorted[0]) <= 0 {
      assert sorted[..0] == [] && sorted[0..] == sorted;
    } else {
      var rest := sorted[1..];
      InsertSplits(x, rest, cmp);
      var k := Slot(x, rest, cmp);
      assert Slot(x, sorted, cmp) == k + 1;
      assert Insert(x, sorted, cmp) == [sorted[0]] + Insert(x, rest, cmp);
      assert sorted[..k + 1] == [sorted[0]] + rest[..k];
      assert sorted[k + 1..] == rest[k..];
    }
  }

  /** `x` occurs before `y` in `r`. */
  ghost predicate Precedes<T>(r: seq<T>, x: T, y: T)
  {
    exists p, q :: 0 <= p < q < |r| && r[p] == x && r[q] == y
  }

  /** Inserting keeps the order of what was already there. */
  lemma InsertKeepsOrder<T>(x: T, t: seq<T>, cmp: (T, T) -> int, a: T, b: T)
    requires Precedes(t, a, b)
    ensures Precedes(Insert(x, t, cmp), a, b)
  {
    InsertSplits(x, t, cmp);
    var k := Slot(x, t, cmp);
    var p, q :| 0 <= p < q < |t| && t[p] == a && t[q] == b;
    var r := Insert(x, t, cmp);
    var p', q' := if p < k then p else p + 1, if q < k then q else q + 1;
    assert r[p'] == a && r[q'] == b;
  }

  /** Inserted, `x` is ahead of every element it does not compare above. */
  lemma InsertAhead<T>(x: T, t: seq<T>, cmp: (T, T) -> int, y: T)
    requires y in t && cmp(x, y) <= 0
    ensures Precedes(Insert(x, t, cmp), x, y)
  {
    InsertSplits(x, t, cmp);
    var k := Slot(x, t, cmp);
    var q :| 0 <= q < |t| && t[q] == y;
    var r := Insert(x, t, cmp);
    assert q >= k;
    assert r[k] == x && r[q + 1] == y;
  }

  /** The sort is stable: an element that does not compare above a later
      one stays ahead of it, so equal-ranked elements keep their order. */
  lemma {:induction false} SortStable<T>(s: seq<T>, cmp: (T, T) -> int, i: nat, j: nat)
    requires i < j < |s| && cmp(s[i], s[j]) <= 0
    ensures Precedes(Sort(s, cmp), s[i], s[j])
    decreases |s|
  {
    var t := Sort(s[1..], cmp);
    assert Sort(s, cmp) == Insert(s[0], t, cmp);
    assert s[1..][j - 1] == s[j];
    if i == 0 {
      assert s[j] in multiset(t);
      InsertAhead(s[0], t, cmp, s[j]);
    } else {
      assert s[1..][i - 1] == s[i];
      SortStable(s[1..], cmp, i - 1, j - 1);
      InsertKeepsOrder(s[0], t, cmp, s[i], s[j]);
    }
  }

  lemma {:induction false} InsertSorted<T(!new)>(x: T, sorted: seq<T>, cmp: (T, T) -> int)
    requires Total(cmp) && SortedBy(sorted, cmp)
    ensures SortedBy(Insert(x, sorted, cmp), cmp)
    decreases |sorted|
  {
    if sorted != [] && cmp(x, sorted[0]) > 0 {
      var rest := sorted[1..];
      InsertSorted(x, rest, cmp);
      var t := Insert(x, rest, cmp);
      assert cmp(sorted[0], t[0]) <= 0 by {
        if t[0] != x {
          assert t[0] == sorted[1];
        }
      }
      var r := [sorted[0]] + t;
      forall i | 0 <= i < |r| - 1 ensures cmp(r[i], r[i + 1]) <= 0 {
        if i > 0 {
          assert r[i] == t[i - 1] && r[i + 1] == t[i];
        }
      }
    }
  }

  /** With a total comparator the result is sorted. */
  lemma {:induction false} SortSorted<T(!new)>(s: seq<T>, cmp: (T, T) -> int)
    requires Total(cmp)
    ensures SortedBy(Sort(s, cmp), cmp)
    decreases |s|
  {
    if s != [] {
      SortSorted(s[1..], cmp);
      InsertSorted(s[0], Sort(s[1..], cmp), cmp);
    }
  }
}
