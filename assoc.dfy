/**
 * A JavaScript object used as a dictionary: (key, value) pairs, each key
 * at most once, in the order the keys were first set.
 */
module Assoc {
  import opened Wrappers

  /** No key is stored twice. */
  predicate Distinct<K(==), V>(d: seq<(K, V)>)
  {
    forall i, j :: 0 <= i < j < |d| ==> d[i].0 != d[j].0
  }

  function Keys<K, V>(d: seq<(K, V)>): set<K>
  {
    set i | 0 <= i < |d| :: d[i].0
  }

  /** `d[k]`: the value stored under `k`, or undefined. */
  function Find<K(==), V>(d: seq<(K, V)>, k: K): (r: Option<V>)
    ensures r.Some? <==> k in Keys(d)
  {
    if d == [] then None
    else if d[0].0 == k then Some(d[0].1)
    else
      KeysCons(d[0], d[1..]);
      assert d == [d[0]] + d[1..];
      Find(d[1..], k)
  }

  /** `d[k] = v`: the value of an existing key is replaced where it stands,
      a new key goes at the end. */
  function Put<K(==,!new), V>(d: seq<(K, V)>, k: K, v: V): (r: seq<(K, V)>)
    ensures forall j :: Find(r, j) == if j == k then Some(v) else Find(d, j)
    ensures Keys(r) == Keys(d) + {k}
    ensures k !in Keys(d) ==> r == d + [(k, v)]
    ensures Distinct(d) ==> Distinct(r)
  {
    if d == [] then
      assert [(k, v)][0].0 == k;
      [(k, v)]
    else if d[0].0 == k then
      KeysCons(d[0], d[1..]);
      KeysCons((k, v), d[1..]);
      assert d == [d[0]] + d[1..];
      DistinctCons((k, v), d[1..]);
      DistinctCons(d[0], d[1..]);
      [(k, v)] + d[1..]
    else
      var rest := Put(d[1..], k, v);
      KeysCons(d[0], d[1..]);
      KeysCons(d[0], rest);
      assert d == [d[0]] + d[1..];
      DistinctCons(d[0], d[1..]);
      DistinctCons(d[0], rest);
      [d[0]] + rest
  }

  /** `(d[k] || 0)`: a missing count reads as 0. */
  function Get<K(==)>(d: seq<(K, int)>, k: K): int
  {
    match Find(d, k)
    case Some(v) => v
    case None => 0
  }

  /** `acc[k] = (acc[k] || 0) + v` for every entry (k, v) of `b`, in order. */
  function AddAll<K(==,!new)>(acc: seq<(K, int)>, b: seq<(K, int)>): (r: seq<(K, int)>)
    ensures Keys(r) == Keys(acc) + Keys(b)
    ensures Distinct(acc) ==> Distinct(r)
  {
    if b == [] then acc
    else
      var init := b[..|b| - 1];
      var rest := AddAll(acc, init);
      assert b == init + [b[|b| - 1]];
      KeysSnoc(init, b[|b| - 1]);
      Put(rest, b[|b| - 1].0, Get(rest, b[|b| - 1].0) + b[|b| - 1].1)
  }

  /** Finding in a dictionary with one more entry at the end. */
  lemma {:induction false} FindAppend<K, V>(d: seq<(K, V)>, x: (K, V), k: K)
    ensures Find(d + [x], k) == if k in Keys(d) then Find(d, k) else if k == x.0 then Some(x.1) else None
  {
    if d == [] {
      assert d + [x] == [x];
    } else if d[0].0 != k {
      assert (d + [x])[1..] == d[1..] + [x];
      FindAppend(d[1..], x, k);
      assert k in Keys(d) <==> k in Keys(d[1..]) by {
        if k in Keys(d) {
          var i :| 0 <= i < |d| && d[i].0 == k;
          assert d[1..][i - 1].0 == k;
        }
        if k in Keys(d[1..]) {
          var i :| 0 <= i < |d[1..]| && d[1..][i].0 == k;
          assert d[i + 1].0 == k;
        }
      }
    } else {
      assert (d + [x])[0] == d[0];
      assert k in Keys(d) by { assert d[0].0 == k; }
    }
  }

  /** A count read from a dictionary with one more, new, entry at the end. */
  lemma GetSnoc<K(!new)>(d: seq<(K, int)>, x: (K, int), k: K)
    requires x.0 !in Keys(d)
    ensures Get(d + [x], k) == Get(d, k) + (if k == x.0 then x.1 else 0)
  {
    FindAppend(d, x, k);
  }

  /** Each count of `AddAll(acc, b)` is the sum of the two counts. */
  lemma {:induction false} GetAddAll<K(!new)>(acc: seq<(K, int)>, b: seq<(K, int)>, k: K)
    requires Distinct(b)
    ensures Get(AddAll(acc, b), k) == Get(acc, k) + Get(b, k)
    decreases |b|
  {
    if b != [] {
      var init := b[..|b| - 1];
      var x := b[|b| - 1];
      assert b == init + [x];
      assert Distinct(init) by {
        forall i, j | 0 <= i < j < |init| ensures init[i].0 != init[j].0 {
          assert init[i] == b[i] && init[j] == b[j];
        }
      }
      GetAddAll(acc, init, k);
      FindAppend(init, x, k);
      assert x.0 !in Keys(init);
    }
  }

  /** In a dictionary with distinct keys, the entry at position `j` is the
      one found under its key. */
  lemma {:induction false} FindAt<K(!new), V>(d: seq<(K, V)>, j: int)
    requires Distinct(d) && 0 <= j < |d|
    ensures Find(d, d[j].0) == Some(d[j].1)
  {
    if j > 0 {
      assert d[0].0 != d[j].0;
      FindAt(d[1..], j - 1);
    }
  }

  lemma KeysCons<K, V>(x: (K, V), d: seq<(K, V)>)
    ensures Keys([x] + d) == {x.0} + Keys(d)
  {
    var e := [x] + d;
    forall y | y in Keys(e) ensures y in {x.0} + Keys(d) {
      var i :| 0 <= i < |e| && e[i].0 == y;
      if i > 0 { assert d[i - 1].0 == y; }
    }
    forall y | y in Keys(d) ensures y in Keys(e) {
      var i :| 0 <= i < |d| && d[i].0 == y;
      assert e[i + 1].0 == y;
    }
    assert e[0].0 == x.0;
  }

  lemma KeysSnoc<K, V>(d: seq<(K, V)>, x: (K, V))
    ensures Keys(d + [x]) == Keys(d) + {x.0}
  {
    var e := d + [x];
    forall y | y in Keys(e) ensures y in Keys(d) + {x.0} {
      var i :| 0 <= i < |e| && e[i].0 == y;
      if i < |d| { assert d[i].0 == y; }
    }
    forall y | y in Keys(d) ensures y in Keys(e) {
      var i :| 0 <= i < |d| && d[i].0 == y;
      assert e[i].0 == y;
    }
    assert e[|d|].0 == x.0;
  }

  lemma KeysAppend<K, V>(a: seq<(K, V)>, b: seq<(K, V)>)
    ensures Keys(a + b) == Keys(a) + Keys(b)
  {
    var e := a + b;
    forall y | y in Keys(e) ensures y in Keys(a) + Keys(b) {
      var i :| 0 <= i < |e| && e[i].0 == y;
      if i < |a| { assert a[i].0 == y; } else { assert b[i - |a|].0 == y; }
    }
    forall y | y in Keys(b) ensures y in Keys(e) {
      var i :| 0 <= i < |b| && b[i].0 == y;
      assert e[i + |a|].0 == y;
    }
    forall y | y in Keys(a) ensures y in Keys(e) {
      var i :| 0 <= i < |a| && a[i].0 == y;
      assert e[i].0 == y;
    }
  }

  lemma DistinctCons<K, V>(x: (K, V), d: seq<(K, V)>)
    ensures Distinct([x] + d) <==> x.0 !in Keys(d) && Distinct(d)
  {
    var e := [x] + d;
    if Distinct(e) {
      forall i, j | 0 <= i < j < |d| ensures d[i].0 != d[j].0 {
        assert d[i] == e[i + 1] && d[j] == e[j + 1];
      }
      forall i | 0 <= i < |d| ensures d[i].0 != x.0 {
        assert e[i + 1] == d[i] && e[0] == x;
      }
    }
    if x.0 !in Keys(d) && Distinct(d) {
      forall i, j | 0 <= i < j < |e| ensures e[i].0 != e[j].0 {
        if i == 0 {
          assert e[j].0 == d[j - 1].0;
        } else {
          assert e[i] == d[i - 1] && e[j] == d[j - 1];
        }
      }
    }
  }

  lemma DistinctSnoc<K, V>(d: seq<(K, V)>, x: (K, V))
    ensures Distinct(d + [x]) <==> x.0 !in Keys(d) && Distinct(d)
  {
    var e := d + [x];
    if Distinct(e) {
      forall i, j | 0 <= i < j < |d| ensures d[i].0 != d[j].0 {
        assert d[i] == e[i] && d[j] == e[j];
      }
      forall i | 0 <= i < |d| ensures d[i].0 != x.0 {
        assert e[i] == d[i] && e[|d|] == x;
      }
    }
    if x.0 !in Keys(d) && Distinct(d) {
      forall i, j | 0 <= i < j < |e| ensures e[i].0 != e[j].0 {
        if j == |d| {
          assert e[i].0 == d[i].0;
        } else {
          assert e[i] == d[i] && e[j] == d[j];
        }
      }
    }
  }

  /** `KeysSnoc`, `FindAppend` and `DistinctSnoc` for a dictionary split
      before its last entry. */
  lemma LastEntry<K(!new), V>(d: seq<(K, V)>)
    requires d != []
    ensures Keys(d) == Keys(d[..|d| - 1]) + {d[|d| - 1].0}
    ensures Distinct(d) <==> d[|d| - 1].0 !in Keys(d[..|d| - 1]) && Distinct(d[..|d| - 1])
    ensures forall k :: Find(d, k) ==
              if k in Keys(d[..|d| - 1]) then Find(d[..|d| - 1], k)
              else if k == d[|d| - 1].0 then Some(d[|d| - 1].1) else None
  {
    var init := d[..|d| - 1];
    var last := d[|d| - 1];
    assert d == init + [last];
    KeysSnoc(init, last);
    DistinctSnoc(init, last);
    forall k ensures Find(d, k) == if k in Keys(init) then Find(init, k) else if k == last.0 then Some(last.1) else None {
      FindAppend(init, last, k);
    }
  }
}
