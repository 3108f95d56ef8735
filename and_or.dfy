/**
 * The AND/OR map: an ordered list of elements, each a leaf or a nested
 * group whose members are all needed (`and`) or of which one suffices (`or`).
 * The value of a map is its top-level element list; the class `AndOrMap`
 * wraps that list for the operations that change it in place.
 */
module AndOr {
  import opened Wrappers

  datatype Elem<T> = Leaf(value: T) | And(group: seq<Elem<T>>) | Or(group: seq<Elem<T>>)

  /** The two combinators handed to `reduce`; a single function is passed as both. */
  datatype Reducer<!U> = Reducer(and: (U, U) -> U, or: (U, U) -> U)

  /** What a `splice` predicate answers for one element: not this one, this one,
      or this one with a map to put in its place. */
  datatype Selection<T> = Skip | Select | SelectWith(replacement: seq<Elem<T>>)

  /** Leaves in iteration order: depth first, left to right, expanding both kinds
      of group. This is the order of the iterator and of `forEach`. */
  function Leaves<T>(s: seq<Elem<T>>): seq<T>
  {
    if s == [] then []
    else
      (match s[0]
       case Leaf(x) => [x]
       case And(g) => Leaves(g)
       case Or(g) => Leaves(g))
      + Leaves(s[1..])
  }

  /** `map`: each leaf replaced by `f(leaf)`, groups kept with their kind. */
  function Map<T, U>(s: seq<Elem<T>>, f: T -> U): (r: seq<Elem<U>>)
    ensures |r| == |s|
  {
    if s == [] then []
    else
      [match s[0]
       case Leaf(x) => Leaf(f(x))
       case And(g) => And(Map(g, f))
       case Or(g) => Or(Map(g, f))]
      + Map(s[1..], f)
  }

  /** The value one element contributes inside a group: a leaf is mapped, a
      nested group is folded on its own, starting again from the seed. */
  function ChildValue<T, U>(e: Elem<T>, mapper: T -> U, red: Reducer<U>, seed: U): U
  {
    match e
    case Leaf(x) => mapper(x)
    case And(g) => Fold(g, false, mapper, red, seed, seed)
    case Or(g) => Fold(g, true, mapper, red, seed, seed)
  }

  /** The helpers of `reduce`: a left fold of the group's elements into `acc`,
      every element combined with the group's own combinator (`and` for the
      top level and `and` groups, `or` for `or` groups). */
  function Fold<T, U>(s: seq<Elem<T>>, isOr: bool, mapper: T -> U, red: Reducer<U>, seed: U, acc: U): U
    decreases s
  {
    if s == [] then acc
    else
      var v := match s[0]
        case Leaf(x) => mapper(x)
        case And(g) => Fold(g, false, mapper, red, seed, seed)
        case Or(g) => Fold(g, true, mapper, red, seed, seed);
      Fold(s[1..], isOr, mapper, red, seed, if isOr then red.or(acc, v) else red.and(acc, v))
  }

  /** `reduce`: the top level is folded with `and`, starting from the seed. */
  function Reduce<T, U>(s: seq<Elem<T>>, mapper: T -> U, red: Reducer<U>, seed: U): (r: U)
    ensures s == [] ==> r == seed
  {
    Fold(s, false, mapper, red, seed, seed)
  }

  function Singleton<T>(x: T): seq<T> { [x] }

  function Concat<T>(a: seq<T>, b: seq<T>): seq<T> { a + b }

  /** `flatten`: `reduce` with singleton lists and concatenation for both combinators. */
  function Flatten<T>(s: seq<Elem<T>>): seq<T>
  {
    Reduce(s, Singleton, Reducer(Concat, Concat), [])
  }

  /** Whether a leaf under this element satisfies `p`, as `find` tests it on a
      group (a nested `find`) or on a leaf (the predicate itself). */
  predicate Matches<T>(e: Elem<T>, p: T -> bool)
  {
    match e
    case Leaf(x) => p(x)
    case And(g) => Find(g, p).Some?
    case Or(g) => Find(g, p).Some?
  }

  /** `find`: the first top-level element whose subtree holds a matching leaf;
      for a nested match that is the group itself. */
  function Find<T>(s: seq<Elem<T>>, p: T -> bool): Option<Elem<T>>
    decreases s, 0
  {
    if s == [] then None
    else if (match s[0]
             case Leaf(x) => p(x)
             case And(g) => Find(g, p).Some?
             case Or(g) => Find(g, p).Some?) then Some(s[0])
    else Find(s[1..], p)
  }

  /** Index of the first element a `splice` predicate selects. */
  function FirstSelected<T>(s: seq<Elem<T>>, pick: Elem<T> -> Selection<T>): (r: Option<nat>)
    ensures r.Some? ==> r.value < |s| && !pick(s[r.value]).Skip?
    ensures r.Some? ==> forall j :: 0 <= j < r.value ==> pick(s[j]).Skip?
    ensures r.None? ==> forall j :: 0 <= j < |s| ==> pick(s[j]).Skip?
  {
    if s == [] then None
    else if !pick(s[0]).Skip? then Some(0)
    else match FirstSelected(s[1..], pick)
      case None => None
      case Some(i) => Some(i + 1)
  }

  /** What `...replacement` spreads into the list: the replacement's leaves,
      each as a top-level leaf. */
  function Spread<T>(rep: seq<Elem<T>>): (r: seq<Elem<T>>)
    ensures |r| == |Leaves(rep)|
    ensures forall k :: 0 <= k < |r| ==> r[k] == Leaf(Leaves(rep)[k])
  {
    seq(|Leaves(rep)|, k requires 0 <= k < |Leaves(rep)| => Leaf(Leaves(rep)[k]))
  }

  /** The elements `remove` keeps, in order. */
  function Kept<T>(s: seq<Elem<T>>, pred: Elem<T> -> bool): seq<Elem<T>>
  {
    if s == [] then []
    else (if pred(s[0]) then [] else [s[0]]) + Kept(s[1..], pred)
  }

  class AndOrMap<T> {
    var values: seq<Elem<T>>

    constructor (init: seq<Elem<T>>)
      ensures values == init
    {
      values := init;
    }

    /** `length`: the number of top-level elements. */
    function Length(): nat
      reads this
    {
      |values|
    }

    /** `add`: the arguments are appended at the end, in order. */
    method Add(xs: seq<Elem<T>>)
      modifies this
      ensures values == old(values) + xs
      ensures Length() == old(Length()) + |xs|
    {
      values := values + xs;
    }

    /** `splice`: the first selected element is replaced by the leaves of the
        replacement (the argument, else the map the predicate returned, else
        nothing) and handed back in a one-element list. */
    method Splice(pick: Elem<T> -> Selection<T>, replacement: Option<seq<Elem<T>>>)
      returns (removed: Option<seq<Elem<T>>>)
      modifies this
      ensures FirstSelected(old(values), pick).None? ==> removed.None? && values == old(values)
      ensures FirstSelected(old(values), pick).Some? ==>
        var i := FirstSelected(old(values), pick).value;
        var rep := if replacement.Some? then replacement.value
                   else if pick(old(values)[i]).SelectWith? then pick(old(values)[i]).replacement
                   else [];
        removed == Some([old(values)[i]]) &&
        values == old(values)[..i] + Spread(rep) + old(values)[i + 1..]
    {
      var i := 0;
      while i < |values|
        invariant 0 <= i <= |values|
        invariant values == old(values)
        invariant forall j :: 0 <= j < i ==> pick(values[j]).Skip?
      {
        var found := pick(values[i]);
        if found.Skip? {
          i := i + 1;
          continue;
        }
        var rep := if replacement.Some? then replacement.value
                   else if found.SelectWith? then found.replacement
                   else [];
        FirstSelectedAt(values, pick, i);
        removed := Some([values[i]]);
        values := values[..i] + Spread(rep) + values[i + 1..];
        return;
      }
      removed := None;
    }

    /** `remove`: every selected top-level element is deleted, the rest keep
        their order. The index steps back after each deletion. */
    method Remove(pred: Elem<T> -> bool)
      modifies this
      ensures values == Kept(old(values), pred)
    {
      var i := 0;
      ghost var rest := values;
      while i < |values|
        invariant 0 <= i <= |values|
        invariant |rest| <= |old(values)| && rest == old(values)[|old(values)| - |rest|..]
        invariant values[..i] == Kept(old(values)[..|old(values)| - |rest|], pred)
        invariant values[i..] == rest
        decreases |values| - i, |rest|
      {
        var found := pred(values[i]);
        ghost var done := old(values)[..|old(values)| - |rest|];
        KeptSnoc(done, rest[0], pred);
        assert done + [rest[0]] == old(values)[..|old(values)| - |rest[1..]|];
        if !found {
          i := i + 1;
        } else {
          values := values[..i] + values[i + 1..];
        }
        rest := rest[1..];
      }
      assert old(values)[..|old(values)| - |rest|] == old(values);
    }
  }

  // ----- lemmas -----

  lemma FirstSelectedAt<T>(s: seq<Elem<T>>, pick: Elem<T> -> Selection<T>, i: nat)
    requires i < |s| && !pick(s[i]).Skip?
    requires forall j :: 0 <= j < i ==> pick(s[j]).Skip?
    ensures FirstSelected(s, pick) == Some(i)
  {
  }

  lemma {:induction false} KeptSnoc<T>(s: seq<Elem<T>>, x: Elem<T>, pred: Elem<T> -> bool)
    ensures Kept(s + [x], pred) == Kept(s, pred) + (if pred(x) then [] else [x])
  {
    if s == [] {
      assert [x][1..] == [];
    } else {
      assert (s + [x])[1..] == s[1..] + [x];
      KeptSnoc(s[1..], x, pred);
    }
  }

  /** `remove` keeps exactly the unselected elements, in their original order. */
  lemma {:induction false} KeptSpec<T>(s: seq<Elem<T>>, pred: Elem<T> -> bool)
    ensures forall x :: x in Kept(s, pred) <==> x in s && !pred(x)
    ensures |Kept(s, pred)| <= |s|
    ensures (forall x :: x in s ==> !pred(x)) ==> Kept(s, pred) == s
  {
    if s != [] {
      KeptSpec(s[1..], pred);
      assert s == [s[0]] + s[1..];
    }
  }

  lemma {:induction false} LeavesAppend<T>(a: seq<Elem<T>>, b: seq<Elem<T>>)
    ensures Leaves(a + b) == Leaves(a) + Leaves(b)
  {
    if a == [] {
      assert a + b == b;
    } else {
      assert (a + b)[0] == a[0];
      assert (a + b)[1..] == a[1..] + b;
      LeavesAppend(a[1..], b);
    }
  }

  lemma {:induction false} SpreadLeaves<T>(rep: seq<Elem<T>>)
    ensures Leaves(Spread(rep)) == Leaves(rep)
  {
    var sp := Spread(rep);
    var ls := Leaves(rep);
    LeavesOfLeafList(sp, ls);
  }

  lemma {:induction false} LeavesOfLeafList<T>(sp: seq<Elem<T>>, ls: seq<T>)
    requires |sp| == |ls|
    requires forall k :: 0 <= k < |sp| ==> sp[k] == Leaf(ls[k])
    ensures Leaves(sp) == ls
  {
    if sp != [] {
      LeavesOfLeafList(sp[1..], ls[1..]);
      assert ls == [ls[0]] + ls[1..];
    }
  }

  /** `splice` keeps the iteration order: the removed element's leaves are
      replaced, in place, by the replacement's leaves. */
  lemma SpliceLeaves<T>(s: seq<Elem<T>>, i: nat, rep: seq<Elem<T>>)
    requires i < |s|
    ensures Leaves(s[..i] + Spread(rep) + s[i + 1..]) == Leaves(s[..i]) + Leaves(rep) + Leaves(s[i + 1..])
    ensures Leaves(s) == Leaves(s[..i]) + Leaves([s[i]]) + Leaves(s[i + 1..])
  {
    LeavesAppend(s[..i] + Spread(rep), s[i + 1..]);
    LeavesAppend(s[..i], Spread(rep));
    SpreadLeaves(rep);
    assert s == s[..i] + [s[i]] + s[i + 1..];
    LeavesAppend(s[..i] + [s[i]], s[i + 1..]);
    LeavesAppend(s[..i], [s[i]]);
  }

  function MapSeq<T, U>(xs: seq<T>, f: T -> U): (r: seq<U>)
    ensures |r| == |xs|
    ensures forall k :: 0 <= k < |xs| ==> r[k] == f(xs[k])
  {
    seq(|xs|, k requires 0 <= k < |xs| => f(xs[k]))
  }

  /** Mapping a map maps its leaves one for one, in iteration order. */
  lemma {:induction false} MapLeaves<T, U>(s: seq<Elem<T>>, f: T -> U)
    ensures Leaves(Map(s, f)) == MapSeq(Leaves(s), f)
  {
    if s != [] {
      MapLeaves(s[1..], f);
      match s[0]
      case Leaf(x) =>
      case And(g) => MapLeaves(g, f);
      case Or(g) => MapLeaves(g, f);
    }
  }

  function Identity<T>(x: T): T { x }

  function Erase<T>(x: T): () { () }

  /** `map` keeps the shape: mapping with `f` and then forgetting the leaves
      gives the same skeleton as forgetting them straight away (same element
      counts at every level, `and` stays `and`, `or` stays `or`). */
  lemma {:induction false} MapPreservesShape<T, U>(s: seq<Elem<T>>, f: T -> U)
    ensures Map(Map(s, f), Erase) == Map(s, Erase)
  {
    if s != [] {
      MapPreservesShape(s[1..], f);
      match s[0]
      case Leaf(x) =>
      case And(g) => MapPreservesShape(g, f);
      case Or(g) => MapPreservesShape(g, f);
    }
  }

  /** Mapping with the identity gives the map back. */
  lemma {:induction false} MapIdentity<T>(s: seq<Elem<T>>)
    ensures Map(s, Identity) == s
  {
    if s != [] {
      MapIdentity(s[1..]);
      match s[0]
      case Leaf(x) =>
      case And(g) => MapIdentity(g);
      case Or(g) => MapIdentity(g);
    }
  }

  /** The fold is a left fold: the last element is combined last, with the
      group's own combinator, and a nested group contributes its own fold from
      the seed. */
  lemma {:induction false} FoldSnoc<T, U>(s: seq<Elem<T>>, e: Elem<T>, isOr: bool, mapper: T -> U, red: Reducer<U>, seed: U, acc: U)
    ensures Fold(s + [e], isOr, mapper, red, seed, acc) ==
      (var prev := Fold(s, isOr, mapper, red, seed, acc);
       var v := ChildValue(e, mapper, red, seed);
       if isOr then red.or(prev, v) else red.and(prev, v))
  {
    if s == [] {
      assert [e][1..] == [];
    } else {
      assert (s + [e])[0] == s[0];
      assert (s + [e])[1..] == s[1..] + [e];
      var v0 := ChildValue(s[0], mapper, red, seed);
      FoldSnoc(s[1..], e, isOr, mapper, red, seed, if isOr then red.or(acc, v0) else red.and(acc, v0));
    }
  }

  /** The leaves of a one-element list are the element's own leaves. */
  lemma LeavesCons<T>(s: seq<Elem<T>>)
    requires s != []
    ensures Leaves(s) == Leaves([s[0]]) + Leaves(s[1..])
    ensures Leaves([s[0]]) == match s[0] case Leaf(x) => [x] case And(g) => Leaves(g) case Or(g) => Leaves(g)
  {
    assert [s[0]][1..] == [];
  }

  lemma {:induction false} FoldConcatLeaves<T>(s: seq<Elem<T>>, isOr: bool, acc: seq<T>)
    ensures Fold(s, isOr, Singleton, Reducer(Concat, Concat), [], acc) == acc + Leaves(s)
  {
    if s != [] {
      var red := Reducer(Concat, Concat);
      var v := ChildValue(s[0], Singleton, red, []);
      LeavesCons(s);
      assert v == Leaves([s[0]]) by {
        match s[0]
        case Leaf(x) =>
        case And(g) => FoldConcatLeaves(g, false, []);
        case Or(g) => FoldConcatLeaves(g, true, []);
      }
      assert Fold(s, isOr, Singleton, red, [], acc) == Fold(s[1..], isOr, Singleton, red, [], acc + v);
      FoldConcatLeaves(s[1..], isOr, acc + v);
    }
  }

  /** `flatten` lists the leaves in iteration order, duplicates kept. */
  lemma FlattenIsLeaves<T>(s: seq<Elem<T>>)
    ensures Flatten(s) == Leaves(s)
  {
    FoldConcatLeaves(s, false, []);
  }

  /** `find` comes back empty exactly when no leaf matches. */
  lemma {:induction false} FindNoneSpec<T>(s: seq<Elem<T>>, p: T -> bool)
    ensures Find(s, p).None? <==> forall x :: x in Leaves(s) ==> !p(x)
  {
    if s != [] {
      FindNoneSpec(s[1..], p);
      assert Leaves(s) == Leaves([s[0]]) + Leaves(s[1..]) by {
        assert [s[0]][1..] == [];
      }
      ElemMatchesSpec(s[0], p);
    }
  }

  /** `find` succeeds exactly when some leaf matches, and then returns the
      first top-level element holding a matching leaf. */
  lemma {:induction false} FindSpec<T>(s: seq<Elem<T>>, p: T -> bool)
    ensures Find(s, p).None? <==> forall x :: x in Leaves(s) ==> !p(x)
    ensures Find(s, p).Some? ==>
      exists i :: 0 <= i < |s| && Find(s, p).value == s[i] &&
        (exists x :: x in Leaves([s[i]]) && p(x)) &&
        forall j :: 0 <= j < i ==> forall x :: x in Leaves([s[j]]) ==> !p(x)
  {
    FindNoneSpec(s, p);
    if s != [] && Find(s, p).Some? {
      ElemMatchesSpec(s[0], p);
      if Matches(s[0], p) {
        assert Find(s, p) == Some(s[0]);
      } else {
        assert Find(s, p) == Find(s[1..], p);
        FindSpec(s[1..], p);
        FindLater(s, p);
      }
    }
  }

  /** A match found in the tail is the first in the whole list when the head
      holds no matching leaf. */
  lemma FindLater<T>(s: seq<Elem<T>>, p: T -> bool)
    requires s != [] && forall x :: x in Leaves([s[0]]) ==> !p(x)
    requires Find(s, p) == Find(s[1..], p) && Find(s, p).Some?
    requires exists i :: (0 <= i < |s[1..]| && Find(s[1..], p).value == s[1..][i] &&
      (exists x :: x in Leaves([s[1..][i]]) && p(x)) &&
      forall j :: 0 <= j < i ==> forall x :: x in Leaves([s[1..][j]]) ==> !p(x))
    ensures exists i :: (0 <= i < |s| && Find(s, p).value == s[i] &&
      (exists x :: x in Leaves([s[i]]) && p(x)) &&
      forall j :: 0 <= j < i ==> forall x :: x in Leaves([s[j]]) ==> !p(x))
  {
    var i :| 0 <= i < |s[1..]| && Find(s[1..], p).value == s[1..][i] &&
      (exists x :: x in Leaves([s[1..][i]]) && p(x)) &&
      forall j :: 0 <= j < i ==> forall x :: x in Leaves([s[1..][j]]) ==> !p(x);
    assert s[i + 1] == s[1..][i];
    forall j | 0 <= j < i + 1
      ensures forall x :: x in Leaves([s[j]]) ==> !p(x)
    {
      if j > 0 {
        assert s[j] == s[1..][j - 1];
      }
    }
  }

  lemma {:induction false} ElemMatchesSpec<T>(e: Elem<T>, p: T -> bool)
    ensures Matches(e, p) <==> exists x :: x in Leaves([e]) && p(x)
  {
    assert [e][1..] == [];
    assert Leaves([e]) == (match e case Leaf(x) => [x] case And(g) => Leaves(g) case Or(g) => Leaves(g));
    match e
    case Leaf(x) =>
    case And(g) => FindNoneSpec(g, p);
    case Or(g) => FindNoneSpec(g, p);
  }

  /** One step of the fold: the first element's value, combined into the
      accumulator with the group's combinator. */
  lemma FoldCons<T, U>(s: seq<Elem<T>>, isOr: bool, mapper: T -> U, red: Reducer<U>, seed: U, acc: U)
    requires s != []
    ensures Fold(s, isOr, mapper, red, seed, acc) ==
      (var v := ChildValue(s[0], mapper, red, seed);
       Fold(s[1..], isOr, mapper, red, seed, if isOr then red.or(acc, v) else red.and(acc, v)))
  {
  }

  /** The fold only looks at the mapper's values on the leaves: two mappers
      that agree there give the same result. */
  lemma {:induction false} FoldCongruence<T, U>(s: seq<Elem<T>>, isOr: bool, m1: T -> U, m2: T -> U,
                                                red: Reducer<U>, seed: U, acc: U)
    requires forall x :: x in Leaves(s) ==> m1(x) == m2(x)
    ensures Fold(s, isOr, m1, red, seed, acc) == Fold(s, isOr, m2, red, seed, acc)
    decreases s
  {
    if s != [] {
      LeavesCons(s);
      var v := ChildValue(s[0], m1, red, seed);
      assert v == ChildValue(s[0], m2, red, seed) by {
        match s[0]
        case Leaf(x) =>
        case And(g) => FoldCongruence(g, false, m1, m2, red, seed, seed);
        case Or(g) => FoldCongruence(g, true, m1, m2, red, seed, seed);
      }
      FoldCongruence(s[1..], isOr, m1, m2, red, seed, if isOr then red.or(acc, v) else red.and(acc, v));
    }
  }

  /** The same for the value of a single element. */
  lemma ChildValueCongruence<T, U>(e: Elem<T>, m1: T -> U, m2: T -> U, red: Reducer<U>, seed: U)
    requires forall x :: x in Leaves([e]) ==> m1(x) == m2(x)
    ensures ChildValue(e, m1, red, seed) == ChildValue(e, m2, red, seed)
  {
    LeavesCons([e]);
    match e
    case Leaf(x) =>
    case And(g) => FoldCongruence(g, false, m1, m2, red, seed, seed);
    case Or(g) => FoldCongruence(g, true, m1, m2, red, seed, seed);
  }
}
