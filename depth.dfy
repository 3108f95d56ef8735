/**
 * `findMaxDepth`: the longest-path depth of every node reachable from the
 * root, following required and recommended prerequisites, with a seen set
 * per path so that a cycle is cut where it closes.
 */
module MaxDepth {
  import opened Wrappers
  import opened Sets
  import opened AndOr
  import opened Requirements
  import opened ReqsById
  import opened Combat

  /** The keys of the nodes `getReq` returns for a node's prerequisites, in
      the order the pass visits them. */
  function Deps(r: Requirement): seq<string>
  {
    MapSeq(r.AllLeaves(), RefID)
  }

  /** Only the depth differs, and it did not go down. */
  predicate Raised(after: Info, before: Info)
  {
    after == before.(depth := after.depth) && AtLeast(after.depth, before.depth)
  }

  lemma RaisedTrans(a: Info, b: Info, c: Info)
    requires Raised(a, b) && Raised(b, c)
    ensures Raised(a, c)
  {
    AtLeastTrans(a.depth, b.depth, c.depth);
  }

  /** What a step of the pass may do to the store: keep it well formed, add
      combat nodes, and raise depths, nothing else. */
  ghost predicate DepthStep(s2: Store, s1: Store, u: set<string>)
  {
    Valid(s2, u) && Grows(s2, s1) &&
    (forall k :: k in s1.info ==> k in s2.info && Raised(s2.info[k], s1.info[k])) &&
    (forall k :: k in s2.info && k !in s1.info ==> Raised(s2.info[k], Unvisited))
  }

  lemma DepthStepTrans(s1: Store, s2: Store, s3: Store, u: set<string>)
    requires DepthStep(s2, s1, u) && DepthStep(s3, s2, u)
    ensures DepthStep(s3, s1, u)
  {
    GrowsTrans(s1, s2, s3);
    forall k | k in s1.info ensures Raised(s3.info[k], s1.info[k]) {
      RaisedTrans(s3.info[k], s2.info[k], s1.info[k]);
    }
    forall k | k in s3.info && k !in s1.info ensures Raised(s3.info[k], Unvisited) {
      if k in s2.info {
        RaisedTrans(s3.info[k], s2.info[k], Unvisited);
      }
    }
  }

  /** Nodes whose id is on the path are left as they were. */
  ghost predicate PathKept(s2: Store, s1: Store, seen: set<string>)
  {
    forall k :: k in s1.reqs && k in s1.info && s1.reqs[k].id in seen ==> k in s2.info && s2.info[k] == s1.info[k]
  }

  function SetDepth(s: Store, key: string, depth: int): (r: Store)
    requires key in s.info
  {
    s.(info := s.info[key := s.info[key].(depth := Fin(depth))])
  }

  lemma SetDepthStep(s: Store, key: string, depth: int, seen: set<string>, u: set<string>)
    requires Valid(s, u) && key in s.reqs
    requires !AtLeast(s.info[key].depth, Fin(depth)) && s.reqs[key].id !in seen
    ensures DepthStep(SetDepth(s, key, depth), s, u)
    ensures PathKept(SetDepth(s, key, depth), s, seen)
    ensures SetDepth(s, key, depth).info[key].depth == Fin(depth)
  {
    var s1 := SetDepth(s, key, depth);
    assert s1.info.Keys == s.info.Keys;
  }

  /** Resolving leaves changes no depth. */
  lemma ResolveStep(s: Store, s2: Store, u: set<string>)
    requires Valid(s2, u) && Grows(s2, s) && InfoKept(s2, s)
    ensures DepthStep(s2, s, u)
  {
  }

  /**
   * `findMaxDepth(req, getReq, depth, seen)` on the node stored under `key`:
   * nothing happens if the node's id is on the path or its depth is already
   * at least `depth`; otherwise its depth becomes `depth`, all its leaves are
   * resolved, and each is visited in turn at `depth + 1` with the path
   * extended by the node's id. A node without leaves ends the recursion
   * there (resolving and visiting no leaves changes nothing).
   */
  function Visit(s: Store, key: string, depth: int, seen: set<string>, ghost u: set<string>): (res: Result<Store>)
    requires Valid(s, u) && key in s.reqs
    ensures s.reqs[key].id in seen || AtLeast(s.info[key].depth, Fin(depth)) ==> res == Ok(s)
    ensures res.Ok? ==> DepthStep(res.value, s, u) && PathKept(res.value, s, seen)
    ensures res.Ok? && s.reqs[key].id !in seen ==> AtLeast(res.value.info[key].depth, Fin(depth))
    decreases |u - seen|, 0
  {
    var node := s.reqs[key];
    if node.id in seen || AtLeast(s.info[key].depth, Fin(depth)) then Ok(s)
    else
      var s1 := SetDepth(s, key, depth);
      SetDepthStep(s, key, depth, seen, u);
      if Leafless(node) then Ok(s1)
      else
      match ResolveAll(s1, node.AllLeaves())
      case Err(m) => Err(m)
      case Ok(s2) =>
        ResolveAllValid(s1, node.AllLeaves(), u);
        ResolveStep(s1, s2, u);
        DepthStepTrans(s, s1, s2, u);
        RemainderShrinks(u, seen, node.id);
        var res := Each(s2, Deps(node), depth + 1, seen + {node.id}, u);
        if res.Ok? then
          DepthStepTrans(s, s2, res.value, u);
          AtLeastTrans(res.value.info[key].depth, s2.info[key].depth, Fin(depth));
          res
        else res
  }

  /** `forEach` over the resolved dependencies: each visited in order, the
      store passed from one to the next. */
  function Each(s: Store, deps: seq<string>, depth: int, seen: set<string>, ghost u: set<string>): (res: Result<Store>)
    requires Valid(s, u) && forall j :: 0 <= j < |deps| ==> deps[j] in s.reqs
    ensures res.Ok? ==> DepthStep(res.value, s, u) && PathKept(res.value, s, seen)
    ensures res.Ok? ==> forall j :: 0 <= j < |deps| && s.reqs[deps[j]].id !in seen ==>
                          AtLeast(res.value.info[deps[j]].depth, Fin(depth))
    decreases |u - seen|, 1, |deps|
  {
    if deps == [] then Ok(s)
    else
      match Visit(s, deps[0], depth, seen, u)
      case Err(m) => Err(m)
      case Ok(s1) =>
        match Each(s1, deps[1..], depth, seen, u)
        case Err(m) => Err(m)
        case Ok(s2) =>
          EachCompose(s, s1, s2, deps, depth, seen, u);
          Ok(s2)
  }

  /** One step of `Each`: the first dependency visited, then the rest. */
  lemma EachCompose(s: Store, s1: Store, s2: Store, deps: seq<string>, depth: int, seen: set<string>, u: set<string>)
    requires deps != [] && forall j :: 0 <= j < |deps| ==> deps[j] in s.reqs
    requires DepthStep(s1, s, u) && PathKept(s1, s, seen)
    requires s.reqs[deps[0]].id !in seen ==> AtLeast(s1.info[deps[0]].depth, Fin(depth))
    requires DepthStep(s2, s1, u) && PathKept(s2, s1, seen)
    requires forall j :: 0 <= j < |deps[1..]| && s1.reqs[deps[1..][j]].id !in seen ==>
               AtLeast(s2.info[deps[1..][j]].depth, Fin(depth))
    ensures DepthStep(s2, s, u) && PathKept(s2, s, seen)
    ensures forall j :: 0 <= j < |deps| && s.reqs[deps[j]].id !in seen ==> AtLeast(s2.info[deps[j]].depth, Fin(depth))
  {
    DepthStepTrans(s, s1, s2, u);
    forall j | 0 <= j < |deps| && s.reqs[deps[j]].id !in seen
      ensures AtLeast(s2.info[deps[j]].depth, Fin(depth))
    {
      if j == 0 {
        AtLeastTrans(s2.info[deps[0]].depth, s1.info[deps[0]].depth, Fin(depth));
      } else {
        assert deps[j] == deps[1..][j - 1];
      }
    }
  }

  /** The pass run from the root at depth 0 with an empty path. */
  function FindMaxDepth(s: Store, root: string, ghost u: set<string>): (res: Result<Store>)
    requires Valid(s, u) && root in s.reqs
    ensures res.Ok? ==> DepthStep(res.value, s, u)
  {
    Visit(s, root, 0, {}, u)
  }

  // ----- lemmas -----

  /** The root is on every path below it, so it ends at depth 0 exactly. */
  lemma RootDepth(s: Store, root: string, u: set<string>)
    requires Valid(s, u) && root in s.reqs
    ensures s.info[root].depth == NegInf && FindMaxDepth(s, root, u).Ok? ==>
              FindMaxDepth(s, root, u).value.info[root].depth == Fin(0)
  {
    if s.info[root].depth != NegInf {
      return;
    }
    var node := s.reqs[root];
    var s1 := SetDepth(s, root, 0);
    SetDepthStep(s, root, 0, {}, u);
    var r := ResolveAll(s1, node.AllLeaves());
    if r.Ok? && !Leafless(node) {
      var s2 := r.value;
      ResolveAllValid(s1, node.AllLeaves(), u);
      var res := Each(s2, Deps(node), 1, {node.id}, u);
      if res.Ok? {
        assert s2.reqs[root].id in {node.id};
        assert res.value.info[root] == s2.info[root];
      }
    }
  }

  /**
   * Every dependency of a node the pass did not skip ends at least one
   * deeper than the node, unless its id is on the path (that edge closes a
   * cycle and is cut).
   */
  lemma ChildrenDeeper(s: Store, key: string, depth: int, seen: set<string>, u: set<string>)
    requires Valid(s, u) && key in s.reqs
    requires s.reqs[key].id !in seen && !AtLeast(s.info[key].depth, Fin(depth))
    requires Visit(s, key, depth, seen, u).Ok?
    ensures var r := Visit(s, key, depth, seen, u).value;
            var leaves := s.reqs[key].AllLeaves();
            forall j :: 0 <= j < |leaves| ==>
              RefID(leaves[j]) in r.reqs &&
              (r.reqs[RefID(leaves[j])].id in seen + {s.reqs[key].id} || AtLeast(r.info[RefID(leaves[j])].depth, Fin(depth + 1)))
  {
    var node := s.reqs[key];
    var s1 := SetDepth(s, key, depth);
    SetDepthStep(s, key, depth, seen, u);
    if Leafless(node) {
      LeaflessLeaves(node);
    } else {
      var s2 := ResolveAll(s1, node.AllLeaves()).value;
      ResolveAllValid(s1, node.AllLeaves(), u);
      var deps := Deps(node);
      assert Visit(s, key, depth, seen, u) == Each(s2, deps, depth + 1, seen + {node.id}, u);
    }
  }

  // ----- what the depths mean -----

  /** A chain of stored nodes, each a prerequisite of the one before. */
  ghost predicate IsPath(reqs: map<string, Requirement>, p: seq<string>)
    decreases |p|
  {
    |p| >= 1 && p[|p| - 1] in reqs &&
    (|p| == 1 || (p[|p| - 2] in reqs && p[|p| - 1] in Deps(reqs[p[|p| - 2]]) && IsPath(reqs, p[..|p| - 1])))
  }

  /** A path stays a path when nodes are only added. */
  lemma {:induction false} PathGrows(r1: map<string, Requirement>, r2: map<string, Requirement>, p: seq<string>)
    requires forall k :: k in r1 ==> k in r2 && r2[k] == r1[k]
    requires IsPath(r1, p)
    ensures IsPath(r2, p)
    decreases |p|
  {
    if |p| > 1 {
      PathGrows(r1, r2, p[..|p| - 1]);
    }
  }

  /** `b` lies `n` prerequisite steps below `a`. */
  ghost predicate Reaches(reqs: map<string, Requirement>, a: string, b: string, n: int)
  {
    exists p :: 0 <= n && |p| == n + 1 && IsPath(reqs, p) && p[0] == a && p[n] == b
  }

  /** Every depth written so far is the length of a path from `root`. */
  ghost predicate Witnessed(s: Store, root: string)
  {
    forall k :: k in s.info && s.info[k].depth.Fin? ==> Reaches(s.reqs, root, k, s.info[k].depth.n)
  }

  /** A path stays a path when nodes are only added. */
  lemma ReachesGrows(r1: map<string, Requirement>, r2: map<string, Requirement>, a: string, b: string, n: int)
    requires forall k :: k in r1 ==> k in r2 && r2[k] == r1[k]
    requires Reaches(r1, a, b, n)
    ensures Reaches(r2, a, b, n)
  {
    var p :| 0 <= n && |p| == n + 1 && IsPath(r1, p) && p[0] == a && p[n] == b;
    PathGrows(r1, r2, p);
  }

  /** A path extended by one prerequisite edge. */
  lemma ReachesStep(reqs: map<string, Requirement>, a: string, b: string, c: string, n: int)
    requires Reaches(reqs, a, b, n) && b in reqs && c in reqs && c in Deps(reqs[b])
    ensures Reaches(reqs, a, c, n + 1)
  {
    var p :| 0 <= n && |p| == n + 1 && IsPath(reqs, p) && p[0] == a && p[n] == b;
    var q := p + [c];
    assert q[..|q| - 1] == p;
    assert IsPath(reqs, q);
    assert |q| == n + 2 && q[0] == a && q[n + 1] == c;
  }

  lemma WitnessedGrows(s: Store, s2: Store, root: string)
    requires Witnessed(s, root) && Grows(s2, s) && InfoKept(s2, s)
    ensures Witnessed(s2, root)
  {
    forall k | k in s2.info && s2.info[k].depth.Fin? ensures Reaches(s2.reqs, root, k, s2.info[k].depth.n) {
      ReachesGrows(s.reqs, s2.reqs, root, k, s.info[k].depth.n);
    }
  }

  lemma WitnessedSet(s: Store, key: string, depth: int, root: string)
    requires Witnessed(s, root) && key in s.info && Reaches(s.reqs, root, key, depth)
    ensures Witnessed(SetDepth(s, key, depth), root)
  {
  }

  /** A visit from a node `depth` steps below `root` writes only depths that
      are path lengths from `root`. */
  lemma {:induction false} VisitWitnessed(s: Store, key: string, depth: int, seen: set<string>, u: set<string>, root: string)
    requires Valid(s, u) && key in s.reqs
    requires Witnessed(s, root) && Reaches(s.reqs, root, key, depth)
    ensures Visit(s, key, depth, seen, u).Ok? ==> Witnessed(Visit(s, key, depth, seen, u).value, root)
    decreases |u - seen|, 0
  {
    var node := s.reqs[key];
    if node.id in seen || AtLeast(s.info[key].depth, Fin(depth)) {
      return;
    }
    var s1 := SetDepth(s, key, depth);
    SetDepthStep(s, key, depth, seen, u);
    WitnessedSet(s, key, depth, root);
    if Leafless(node) {
      return;
    }
    var r := ResolveAll(s1, node.AllLeaves());
    if r.Err? {
      return;
    }
    var s2 := r.value;
    ResolveAllValid(s1, node.AllLeaves(), u);
    WitnessedGrows(s1, s2, root);
    ReachesGrows(s.reqs, s2.reqs, root, key, depth);
    var deps := Deps(node);
    forall j | 0 <= j < |deps| ensures Reaches(s2.reqs, root, deps[j], depth + 1) {
      ReachesStep(s2.reqs, root, key, deps[j], depth);
    }
    RemainderShrinks(u, seen, node.id);
    EachWitnessed(s2, deps, depth + 1, seen + {node.id}, u, root);
  }

  lemma {:induction false} EachWitnessed(s: Store, deps: seq<string>, depth: int, seen: set<string>, u: set<string>, root: string)
    requires Valid(s, u) && forall j :: 0 <= j < |deps| ==> deps[j] in s.reqs
    requires Witnessed(s, root) && forall j :: 0 <= j < |deps| ==> Reaches(s.reqs, root, deps[j], depth)
    ensures Each(s, deps, depth, seen, u).Ok? ==> Witnessed(Each(s, deps, depth, seen, u).value, root)
    decreases |u - seen|, 1, |deps|
  {
    if deps == [] {
      return;
    }
    VisitWitnessed(s, deps[0], depth, seen, u, root);
    var r1 := Visit(s, deps[0], depth, seen, u);
    if r1.Err? {
      return;
    }
    var s1 := r1.value;
    forall j | 0 <= j < |deps[1..]| ensures Reaches(s1.reqs, root, deps[1..][j], depth) {
      ReachesGrows(s.reqs, s1.reqs, root, deps[1..][j], depth);
    }
    EachWitnessed(s1, deps[1..], depth, seen, u, root);
  }

  // ----- the longest path on a store without cycles -----

  /** The id of the node `getReq` returns for `r`: the stored one, or the
      combat node it creates. */
  function Target(reqs: map<string, Requirement>, r: Ref): string
  {
    if RefID(r) in reqs then reqs[RefID(r)].id else CombatID(r.level)
  }

  /** `rank` falls along every prerequisite edge, so no path comes back to
      a node it left. */
  ghost predicate Ranked(reqs: map<string, Requirement>, rank: map<string, nat>)
  {
    forall k :: k in reqs ==> RankedAt(reqs, rank, k)
  }

  /** Every prerequisite of the node under `k` ranks below it. */
  ghost predicate RankedAt(reqs: map<string, Requirement>, rank: map<string, nat>, k: string)
    requires k in reqs
  {
    forall r :: r in reqs[k].AllLeaves() ==>
      reqs[k].id in rank && Target(reqs, r) in rank && rank[Target(reqs, r)] < rank[reqs[k].id]
  }

  /** The node stored under `k` ranks below every id on the path. */
  ghost predicate Under(reqs: map<string, Requirement>, k: string, seen: set<string>, rank: map<string, nat>)
  {
    k in reqs && forall x :: x in seen ==> x in rank && reqs[k].id in rank && rank[reqs[k].id] < rank[x]
  }

  /** A node at a finite depth has every prerequisite stored, at least one
      step deeper. */
  ghost predicate Closed(s: Store, k: string)
  {
    k in s.reqs && k in s.info && s.info[k].depth.Fin? ==>
      forall d :: d in Deps(s.reqs[k]) ==>
        d in s.info && AtLeast(s.info[d].depth, Fin(s.info[k].depth.n + 1))
  }

  /** Every node off the path is closed. */
  ghost predicate ClosedOff(s: Store, seen: set<string>)
  {
    forall k :: k in s.reqs && s.reqs[k].id !in seen ==> Closed(s, k)
  }

  /** A combat node created by a lookup changes no reference's target, and
      has no prerequisites of its own. */
  lemma LookupRanked(s: Store, r: Ref, rank: map<string, nat>)
    requires s.info.Keys == s.reqs.Keys && Ranked(s.reqs, rank)
    requires Lookup(s, r).Ok?
    ensures forall x :: Target(Lookup(s, r).value.reqs, x) == Target(s.reqs, x)
    ensures Ranked(Lookup(s, r).value.reqs, rank)
  {
    LookupSpec(s, r);
    if RefID(r) in s.reqs {
      return;
    }
    var reqs := s.reqs[RefID(r) := NewCombatRequirement(r.level)];
    assert Lookup(s, r).value.reqs == reqs;
    forall x ensures Target(reqs, x) == Target(s.reqs, x) {
      CombatTarget(s.reqs, r, x);
    }
    LeaflessLeaves(NewCombatRequirement(r.level));
    forall k | k in reqs ensures RankedAt(reqs, rank, k) {
      if k != RefID(r) {
        assert reqs[k] == s.reqs[k] && RankedAt(s.reqs, rank, k);
        forall x | x in reqs[k].AllLeaves()
          ensures reqs[k].id in rank && Target(reqs, x) in rank && rank[Target(reqs, x)] < rank[reqs[k].id]
        {
          assert Target(reqs, x) == Target(s.reqs, x);
        }
      }
    }
  }

  /** Storing the combat node for a missing combat reference `r` leaves the
      target of every reference as it was. */
  lemma CombatTarget(reqs: map<string, Requirement>, r: Ref, x: Ref)
    requires RefID(r) !in reqs && r.kind == Requirements.Combat
    ensures Target(reqs[RefID(r) := NewCombatRequirement(r.level)], x) == Target(reqs, x)
  {
    if RefID(x) == RefID(r) {
      IDsEqual(x.kind, x.page, x.level, r.kind, r.page, r.level);
    }
  }

  lemma {:induction false} ResolveAllRanked(s: Store, refs: seq<Ref>, rank: map<string, nat>)
    requires s.info.Keys == s.reqs.Keys && Ranked(s.reqs, rank)
    ensures ResolveAll(s, refs).Ok? ==> Ranked(ResolveAll(s, refs).value.reqs, rank)
    decreases |refs|
  {
    if refs != [] && Lookup(s, refs[0]).Ok? {
      LookupSpec(s, refs[0]);
      LookupRanked(s, refs[0], rank);
      ResolveAllRanked(Lookup(s, refs[0]).value, refs[1..], rank);
    }
  }

  /** The store only grew and no depth went down: all the closure argument
      needs of a step of the pass. */
  ghost predicate Rises(s2: Store, s1: Store)
  {
    s1.info.Keys == s1.reqs.Keys && s2.info.Keys == s2.reqs.Keys && Grows(s2, s1) &&
    forall k :: k in s1.info ==> AtLeast(s2.info[k].depth, s1.info[k].depth)
  }

  lemma StepRises(s2: Store, s1: Store, u: set<string>)
    requires Valid(s1, u) && DepthStep(s2, s1, u)
    ensures Rises(s2, s1)
  {
  }

  lemma RisesTrans(s1: Store, s2: Store, s3: Store)
    requires Rises(s2, s1) && Rises(s3, s2)
    ensures Rises(s3, s1)
  {
    GrowsTrans(s1, s2, s3);
    forall k | k in s1.info ensures AtLeast(s3.info[k].depth, s1.info[k].depth) {
      AtLeastTrans(s3.info[k].depth, s2.info[k].depth, s1.info[k].depth);
    }
  }

  /** Closure survives depths that only rise around a node left as it was. */
  lemma ClosedKept(s: Store, s2: Store, k: string)
    requires Rises(s2, s) && Closed(s, k) && k in s.reqs && s2.info[k] == s.info[k]
    ensures Closed(s2, k)
  {
    if s.info[k].depth.Fin? {
      forall d | d in Deps(s2.reqs[k]) ensures d in s2.info && AtLeast(s2.info[d].depth, Fin(s2.info[k].depth.n + 1)) {
        AtLeastTrans(s2.info[d].depth, s.info[d].depth, Fin(s.info[k].depth.n + 1));
      }
    }
  }

  /** Off a larger path, closure holds where it held before, on every node
      left as it was; new nodes have no depth. */
  lemma ClosedOffKept(s: Store, s2: Store, seen: set<string>, more: set<string>)
    requires Rises(s2, s) && ClosedOff(s, seen) && seen <= more
    requires forall k :: k in s.reqs && s.reqs[k].id !in more ==> s2.info[k] == s.info[k]
    requires forall k :: k in s2.reqs && k !in s.reqs ==> s2.info[k].depth == NegInf
    ensures ClosedOff(s2, more)
  {
    forall k | k in s2.reqs && s2.reqs[k].id !in more ensures Closed(s2, k) {
      if k in s.reqs {
        ClosedKept(s, s2, k);
      }
    }
  }

  /** A node without prerequisites given a depth is closed at once. */
  lemma LeaflessCloses(s: Store, key: string, depth: int, seen: set<string>, u: set<string>)
    requires Valid(s, u) && key in s.reqs && Leafless(s.reqs[key]) && ClosedOff(s, seen)
    requires !AtLeast(s.info[key].depth, Fin(depth)) && s.reqs[key].id !in seen
    ensures ClosedOff(SetDepth(s, key, depth), seen)
  {
    var s1 := SetDepth(s, key, depth);
    SetDepthStep(s, key, depth, seen, u);
    StepRises(s1, s, u);
    LeaflessLeaves(s.reqs[key]);
    forall k | k in s1.reqs && s1.reqs[k].id !in seen ensures Closed(s1, k) {
      if k != key {
        ClosedKept(s, s1, k);
      }
    }
  }

  /** On a store without cycles, every prerequisite of a node on top of a
      path ranks below the whole path. */
  lemma DepsUnder(s: Store, key: string, seen: set<string>, rank: map<string, nat>)
    requires key in s.reqs && Ranked(s.reqs, rank) && Under(s.reqs, key, seen, rank)
    requires forall j :: 0 <= j < |Deps(s.reqs[key])| ==> Deps(s.reqs[key])[j] in s.reqs
    ensures forall j :: 0 <= j < |Deps(s.reqs[key])| ==> Under(s.reqs, Deps(s.reqs[key])[j], seen + {s.reqs[key].id}, rank)
  {
    var deps := Deps(s.reqs[key]);
    forall j | 0 <= j < |deps| ensures Under(s.reqs, deps[j], seen + {s.reqs[key].id}, rank) {
      var leaf := s.reqs[key].AllLeaves()[j];
      assert RankedAt(s.reqs, rank, key) && leaf in s.reqs[key].AllLeaves();
      assert Target(s.reqs, leaf) == s.reqs[deps[j]].id;
    }
  }

  /** A visit from below every node on the path, on a store without cycles,
      leaves every node off the path closed. */
  lemma {:induction false} VisitCloses(s: Store, key: string, depth: int, seen: set<string>, u: set<string>, rank: map<string, nat>)
    requires Valid(s, u) && key in s.reqs
    requires Ranked(s.reqs, rank) && ClosedOff(s, seen) && Under(s.reqs, key, seen, rank)
    ensures Visit(s, key, depth, seen, u).Ok? ==>
              Ranked(Visit(s, key, depth, seen, u).value.reqs, rank) && ClosedOff(Visit(s, key, depth, seen, u).value, seen)
    decreases |u - seen|, 0
  {
    var node := s.reqs[key];
    if node.id in seen || AtLeast(s.info[key].depth, Fin(depth)) {
      return;
    }
    if Leafless(node) {
      LeaflessCloses(s, key, depth, seen, u);
      return;
    }
    var r := ResolveAll(SetDepth(s, key, depth), node.AllLeaves());
    if r.Err? {
      return;
    }
    var s2 := r.value;
    ResolvedCloses(s, key, depth, seen, u, rank);
    var deps := Deps(node);
    var more := seen + {node.id};
    RemainderShrinks(u, seen, node.id);
    EachCloses(s2, deps, depth + 1, more, u, rank);
    var res := Each(s2, deps, depth + 1, more, u);
    if res.Ok? {
      StepRises(res.value, s2, u);
      RisesTrans(s, s2, res.value);
      ClosedAfterEach(s, s2, res.value, key, depth, seen, rank);
    }
  }

  /** Before a visit goes below `key`: with the node's depth set and its
      prerequisites resolved, the store still has no cycle, every node off
      the path and the node is closed, and the prerequisites rank below the
      path and the node. */
  lemma ResolvedCloses(s: Store, key: string, depth: int, seen: set<string>, u: set<string>, rank: map<string, nat>)
    requires Valid(s, u) && key in s.reqs && !Leafless(s.reqs[key])
    requires Ranked(s.reqs, rank) && ClosedOff(s, seen) && Under(s.reqs, key, seen, rank)
    requires s.reqs[key].id !in seen && !AtLeast(s.info[key].depth, Fin(depth))
    requires ResolveAll(SetDepth(s, key, depth), s.reqs[key].AllLeaves()).Ok?
    ensures var s2 := ResolveAll(SetDepth(s, key, depth), s.reqs[key].AllLeaves()).value;
            var deps, more := Deps(s.reqs[key]), seen + {s.reqs[key].id};
            Valid(s2, u) && Ranked(s2.reqs, rank) && ClosedOff(s2, more) && Rises(s2, s) &&
            s2.info[key].depth == Fin(depth) && (forall k :: k in s.reqs && k != key ==> s2.info[k] == s.info[k]) &&
            (forall j :: 0 <= j < |deps| ==> deps[j] in s2.reqs && Under(s2.reqs, deps[j], more, rank))
  {
    var node := s.reqs[key];
    var s2 := ResolveAll(SetDepth(s, key, depth), node.AllLeaves()).value;
    ResolvedStep(s, key, depth, seen, u);
    ClosedOffKept(s, s2, seen, seen + {node.id});
    ResolveAllRanked(SetDepth(s, key, depth), node.AllLeaves(), rank);
    DepsUnder(s2, key, seen, rank);
  }

  /** Setting the node's depth and resolving its leaves: a well-formed
      store that only rose, with the node at the new depth, every other old
      node as it was, new nodes unvisited, and every prerequisite stored. */
  lemma ResolvedStep(s: Store, key: string, depth: int, seen: set<string>, u: set<string>)
    requires Valid(s, u) && key in s.reqs
    requires s.reqs[key].id !in seen && !AtLeast(s.info[key].depth, Fin(depth))
    requires ResolveAll(SetDepth(s, key, depth), s.reqs[key].AllLeaves()).Ok?
    ensures var s2 := ResolveAll(SetDepth(s, key, depth), s.reqs[key].AllLeaves()).value;
            Valid(s2, u) && Rises(s2, s) && s2.info[key].depth == Fin(depth) &&
            (forall k :: k in s.reqs && k != key ==> s2.info[k] == s.info[k]) &&
            (forall k :: k in s2.reqs && k !in s.reqs ==> s2.info[k].depth == NegInf) &&
            (forall j :: 0 <= j < |Deps(s.reqs[key])| ==> Deps(s.reqs[key])[j] in s2.reqs)
  {
    var node := s.reqs[key];
    var s1 := SetDepth(s, key, depth);
    SetDepthStep(s, key, depth, seen, u);
    var s2 := ResolveAll(s1, node.AllLeaves()).value;
    ResolveAllValid(s1, node.AllLeaves(), u);
    ResolveStep(s1, s2, u);
    DepthStepTrans(s, s1, s2, u);
    StepRises(s2, s, u);
  }

  /** The node a visit went below is closed once its prerequisites, all
      ranked below the path, are visited one deeper. */
  lemma KeyClosed(s: Store, s2: Store, s3: Store, key: string, depth: int, seen: set<string>, rank: map<string, nat>)
    requires key in s.reqs && Rises(s2, s) && Rises(s3, s2)
    requires s2.info[key].depth == Fin(depth)
    requires forall j :: 0 <= j < |Deps(s.reqs[key])| ==> Deps(s.reqs[key])[j] in s2.reqs && Under(s2.reqs, Deps(s.reqs[key])[j], seen + {s.reqs[key].id}, rank)
    requires PathKept(s3, s2, seen + {s.reqs[key].id})
    requires forall j :: 0 <= j < |Deps(s.reqs[key])| && s2.reqs[Deps(s.reqs[key])[j]].id !in seen + {s.reqs[key].id} ==>
               AtLeast(s3.info[Deps(s.reqs[key])[j]].depth, Fin(depth + 1))
    ensures Closed(s3, key)
  {
    var deps := Deps(s.reqs[key]);
    var more := seen + {s.reqs[key].id};
    assert s3.info[key] == s2.info[key];
    forall d | d in deps ensures d in s3.info && AtLeast(s3.info[d].depth, Fin(depth + 1)) {
      var j :| 0 <= j < |deps| && deps[j] == d;
      assert s2.reqs[deps[j]].id !in more;
    }
  }

  /** The end of a visit that went below `key`: the node itself is closed
      once its prerequisites are visited one deeper, and every other node
      with its id is as it was. */
  lemma ClosedAfterEach(s: Store, s2: Store, s3: Store, key: string, depth: int, seen: set<string>, rank: map<string, nat>)
    requires key in s.reqs && ClosedOff(s, seen)
    requires Rises(s2, s) && Rises(s3, s) && Rises(s3, s2)
    requires forall k :: k in s.reqs && k != key ==> s2.info[k] == s.info[k]
    requires s2.info[key].depth == Fin(depth)
    requires forall j :: 0 <= j < |Deps(s.reqs[key])| ==> Deps(s.reqs[key])[j] in s2.reqs && Under(s2.reqs, Deps(s.reqs[key])[j], seen + {s.reqs[key].id}, rank)
    requires PathKept(s3, s2, seen + {s.reqs[key].id}) && ClosedOff(s3, seen + {s.reqs[key].id})
    requires forall j :: 0 <= j < |Deps(s.reqs[key])| && s2.reqs[Deps(s.reqs[key])[j]].id !in seen + {s.reqs[key].id} ==>
               AtLeast(s3.info[Deps(s.reqs[key])[j]].depth, Fin(depth + 1))
    ensures ClosedOff(s3, seen)
  {
    var node := s.reqs[key];
    KeyClosed(s, s2, s3, key, depth, seen, rank);
    forall k | k in s3.reqs && s3.reqs[k].id !in seen ensures Closed(s3, k) {
      if k != key && s3.reqs[k].id == node.id {
        if k in s.reqs {
          assert s3.info[k] == s2.info[k] == s.info[k];
          ClosedKept(s, s3, k);
        } else {
          LeaflessLeaves(s3.reqs[k]);
        }
      }
    }
  }

  lemma {:induction false} EachCloses(s: Store, deps: seq<string>, depth: int, seen: set<string>, u: set<string>, rank: map<string, nat>)
    requires Valid(s, u) && forall j :: 0 <= j < |deps| ==> deps[j] in s.reqs
    requires Ranked(s.reqs, rank) && ClosedOff(s, seen)
    requires forall j :: 0 <= j < |deps| ==> Under(s.reqs, deps[j], seen, rank)
    ensures Each(s, deps, depth, seen, u).Ok? ==>
              Ranked(Each(s, deps, depth, seen, u).value.reqs, rank) && ClosedOff(Each(s, deps, depth, seen, u).value, seen)
    decreases |u - seen|, 1, |deps|
  {
    if deps == [] {
      return;
    }
    VisitCloses(s, deps[0], depth, seen, u, rank);
    var r1 := Visit(s, deps[0], depth, seen, u);
    if r1.Err? {
      return;
    }
    var s1 := r1.value;
    forall j | 0 <= j < |deps[1..]| ensures Under(s1.reqs, deps[1..][j], seen, rank) {
      assert deps[1..][j] == deps[j + 1];
    }
    EachCloses(s1, deps[1..], depth, seen, u, rank);
  }

  /** Depths along a path from the root at depth 0 through closed nodes
      grow at least one per step. */
  lemma {:induction false} PathDepth(s: Store, root: string, p: seq<string>)
    requires s.info.Keys == s.reqs.Keys && ClosedOff(s, {}) && root in s.info && s.info[root].depth == Fin(0)
    requires IsPath(s.reqs, p) && p[0] == root
    ensures AtLeast(s.info[p[|p| - 1]].depth, Fin(|p| - 1))
    decreases |p|
  {
    if |p| > 1 {
      var m := |p| - 1;
      var q := p[..m];
      PathDepth(s, root, q);
      var k := p[m - 1];
      assert q[|q| - 1] == k;
      assert Closed(s, k);
    }
  }

  /**
   * On a store without cycles whose depths are all unset, the pass from the
   * root gives exactly the nodes reachable from the root a depth, and that
   * depth is the length of the longest path to them: every depth it writes
   * is the length of some path from the root, and no path from the root to
   * a node is longer than the node's depth.
   */
  lemma LongestPaths(s: Store, root: string, u: set<string>, rank: map<string, nat>)
    requires Valid(s, u) && root in s.reqs && Ranked(s.reqs, rank)
    requires forall k :: k in s.info ==> s.info[k].depth == NegInf
    requires FindMaxDepth(s, root, u).Ok?
    ensures var r := FindMaxDepth(s, root, u).value;
            (forall k :: k in r.info && r.info[k].depth.Fin? ==> Reaches(r.reqs, root, k, r.info[k].depth.n)) &&
            (forall k, n :: k in r.info && Reaches(r.reqs, root, k, n) ==> AtLeast(r.info[k].depth, Fin(n)))
  {
    assert IsPath(s.reqs, [root]);
    VisitWitnessed(s, root, 0, {}, u, root);
    VisitCloses(s, root, 0, {}, u, rank);
    RootDepth(s, root, u);
    Longest(FindMaxDepth(s, root, u).value, root);
  }

  /** On a store closed everywhere with the root at depth 0, no path from
      the root is longer than the depth of the node it ends at. */
  lemma Longest(s: Store, root: string)
    requires s.info.Keys == s.reqs.Keys && ClosedOff(s, {}) && root in s.info && s.info[root].depth == Fin(0)
    ensures forall k, n :: k in s.info && Reaches(s.reqs, root, k, n) ==> AtLeast(s.info[k].depth, Fin(n))
  {
    forall k, n | k in s.info && Reaches(s.reqs, root, k, n) ensures AtLeast(s.info[k].depth, Fin(n)) {
      var p :| 0 <= n && |p| == n + 1 && IsPath(s.reqs, p) && p[0] == root && p[n] == k;
      PathDepth(s, root, p);
    }
  }
}
