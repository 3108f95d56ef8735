/**
 * `findDependentCounts`: for every edge from a node to a prerequisite, the
 * node is recorded as a direct dependent of the prerequisite and every node
 * on the path to it as an indirect dependent. Required edges fill the plain
 * sets, recommended edges the `Recommended` ones. The seen set is per path.
 */
module DependentCounts {
  import opened Wrappers
  import opened Sets
  import opened AndOr
  import opened Requirements
  import opened ReqsById
  import MaxDepth

  /** Only the dependent sets differ, and each only grew. */
  predicate Added(after: Info, before: Info)
  {
    after.depth == before.depth && after.depthRecommended == before.depthRecommended &&
    after.maxLevel == before.maxLevel && after.maxLevelRecommended == before.maxLevelRecommended &&
    before.direct <= after.direct && before.directRecommended <= after.directRecommended &&
    before.indirect <= after.indirect && before.indirectRecommended <= after.indirectRecommended
  }

  lemma AddedTrans(a: Info, b: Info, c: Info)
    requires Added(a, b) && Added(b, c)
    ensures Added(a, c)
  {
  }

  /** Every direct dependent is also an indirect one, in both kinds. */
  predicate Nested(i: Info)
  {
    i.direct <= i.indirect && i.directRecommended <= i.indirectRecommended
  }

  ghost predicate AllNested(s: Store)
  {
    forall k :: k in s.info ==> Nested(s.info[k])
  }

  /** What a step of the pass may do: keep the store well formed, add combat
      nodes, and grow dependent sets, nothing else. */
  ghost predicate DepStep(s2: Store, s1: Store, u: set<string>)
  {
    Valid(s2, u) && Grows(s2, s1) &&
    (forall k :: k in s1.info ==> k in s2.info && Added(s2.info[k], s1.info[k])) &&
    (forall k :: k in s2.info && k !in s1.info ==> Added(s2.info[k], Unvisited))
  }

  lemma DepStepTrans(s1: Store, s2: Store, s3: Store, u: set<string>)
    requires DepStep(s2, s1, u) && DepStep(s3, s2, u)
    ensures DepStep(s3, s1, u)
  {
    GrowsTrans(s1, s2, s3);
    forall k | k in s1.info ensures k in s3.info && Added(s3.info[k], s1.info[k]) {
      AddedTrans(s3.info[k], s2.info[k], s1.info[k]);
    }
    forall k | k in s3.info && k !in s1.info ensures Added(s3.info[k], Unvisited) {
      if k in s2.info {
        AddedTrans(s3.info[k], s2.info[k], Unvisited);
      }
    }
  }

  /** The edge from `parent` is already on record: `parent` is a direct
      dependent and the whole path is among the indirect ones. */
  predicate Recorded(i: Info, parent: string, seen: set<string>, required: bool)
  {
    if required then parent in i.direct && seen <= i.indirect
    else parent in i.directRecommended && seen <= i.indirectRecommended
  }

  /** Recording an edge: `parent` joins the direct dependents and the path
      the indirect ones, in the sets of the edge's kind. */
  function AddDependent(s: Store, dep: string, parent: string, seen: set<string>, required: bool): (r: Store)
    requires dep in s.info
    ensures r.reqs == s.reqs && r.keys == s.keys && r.info.Keys == s.info.Keys
    ensures Recorded(r.info[dep], parent, seen, required) && Added(r.info[dep], s.info[dep])
    ensures required ==> r.info[dep].directRecommended == s.info[dep].directRecommended &&
                         r.info[dep].indirectRecommended == s.info[dep].indirectRecommended
    ensures !required ==> r.info[dep].direct == s.info[dep].direct && r.info[dep].indirect == s.info[dep].indirect
    ensures forall k :: k in s.info && k != dep ==> r.info[k] == s.info[k]
  {
    var i := s.info[dep];
    var i2 := if required then i.(direct := i.direct + {parent}, indirect := i.indirect + seen)
              else i.(directRecommended := i.directRecommended + {parent},
                      indirectRecommended := i.indirectRecommended + seen);
    s.(info := s.info[dep := i2])
  }

  /** With the parent on the path, recording an edge keeps every direct set
      inside its indirect set. */
  lemma AddDependentStep(s: Store, dep: string, parent: string, seen: set<string>, required: bool, u: set<string>)
    requires Valid(s, u) && dep in s.info && parent in seen
    ensures DepStep(AddDependent(s, dep, parent, seen, required), s, u)
    ensures AllNested(s) ==> AllNested(AddDependent(s, dep, parent, seen, required))
  {
  }

  /** Resolving leaves changes no dependent set. */
  lemma ResolveStep(s: Store, s2: Store, u: set<string>)
    requires Valid(s2, u) && Grows(s2, s) && InfoKept(s2, s)
    ensures DepStep(s2, s, u)
    ensures AllNested(s) ==> AllNested(s2)
  {
  }

  /** The prerequisites of a node as `req.map` pairs them: the storage key of
      every leaf with `true` for required ones and `false` for recommended
      ones, required first. */
  function Deps(node: Requirement): (deps: seq<(string, bool)>)
    ensures |deps| == |node.Visits(true)|
    ensures forall j :: 0 <= j < |deps| ==> deps[j] == (RefID(node.Visits(true)[j].0), node.Visits(true)[j].1)
  {
    var v := node.Visits(true);
    seq(|v|, j requires 0 <= j < |v| => (RefID(v[j].0), v[j].1))
  }

  lemma DepsResolved(node: Requirement, s: Store)
    requires forall j :: 0 <= j < |node.AllLeaves()| ==> RefID(node.AllLeaves()[j]) in s.reqs
    ensures forall j :: 0 <= j < |Deps(node)| ==> Deps(node)[j].0 in s.reqs
  {
    var v := node.Visits(true);
    var a := Leaves(node.required);
    var b := Leaves(node.recommended);
    assert node.AllLeaves() == a + b;
    forall j | 0 <= j < |v| ensures RefID(v[j].0) in s.reqs {
      if j < |a| {
        assert v[j].0 == node.AllLeaves()[j];
      } else {
        assert v[j].0 == node.AllLeaves()[j];
      }
    }
  }

  /** What visiting a node guarantees. */
  ghost predicate VisitPost(r: Store, s: Store, u: set<string>)
  {
    DepStep(r, s, u) && (AllNested(s) ==> AllNested(r))
  }

  /** What handling a list of edges guarantees: every edge on record. */
  ghost predicate EachPost(r: Store, s: Store, deps: seq<(string, bool)>, parent: string, seen: set<string>,
                           u: set<string>)
  {
    VisitPost(r, s, u) &&
    forall j :: 0 <= j < |deps| ==> deps[j].0 in r.info && Recorded(r.info[deps[j].0], parent, seen, deps[j].1)
  }

  /**
   * `findDependentCounts(req, getReq, seen)` on the node under `key`:
   * nothing happens if its id is on the path; otherwise all its leaves are
   * resolved and each edge handled in turn with the path extended by the
   * node's id. A node without leaves has no edges, so nothing happens
   * either.
   */
  function Visit(s: Store, key: string, seen: set<string>, ghost u: set<string>): (res: Result<Store>)
    requires Valid(s, u) && key in s.reqs
    ensures res.Ok? ==> VisitPost(res.value, s, u)
    decreases |u - seen|, 0
  {
    var node := s.reqs[key];
    if node.id in seen || Leafless(node) then Ok(s)
    else
      match ResolveAll(s, node.AllLeaves())
      case Err(m) => Err(m)
      case Ok(s1) =>
        ResolveAllValid(s, node.AllLeaves(), u);
        ResolveStep(s, s1, u);
        RemainderShrinks(u, seen, node.id);
        DepsResolved(node, s1);
        var res := Each(s1, Deps(node), node.id, seen + {node.id}, u);
        if res.Ok? then
          VisitCompose(s, s1, res.value, Deps(node), node.id, seen + {node.id}, u);
          res
        else res
  }

  /**
   * The `forEach` over the resolved edges: an edge already on record is
   * skipped, with no recursion; otherwise it is recorded and its
   * prerequisite visited with (a copy of) the same path.
   */
  function Each(s: Store, deps: seq<(string, bool)>, parent: string, seen: set<string>, ghost u: set<string>): (res: Result<Store>)
    requires Valid(s, u) && parent in seen
    requires forall j :: 0 <= j < |deps| ==> deps[j].0 in s.reqs
    ensures res.Ok? ==> EachPost(res.value, s, deps, parent, seen, u)
    decreases |u - seen|, 1, |deps|, 1
  {
    if deps == [] then Ok(s)
    else if Recorded(s.info[deps[0].0], parent, seen, deps[0].1) then
      match Each(s, deps[1..], parent, seen, u)
      case Err(m) => Err(m)
      case Ok(s2) =>
        SkipCompose(s, s2, deps, parent, seen, u);
        Ok(s2)
    else Record(s, deps, parent, seen, u)
  }

  /** An edge not yet on record: record it, visit its prerequisite, then
      handle the rest of the edges. */
  function Record(s: Store, deps: seq<(string, bool)>, parent: string, seen: set<string>, ghost u: set<string>): (res: Result<Store>)
    requires Valid(s, u) && parent in seen && deps != []
    requires forall j :: 0 <= j < |deps| ==> deps[j].0 in s.reqs
    ensures res.Ok? ==> EachPost(res.value, s, deps, parent, seen, u)
    decreases |u - seen|, 1, |deps|, 0
  {
    var s1 := AddDependent(s, deps[0].0, parent, seen, deps[0].1);
    AddDependentStep(s, deps[0].0, parent, seen, deps[0].1, u);
    match Visit(s1, deps[0].0, seen, u)
    case Err(m) => Err(m)
    case Ok(s2) =>
      match Each(s2, deps[1..], parent, seen, u)
      case Err(m) => Err(m)
      case Ok(s3) =>
        RecordCompose(s, s2, s3, deps, parent, seen, u);
        Ok(s3)
  }

  lemma VisitCompose(s: Store, s1: Store, r: Store, deps: seq<(string, bool)>, parent: string, seen: set<string>,
                     u: set<string>)
    requires DepStep(s1, s, u) && (AllNested(s) ==> AllNested(s1))
    requires EachPost(r, s1, deps, parent, seen, u)
    ensures VisitPost(r, s, u)
  {
    DepStepTrans(s, s1, r, u);
  }

  /** An edge on record stays on record as the sets grow. */
  lemma RecordedKept(a: Info, b: Info, parent: string, seen: set<string>, required: bool)
    requires Recorded(b, parent, seen, required) && Added(a, b)
    ensures Recorded(a, parent, seen, required)
  {
  }

  /** The first edge on record and the rest on record: all on record. */
  lemma ConsRecorded(r: Store, deps: seq<(string, bool)>, parent: string, seen: set<string>)
    requires deps != [] && deps[0].0 in r.info && Recorded(r.info[deps[0].0], parent, seen, deps[0].1)
    requires forall j :: 0 <= j < |deps[1..]| ==>
               deps[1..][j].0 in r.info && Recorded(r.info[deps[1..][j].0], parent, seen, deps[1..][j].1)
    ensures forall j :: 0 <= j < |deps| ==> deps[j].0 in r.info && Recorded(r.info[deps[j].0], parent, seen, deps[j].1)
  {
    forall j | 0 < j < |deps| ensures deps[j].0 in r.info && Recorded(r.info[deps[j].0], parent, seen, deps[j].1) {
      assert deps[j] == deps[1..][j - 1];
    }
  }

  /** A skipped edge stays on record while the rest are handled. */
  lemma SkipCompose(s: Store, s2: Store, deps: seq<(string, bool)>, parent: string, seen: set<string>, u: set<string>)
    requires deps != [] && deps[0].0 in s.info
    requires Recorded(s.info[deps[0].0], parent, seen, deps[0].1)
    requires EachPost(s2, s, deps[1..], parent, seen, u)
    ensures EachPost(s2, s, deps, parent, seen, u)
  {
    RecordedKept(s2.info[deps[0].0], s.info[deps[0].0], parent, seen, deps[0].1);
    ConsRecorded(s2, deps, parent, seen);
  }

  /** A recorded edge stays on record while the visit below it and the
      rest of the edges are handled. */
  lemma RecordCompose(s: Store, s2: Store, s3: Store, deps: seq<(string, bool)>, parent: string,
                      seen: set<string>, u: set<string>)
    requires deps != [] && deps[0].0 in s.info && parent in seen && Valid(s, u)
    requires VisitPost(s2, AddDependent(s, deps[0].0, parent, seen, deps[0].1), u)
    requires EachPost(s3, s2, deps[1..], parent, seen, u)
    ensures EachPost(s3, s, deps, parent, seen, u)
  {
    var d := deps[0].0;
    var s1 := AddDependent(s, d, parent, seen, deps[0].1);
    AddDependentStep(s, d, parent, seen, deps[0].1, u);
    DepStepTrans(s, s1, s2, u);
    DepStepTrans(s, s2, s3, u);
    AddedTrans(s3.info[d], s2.info[d], s1.info[d]);
    RecordedKept(s3.info[d], s1.info[d], parent, seen, deps[0].1);
    ConsRecorded(s3, deps, parent, seen);
  }

  /** The pass run from the root with an empty path. */
  function FindDependentCounts(s: Store, root: string, ghost u: set<string>): (res: Result<Store>)
    requires Valid(s, u) && root in s.reqs
    ensures res.Ok? ==> DepStep(res.value, s, u)
    ensures res.Ok? && AllNested(s) ==> AllNested(res.value)
  {
    Visit(s, root, {}, u)
  }

  // ----- lemmas -----

  /**
   * After a node is handled, each of its required prerequisites lists it as
   * a direct dependent and the whole path to it, the node included, as
   * indirect dependents; each recommended prerequisite does the same in the
   * `Recommended` sets.
   */
  lemma EdgesRecorded(s: Store, key: string, seen: set<string>, u: set<string>)
    requires Valid(s, u) && key in s.reqs && s.reqs[key].id !in seen
    requires Visit(s, key, seen, u).Ok?
    ensures var r := Visit(s, key, seen, u).value;
            var node := s.reqs[key];
            forall j :: 0 <= j < |node.Visits(true)| ==>
              var (x, required) := node.Visits(true)[j];
              RefID(x) in r.info && Recorded(r.info[RefID(x)], node.id, seen + {node.id}, required)
  {
    var node := s.reqs[key];
    if !Leafless(node) {
      var s1 := ResolveAll(s, node.AllLeaves()).value;
      ResolveAllValid(s, node.AllLeaves(), u);
      DepsResolved(node, s1);
      assert Visit(s, key, seen, u) == Each(s1, Deps(node), node.id, seen + {node.id}, u);
    }
  }

  // ----- where the dependents come from -----

  /** `p` is the id of a stored node with an edge of the given kind to `k`. */
  ghost predicate EdgeFrom(reqs: map<string, Requirement>, p: string, k: string, required: bool)
  {
    exists q :: q in reqs && reqs[q].id == p && (k, required) in Deps(reqs[q])
  }

  /** `x` is the id of a stored node from which some stored node with an edge
      of the given kind to `k` can be reached (itself included). */
  ghost predicate PathFrom(reqs: map<string, Requirement>, x: string, k: string, required: bool)
  {
    exists a, q, n :: a in reqs && reqs[a].id == x && MaxDepth.Reaches(reqs, a, q, n) && q in reqs &&
                      (k, required) in Deps(reqs[q])
  }

  /** The dependent sets of `k` as the edges justify them: a direct
      dependent has an edge of the set's kind to `k`, an indirect one reaches
      a node with such an edge. Recommended edges never put anything in the
      required sets, nor required edges in the recommended ones. */
  ghost predicate SoundAt(reqs: map<string, Requirement>, k: string, i: Info)
  {
    (forall p :: p in i.direct ==> EdgeFrom(reqs, p, k, true)) &&
    (forall p :: p in i.directRecommended ==> EdgeFrom(reqs, p, k, false)) &&
    (forall x :: x in i.indirect ==> PathFrom(reqs, x, k, true)) &&
    (forall x :: x in i.indirectRecommended ==> PathFrom(reqs, x, k, false))
  }

  ghost predicate Sound(s: Store)
  {
    forall k :: k in s.info ==> SoundAt(s.reqs, k, s.info[k])
  }

  /** Every id on the path is the id of a stored node that reaches `key`. */
  ghost predicate OnPath(reqs: map<string, Requirement>, seen: set<string>, key: string)
  {
    forall x :: x in seen ==> exists a, n :: a in reqs && reqs[a].id == x && MaxDepth.Reaches(reqs, a, key, n)
  }

  /** An edge of the pass is a prerequisite edge of the depth pass's graph. */
  lemma EdgeIsDep(node: Requirement, d: (string, bool))
    requires d in Deps(node)
    ensures d.0 in MaxDepth.Deps(node)
  {
    var j :| 0 <= j < |Deps(node)| && Deps(node)[j] == d;
    var a := Leaves(node.required);
    assert node.Visits(true)[j].0 == node.AllLeaves()[j];
    assert MaxDepth.Deps(node)[j] == d.0;
  }

  lemma SoundAtGrows(r1: map<string, Requirement>, r2: map<string, Requirement>, k: string, i: Info)
    requires forall k :: k in r1 ==> k in r2 && r2[k] == r1[k]
    requires SoundAt(r1, k, i)
    ensures SoundAt(r2, k, i)
  {
    forall x, b | (x in i.indirect && b) || (x in i.indirectRecommended && !b)
      ensures PathFrom(r2, x, k, b)
    {
      var a, q, n :| a in r1 && r1[a].id == x && MaxDepth.Reaches(r1, a, q, n) && q in r1 && (k, b) in Deps(r1[q]);
      MaxDepth.ReachesGrows(r1, r2, a, q, n);
    }
    forall p, b | (p in i.direct && b) || (p in i.directRecommended && !b)
      ensures EdgeFrom(r2, p, k, b)
    {
      var q :| q in r1 && r1[q].id == p && (k, b) in Deps(r1[q]);
      assert q in r2 && r2[q].id == p;
    }
  }

  /** Resolving leaves keeps the dependent sets justified: old nodes and
      their edges stay, new nodes start with empty sets. */
  lemma SoundGrows(s: Store, s2: Store)
    requires Grows(s2, s) && InfoKept(s2, s) && Sound(s)
    ensures Sound(s2)
  {
    forall k | k in s2.info ensures SoundAt(s2.reqs, k, s2.info[k]) {
      if k in s.info {
        SoundAtGrows(s.reqs, s2.reqs, k, s.info[k]);
      }
    }
  }

  lemma OnPathGrows(r1: map<string, Requirement>, r2: map<string, Requirement>, seen: set<string>, key: string)
    requires forall k :: k in r1 ==> k in r2 && r2[k] == r1[k]
    requires OnPath(r1, seen, key)
    ensures OnPath(r2, seen, key)
  {
    forall x | x in seen ensures exists a, n :: a in r2 && r2[a].id == x && MaxDepth.Reaches(r2, a, key, n) {
      var a, n :| a in r1 && r1[a].id == x && MaxDepth.Reaches(r1, a, key, n);
      MaxDepth.ReachesGrows(r1, r2, a, key, n);
      assert a in r2 && r2[a].id == x;
    }
  }

  /** Entering a node puts its own id on the path. */
  lemma OnPathEnter(reqs: map<string, Requirement>, seen: set<string>, key: string)
    requires OnPath(reqs, seen, key) && key in reqs
    ensures OnPath(reqs, seen + {reqs[key].id}, key)
  {
    assert MaxDepth.IsPath(reqs, [key]);
    assert MaxDepth.Reaches(reqs, key, key, 0);
  }

  /** Following an edge keeps every id on the path reaching the node below. */
  lemma OnPathStep(reqs: map<string, Requirement>, seen: set<string>, pk: string, dep: string)
    requires OnPath(reqs, seen, pk) && pk in reqs && dep in reqs && dep in MaxDepth.Deps(reqs[pk])
    ensures OnPath(reqs, seen, dep)
  {
    forall x | x in seen ensures exists a, n :: a in reqs && reqs[a].id == x && MaxDepth.Reaches(reqs, a, dep, n) {
      var a, n :| a in reqs && reqs[a].id == x && MaxDepth.Reaches(reqs, a, pk, n);
      MaxDepth.ReachesStep(reqs, a, pk, dep, n);
    }
  }

  /** Recording an edge of `pk`, whose id is `parent`, with every id on the
      path reaching `pk`: the new entries are justified. */
  lemma AddSound(s: Store, dep: string, parent: string, seen: set<string>, required: bool, pk: string)
    requires Sound(s) && dep in s.info && pk in s.reqs && s.reqs[pk].id == parent
    requires (dep, required) in Deps(s.reqs[pk]) && OnPath(s.reqs, seen, pk)
    ensures Sound(AddDependent(s, dep, parent, seen, required))
  {
    var r := AddDependent(s, dep, parent, seen, required);
    assert EdgeFrom(s.reqs, parent, dep, required);
    forall x | x in seen ensures PathFrom(s.reqs, x, dep, required) {
      var a, n :| a in s.reqs && s.reqs[a].id == x && MaxDepth.Reaches(s.reqs, a, pk, n);
    }
    assert SoundAt(r.reqs, dep, r.info[dep]);
  }

  /** `Visit` keeps every dependent set justified by the edges, given that
      every id on the path reaches the node. */
  lemma VisitSound(s: Store, key: string, seen: set<string>, u: set<string>)
    requires Valid(s, u) && key in s.reqs && Sound(s) && OnPath(s.reqs, seen, key)
    ensures Visit(s, key, seen, u).Ok? ==> Sound(Visit(s, key, seen, u).value)
    decreases |u - seen|, 0
  {
    var node := s.reqs[key];
    if node.id !in seen && !Leafless(node) && ResolveAll(s, node.AllLeaves()).Ok? {
      var s1 := ResolveAll(s, node.AllLeaves()).value;
      ResolveAllValid(s, node.AllLeaves(), u);
      RemainderShrinks(u, seen, node.id);
      DepsResolved(node, s1);
      SoundGrows(s, s1);
      OnPathGrows(s.reqs, s1.reqs, seen, key);
      OnPathEnter(s1.reqs, seen, key);
      EachSound(s1, Deps(node), node.id, seen + {node.id}, u, key);
      assert Visit(s, key, seen, u) == Each(s1, Deps(node), node.id, seen + {node.id}, u);
    }
  }

  /** The rest of a list of edges of `pk` are still edges of `pk`, to
      stored nodes. */
  lemma EdgesTail(reqs: map<string, Requirement>, deps: seq<(string, bool)>, pk: string)
    requires deps != [] && pk in reqs
    requires forall j :: 0 <= j < |deps| ==> deps[j].0 in reqs && deps[j] in Deps(reqs[pk])
    ensures forall j :: 0 <= j < |deps[1..]| ==> deps[1..][j].0 in reqs && deps[1..][j] in Deps(reqs[pk])
  {
    forall j | 0 <= j < |deps[1..]| ensures deps[1..][j].0 in reqs && deps[1..][j] in Deps(reqs[pk]) {
      assert deps[1..][j] == deps[j + 1];
    }
  }

  lemma EachSound(s: Store, deps: seq<(string, bool)>, parent: string, seen: set<string>, u: set<string>, pk: string)
    requires Valid(s, u) && parent in seen
    requires forall j :: 0 <= j < |deps| ==> deps[j].0 in s.reqs
    requires Sound(s) && pk in s.reqs && s.reqs[pk].id == parent && OnPath(s.reqs, seen, pk)
    requires forall j :: 0 <= j < |deps| ==> deps[j] in Deps(s.reqs[pk])
    ensures Each(s, deps, parent, seen, u).Ok? ==> Sound(Each(s, deps, parent, seen, u).value)
    decreases |u - seen|, 1, |deps|, 1
  {
    if deps != [] {
      if Recorded(s.info[deps[0].0], parent, seen, deps[0].1) {
        EdgesTail(s.reqs, deps, pk);
        EachSound(s, deps[1..], parent, seen, u, pk);
        assert Each(s, deps, parent, seen, u).Ok? ==> Each(s, deps, parent, seen, u) == Each(s, deps[1..], parent, seen, u);
      } else {
        if Record(s, deps, parent, seen, u).Ok? {
          RecordSound(s, deps, parent, seen, u, pk);
        }
        assert Each(s, deps, parent, seen, u) == Record(s, deps, parent, seen, u);
      }
    }
  }

  /** Recording the first edge keeps the store sound, and every id on the
      path then reaches the node below the edge. */
  lemma RecordFirst(s: Store, deps: seq<(string, bool)>, parent: string, seen: set<string>, u: set<string>, pk: string)
    requires Valid(s, u) && parent in seen && deps != [] && deps[0].0 in s.reqs
    requires Sound(s) && pk in s.reqs && s.reqs[pk].id == parent && OnPath(s.reqs, seen, pk)
    requires deps[0] in Deps(s.reqs[pk])
    ensures var s1 := AddDependent(s, deps[0].0, parent, seen, deps[0].1);
            Valid(s1, u) && s1.reqs == s.reqs && Sound(s1) && OnPath(s1.reqs, seen, deps[0].0)
  {
    var d := deps[0].0;
    AddDependentStep(s, d, parent, seen, deps[0].1, u);
    AddSound(s, d, parent, seen, deps[0].1, pk);
    EdgeIsDep(s.reqs[pk], deps[0]);
    OnPathStep(s.reqs, seen, pk, d);
  }

  lemma RecordSound(s: Store, deps: seq<(string, bool)>, parent: string, seen: set<string>, u: set<string>, pk: string)
    requires Valid(s, u) && parent in seen && deps != []
    requires forall j :: 0 <= j < |deps| ==> deps[j].0 in s.reqs
    requires Sound(s) && pk in s.reqs && s.reqs[pk].id == parent && OnPath(s.reqs, seen, pk)
    requires forall j :: 0 <= j < |deps| ==> deps[j] in Deps(s.reqs[pk])
    requires Record(s, deps, parent, seen, u).Ok?
    ensures Sound(Record(s, deps, parent, seen, u).value)
    decreases |u - seen|, 1, |deps|, 0
  {
    var d := deps[0].0;
    var s1 := AddDependent(s, d, parent, seen, deps[0].1);
    RecordFirst(s, deps, parent, seen, u, pk);
    VisitSound(s1, d, seen, u);
    var s2 := Visit(s1, d, seen, u).value;
    OnPathGrows(s1.reqs, s2.reqs, seen, pk);
    assert s2.reqs[pk] == s.reqs[pk];
    EdgesTail(s2.reqs, deps, pk);
    EachSound(s2, deps[1..], parent, seen, u, pk);
    assert Record(s, deps, parent, seen, u) == Each(s2, deps[1..], parent, seen, u);
  }

  /** The whole pass from the root keeps every dependent set justified by
      the edges: a direct dependent has an edge of the set's kind to the
      node, an indirect one reaches a node with such an edge. */
  lemma FindSound(s: Store, root: string, u: set<string>)
    requires Valid(s, u) && root in s.reqs
    ensures Sound(s) && FindDependentCounts(s, root, u).Ok? ==> Sound(FindDependentCounts(s, root, u).value)
  {
    if Sound(s) {
      VisitSound(s, root, {}, u);
    }
  }

  /** The four dependent sets of a node, as one value. */
  function SetsOf(i: Info): (r: (set<string>, set<string>, set<string>, set<string>))
    ensures r.0 == i.direct && r.1 == i.directRecommended && r.2 == i.indirect && r.3 == i.indirectRecommended
  {
    (i.direct, i.directRecommended, i.indirect, i.indirectRecommended)
  }

  /** A pass that adds nodes and changes other fields but no dependent set,
      and gives new nodes empty ones, keeps the sets justified. */
  ghost predicate SetsKept(s2: Store, s: Store)
  {
    (forall k :: k in s.info ==> k in s2.info && SetsOf(s2.info[k]) == SetsOf(s.info[k])) &&
    (forall k :: k in s2.info && k !in s.info ==> SetsOf(s2.info[k]) == SetsOf(Unvisited))
  }

  lemma SoundKept(s: Store, s2: Store)
    requires Grows(s2, s) && SetsKept(s2, s)
    ensures Sound(s) ==> Sound(s2)
  {
    if Sound(s) {
      forall k | k in s2.info ensures SoundAt(s2.reqs, k, s2.info[k]) {
        if k in s.info {
          SoundAtGrows(s.reqs, s2.reqs, k, s.info[k]);
        }
      }
    }
  }

  /** The freshly built store has every dependent set empty. */
  lemma BuildSound(nodes: seq<Requirement>)
    ensures Sound(Build(nodes))
  {
  }
}
