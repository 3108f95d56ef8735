/**
 * `reqsById` and the analysis fields of its nodes: the store the analysis
 * passes read and write. Lookups go through `getReq`, which creates combat
 * nodes on demand; any other unknown reference is an error.
 */
module ReqsById {
  import opened Wrappers
  import opened AndOr
  import opened Requirements
  import opened Combat

  /** An integer or minus infinity (the depth of a node no pass reached). */
  datatype ExtInt = NegInf | Fin(n: int)

  /** `a >= b` on extended integers (minus infinity is below every integer). */
  predicate AtLeast(a: ExtInt, b: ExtInt)
  {
    b.NegInf? || (a.Fin? && a.n >= b.n)
  }

  lemma AtLeastTrans(a: ExtInt, b: ExtInt, c: ExtInt)
    requires AtLeast(a, b) && AtLeast(b, c)
    ensures AtLeast(a, c)
  {
  }

  /** The fields `convertToMapped` adds to a node. */
  datatype Info = Info(
    depth: ExtInt, depthRecommended: ExtInt,
    maxLevel: int, maxLevelRecommended: int,
    direct: set<string>, directRecommended: set<string>,
    indirect: set<string>, indirectRecommended: set<string>)

  /** `convertToMapped`'s defaults: depths at minus infinity, levels at 0,
      all four dependent sets empty. */
  const Unvisited: Info := Info(NegInf, NegInf, 0, 0, {}, {}, {}, {})

  const UnknownRequirement: string := "Unknown requirement: "

  /**
   * The nodes by storage key, each key's analysis fields, and the keys in
   * insertion order (the order `Array.from(reqsById)` lists them in).
   */
  datatype Store = Store(reqs: map<string, Requirement>, info: map<string, Info>, keys: seq<string>)

  predicate Distinct(keys: seq<string>)
  {
    forall i, j :: 0 <= i < j < |keys| ==> keys[i] != keys[j]
  }

  /** A node with no prerequisites at all: a pass stops there. */
  predicate Leafless(r: Requirement)
  {
    r.required == [] && r.recommended == []
  }

  lemma LeaflessLeaves(r: Requirement)
    requires Leafless(r)
    ensures r.AllLeaves() == []
  {
  }

  /** A node a pass can recurse below has its id in `u`; the combat nodes
      `getReq` creates have no prerequisites and need not be in it. */
  predicate NodeIn(r: Requirement, u: set<string>)
  {
    r.id in u || Leafless(r)
  }

  /**
   * A well-formed store: every node has analysis fields, the order lists each
   * key once, and `u` holds the ids of every node with prerequisites. A
   * finite `u` is what makes the passes terminate.
   */
  ghost predicate Valid(s: Store, u: set<string>)
  {
    s.info.Keys == s.reqs.Keys &&
    (forall k :: k in s.reqs <==> k in s.keys) &&
    Distinct(s.keys) &&
    forall k :: k in s.reqs ==> NodeIn(s.reqs[k], u)
  }

  /** Keys of combat nodes start with the combat kind's first letter, which
      no other kind shares. */
  predicate IsCombatKey(k: string)
  {
    |k| > 0 && k[0] == 'c'
  }

  lemma CombatKey(x: Ref)
    ensures IsCombatKey(RefID(x)) <==> x.kind == Requirements.Combat
  {
    assert RefID(x)[0] == KindName(x.kind)[0];
  }

  /** A store that only grew: old nodes kept, new keys are combat keys of
      nodes without prerequisites, appended to the order. */
  ghost predicate Grows(s2: Store, s1: Store)
  {
    (forall k :: k in s1.reqs ==> k in s2.reqs && s2.reqs[k] == s1.reqs[k]) &&
    (forall k :: k in s2.reqs && k !in s1.reqs ==> IsCombatKey(k) && Leafless(s2.reqs[k])) &&
    s1.keys <= s2.keys
  }

  lemma GrowsTrans(s1: Store, s2: Store, s3: Store)
    requires Grows(s2, s1) && Grows(s3, s2)
    ensures Grows(s3, s1)
  {
  }

  /** Analysis fields as they were on old keys, the defaults on new keys. */
  ghost predicate InfoKept(s2: Store, s1: Store)
  {
    (forall k :: k in s1.info ==> k in s2.info && s2.info[k] == s1.info[k]) &&
    (forall k :: k in s2.info && k !in s1.info ==> s2.info[k] == Unvisited)
  }

  // ----- getReq -----

  /**
   * `getReq`: a known id returns the stored node; a combat reference that
   * misses gets a new combat node stored under the reference's id with the
   * default fields; any other miss is an "Unknown requirement" error. The
   * key of the node is always `RefID(r)`, so the result is the new store.
   */
  function Lookup(s: Store, r: Ref): (res: Result<Store>)
    ensures res.Ok? <==> RefID(r) in s.reqs || r.kind == Requirements.Combat
    ensures res.Ok? ==> RefID(r) in res.value.reqs
    ensures res.Err? ==> res.message == UnknownRequirement + RefID(r)
  {
    var id := RefID(r);
    if id in s.reqs then Ok(s)
    else if r.kind == Requirements.Combat then
      Ok(Store(s.reqs[id := NewCombatRequirement(r.level)], s.info[id := Unvisited], s.keys + [id]))
    else Err(UnknownRequirement + id)
  }

  /** A hit changes nothing; a combat miss adds exactly the new combat node,
      with the defaults, at the end of the order. */
  lemma LookupSpec(s: Store, r: Ref)
    requires s.info.Keys == s.reqs.Keys
    ensures RefID(r) in s.reqs ==> Lookup(s, r) == Ok(s)
    ensures RefID(r) !in s.reqs && r.kind == Requirements.Combat ==>
              var s2 := Lookup(s, r).value;
              s2.reqs[RefID(r)] == NewCombatRequirement(r.level) &&
              s2.reqs.Keys == s.reqs.Keys + {RefID(r)} &&
              s2.info[RefID(r)] == Unvisited && s2.keys == s.keys + [RefID(r)]
    ensures Lookup(s, r).Ok? ==> Grows(Lookup(s, r).value, s) && InfoKept(Lookup(s, r).value, s)
  {
    if RefID(r) !in s.reqs && r.kind == Requirements.Combat {
      CombatKey(r);
    }
  }

  /** A lookup that succeeded leaves the node in place: looking the same
      reference up again returns the same node and changes nothing. */
  lemma LookupTwice(s: Store, r: Ref)
    requires Lookup(s, r).Ok?
    ensures Lookup(Lookup(s, r).value, r) == Lookup(s, r)
  {
  }

  /** A lookup keeps the store well formed: the combat node created on a
      miss has no prerequisites. */
  lemma LookupValid(s: Store, r: Ref, u: set<string>)
    requires Valid(s, u)
    ensures Lookup(s, r).Ok? ==> Valid(Lookup(s, r).value, u)
  {
    if RefID(r) !in s.reqs && r.kind == Requirements.Combat {
      var s2 := Lookup(s, r).value;
      assert NodeIn(NewCombatRequirement(r.level), u);
      forall k | k in s2.reqs ensures NodeIn(s2.reqs[k], u) {
        if k != RefID(r) {
          assert s2.reqs[k] == s.reqs[k];
        }
      }
      assert Distinct(s2.keys) by {
        forall i, j | 0 <= i < j < |s2.keys| ensures s2.keys[i] != s2.keys[j] {
          if j == |s.keys| {
            assert s.keys[i] in s.reqs;
          }
        }
      }
    }
  }

  // ----- `reqs.map(getRequirement)` -----

  /** Every reference looked up in order; the first unknown one stops the
      walk with its error. */
  function ResolveAll(s: Store, refs: seq<Ref>): (res: Result<Store>)
    requires s.info.Keys == s.reqs.Keys
    ensures res.Ok? ==> res.value.info.Keys == res.value.reqs.Keys
    ensures res.Ok? ==> Grows(res.value, s) && InfoKept(res.value, s)
    ensures res.Ok? ==> forall i :: 0 <= i < |refs| ==> RefID(refs[i]) in res.value.reqs
    decreases |refs|
  {
    if refs == [] then Ok(s)
    else
      match Lookup(s, refs[0])
      case Err(m) => Err(m)
      case Ok(s1) =>
        LookupSpec(s, refs[0]);
        var res := ResolveAll(s1, refs[1..]);
        if res.Ok? then
          GrowsTrans(s, s1, res.value);
          assert forall i :: 1 <= i < |refs| ==> refs[i] == refs[1..][i - 1];
          res
        else res
  }

  /** Resolution succeeds exactly when every reference is known or names
      combat. */
  lemma {:induction false} ResolveAllOk(s: Store, refs: seq<Ref>)
    requires s.info.Keys == s.reqs.Keys
    ensures ResolveAll(s, refs).Ok? <==>
              forall i :: 0 <= i < |refs| ==> RefID(refs[i]) in s.reqs || refs[i].kind == Requirements.Combat
    decreases |refs|
  {
    if refs != [] {
      LookupSpec(s, refs[0]);
      if Lookup(s, refs[0]).Ok? {
        var s1 := Lookup(s, refs[0]).value;
        ResolveAllOk(s1, refs[1..]);
        forall i | 1 <= i < |refs|
          ensures (RefID(refs[i]) in s1.reqs || refs[i].kind == Requirements.Combat) <==>
                  (RefID(refs[i]) in s.reqs || refs[i].kind == Requirements.Combat)
        {
          CombatKey(refs[i]);
          assert refs[i] == refs[1..][i - 1];
        }
      }
    }
  }

  /** A failed resolution names an unknown reference that is not combat. */
  lemma {:induction false} ResolveAllErr(s: Store, refs: seq<Ref>)
    requires s.info.Keys == s.reqs.Keys
    requires ResolveAll(s, refs).Err?
    ensures exists i :: 0 <= i < |refs| && RefID(refs[i]) !in s.reqs && refs[i].kind != Requirements.Combat &&
              ResolveAll(s, refs).message == UnknownRequirement + RefID(refs[i])
    decreases |refs|
  {
    LookupSpec(s, refs[0]);
    if Lookup(s, refs[0]).Ok? {
      var s1 := Lookup(s, refs[0]).value;
      ResolveAllErr(s1, refs[1..]);
      var i :| 0 <= i < |refs[1..]| && RefID(refs[1..][i]) !in s1.reqs && refs[1..][i].kind != Requirements.Combat &&
               ResolveAll(s1, refs[1..]).message == UnknownRequirement + RefID(refs[1..][i]);
      assert refs[1..][i] == refs[i + 1];
      assert 0 <= i + 1 < |refs| && RefID(refs[i + 1]) !in s.reqs;
    } else {
      assert 0 < |refs| && RefID(refs[0]) !in s.reqs;
    }
  }

  /** Resolution keeps the store well formed. */
  lemma {:induction false} ResolveAllValid(s: Store, refs: seq<Ref>, u: set<string>)
    requires Valid(s, u)
    ensures ResolveAll(s, refs).Ok? ==> Valid(ResolveAll(s, refs).value, u)
    decreases |refs|
  {
    if refs != [] {
      LookupValid(s, refs[0], u);
      if Lookup(s, refs[0]).Ok? {
        ResolveAllValid(Lookup(s, refs[0]).value, refs[1..], u);
      }
    }
  }

  // ----- building the map -----

  /** `reqsById` after setting every node under its id in turn: a later
      node with the same id replaces an earlier one. */
  function ById(nodes: seq<Requirement>): map<string, Requirement>
  {
    if nodes == [] then map[]
    else ById(nodes[..|nodes| - 1])[nodes[|nodes| - 1].id := nodes[|nodes| - 1]]
  }

  /** The map's iteration order: ids in order of first insertion. */
  function KeyOrder(nodes: seq<Requirement>): seq<string>
  {
    if nodes == [] then []
    else
      var prev := KeyOrder(nodes[..|nodes| - 1]);
      var id := nodes[|nodes| - 1].id;
      if id in prev then prev else prev + [id]
  }

  /** The analysis fields after `convertToMapped` on every node: the
      defaults under every id. */
  function Defaults(nodes: seq<Requirement>): (info: map<string, Info>)
    ensures info.Keys == ById(nodes).Keys
    ensures forall k :: k in info ==> info[k] == Unvisited
  {
    if nodes == [] then map[]
    else Defaults(nodes[..|nodes| - 1])[nodes[|nodes| - 1].id := Unvisited]
  }

  /** The store built from the node list, every node with the defaults. */
  function Build(nodes: seq<Requirement>): Store
  {
    Store(ById(nodes), Defaults(nodes), KeyOrder(nodes))
  }

  /** The ids of the nodes a store is built from. */
  ghost function NodeUniverse(nodes: seq<Requirement>): set<string>
  {
    set i | 0 <= i < |nodes| :: nodes[i].id
  }

  predicate HasId(nodes: seq<Requirement>, k: string)
  {
    exists i :: 0 <= i < |nodes| && nodes[i].id == k
  }

  lemma HasIdSnoc(nodes: seq<Requirement>, k: string)
    requires nodes != []
    ensures HasId(nodes, k) <==> HasId(nodes[..|nodes| - 1], k) || nodes[|nodes| - 1].id == k
  {
    var init := nodes[..|nodes| - 1];
    if HasId(nodes, k) && nodes[|nodes| - 1].id != k {
      var i :| 0 <= i < |nodes| && nodes[i].id == k;
      assert init[i] == nodes[i];
    }
    if HasId(init, k) {
      var i :| 0 <= i < |init| && init[i].id == k;
      assert init[i] == nodes[i];
    }
  }

  /** The map holds exactly the ids of the nodes. */
  lemma {:induction false} ByIdKeys(nodes: seq<Requirement>, k: string)
    ensures k in ById(nodes) <==> HasId(nodes, k)
    decreases |nodes|
  {
    if nodes != [] {
      ByIdKeys(nodes[..|nodes| - 1], k);
      HasIdSnoc(nodes, k);
    }
  }

  /** Each id is stored with the last node carrying it. */
  lemma {:induction false} ByIdValue(nodes: seq<Requirement>, k: string)
    requires k in ById(nodes)
    ensures ById(nodes)[k].id == k
    ensures exists i :: 0 <= i < |nodes| && ById(nodes)[k] == nodes[i] &&
              forall j :: i < j < |nodes| ==> nodes[j].id != k
    decreases |nodes|
  {
    var n := |nodes| - 1;
    var init := nodes[..n];
    if k == nodes[n].id {
      assert ById(nodes)[k] == nodes[n];
    } else {
      ByIdValue(init, k);
      var i :| 0 <= i < |init| && ById(init)[k] == init[i] && forall j :: i < j < |init| ==> init[j].id != k;
      assert init[i] == nodes[i];
      forall j | i < j < |nodes| ensures nodes[j].id != k {
        if j < n {
          assert nodes[j] == init[j];
        }
      }
    }
  }

  /** The iteration order lists each id of the nodes exactly once. */
  lemma {:induction false} KeyOrderSpec(nodes: seq<Requirement>)
    ensures forall k :: k in KeyOrder(nodes) <==> HasId(nodes, k)
    ensures Distinct(KeyOrder(nodes))
    decreases |nodes|
  {
    if nodes != [] {
      KeyOrderSpec(nodes[..|nodes| - 1]);
      forall k ensures k in KeyOrder(nodes) <==> HasId(nodes, k) {
        HasIdSnoc(nodes, k);
      }
    }
  }

  /** A built store is well formed for the universe of its nodes. */
  lemma BuildValid(nodes: seq<Requirement>)
    ensures Valid(Build(nodes), NodeUniverse(nodes))
  {
    var s := Build(nodes);
    var u := NodeUniverse(nodes);
    KeyOrderSpec(nodes);
    forall k ensures k in s.reqs <==> k in s.keys {
      ByIdKeys(nodes, k);
    }
    forall k | k in s.reqs ensures NodeIn(s.reqs[k], u) {
      ByIdValue(nodes, k);
      var i :| 0 <= i < |nodes| && nodes[i] == s.reqs[k] && forall j :: i < j < |nodes| ==> nodes[j].id != k;
      assert nodes[i].id in u;
    }
  }

  /** The loop of `getRequirements` that fills `reqsById`: each node set
      under its id with the defaults. */
  method ConvertAll(nodes: seq<Requirement>) returns (s: Store)
    ensures s == Build(nodes)
  {
    var byId: map<string, Requirement> := map[];
    var order: seq<string> := [];
    var fields: map<string, Info> := map[];
    var i := 0;
    while i < |nodes|
      invariant 0 <= i <= |nodes|
      invariant byId == ById(nodes[..i]) && order == KeyOrder(nodes[..i])
      invariant fields == Defaults(nodes[..i])
    {
      var n := nodes[i];
      assert nodes[..i + 1][..i] == nodes[..i];
      if n.id !in order {
        order := order + [n.id];
      }
      byId := byId[n.id := n];
      fields := fields[n.id := Unvisited];
      i := i + 1;
    }
    assert nodes[..|nodes|] == nodes;
    s := Store(byId, fields, order);
  }
}
