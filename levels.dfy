/**
 * `findMaxLevels`: the level a node needs, folded over its required tree
 * with `max` for AND and `min` for OR and seeded with the node's own level;
 * `maxLevelRecommended` is the larger of that and the same fold over the
 * recommended tree. One seen set is shared by the whole pass, so every node
 * is computed at most once, and a node reached again (a cycle, or a second
 * path) contributes the levels it holds at that moment.
 */
module MaxLevels {
  import opened Wrappers
  import opened Sets
  import opened AndOr
  import opened Requirements
  import opened Runescape
  import opened ReqsById

  function Max(a: int, b: int): int { if a >= b then a else b }

  function Min(a: int, b: int): int { if a <= b then a else b }

  /** The reducer `{and: Math.max, or: Math.min}`. */
  const MaxMin: Reducer<int> := Reducer(Max, Min)

  /** The starting value of both folds: a skill's own level, the average
      skill level of a combat level, 0 for quests and achievements. */
  function Seed(r: Requirement): int
  {
    if r.kind == Skill then r.level
    else if r.kind == Requirements.Combat then AvgLevelForCombatLvl(r.level)
    else 0
  }

  /** The level a node offers to a fold: `maxLevel` in the required tree,
      `maxLevelRecommended` in the recommended one. */
  function Level(i: Info, recommended: bool): int
  {
    if recommended then i.maxLevelRecommended else i.maxLevel
  }

  /** The level a leaf contributes, read from a store. */
  function Reader(s: Store, recommended: bool): Ref -> int
  {
    (x: Ref) => if RefID(x) in s.info then Level(s.info[RefID(x)], recommended) else 0
  }

  /** Only the two level fields differ. */
  predicate LevelsOnly(after: Info, before: Info)
  {
    after.depth == before.depth && after.depthRecommended == before.depthRecommended &&
    after.direct == before.direct && after.directRecommended == before.directRecommended &&
    after.indirect == before.indirect && after.indirectRecommended == before.indirectRecommended
  }

  /** The recommended level is at least the required one. */
  predicate Ordered(i: Info)
  {
    i.maxLevelRecommended >= i.maxLevel
  }

  ghost predicate AllOrdered(s: Store)
  {
    forall k :: k in s.info ==> Ordered(s.info[k])
  }

  /** Only level fields changed, and every node that changed, or was added,
      has its recommended level at least its required one. */
  ghost predicate LevelsChanged(s2: Store, s1: Store)
  {
    (forall k :: k in s1.info ==>
       k in s2.info && LevelsOnly(s2.info[k], s1.info[k]) && (s2.info[k] == s1.info[k] || Ordered(s2.info[k]))) &&
    (forall k :: k in s2.info && k !in s1.info ==> LevelsOnly(s2.info[k], Unvisited) && Ordered(s2.info[k]))
  }

  /** A node whose id was seen is not touched. */
  ghost predicate SeenKept(s2: Store, s1: Store, seen1: set<string>)
  {
    forall k :: k in s1.reqs && k in s1.info && s1.reqs[k].id in seen1 ==> k in s2.info && s2.info[k] == s1.info[k]
  }

  /**
   * What a step of the pass may do, from store `s1` with seen set `seen1` to
   * `s2` with `seen2`: keep the store well formed, add combat nodes, grow
   * the seen set, change only level fields, and leave the nodes whose id
   * was seen alone.
   */
  ghost predicate LevelStep(s2: Store, seen2: set<string>, s1: Store, seen1: set<string>, u: set<string>)
  {
    Valid(s2, u) && Grows(s2, s1) && seen1 <= seen2 && LevelsChanged(s2, s1) && SeenKept(s2, s1, seen1)
  }

  lemma LevelsChangedTrans(s1: Store, s2: Store, s3: Store)
    requires LevelsChanged(s2, s1) && LevelsChanged(s3, s2)
    ensures LevelsChanged(s3, s1)
  {
    forall k | k in s3.info && k !in s1.info ensures LevelsOnly(s3.info[k], Unvisited) && Ordered(s3.info[k]) {
    }
  }

  lemma SeenKeptTrans(s1: Store, a: set<string>, s2: Store, c: set<string>, s3: Store)
    requires SeenKept(s2, s1, a) && SeenKept(s3, s2, c) && Grows(s2, s1) && a <= c
    ensures SeenKept(s3, s1, a)
  {
  }

  lemma LevelStepTrans(s1: Store, a: set<string>, s2: Store, b: set<string>, c: set<string>, s3: Store, d: set<string>,
                       u: set<string>)
    requires LevelStep(s2, b, s1, a, u) && LevelStep(s3, d, s2, c, u) && a <= c
    ensures LevelStep(s3, d, s1, a, u)
  {
    GrowsTrans(s1, s2, s3);
    LevelsChangedTrans(s1, s2, s3);
    SeenKeptTrans(s1, a, s2, c, s3);
  }

  /** Resolving leaves changes no level. */
  lemma ResolveStep(s: Store, s2: Store, seen: set<string>, seen2: set<string>, u: set<string>)
    requires Valid(s2, u) && Grows(s2, s) && InfoKept(s2, s) && seen <= seen2
    ensures LevelStep(s2, seen2, s, seen, u)
  {
  }

  function SetMaxLevel(s: Store, key: string, v: int): (r: Store)
    requires key in s.info
  {
    s.(info := s.info[key := s.info[key].(maxLevel := v)])
  }

  function SetMaxLevelRecommended(s: Store, key: string, v: int): (r: Store)
    requires key in s.info
  {
    s.(info := s.info[key := s.info[key].(maxLevelRecommended := v)])
  }

  /** Every leaf's key is stored. */
  ghost predicate Resolved(s: Store, leaves: seq<Ref>)
  {
    forall x :: x in leaves ==> RefID(x) in s.reqs
  }

  /** Every leaf's key is stored and its node's id has been seen. */
  ghost predicate Visited(s: Store, seen: set<string>, leaves: seq<Ref>)
  {
    forall x :: x in leaves ==> RefID(x) in s.reqs && s.reqs[RefID(x)].id in seen
  }

  /**
   * `findMaxLevels(req, getRequirement, seen)` on the node under `key`:
   * nothing happens if its id was seen; otherwise the id joins the seen
   * set, the required leaves are resolved and folded into `maxLevel`, then
   * the recommended leaves are resolved and folded, and `maxLevelRecommended`
   * becomes the larger of the two folds. For a node without leaves both
   * folds are the seed.
   */
  function Visit(s: Store, seen: set<string>, key: string, ghost u: set<string>): (res: Result<(Store, set<string>)>)
    requires Valid(s, u) && key in s.reqs
    ensures res.Ok? ==> LevelStep(res.value.0, res.value.1, s, seen, u) && s.reqs[key].id in res.value.1
    ensures res.Ok? && s.reqs[key].id !in seen && NoSelfLeaf(s.reqs[key], key) ==> LevelsOf(res.value.0, s.reqs[key], key)
    decreases |u - seen|, 0, 2
  {
    var node := s.reqs[key];
    var seed := Seed(node);
    if node.id in seen then Ok((s, seen))
    else if Leafless(node) then
      LeaflessStep(s, seen, key, seed, u);
      Ok((SetMaxLevelRecommended(SetMaxLevel(s, key, seed), key, Max(seed, seed)), seen + {node.id}))
    else Compute(s, seen, key, u)
  }

  /** A node without leaves gets the seed as both levels. */
  lemma LeaflessStep(s: Store, seen: set<string>, key: string, seed: int, u: set<string>)
    requires Valid(s, u) && key in s.reqs && s.reqs[key].id !in seen
    ensures LevelStep(SetMaxLevelRecommended(SetMaxLevel(s, key, seed), key, Max(seed, seed)), seen + {s.reqs[key].id},
                      s, seen, u)
  {
    var s1 := SetMaxLevelRecommended(SetMaxLevel(s, key, seed), key, Max(seed, seed));
    assert s1.info.Keys == s.info.Keys;
  }

  /** A node seen for the first time, with leaves: the required fold,
      `maxLevel` written, then the recommended part. */
  function Compute(s: Store, seen: set<string>, key: string, ghost u: set<string>): (res: Result<(Store, set<string>)>)
    requires Valid(s, u) && key in s.reqs && s.reqs[key].id !in seen && !Leafless(s.reqs[key])
    ensures res.Ok? ==> LevelStep(res.value.0, res.value.1, s, seen, u) && s.reqs[key].id in res.value.1
    ensures res.Ok? && NoSelfLeaf(s.reqs[key], key) ==> LevelsOf(res.value.0, s.reqs[key], key)
    decreases |u - seen|, 0, 1
  {
    var node := s.reqs[key];
    RemainderShrinks(u, seen, node.id);
    var seen1 := seen + {node.id};
    match ResolveAll(s, Leaves(node.required))
    case Err(m) => Err(m)
    case Ok(s1) =>
      ResolveAllValid(s, Leaves(node.required), u);
      ResolveStep(s, s1, seen, seen1, u);
      match FoldTree(s1, seen1, node.required, false, false, Seed(node), Seed(node), u)
      case Err(m) => Err(m)
      case Ok((s2, seen2, v)) =>
        LevelStepTrans(s, seen, s1, seen1, seen1, s2, seen2, u);
        match Recommend(s2, seen, seen2, key, v, u)
        case Err(m) => Err(m)
        case Ok((s6, seen3)) =>
          LevelStepTrans(s, seen, s2, seen2, seen, s6, seen3, u);
          if NoSelfLeaf(node, key) then
            ComputeFacts(node, key, s2, seen2, v, s6);
            Ok((s6, seen3))
          else Ok((s6, seen3))
  }

  /** The node's leaves do not name its own key. */
  predicate NoSelfLeaf(node: Requirement, key: string)
  {
    forall x :: x in node.AllLeaves() ==> RefID(x) != key
  }

  /** The levels of a node the pass computed: `maxLevel` is the `reduce` of
      its required tree over the levels its prerequisites hold, and
      `maxLevelRecommended` the larger of that and the reduction of its
      recommended tree over their recommended levels. */
  ghost predicate LevelsOf(r: Store, node: Requirement, key: string)
  {
    key in r.info &&
    r.info[key].maxLevel == Reduce(node.required, Reader(r, false), MaxMin, Seed(node)) &&
    r.info[key].maxLevelRecommended == Max(r.info[key].maxLevel, Reduce(node.recommended, Reader(r, true), MaxMin, Seed(node)))
  }

  lemma ComputeFacts(node: Requirement, key: string, s2: Store, seen2: set<string>, v: int, r: Store)
    requires s2.info.Keys == s2.reqs.Keys && key in s2.reqs && s2.reqs[key] == node && NoSelfLeaf(node, key)
    requires Visited(s2, seen2, Leaves(node.required))
    requires v == Fold(node.required, false, Reader(s2, false), MaxMin, Seed(node), Seed(node))
    requires RecommendPost(r, s2, seen2, key, v)
    ensures LevelsOf(r, node, key)
  {
    forall x | x in Leaves(node.required) ensures Reader(s2, false)(x) == Reader(r, false)(x) {
      assert RefID(x) in s2.info;
    }
    FoldCongruence(node.required, false, Reader(s2, false), Reader(r, false), MaxMin, Seed(node), Seed(node));
  }

  /** After the required fold: `maxLevel` set to its result `v`, the
      recommended leaves resolved and folded, and `maxLevelRecommended` set
      to the larger of the two results. */
  function Recommend(s2: Store, seen: set<string>, seen2: set<string>, key: string, v: int, ghost u: set<string>)
    : (res: Result<(Store, set<string>)>)
    requires Valid(s2, u) && key in s2.reqs && !Leafless(s2.reqs[key])
    requires s2.reqs[key].id !in seen && seen + {s2.reqs[key].id} <= seen2
    ensures res.Ok? ==> LevelStep(res.value.0, res.value.1, s2, seen, u) && seen2 <= res.value.1
    ensures res.Ok? ==> RecommendPost(res.value.0, s2, seen2, key, v)
    decreases |u - seen|, 0, 0
  {
    var node := s2.reqs[key];
    RemainderShrinks(u, seen, node.id);
    RemainderNoLarger(u, seen + {node.id}, seen2);
    var s3 := SetMaxLevel(s2, key, v);
    match ResolveAll(s3, Leaves(node.recommended))
    case Err(m) => Err(m)
    case Ok(s4) =>
      ResolveAllValid(s3, Leaves(node.recommended), u);
      ResolveStep(s3, s4, seen2, seen2, u);
      match FoldTree(s4, seen2, node.recommended, false, true, Seed(node), Seed(node), u)
      case Err(m) => Err(m)
      case Ok((s5, seen3, w)) =>
        FinishStep(s2, seen, key, v, s4, s5, seen2, seen3, w, u);
        RecommendFacts(s2, key, v, s4, s5, seen2, seen3, w, u);
        Ok((SetMaxLevelRecommended(s5, key, Max(v, w)), seen3))
  }

  /** What `Recommend` leaves: `maxLevel` is the required fold's result `v`,
      every other node whose id is in `seen2` is as it was, and, unless the
      node lists itself, `maxLevelRecommended` is the larger of `v` and the
      fold of the recommended tree over the levels the store ends with. */
  ghost predicate RecommendPost(r: Store, s2: Store, seen2: set<string>, key: string, v: int)
    requires key in s2.reqs
  {
    key in r.info && r.info[key].maxLevel == v && KeptExcept(r, s2, seen2, key) &&
    ((forall x :: x in Leaves(s2.reqs[key].recommended) ==> RefID(x) != key) ==>
       r.info[key].maxLevelRecommended ==
         Max(v, Reduce(s2.reqs[key].recommended, Reader(r, true), MaxMin, Seed(s2.reqs[key]))))
  }

  /** Every node other than `key` whose id is in `seen` is as it was. */
  ghost predicate KeptExcept(r: Store, s: Store, seen: set<string>, key: string)
  {
    forall k :: k in s.reqs && k in s.info && k != key && s.reqs[k].id in seen ==> k in r.info && r.info[k] == s.info[k]
  }

  lemma RecommendFacts(s2: Store, key: string, v: int, s4: Store, s5: Store, seen2: set<string>, seen3: set<string>,
                       w: int, u: set<string>)
    requires key in s2.info && key in s2.reqs && s2.reqs[key].id in seen2
    requires Grows(s4, SetMaxLevel(s2, key, v)) && InfoKept(s4, SetMaxLevel(s2, key, v))
    requires LevelStep(s5, seen3, s4, seen2, u)
    requires w == Fold(s2.reqs[key].recommended, false, Reader(s5, true), MaxMin, Seed(s2.reqs[key]), Seed(s2.reqs[key]))
    ensures RecommendPost(SetMaxLevelRecommended(s5, key, Max(v, w)), s2, seen2, key, v)
  {
    var node := s2.reqs[key];
    RecommendKept(s2, key, v, s4, s5, seen2, Max(v, w));
    if forall x :: x in Leaves(node.recommended) ==> RefID(x) != key {
      RecommendFold(node, key, s5, w, Max(v, w));
    }
  }

  lemma RecommendKept(s2: Store, key: string, v: int, s4: Store, s5: Store, seen2: set<string>, m: int)
    requires key in s2.info && key in s2.reqs && s2.reqs[key].id in seen2
    requires Grows(s4, SetMaxLevel(s2, key, v)) && InfoKept(s4, SetMaxLevel(s2, key, v))
    requires SeenKept(s5, s4, seen2)
    ensures key in s5.info && s5.info[key].maxLevel == v
    ensures KeptExcept(SetMaxLevelRecommended(s5, key, m), s2, seen2, key)
  {
    var s3 := SetMaxLevel(s2, key, v);
    assert s4.reqs[key] == s3.reqs[key];
    forall k | k in s2.reqs && k in s2.info && k != key && s2.reqs[k].id in seen2
      ensures k in s5.info && s5.info[k] == s2.info[k]
    {
      assert s4.reqs[k] == s3.reqs[k];
    }
  }

  lemma RecommendFold(node: Requirement, key: string, s5: Store, w: int, m: int)
    requires key in s5.info
    requires w == Fold(node.recommended, false, Reader(s5, true), MaxMin, Seed(node), Seed(node))
    requires forall x :: x in Leaves(node.recommended) ==> RefID(x) != key
    ensures w == Reduce(node.recommended, Reader(SetMaxLevelRecommended(s5, key, m), true), MaxMin, Seed(node))
  {
    var r := SetMaxLevelRecommended(s5, key, m);
    forall x | x in Leaves(node.recommended) ensures Reader(s5, true)(x) == Reader(r, true)(x) {
    }
    FoldCongruence(node.recommended, false, Reader(s5, true), Reader(r, true), MaxMin, Seed(node), Seed(node));
  }

  /**
   * The helpers of `reduce` run over a tree of resolved leaves: each leaf's
   * node is visited, in iteration order, and then contributes its level;
   * the result is the fold of those levels, `max` in AND position and `min`
   * in OR position.
   */
  function FoldTree(s: Store, seen: set<string>, tree: seq<Elem<Ref>>, isOr: bool, recommended: bool, seed: int,
                    acc: int, ghost u: set<string>): (res: Result<(Store, set<string>, int)>)
    requires Valid(s, u) && Resolved(s, Leaves(tree))
    ensures res.Ok? ==>
              var (r, seen2, v) := res.value;
              LevelStep(r, seen2, s, seen, u) && Visited(r, seen2, Leaves(tree)) &&
              v == Fold(tree, isOr, Reader(r, recommended), MaxMin, seed, acc)
    decreases |u - seen|, 1, tree, 1
  {
    if tree == [] then Ok((s, seen, acc))
    else
      LeavesCons(tree);
      match FoldChild(s, seen, tree, recommended, seed, u)
      case Err(m) => Err(m)
      case Ok((s1, seen1, v)) =>
        RemainderNoLarger(u, seen, seen1);
        var acc1 := if isOr then MaxMin.or(acc, v) else MaxMin.and(acc, v);
        match FoldTree(s1, seen1, tree[1..], isOr, recommended, seed, acc1, u)
        case Err(m) => Err(m)
        case Ok((s2, seen2, r)) =>
          FoldCompose(s, seen, tree, isOr, recommended, seed, acc, s1, seen1, v, s2, seen2, r, u);
          Ok((s2, seen2, r))
  }

  /** The value of the first element of `tree`: a leaf's node visited and
      its level read, a nested group folded from the seed. */
  function FoldChild(s: Store, seen: set<string>, tree: seq<Elem<Ref>>, recommended: bool, seed: int,
                     ghost u: set<string>): (res: Result<(Store, set<string>, int)>)
    requires Valid(s, u) && tree != [] && Resolved(s, Leaves([tree[0]]))
    ensures res.Ok? ==>
              var (r, seen2, v) := res.value;
              LevelStep(r, seen2, s, seen, u) && Visited(r, seen2, Leaves([tree[0]])) &&
              v == ChildValue(tree[0], Reader(r, recommended), MaxMin, seed)
    decreases |u - seen|, 1, tree, 0
  {
    LeavesCons([tree[0]]);
    match tree[0]
    case Leaf(x) =>
      (match Visit(s, seen, RefID(x), u)
       case Err(m) => Err(m)
       case Ok((s1, seen1)) => Ok((s1, seen1, Reader(s1, recommended)(x))))
    case And(g) => FoldTree(s, seen, g, false, recommended, seed, seed, u)
    case Or(g) => FoldTree(s, seen, g, true, recommended, seed, seed, u)
  }

  /** The first element folded, then the rest: the levels read for the
      first element are not changed by the rest, since their nodes are
      seen. */
  lemma FoldCompose(s: Store, seen: set<string>, tree: seq<Elem<Ref>>, isOr: bool, recommended: bool, seed: int,
                    acc: int, s1: Store, seen1: set<string>, v: int, s2: Store, seen2: set<string>, r: int,
                    u: set<string>)
    requires tree != [] && Valid(s, u)
    requires LevelStep(s1, seen1, s, seen, u) && Visited(s1, seen1, Leaves([tree[0]]))
    requires v == ChildValue(tree[0], Reader(s1, recommended), MaxMin, seed)
    requires LevelStep(s2, seen2, s1, seen1, u) && Visited(s2, seen2, Leaves(tree[1..]))
    requires r == Fold(tree[1..], isOr, Reader(s2, recommended), MaxMin, seed,
                       if isOr then MaxMin.or(acc, v) else MaxMin.and(acc, v))
    ensures LevelStep(s2, seen2, s, seen, u) && Visited(s2, seen2, Leaves(tree))
    ensures r == Fold(tree, isOr, Reader(s2, recommended), MaxMin, seed, acc)
  {
    LevelStepTrans(s, seen, s1, seen1, seen1, s2, seen2, u);
    LeavesCons(tree);
    forall x | x in Leaves([tree[0]]) ensures Reader(s1, recommended)(x) == Reader(s2, recommended)(x) {
      assert s2.info[RefID(x)] == s1.info[RefID(x)];
    }
    ChildValueCongruence(tree[0], Reader(s1, recommended), Reader(s2, recommended), MaxMin, seed);
    FoldCons(tree, isOr, Reader(s2, recommended), MaxMin, seed, acc);
  }

  /** From the store after the required fold: `maxLevel` written, then
      everything the recommended part does, then `maxLevelRecommended`
      written, which leaves the node ordered. */
  lemma FinishStep(s2: Store, seen: set<string>, key: string, v: int, s4: Store, s5: Store, seen2: set<string>,
                   seen3: set<string>, w: int, u: set<string>)
    requires Valid(s2, u) && key in s2.reqs && s2.reqs[key].id !in seen && s2.reqs[key].id in seen2 && seen <= seen2
    requires LevelStep(s4, seen2, SetMaxLevel(s2, key, v), seen2, u)
    requires LevelStep(s5, seen3, s4, seen2, u)
    ensures LevelStep(SetMaxLevelRecommended(s5, key, Max(v, w)), seen3, s2, seen, u)
  {
    var s3 := SetMaxLevel(s2, key, v);
    LevelStepTrans(s3, seen2, s4, seen2, seen2, s5, seen3, u);
    FinishShape(s2, key, v, s5, w, u);
    FinishChanged(s2, key, v, s5, w);
    FinishKept(s2, key, v, s5, w, seen, seen2);
  }

  /** Writing analysis fields keeps a store well formed. */
  lemma InfoOnly(s: Store, s2: Store, u: set<string>)
    requires Valid(s, u) && s2.reqs == s.reqs && s2.keys == s.keys && s2.info.Keys == s.info.Keys
    ensures Valid(s2, u) && Grows(s2, s)
  {
  }

  lemma FinishShape(s2: Store, key: string, v: int, s5: Store, w: int, u: set<string>)
    requires Valid(s2, u) && key in s2.info && Valid(s5, u) && Grows(s5, SetMaxLevel(s2, key, v)) && key in s5.info
    ensures Valid(SetMaxLevelRecommended(s5, key, Max(v, w)), u) && Grows(SetMaxLevelRecommended(s5, key, Max(v, w)), s2)
  {
    var s3 := SetMaxLevel(s2, key, v);
    var s6 := SetMaxLevelRecommended(s5, key, Max(v, w));
    InfoOnly(s2, s3, u);
    InfoOnly(s5, s6, u);
    GrowsTrans(s2, s3, s5);
    GrowsTrans(s2, s5, s6);
  }

  lemma FinishChanged(s2: Store, key: string, v: int, s5: Store, w: int)
    requires key in s2.info && LevelsChanged(s5, SetMaxLevel(s2, key, v))
    requires s5.info[key] == SetMaxLevel(s2, key, v).info[key]
    ensures LevelsChanged(SetMaxLevelRecommended(s5, key, Max(v, w)), s2)
  {
    var s3 := SetMaxLevel(s2, key, v);
    var s6 := SetMaxLevelRecommended(s5, key, Max(v, w));
    forall k | k in s2.info
      ensures k in s6.info && LevelsOnly(s6.info[k], s2.info[k]) && (s6.info[k] == s2.info[k] || Ordered(s6.info[k]))
    {
      if k != key {
        assert s3.info[k] == s2.info[k];
      }
    }
  }

  lemma FinishKept(s2: Store, key: string, v: int, s5: Store, w: int, seen: set<string>, seen2: set<string>)
    requires key in s2.info && key in s2.reqs && s2.reqs[key].id !in seen && seen <= seen2 && key in s5.info
    requires SeenKept(s5, SetMaxLevel(s2, key, v), seen2)
    ensures SeenKept(SetMaxLevelRecommended(s5, key, Max(v, w)), s2, seen)
  {
  }

  /** The pass run from the root with an empty seen set. */
  function FindMaxLevels(s: Store, root: string, ghost u: set<string>): (res: Result<Store>)
    requires Valid(s, u) && root in s.reqs
    ensures res.Ok? ==> Valid(res.value, u) && Grows(res.value, s) && LevelsChanged(res.value, s)
    ensures res.Ok? && AllOrdered(s) ==> AllOrdered(res.value)
    ensures res.Ok? && NoSelfLeaf(s.reqs[root], root) ==> LevelsOf(res.value, s.reqs[root], root)
  {
    match Visit(s, {}, root, u)
    case Err(m) => Err(m)
    case Ok((r, _)) => Ok(r)
  }
}
