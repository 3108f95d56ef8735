/**
 * `createCompletionistCapeSteps` after the scraping: the ending
 * requirement is found among the achievements and made to require a
 * master quest cape (an achievement requiring every quest); the steps are
 * the generated skill steps, the quests, the achievements and the cape;
 * the tally gives the priorities, `addMaxLevel` the level maxima, and the
 * steps are sorted and numbered.
 */
module CompReqs {
  import opened Wrappers
  import opened Sorting
  import opened CompSteps
  import CS = CompShortcut
  import opened CompPriority
  import opened Assoc
  import CL = CompLevels
  import R = ReqsById

  /** The sort's comparator: the higher priority first, then the lower
      level. */
  function StepOrder(a: Step, b: Step): int
  {
    if b.priority - a.priority != 0 then b.priority - a.priority else a.node.level - b.node.level
  }

  /** A step may come before another exactly when its priority is higher,
      or equal with a level no higher. */
  lemma StepOrderMeaning(a: Step, b: Step)
    ensures StepOrder(a, b) <= 0 <==> a.priority > b.priority || (a.priority == b.priority && a.node.level <= b.node.level)
  {
  }

  lemma StepOrderTotal()
    ensures Total(StepOrder)
  {
    forall a: Step, b: Step ensures StepOrder(a, b) <= 0 || StepOrder(b, a) <= 0 {
      StepOrderMeaning(a, b);
      StepOrderMeaning(b, a);
    }
  }

  const Ending := "Completionist"
  const EndingMissing := "Ending requirement not found!"
  const CapeName := "Master quest cape"

  /** `achievements.find(a => a.name === 'Completionist')`, as a
      position. */
  function FindEnding(achievements: seq<Node>): (r: Option<nat>)
    ensures r.Some? ==> r.value < |achievements| && achievements[r.value].name == Ending
    ensures r.Some? ==> forall j :: 0 <= j < r.value ==> achievements[j].name != Ending
    ensures r.None? ==> forall j :: 0 <= j < |achievements| ==> achievements[j].name != Ending
  {
    if achievements == [] then None
    else if achievements[0].name == Ending then Some(0)
    else
      match FindEnding(achievements[1..])
      case None => None
      case Some(j) => Some(j + 1)
  }

  /** The master quest cape: an achievement with every quest as a required
      quest, and nothing else. */
  function MasterQuestCape(quests: seq<Node>): (n: Node)
    ensures n.kind == Achievement && n.name == CapeName && n.level == 0
    ensures |n.quests| == |quests| && forall j :: 0 <= j < |quests| ==> n.quests[j].name == quests[j].name && n.quests[j].required
    ensures n.achievements == [] && n.skills == []
  {
    Node(Achievement, CapeName, "Master_quest_cape", 0,
         seq(|quests|, j requires 0 <= j < |quests| => QuestRef(quests[j].name, true)), [], [])
  }

  /** The ending requirement after the cape is pushed onto its
      achievements. */
  function WithCape(n: Node): (r: Node)
    ensures r.achievements == n.achievements + [CapeName]
    ensures r.kind == n.kind && r.name == n.name && r.level == n.level && r.quests == n.quests && r.skills == n.skills
  {
    n.(achievements := n.achievements + [CapeName])
  }

  function FreshAll(nodes: seq<Node>): (r: seq<Step>)
    ensures |r| == |nodes| && forall k :: 0 <= k < |nodes| ==> r[k] == Fresh(nodes[k])
  {
    seq(|nodes|, k requires 0 <= k < |nodes| => Fresh(nodes[k]))
  }

  function Nodes(s: seq<Step>): (r: seq<Node>)
    ensures |r| == |s| && forall k :: 0 <= k < |s| ==> r[k] == s[k].node
  {
    seq(|s|, k requires 0 <= k < |s| => s[k].node)
  }

  /** The steps with their numbers cleared: what the planner computed for
      each step, before the numbering. */
  function Unnumbered(s: seq<Step>): (r: seq<Step>)
    ensures |r| == |s| && forall k :: 0 <= k < |s| ==> r[k] == s[k].(order := 0)
  {
    seq(|s|, k requires 0 <= k < |s| => s[k].(order := 0))
  }

  lemma UnnumberedAppend(a: seq<Step>, b: seq<Step>)
    ensures Unnumbered(a + b) == Unnumbered(a) + Unnumbered(b)
  {
  }

  /** Two orderings of the same steps stay two orderings of the same steps
      once their numbers are cleared. */
  lemma {:induction false} UnnumberedPermutation(a: seq<Step>, b: seq<Step>)
    requires multiset(a) == multiset(b)
    ensures multiset(Unnumbered(a)) == multiset(Unnumbered(b))
    decreases |a|
  {
    if a == [] {
      assert |b| == |multiset(b)| == 0;
    } else {
      var x := a[0];
      assert x in multiset(b);
      var i :| 0 <= i < |b| && b[i] == x;
      var rest := b[..i] + b[i + 1..];
      assert b == b[..i] + [x] + b[i + 1..];
      assert a == [x] + a[1..];
      assert multiset(b) == multiset(b[..i]) + multiset{x} + multiset(b[i + 1..]);
      assert multiset(rest) == multiset(b[..i]) + multiset(b[i + 1..]);
      assert multiset(a) == multiset{x} + multiset(a[1..]);
      assert multiset(a[1..]) == multiset(a) - multiset{x};
      assert multiset(rest) == multiset(b) - multiset{x};
      UnnumberedPermutation(a[1..], rest);
      UnnumberedAppend([x], a[1..]);
      UnnumberedAppend(b[..i] + [x], b[i + 1..]);
      UnnumberedAppend(b[..i], [x]);
      UnnumberedAppend(b[..i], b[i + 1..]);
    }
  }

  /** What `mapReqOrder` from the step at `root` leaves: the tally of its
      node succeeded, and every step gained exactly what the tally gives
      it. */
  ghost predicate Tallied(st: seq<Step>, st1: seq<Step>, root: nat, byName: map<string, nat>, levelReqs: map<string, map<int, nat>>)
  {
    root < |st| && Indexed(st, byName, levelReqs) &&
    var res := CS.MapShortcut(st[root].node, NodeMap(st, byName), [], map[]);
    res.Ok? && |st1| == |st| &&
    forall k :: 0 <= k < |st| ==> st1[k] == st[k].(priority := st[k].priority + Gain(res.value.0, byName, levelReqs, k))
  }

  /** What `addMaxLevel` from the step at `root` leaves: only the maxima of
      the steps it reached changed, both maxima of the root are the highest
      of its own skill levels and of what its two passes read, and every
      recommended maximum is at least the required one. */
  ghost predicate Levelled(st: seq<Step>, st2: seq<Step>, root: nat, byName: map<string, nat>)
  {
    root < |st| && CL.Frame(st, st2, byName, {}, root) && CL.Done(st2[root]) && CL.Sound(st2) &&
    var node, path := st[root].node, {st[root].node.name};
    st2[root].maxReq == Some(CL.MaxAll(CL.OwnLevels(node.skills) + CL.Reads(st2, CL.ReqNames(node), byName, path, false))) &&
    st2[root].maxRec == Some(CL.MaxAll(CL.OwnLevels(node.skills) + CL.Reads(st2, CL.AllNames(node), byName, path, true)))
  }

  /** `steps` are, up to their numbering, what the tally and then
      `addMaxLevel` from the step at `root` make of `st`. */
  ghost predicate Derived(st: seq<Step>, root: nat, byName: map<string, nat>, levelReqs: map<string, map<int, nat>>, steps: seq<Step>)
  {
    exists st1, st2 :: Tallied(st, st1, root, byName, levelReqs) && Levelled(st1, st2, root, byName) &&
                       multiset(Unnumbered(steps)) == multiset(Unnumbered(st2))
  }

  /** Every node the planner orders: the skill steps, the quests, the
      achievements with the ending requirement needing the cape, and the
      cape. */
  function Planned(quests: seq<Node>, achievements: seq<Node>, e: nat): seq<Node>
    requires e < |achievements|
  {
    Nodes(SkillSteps(SkillNames)) + quests + achievements[e := WithCape(achievements[e])] + [MasterQuestCape(quests)]
  }

  predicate StartsWith(msg: string, prefix: string)
  {
    |prefix| <= |msg| && msg[..|prefix|] == prefix
  }

  /** The messages the planner can fail with. */
  predicate Failure(msg: string)
  {
    msg == EndingMissing || StartsWith(msg, CS.NotFound) || StartsWith(msg, NoRequirement) ||
    StartsWith(msg, NoSkill) || StartsWith(msg, CL.NoName)
  }

  /** None of the other messages is the missing-ending one. */
  lemma OtherFailures(msg: string)
    requires StartsWith(msg, CS.NotFound) || StartsWith(msg, NoRequirement) || StartsWith(msg, NoSkill) || StartsWith(msg, CL.NoName)
    ensures msg != EndingMissing
  {
    assert EndingMissing[0] == 'E' && CS.NotFound[0] == 'C' && NoRequirement[0] == 'N' && NoSkill[0] == 'N';
    assert |CL.NoName| > |EndingMissing|;
    assert StartsWith(msg, CS.NotFound) ==> msg[..|CS.NotFound|][0] == msg[0];
  }

  /** `mappedRequirements.forEach((r, index) => (r.order = index))`. */
  method Number(s: seq<Step>) returns (r: seq<Step>)
    ensures |r| == |s| && forall k :: 0 <= k < |s| ==> r[k] == s[k].(order := k)
  {
    r := s;
    for k := 0 to |s|
      invariant |r| == |s|
      invariant forall i :: 0 <= i < |s| ==> r[i] == if i < k then s[i].(order := i) else s[i]
    {
      r := r[k := r[k].(order := k)];
    }
  }

  lemma {:induction false} InsertNodes(x: Step, sorted: seq<Step>)
    ensures multiset(Nodes(Insert(x, sorted, StepOrder))) == multiset(Nodes(sorted)) + multiset{x.node}
    decreases |sorted|
  {
    if sorted == [] || StepOrder(x, sorted[0]) <= 0 {
      assert Nodes([x] + sorted) == [x.node] + Nodes(sorted);
    } else {
      InsertNodes(x, sorted[1..]);
      assert Nodes([sorted[0]] + Insert(x, sorted[1..], StepOrder)) == [sorted[0].node] + Nodes(Insert(x, sorted[1..], StepOrder));
      assert Nodes(sorted) == [sorted[0].node] + Nodes(sorted[1..]);
    }
  }

  /** Sorting moves the nodes, never adds or drops one. */
  lemma {:induction false} SortNodes(s: seq<Step>)
    ensures multiset(Nodes(Sort(s, StepOrder))) == multiset(Nodes(s))
    decreases |s|
  {
    if s != [] {
      var rest := Sort(s[1..], StepOrder);
      assert Sort(s, StepOrder) == Insert(s[0], rest, StepOrder);
      SortNodes(s[1..]);
      InsertNodes(s[0], rest);
      assert Nodes(s) == [s[0].node] + Nodes(s[1..]);
      assert multiset(Nodes(s)) == multiset{s[0].node} + multiset(Nodes(s[1..]));
    }
  }

  /** A step of one of two permutations of each other is in the other. */
  lemma PermutationMember(s: seq<Step>, t: seq<Step>, k: int)
    requires multiset(s) == multiset(t) && 0 <= k < |s|
    ensures s[k] in t
  {
    assert s[k] in multiset(s);
  }

  /** The steps before planning: the skill steps, then fresh steps for the
      quests, for the achievements with the one at `e` needing the cape,
      and for the cape. */
  function Start(quests: seq<Node>, achievements: seq<Node>, e: nat): (st: seq<Step>)
    requires e < |achievements|
    ensures |st| == |SkillSteps(SkillNames)| + |quests| + |achievements| + 1
  {
    SkillSteps(SkillNames) + FreshAll(quests) + FreshAll(achievements[e := WithCape(achievements[e])]) + [Fresh(MasterQuestCape(quests))]
  }

  /** Where the ending requirement `e` sits among the steps of `Start`. */
  function EndingIndex(quests: seq<Node>, e: nat): nat
  {
    |SkillSteps(SkillNames)| + |quests| + e
  }

  /** `createCompletionistCapeSteps` on the scraped quests and
      achievements: it fails exactly with the missing-ending message when
      no achievement is the ending requirement, and otherwise with the
      message of the tally or of `addMaxLevel`. Its steps are the planned
      nodes, sorted by the comparator and numbered in that order, with the
      recommended maximum never below the required one, and the ending
      requirement has both maxima. */
  method CreateSteps(quests: seq<Node>, achievements: seq<Node>) returns (r: Result<seq<Step>>)
    ensures FindEnding(achievements).None? <==> r == Err(EndingMissing)
    ensures r.Err? ==> Failure(r.message)
    ensures r.Ok? ==> FindEnding(achievements).Some? && SortedBy(r.value, StepOrder)
    ensures r.Ok? ==> forall k :: 0 <= k < |r.value| ==> r.value[k].order == k
    ensures r.Ok? && FindEnding(achievements).Some? ==>
              multiset(Nodes(r.value)) == multiset(Planned(quests, achievements, FindEnding(achievements).value))
    ensures r.Ok? ==> CL.Sound(r.value)
    ensures r.Ok? && FindEnding(achievements).Some? ==>
              exists k :: 0 <= k < |r.value| && r.value[k].node == WithCape(achievements[FindEnding(achievements).value]) && CL.Done(r.value[k])
    ensures r.Ok? && FindEnding(achievements).Some? ==>
              var e, from := FindEnding(achievements).value, |SkillSteps(SkillNames)|;
              var st := Start(quests, achievements, e);
              var root, byName := EndingIndex(quests, e), NameIndex(st, from);
              Derived(st, root, byName, LevelIndexes(SkillSteps(SkillNames), SkillNames), r.value)
  {
    var found := FindEnding(achievements);
    if found.None? {
      return Err(EndingMissing);
    }
    var e := found.value;
    var mqc := MasterQuestCape(quests);
    var ending := WithCape(achievements[e]);
    var achs := achievements[e := ending];
    var skills := GetSkillRequirements();
    var st := Start(quests, achievements, e);
    var byName := NameIndex(st, |skills|);
    var levelReqs := LevelIndexes(skills, SkillNames);
    var root := EndingIndex(quests, e);
    Initial(quests, achievements, e);
    r := Plan(st, |skills|, root, byName, levelReqs);
  }

  /** The steps before planning: the skill steps, with a required maximum
      but no recommended one, then fresh steps for the quests, the
      achievements with the ending requirement needing the cape, and the
      cape. */
  lemma Initial(quests: seq<Node>, achievements: seq<Node>, e: nat)
    requires e < |achievements|
    ensures var skills := SkillSteps(SkillNames);
            var st := skills + FreshAll(quests) + FreshAll(achievements[e := WithCape(achievements[e])]) + [Fresh(MasterQuestCape(quests))];
            Nodes(st) == Planned(quests, achievements, e) &&
            st[|skills| + |quests| + e] == Fresh(WithCape(achievements[e])) &&
            (forall k :: 0 <= k < |st| ==> st[k].maxRec.None?) &&
            (forall k :: |skills| <= k < |st| ==> st[k].maxReq.None?)
  {
    var skills := SkillSteps(SkillNames);
    var st := skills + FreshAll(quests) + FreshAll(achievements[e := WithCape(achievements[e])]) + [Fresh(MasterQuestCape(quests))];
    forall k | 0 <= k < |skills| ensures st[k].maxRec.None? {
      SkillStepsSound(SkillNames, k);
    }
  }

  /** The rest of `createCompletionistCapeSteps` on the initial steps: the
      tally, `addMaxLevel` from the ending requirement at `root`, the sort
      and the numbering. Its errors are the tally's and `addMaxLevel`'s;
      otherwise the steps come back with the same nodes, sorted, numbered,
      sound, and with the ending requirement done. */
  method Plan(st: seq<Step>, from: nat, root: nat, byName: map<string, nat>, levelReqs: map<string, map<int, nat>>) returns (r: Result<seq<Step>>)
    requires from <= root < |st| && forall n :: n in byName ==> from <= byName[n] < |st| && st[byName[n]].node.name == n
    requires forall n, l :: n in levelReqs && l in levelReqs[n] ==> levelReqs[n][l] < |st|
    requires forall k :: 0 <= k < |st| ==> st[k].maxRec.None?
    requires forall k :: from <= k < |st| ==> st[k].maxReq.None?
    ensures r.Err? ==> Failure(r.message) && r.message != EndingMissing
    ensures r.Ok? ==> SortedBy(r.value, StepOrder) && CL.Sound(r.value) && forall k :: 0 <= k < |r.value| ==> r.value[k].order == k
    ensures r.Ok? ==> multiset(Nodes(r.value)) == multiset(Nodes(st))
    ensures r.Ok? ==> exists k :: 0 <= k < |r.value| && r.value[k].node == st[root].node && CL.Done(r.value[k])
    ensures r.Ok? ==> Derived(st, root, byName, levelReqs, r.value)
  {
    var mapped := Tally(st, root, byName, levelReqs);
    if mapped.Err? {
      return Err(mapped.message);
    }
    var st1 := mapped.value;
    Prepared(st, st1, from, byName, root);
    assert Nodes(st1) == Nodes(st);
    r := LevelAndSort(st1, root, byName);
  }

  /** `mapReqOrder` from the ending requirement: it fails with the tally's
      messages, and otherwise changes priorities only. */
  method Tally(st: seq<Step>, root: nat, byName: map<string, nat>, levelReqs: map<string, map<int, nat>>) returns (r: Result<seq<Step>>)
    requires root < |st| && Indexed(st, byName, levelReqs)
    ensures r.Err? ==> Failure(r.message) && r.message != EndingMissing
    ensures r.Ok? ==> |r.value| == |st| && forall k :: 0 <= k < |st| ==> r.value[k] == st[k].(priority := r.value[k].priority)
    ensures r.Ok? ==> Tallied(st, r.value, root, byName, levelReqs)
  {
    r := MapReqOrder(st[root].node, st, byName, levelReqs);
    if r.Err? {
      MapFailure(st[root].node, st, byName, levelReqs, r.message);
    }
  }

  /** `addMaxLevel` from the ending requirement, then the sort and the
      numbering. */
  method LevelAndSort(st: seq<Step>, root: nat, byName: map<string, nat>) returns (r: Result<seq<Step>>)
    requires CL.Table(st, byName) && CL.Paired(st, byName, {}) && CL.Sound(st)
    requires root < |st| && st[root].maxReq.None? && st[root].maxRec.None?
    ensures r.Err? ==> Failure(r.message) && r.message != EndingMissing
    ensures r.Ok? ==> SortedBy(r.value, StepOrder) && CL.Sound(r.value) && forall k :: 0 <= k < |r.value| ==> r.value[k].order == k
    ensures r.Ok? ==> multiset(Nodes(r.value)) == multiset(Nodes(st))
    ensures r.Ok? ==> exists k :: 0 <= k < |r.value| && r.value[k].node == st[root].node && CL.Done(r.value[k])
    ensures r.Ok? ==> exists st2 :: Levelled(st, st2, root, byName) && multiset(Unnumbered(r.value)) == multiset(Unnumbered(st2))
  {
    var levelled := CL.AddMaxLevel(st, root, byName, {});
    if levelled.Err? {
      OtherFailures(levelled.message);
      return Err(levelled.message);
    }
    var st2 := levelled.value;
    assert Nodes(st2) == Nodes(st);
    assert {} + {st[root].node.name} == {st[root].node.name};
    assert Levelled(st, st2, root, byName);
    var numbered := SortAndNumber(st2, root);
    return Ok(numbered);
  }

  /** The sort by `StepOrder`, then the numbering in sorted order. */
  method SortAndNumber(st2: seq<Step>, root: nat) returns (numbered: seq<Step>)
    requires CL.Sound(st2) && root < |st2|
    ensures SortedBy(numbered, StepOrder) && CL.Sound(numbered) && forall k :: 0 <= k < |numbered| ==> numbered[k].order == k
    ensures multiset(Nodes(numbered)) == multiset(Nodes(st2))
    ensures multiset(Unnumbered(numbered)) == multiset(Unnumbered(st2))
    ensures exists k :: 0 <= k < |numbered| && numbered[k].node == st2[root].node &&
                        numbered[k].maxReq == st2[root].maxReq && numbered[k].maxRec == st2[root].maxRec
  {
    var sorted := Sort(st2, StepOrder);
    StepOrderTotal();
    SortSorted(st2, StepOrder);
    SortNodes(st2);
    numbered := Number(sorted);
    Finished(st2, sorted, numbered, root);
    UnnumberedPermutation(sorted, st2);
    assert Unnumbered(numbered) == Unnumbered(sorted);
  }

  /** The tally fails with a missing prerequisite, a missing step or a
      missing level table. */
  lemma MapFailure(root: Node, st: seq<Step>, byName: map<string, nat>, levelReqs: map<string, map<int, nat>>, msg: string)
    requires Indexed(st, byName, levelReqs)
    requires var res := CS.MapShortcut(root, NodeMap(st, byName), [], map[]);
             (res.Err? && msg == res.message) ||
             (res.Ok? && (Reports(msg, NoRequirement, Keys(res.value.0.quests) + Keys(res.value.0.achievements), byName.Keys) ||
                          Reports(msg, NoSkill, Keys(res.value.0.skills), levelReqs.Keys)))
    ensures Failure(msg) && msg != EndingMissing
  {
    var res := CS.MapShortcut(root, NodeMap(st, byName), [], map[]);
    if res.Err? {
      assert StartsWith(msg, CS.NotFound);
    }
    OtherFailures(msg);
  }

  /** Before `addMaxLevel`: the name table leads to fresh steps only, so
      every step it can visit has neither maximum. */
  lemma Prepared(st: seq<Step>, st1: seq<Step>, from: nat, byName: map<string, nat>, root: nat)
    requires from <= root < |st|
    requires forall k :: 0 <= k < |st| ==> st[k].maxRec.None?
    requires forall k :: from <= k < |st| ==> st[k].maxReq.None?
    requires forall n :: n in byName ==> from <= byName[n] < |st| && st[byName[n]].node.name == n
    requires |st1| == |st| && forall k :: 0 <= k < |st| ==> st1[k] == st[k].(priority := st1[k].priority)
    ensures CL.Table(st1, byName) && CL.Paired(st1, byName, {}) && CL.Sound(st1)
    ensures st1[root].maxReq.None? && st1[root].maxRec.None? && st1[root].node == st[root].node
  {
  }

  /** Numbering keeps the order, the soundness, the nodes, and every
      step's fields other than its number. */
  lemma Finished(st2: seq<Step>, sorted: seq<Step>, numbered: seq<Step>, root: nat)
    requires multiset(sorted) == multiset(st2) && multiset(Nodes(sorted)) == multiset(Nodes(st2))
    requires SortedBy(sorted, StepOrder) && CL.Sound(st2) && root < |st2|
    requires |numbered| == |sorted| && forall k :: 0 <= k < |sorted| ==> numbered[k] == sorted[k].(order := k)
    ensures SortedBy(numbered, StepOrder) && CL.Sound(numbered)
    ensures multiset(Nodes(numbered)) == multiset(Nodes(st2))
    ensures exists k :: 0 <= k < |numbered| && numbered[k].node == st2[root].node &&
                        numbered[k].maxReq == st2[root].maxReq && numbered[k].maxRec == st2[root].maxRec
  {
    FinishedOrder(sorted, numbered);
    FinishedSound(st2, sorted, numbered);
    assert Nodes(numbered) == Nodes(sorted);
    PermutationMember(st2, sorted, root);
    var k :| 0 <= k < |sorted| && sorted[k] == st2[root];
    assert numbered[k].node == st2[root].node;
  }

  lemma FinishedOrder(sorted: seq<Step>, numbered: seq<Step>)
    requires SortedBy(sorted, StepOrder)
    requires |numbered| == |sorted| && forall k :: 0 <= k < |sorted| ==> numbered[k] == sorted[k].(order := k)
    ensures SortedBy(numbered, StepOrder)
  {
    forall i | 0 <= i < |numbered| - 1 ensures StepOrder(numbered[i], numbered[i + 1]) <= 0 {
      assert StepOrder(sorted[i], sorted[i + 1]) <= 0;
    }
  }

  lemma FinishedSound(st2: seq<Step>, sorted: seq<Step>, numbered: seq<Step>)
    requires multiset(sorted) == multiset(st2) && CL.Sound(st2)
    requires |numbered| == |sorted| && forall k :: 0 <= k < |sorted| ==> numbered[k] == sorted[k].(order := k)
    ensures CL.Sound(numbered)
  {
    forall k | 0 <= k < |numbered| && numbered[k].maxReq.Some? && numbered[k].maxRec.Some?
      ensures R.AtLeast(numbered[k].maxRec.value, numbered[k].maxReq.value)
    {
      PermutationMember(sorted, st2, k);
    }
  }
}
