/**
 * `mapShortcut` and `mapPrereqShortcuts`: the tally of how often each
 * quest, achievement and (skill, level) is reached below a requirement,
 * following required quests and achievements depth first, skipping the
 * names on the current path, and remembering each finished tally by name.
 */
module CompShortcut {
  import opened Wrappers
  import opened Assoc
  import opened Shortcuts
  import opened CompSteps

  /** The requirement map as the tally reads it: name to node. */
  type Reqs = map<string, Node>

  /** Each node is stored under its own name, as `requirementMap` is built. */
  ghost predicate NamedByKey(reqs: Reqs)
  {
    forall n :: n in reqs ==> reqs[n].name == n
  }

  /** Every prerequisite the tally follows from `node` can be looked up. */
  ghost predicate PrereqsIn(node: Node, reqs: Reqs)
  {
    (forall q :: q in node.quests && q.required ==> q.name in reqs) &&
    (forall a :: a in node.achievements ==> a in reqs)
  }

  /** Every node of the map has all its followed prerequisites in it. */
  ghost predicate Closed(reqs: Reqs)
  {
    forall n :: n in reqs ==> PrereqsIn(reqs[n], reqs)
  }

  /** `quests.filter(q => q.required)`, by name. */
  function RequiredNames(qs: seq<QuestRef>): (r: seq<string>)
    ensures forall q :: q in qs && q.required ==> q.name in r
    ensures forall n :: n in r ==> exists q :: q in qs && q.required && q.name == n
  {
    if qs == [] then []
    else (if qs[0].required then [qs[0].name] else []) + RequiredNames(qs[1..])
  }

  function Elems(s: seq<string>): set<string>
  {
    set x | x in s
  }

  /** `m2` holds every entry of `m1` unchanged. */
  ghost predicate Extends(m1: map<string, Shortcut>, m2: map<string, Shortcut>)
  {
    forall k :: k in m1 ==> k in m2 && m2[k] == m1[k]
  }

  /** No count is negative. */
  ghost predicate NonNeg(sc: Shortcut)
  {
    (forall n :: Get(sc.quests, n) >= 0) &&
    (forall n :: Get(sc.achievements, n) >= 0) &&
    (forall n, l :: LevelCount(sc, n, l) >= 0)
  }

  /** Only the given names are counted as quests or achievements. */
  ghost predicate Within(sc: Shortcut, names: set<string>)
  {
    Keys(sc.quests) <= names && Keys(sc.achievements) <= names
  }

  ghost predicate Good(sc: Shortcut, names: set<string>)
  {
    WellFormed(sc) && NonNeg(sc) && Within(sc, names)
  }

  /** The count of a quest or achievement name, wherever it is kept. */
  function Own(sc: Shortcut, name: string): int
  {
    Get(sc.quests, name) + Get(sc.achievements, name)
  }

  /** Every remembered tally is well formed, counts only names of the map
      and its own name, and counts its own name at least once. */
  ghost predicate MemoOK(memo: map<string, Shortcut>, reqs: Reqs)
  {
    forall k :: k in memo ==> Good(memo[k], reqs.Keys + {k}) && Own(memo[k], k) >= 1
  }

  /** How often `refs` lists (name, level). */
  function Occurrences(refs: seq<SkillRef>, name: string, level: int): nat
  {
    if refs == [] then 0
    else Occurrences(refs[..|refs| - 1], name, level) + (if refs[|refs| - 1] == SkillRef(name, level) then 1 else 0)
  }

  /** `shortcut.skills[name][level] += 1` for each skill the node lists. */
  function CountSkills(sc: Shortcut, refs: seq<SkillRef>): (r: Shortcut)
    ensures r.quests == sc.quests && r.achievements == sc.achievements
  {
    if refs == [] then sc
    else
      var s := CountSkills(sc, refs[..|refs| - 1]);
      s.(skills := CountLevel(s.skills, refs[|refs| - 1].name, refs[|refs| - 1].level))
  }

  /** The node's own count, as a quest or, for any other kind, as an
      achievement. */
  function CountSelf(sc: Shortcut, node: Node): Shortcut
  {
    if node.kind == Quest then sc.(quests := Put(sc.quests, node.name, Get(sc.quests, node.name) + 1))
    else sc.(achievements := Put(sc.achievements, node.name, Get(sc.achievements, node.name) + 1))
  }

  /** The tally of a node from those of its required quests and of its
      achievements. */
  function Finish(node: Node, a: Shortcut, b: Shortcut): Shortcut
  {
    CountSelf(CountSkills(Merge(a, b), node.skills), node)
  }

  lemma {:induction false} CountSkillsCounts(sc: Shortcut, refs: seq<SkillRef>, name: string, level: int)
    requires WellFormed(sc)
    ensures WellFormed(CountSkills(sc, refs))
    ensures LevelCount(CountSkills(sc, refs), name, level) == LevelCount(sc, name, level) + Occurrences(refs, name, level)
    decreases |refs|
  {
    if refs != [] {
      CountSkillsCounts(sc, refs[..|refs| - 1], name, level);
    }
  }

  lemma CountSkillsGood(sc: Shortcut, refs: seq<SkillRef>, names: set<string>)
    requires Good(sc, names)
    ensures Good(CountSkills(sc, refs), names)
  {
    var r := CountSkills(sc, refs);
    CountSkillsCounts(sc, refs, "", 0);
    forall n, l ensures LevelCount(r, n, l) >= 0 {
      CountSkillsCounts(sc, refs, n, l);
    }
  }

  /** Counting the node itself adds one under its name and nothing else. */
  lemma CountSelfCounts(sc: Shortcut, node: Node, names: set<string>, n: string)
    requires Good(sc, names)
    ensures Good(CountSelf(sc, node), names + {node.name})
    ensures Own(CountSelf(sc, node), node.name) >= 1
    ensures Get(CountSelf(sc, node).quests, n) == Get(sc.quests, n) + (if node.kind == Quest && n == node.name then 1 else 0)
    ensures Get(CountSelf(sc, node).achievements, n) == Get(sc.achievements, n) + (if node.kind != Quest && n == node.name then 1 else 0)
    ensures CountSelf(sc, node).skills == sc.skills
  {
    var r := CountSelf(sc, node);
    assert forall x :: Get(r.quests, x) == Get(sc.quests, x) + (if node.kind == Quest && x == node.name then 1 else 0);
    assert forall x :: Get(r.achievements, x) == Get(sc.achievements, x) + (if node.kind != Quest && x == node.name then 1 else 0);
    assert forall x, l :: LevelCount(r, x, l) == LevelCount(sc, x, l);
  }

  /** A node's tally counts what its two prerequisite tallies count, its own
      skills once each and itself once; it stays well formed. */
  lemma FinishCounts(node: Node, a: Shortcut, b: Shortcut, names: set<string>, n: string, level: int)
    requires Good(a, names) && Good(b, names)
    ensures Good(Finish(node, a, b), names + {node.name})
    ensures Own(Finish(node, a, b), node.name) >= 1
    ensures Get(Finish(node, a, b).quests, n) ==
            Get(a.quests, n) + Get(b.quests, n) + (if node.kind == Quest && n == node.name then 1 else 0)
    ensures Get(Finish(node, a, b).achievements, n) ==
            Get(a.achievements, n) + Get(b.achievements, n) + (if node.kind != Quest && n == node.name then 1 else 0)
    ensures LevelCount(Finish(node, a, b), n, level) ==
            LevelCount(a, n, level) + LevelCount(b, n, level) + Occurrences(node.skills, n, level)
  {
    var m := Merge(a, b);
    MergeGood(a, b, names);
    MergeSums(a, b, n, level);
    var c := CountSkills(m, node.skills);
    CountSkillsGood(m, node.skills, names);
    CountSkillsCounts(m, node.skills, n, level);
    CountSelfCounts(c, node, names, n);
    assert LevelCount(Finish(node, a, b), n, level) == LevelCount(c, n, level);
  }

  lemma EmptyGood(names: set<string>)
    ensures Good(Empty, names)
  {
    forall n ensures Distinct(LevelsOf(Empty.skills, n)) {
    }
  }

  /** Going one name deeper leaves fewer names of the map off the path. */
  lemma PathShrinks(keys: set<string>, stack: seq<string>, n: string)
    requires n in keys && n !in stack
    ensures |keys - Elems(stack + [n])| < |keys - Elems(stack)|
  {
    assert Elems(stack + [n]) == Elems(stack) + {n};
    assert keys - Elems(stack) == (keys - Elems(stack + [n])) + {n};
  }

  const NotFound := "Could not find prereq: "

  /** The message reports a prerequisite the map does not hold. */
  predicate NamesMissing(msg: string, reqs: Reqs)
  {
    |NotFound| <= |msg| && msg[..|NotFound|] == NotFound && msg[|NotFound|..] !in reqs
  }

  /** Which count of a tally is read: a quest's, an achievement's, or a
      (skill, level)'s. */
  datatype Counter = QuestCount(name: string) | AchievementCount(name: string) | SkillCount(name: string, level: int)

  function Count(sc: Shortcut, c: Counter): int
  {
    match c
    case QuestCount(n) => Get(sc.quests, n)
    case AchievementCount(n) => Get(sc.achievements, n)
    case SkillCount(n, l) => LevelCount(sc, n, l)
  }

  /** What a node adds for itself: one under its own name, as a quest or
      as an achievement, and one per listed (skill, level). */
  function OwnCount(node: Node, c: Counter): nat
  {
    match c
    case QuestCount(n) => if node.kind == Quest && n == node.name then 1 else 0
    case AchievementCount(n) => if node.kind != Quest && n == node.name then 1 else 0
    case SkillCount(n, l) => Occurrences(node.skills, n, l)
  }

  /** The sum of one count over the remembered tallies of the names off the
      path, a name listed twice counted twice. */
  function Followed(names: seq<string>, stack: seq<string>, memo: map<string, Shortcut>, c: Counter): int
  {
    if names == [] then 0
    else (if names[0] in stack || names[0] !in memo then 0 else Count(memo[names[0]], c)) + Followed(names[1..], stack, memo, c)
  }

  /** `mapShortcut(req, reqs, levelReqs, stack, shortcuts)`: the remembered
      tally of `req`'s name if there is one; otherwise the tallies of its
      required quests and of its achievements (on the path extended by its
      name) merged, its skills and itself counted, and the result
      remembered. */
  function MapShortcut(req: Node, reqs: Reqs, stack: seq<string>, memo: map<string, Shortcut>): (r: Result<(Shortcut, map<string, Shortcut>)>)
    requires NamedByKey(reqs)
    ensures r.Ok? ==> Extends(memo, r.value.1) && req.name in r.value.1 && r.value.1[req.name] == r.value.0
    ensures r.Ok? && MemoOK(memo, reqs) ==> MemoOK(r.value.1, reqs)
    ensures r.Ok? && req.name !in memo && MemoOK(memo, reqs) ==>
              forall c :: Count(r.value.0, c) ==
                Followed(RequiredNames(req.quests), stack + [req.name], r.value.1, c) +
                Followed(req.achievements, stack + [req.name], r.value.1, c) + OwnCount(req, c)
    ensures r.Err? ==> NamesMissing(r.message, reqs)
    ensures Closed(reqs) && PrereqsIn(req, reqs) ==> r.Ok?
    ensures req.name !in memo && !PrereqsIn(req, reqs) ==> r.Err?
    decreases |reqs.Keys - Elems(stack + [req.name])|, 2
  {
    if req.name in memo then Ok((memo[req.name], memo))
    else
      var path := stack + [req.name];
      EmptyGood(reqs.Keys);
      var quests := RequiredNames(req.quests);
      PrereqsMissing(req, reqs);
      match MapPrereqs(quests, reqs, path, memo, Empty)
      case Err(e) => Err(e)
      case Ok((a, memo1)) =>
        match MapPrereqs(req.achievements, reqs, path, memo1, Empty)
        case Err(e) => Err(e)
        case Ok((b, memo2)) =>
          FreshTally(req, reqs, stack, memo, memo1, memo2, a, b);
          Ok((Finish(req, a, b), memo2[req.name := Finish(req, a, b)]))
  }

  /** A name not remembered yet: from what the two prerequisite loops
      promise, the new tally is remembered under the name, extends the memo,
      keeps it well formed, and counts the two sums plus the node's own. */
  lemma FreshTally(req: Node, reqs: Reqs, stack: seq<string>, memo: map<string, Shortcut>,
                   memo1: map<string, Shortcut>, memo2: map<string, Shortcut>, a: Shortcut, b: Shortcut)
    requires req.name !in memo && Extends(memo, memo1) && Extends(memo1, memo2)
    requires forall n :: n in RequiredNames(req.quests) && n !in stack + [req.name] ==> n in memo1
    requires forall n :: n in req.achievements && n !in stack + [req.name] ==> n in memo2
    requires MemoOK(memo, reqs) && Good(Empty, reqs.Keys) ==>
               MemoOK(memo1, reqs) && Good(a, reqs.Keys) &&
               forall c :: Count(a, c) == Count(Empty, c) + Followed(RequiredNames(req.quests), stack + [req.name], memo1, c)
    requires MemoOK(memo1, reqs) && Good(Empty, reqs.Keys) ==>
               MemoOK(memo2, reqs) && Good(b, reqs.Keys) &&
               forall c :: Count(b, c) == Count(Empty, c) + Followed(req.achievements, stack + [req.name], memo2, c)
    ensures var m := memo2[req.name := Finish(req, a, b)];
            Extends(memo, m) && req.name in m && m[req.name] == Finish(req, a, b) &&
            (MemoOK(memo, reqs) ==> MemoOK(m, reqs)) &&
            (MemoOK(memo, reqs) ==>
               forall c :: Count(Finish(req, a, b), c) ==
                 Followed(RequiredNames(req.quests), stack + [req.name], m, c) +
                 Followed(req.achievements, stack + [req.name], m, c) + OwnCount(req, c))
  {
    EmptyGood(reqs.Keys);
    FinishStep(req, a, b, memo2, reqs);
    ShortcutCounts(req, RequiredNames(req.quests), stack, stack + [req.name], memo1, memo2, a, b, reqs);
  }

  /** `mapPrereqShortcuts`: for each name in turn, a missing one is an
      error, one on the path is skipped, and any other's tally is merged
      into the running one. */
  function MapPrereqs(names: seq<string>, reqs: Reqs, stack: seq<string>, memo: map<string, Shortcut>, acc: Shortcut): (r: Result<(Shortcut, map<string, Shortcut>)>)
    requires NamedByKey(reqs)
    ensures r.Ok? ==> Extends(memo, r.value.1)
    ensures r.Ok? ==> forall n :: n in names && n !in stack ==> n in r.value.1
    ensures r.Ok? && MemoOK(memo, reqs) && Good(acc, reqs.Keys) ==> MemoOK(r.value.1, reqs) && Good(r.value.0, reqs.Keys)
    ensures r.Ok? && MemoOK(memo, reqs) && Good(acc, reqs.Keys) ==>
              forall c :: Count(r.value.0, c) == Count(acc, c) + Followed(names, stack, r.value.1, c)
    ensures r.Err? ==> NamesMissing(r.message, reqs)
    ensures Closed(reqs) && (forall n :: n in names ==> n in reqs) ==> r.Ok?
    ensures (exists n :: n in names && n !in reqs) ==> r.Err?
    decreases |reqs.Keys - Elems(stack)|, 1, |names|
  {
    if names == [] then Ok((acc, memo))
    else
      var n := names[0];
      assert forall x :: x in names[1..] ==> x in names;
      assert forall x :: x in names && x != n ==> x in names[1..];
      if n !in reqs then
        assert (NotFound + n)[|NotFound|..] == n;
        Err(NotFound + n)
      else if n in stack then
        var r := MapPrereqs(names[1..], reqs, stack, memo, acc);
        if r.Ok? then
          SkippedCounts(names, stack, r.value.1);
          r
        else r
      else
        PathShrinks(reqs.Keys, stack, n);
        match MapShortcut(reqs[n], reqs, stack, memo)
        case Err(e) => Err(e)
        case Ok((s, memo1)) =>
          PrereqStep(acc, s, memo1, n, reqs);
          var r := MapPrereqs(names[1..], reqs, stack, memo1, Merge(acc, s));
          if r.Ok? then
            FollowedCounts(names, stack, memo1, r.value.1, acc, s, r.value.0, reqs);
            r
          else r
  }

  /** A prerequisite that cannot be looked up is a required quest's name or
      an achievement missing from the map. */
  lemma PrereqsMissing(req: Node, reqs: Reqs)
    ensures !PrereqsIn(req, reqs) ==>
              (exists n :: n in RequiredNames(req.quests) && n !in reqs) || (exists n :: n in req.achievements && n !in reqs)
  {
  }

  /** A name on the path adds nothing to the followed sum. */
  lemma SkippedCounts(names: seq<string>, stack: seq<string>, memo: map<string, Shortcut>)
    requires names != [] && names[0] in stack
    ensures forall c :: Followed(names, stack, memo, c) == Followed(names[1..], stack, memo, c)
  {
  }

  /** A followed name adds its remembered tally to the sum, and merging
      adds it to the running tally. */
  lemma FollowedCounts(names: seq<string>, stack: seq<string>, memo1: map<string, Shortcut>, memo2: map<string, Shortcut>,
                       acc: Shortcut, s: Shortcut, r: Shortcut, reqs: Reqs)
    requires names != [] && names[0] !in stack && names[0] in memo1 && memo1[names[0]] == s && Extends(memo1, memo2)
    requires names[0] in reqs
    ensures MemoOK(memo1, reqs) && (forall c :: Count(r, c) == Count(Merge(acc, s), c) + Followed(names[1..], stack, memo2, c)) ==>
              forall c :: Count(r, c) == Count(acc, c) + Followed(names, stack, memo2, c)
  {
    if MemoOK(memo1, reqs) && (forall c :: Count(r, c) == Count(Merge(acc, s), c) + Followed(names[1..], stack, memo2, c)) {
      assert WellFormed(s);
      forall c ensures Count(r, c) == Count(acc, c) + Followed(names, stack, memo2, c) {
        MergeCount(acc, s, c);
      }
    }
  }

  /** Every count of a merge is the sum of the two counts. */
  lemma MergeCount(a: Shortcut, b: Shortcut, c: Counter)
    requires WellFormed(b)
    ensures Count(Merge(a, b), c) == Count(a, c) + Count(b, c)
  {
    match c
    case QuestCount(n) => MergeSums(a, b, n, 0);
    case AchievementCount(n) => MergeSums(a, b, n, 0);
    case SkillCount(n, l) => MergeSums(a, b, n, l);
  }

  /** The sum reads only the tallies of the names off the path. */
  lemma {:induction false} FollowedAgree(names: seq<string>, stack: seq<string>, m1: map<string, Shortcut>, m2: map<string, Shortcut>, c: Counter)
    requires forall n :: n in names && n !in stack ==> n in m1 && n in m2 && m1[n] == m2[n]
    ensures Followed(names, stack, m1, c) == Followed(names, stack, m2, c)
  {
    if names != [] {
      FollowedAgree(names[1..], stack, m1, m2, c);
    }
  }

  /** A fresh tally is its two prerequisite sums plus the node's own counts,
      read in the memo the call returns. */
  lemma ShortcutCounts(req: Node, quests: seq<string>, stack: seq<string>, path: seq<string>,
                       memo1: map<string, Shortcut>, memo2: map<string, Shortcut>, a: Shortcut, b: Shortcut, reqs: Reqs)
    requires path == stack + [req.name]
    requires Extends(memo1, memo2)
    requires forall n :: n in quests && n !in path ==> n in memo1
    requires forall n :: n in req.achievements && n !in path ==> n in memo2
    ensures Good(a, reqs.Keys) && Good(b, reqs.Keys) &&
            (forall c :: Count(a, c) == Count(Empty, c) + Followed(quests, path, memo1, c)) &&
            (forall c :: Count(b, c) == Count(Empty, c) + Followed(req.achievements, path, memo2, c)) ==>
            forall c :: Count(Finish(req, a, b), c) ==
              Followed(quests, path, memo2[req.name := Finish(req, a, b)], c) +
              Followed(req.achievements, path, memo2[req.name := Finish(req, a, b)], c) + OwnCount(req, c)
  {
    if Good(a, reqs.Keys) && Good(b, reqs.Keys) &&
       (forall c :: Count(a, c) == Count(Empty, c) + Followed(quests, path, memo1, c)) &&
       (forall c :: Count(b, c) == Count(Empty, c) + Followed(req.achievements, path, memo2, c))
    {
      var sc := Finish(req, a, b);
      var m := memo2[req.name := sc];
      assert req.name in path;
      forall c ensures Count(sc, c) == Followed(quests, path, m, c) + Followed(req.achievements, path, m, c) + OwnCount(req, c) {
        FollowedAgree(quests, path, memo1, m, c);
        FollowedAgree(req.achievements, path, memo2, m, c);
        FinishCount(req, a, b, reqs.Keys, c);
        EmptyCount(c);
      }
    }
  }

  /** Every count of a fresh tally is the two prerequisite counts plus the
      node's own. */
  lemma FinishCount(node: Node, a: Shortcut, b: Shortcut, names: set<string>, c: Counter)
    requires Good(a, names) && Good(b, names)
    ensures Count(Finish(node, a, b), c) == Count(a, c) + Count(b, c) + OwnCount(node, c)
  {
    match c
    case QuestCount(n) => FinishCounts(node, a, b, names, n, 0);
    case AchievementCount(n) => FinishCounts(node, a, b, names, n, 0);
    case SkillCount(n, l) => FinishCounts(node, a, b, names, n, l);
  }

  /** The empty tally counts nothing. */
  lemma EmptyCount(c: Counter)
    ensures Count(Empty, c) == 0
  {
  }

  /** Remembering a finished tally keeps the memo sound. */
  lemma FinishStep(req: Node, a: Shortcut, b: Shortcut, memo: map<string, Shortcut>, reqs: Reqs)
    ensures Good(a, reqs.Keys) && Good(b, reqs.Keys) && MemoOK(memo, reqs) ==>
            MemoOK(memo[req.name := Finish(req, a, b)], reqs)
  {
    if Good(a, reqs.Keys) && Good(b, reqs.Keys) && MemoOK(memo, reqs) {
      var sc := Finish(req, a, b);
      FinishCounts(req, a, b, reqs.Keys, req.name, 0);
      var m := memo[req.name := sc];
      forall k | k in m ensures Good(m[k], reqs.Keys + {k}) && Own(m[k], k) >= 1 {
        if k != req.name {
          assert m[k] == memo[k];
        }
      }
    }
  }

  /** Merging a remembered prerequisite tally into a sound running one. */
  lemma PrereqStep(acc: Shortcut, s: Shortcut, memo: map<string, Shortcut>, n: string, reqs: Reqs)
    ensures n in reqs && n in memo && memo[n] == s && MemoOK(memo, reqs) && Good(acc, reqs.Keys) ==>
            Good(Merge(acc, s), reqs.Keys)
  {
    if n in reqs && n in memo && memo[n] == s && MemoOK(memo, reqs) && Good(acc, reqs.Keys) {
      assert reqs.Keys + {n} == reqs.Keys;
      MergeGood(acc, s, reqs.Keys);
    }
  }

  lemma MergeGood(a: Shortcut, b: Shortcut, names: set<string>)
    requires Good(a, names) && Good(b, names)
    ensures Good(Merge(a, b), names)
  {
    MergeWithin(a, b, names);
    MergeNonNeg(a, b);
    MergeWellFormed(a, b);
  }

  lemma MergeWithin(a: Shortcut, b: Shortcut, names: set<string>)
    requires Within(a, names) && Within(b, names)
    ensures Within(Merge(a, b), names)
  {
    MergeKeys(a, b);
  }

  lemma MergeNonNeg(a: Shortcut, b: Shortcut)
    requires WellFormed(b) && NonNeg(a) && NonNeg(b)
    ensures NonNeg(Merge(a, b))
  {
    var m := Merge(a, b);
    forall n ensures Get(m.quests, n) >= 0 {
      MergeSums(a, b, n, 0);
    }
    forall n ensures Get(m.achievements, n) >= 0 {
      MergeSums(a, b, n, 0);
    }
    forall n, l ensures LevelCount(m, n, l) >= 0 {
      MergeSums(a, b, n, l);
    }
  }
}
