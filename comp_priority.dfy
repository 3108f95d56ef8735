/**
 * `mapReqOrder`: the tally below the ending requirement turned into
 * priorities. Each counted quest or achievement gains its count; each
 * counted (skill, level) adds its count to every step of that skill from
 * the level down to 2.
 *
 * The steps live in one sequence; `requirementMap` and `skillReqMap` hold
 * positions in it, so a step reached through either table is the same
 * step.
 */
module CompPriority {
  import opened Wrappers
  import opened Assoc
  import opened Shortcuts
  import opened CompSteps
  import opened CompShortcut

  /** The two tables point into the steps, and `requirementMap` holds each
      step under its own name. */
  ghost predicate Indexed(st: seq<Step>, byName: map<string, nat>, levelReqs: map<string, map<int, nat>>)
  {
    (forall n :: n in byName ==> byName[n] < |st| && st[byName[n]].node.name == n) &&
    (forall n, l :: n in levelReqs && l in levelReqs[n] ==> levelReqs[n][l] < |st|)
  }

  /** `requirementMap` as the tally reads it: name to node. */
  function NodeMap(st: seq<Step>, byName: map<string, nat>): (reqs: Reqs)
    requires forall n :: n in byName ==> byName[n] < |st|
    ensures reqs.Keys == byName.Keys
    ensures forall n :: n in byName ==> reqs[n] == st[byName[n]].node
  {
    map n | n in byName :: st[byName[n]].node
  }

  /** What step `k` gains from the counted names. */
  function NameGain(entries: seq<(string, int)>, byName: map<string, nat>, k: nat): int
  {
    if entries == [] then 0
    else
      var e := entries[|entries| - 1];
      NameGain(entries[..|entries| - 1], byName, k) + (if e.0 in byName && byName[e.0] == k then e.1 else 0)
  }

  /** What step `k` gains when `count` is added at every level from `level`
      down to 2 that the level table holds. */
  function CountdownGain(lm: map<int, nat>, level: int, count: int, k: nat): int
    decreases level
  {
    if level < 2 then 0
    else CountdownGain(lm, level - 1, count, k) + (if level in lm && lm[level] == k then count else 0)
  }

  /** What step `k` gains from one skill's counted levels. */
  function LevelGain(levels: Levels, lm: map<int, nat>, k: nat): int
  {
    if levels == [] then 0
    else
      var e := levels[|levels| - 1];
      LevelGain(levels[..|levels| - 1], lm, k) + CountdownGain(lm, e.0, e.1, k)
  }

  /** What step `k` gains from all counted skills. */
  function SkillGain(skills: seq<(string, Levels)>, levelReqs: map<string, map<int, nat>>, k: nat): int
  {
    if skills == [] then 0
    else
      var e := skills[|skills| - 1];
      SkillGain(skills[..|skills| - 1], levelReqs, k) + (if e.0 in levelReqs then LevelGain(e.1, levelReqs[e.0], k) else 0)
  }

  /** The message names something of `names` that is not in `known`. */
  predicate Reports(msg: string, prefix: string, names: set<string>, known: set<string>)
  {
    |prefix| <= |msg| && msg[..|prefix|] == prefix && msg[|prefix|..] in names && msg[|prefix|..] !in known
  }

  const NoRequirement := "No requirement found for "
  const NoSkill := "No skill found for "

  /** The first loop of `mapReqOrder`: each counted name's step gains its
      count; a name without a step is an error. */
  method AddNamePriorities(st: seq<Step>, entries: seq<(string, int)>, byName: map<string, nat>) returns (r: Result<seq<Step>>)
    requires forall n :: n in byName ==> byName[n] < |st|
    ensures r.Ok? <==> Keys(entries) <= byName.Keys
    ensures r.Ok? ==> (|r.value| == |st| &&
              forall k :: 0 <= k < |st| ==> r.value[k] == st[k].(priority := st[k].priority + NameGain(entries, byName, k)))
    ensures r.Err? ==> Reports(r.message, NoRequirement, Keys(entries), byName.Keys)
  {
    var cur := st;
    for j := 0 to |entries|
      invariant |cur| == |st|
      invariant forall i :: 0 <= i < j ==> entries[i].0 in byName
      invariant forall k :: 0 <= k < |st| ==> cur[k] == st[k].(priority := st[k].priority + NameGain(entries[..j], byName, k))
    {
      var name := entries[j].0;
      if name !in byName {
        assert name in Keys(entries);
        assert (NoRequirement + name)[|NoRequirement|..] == name;
        return Err(NoRequirement + name);
      }
      var idx := byName[name];
      assert entries[..j + 1][..j] == entries[..j];
      cur := cur[idx := cur[idx].(priority := cur[idx].priority + entries[j].1)];
    }
    assert entries[..|entries|] == entries;
    return Ok(cur);
  }

  /** The innermost loop: `count` added to the step at every level from
      `level` down to 2 that the table holds; missing levels are skipped. */
  method CountDown(st: seq<Step>, lm: map<int, nat>, level: int, count: int) returns (r: seq<Step>)
    requires forall l :: l in lm ==> lm[l] < |st|
    ensures |r| == |st|
    ensures forall k :: 0 <= k < |st| ==> r[k] == st[k].(priority := st[k].priority + CountdownGain(lm, level, count, k))
  {
    r := st;
    var i := level;
    while i >= 2
      invariant i <= level
      invariant |r| == |st|
      invariant forall k :: 0 <= k < |st| ==>
                  r[k] == st[k].(priority := st[k].priority + CountdownGain(lm, level, count, k) - CountdownGain(lm, i, count, k))
      decreases i
    {
      if i in lm {
        r := r[lm[i] := r[lm[i]].(priority := r[lm[i]].priority + count)];
      }
      i := i - 1;
    }
  }

  /** The middle loop: every counted level of one skill. */
  method AddLevels(st: seq<Step>, levels: Levels, lm: map<int, nat>) returns (r: seq<Step>)
    requires forall l :: l in lm ==> lm[l] < |st|
    ensures |r| == |st|
    ensures forall k :: 0 <= k < |st| ==> r[k] == st[k].(priority := st[k].priority + LevelGain(levels, lm, k))
  {
    r := st;
    for j := 0 to |levels|
      invariant |r| == |st|
      invariant forall k :: 0 <= k < |st| ==> r[k] == st[k].(priority := st[k].priority + LevelGain(levels[..j], lm, k))
    {
      assert levels[..j + 1][..j] == levels[..j];
      r := CountDown(r, lm, levels[j].0, levels[j].1);
    }
    assert levels[..|levels|] == levels;
  }

  /** The second loop of `mapReqOrder`: every counted skill; a skill without
      a level table is an error. */
  method AddSkillPriorities(st: seq<Step>, skills: seq<(string, Levels)>, levelReqs: map<string, map<int, nat>>) returns (r: Result<seq<Step>>)
    requires forall n, l :: n in levelReqs && l in levelReqs[n] ==> levelReqs[n][l] < |st|
    ensures r.Ok? <==> Keys(skills) <= levelReqs.Keys
    ensures r.Ok? ==> (|r.value| == |st| &&
              forall k :: 0 <= k < |st| ==> r.value[k] == st[k].(priority := st[k].priority + SkillGain(skills, levelReqs, k)))
    ensures r.Err? ==> Reports(r.message, NoSkill, Keys(skills), levelReqs.Keys)
  {
    var cur := st;
    for j := 0 to |skills|
      invariant |cur| == |st|
      invariant forall i :: 0 <= i < j ==> skills[i].0 in levelReqs
      invariant forall k :: 0 <= k < |st| ==> cur[k] == st[k].(priority := st[k].priority + SkillGain(skills[..j], levelReqs, k))
    {
      var name := skills[j].0;
      if name !in levelReqs {
        assert name in Keys(skills);
        assert (NoSkill + name)[|NoSkill|..] == name;
        return Err(NoSkill + name);
      }
      assert skills[..j + 1][..j] == skills[..j];
      cur := AddLevels(cur, skills[j].1, levelReqs[name]);
    }
    assert skills[..|skills|] == skills;
    return Ok(cur);
  }

  /** Everything step `k` gains from a tally. */
  function Gain(sc: Shortcut, byName: map<string, nat>, levelReqs: map<string, map<int, nat>>, k: nat): int
  {
    NameGain(sc.quests + sc.achievements, byName, k) + SkillGain(sc.skills, levelReqs, k)
  }

  /** `mapReqOrder(endReq, requirementMap, skillReqMap)`: the tally of the
      root with a fresh path and memo; its errors are passed on. Otherwise
      every step gains what the tally gives it, and the call fails exactly
      when a counted name has no step or a counted skill no level table. */
  method MapReqOrder(root: Node, st: seq<Step>, byName: map<string, nat>, levelReqs: map<string, map<int, nat>>) returns (r: Result<seq<Step>>)
    requires Indexed(st, byName, levelReqs)
    ensures var res := MapShortcut(root, NodeMap(st, byName), [], map[]);
            res.Err? ==> r == Err(res.message)
    ensures var res := MapShortcut(root, NodeMap(st, byName), [], map[]);
            res.Ok? ==>
              var sc := res.value.0;
              (r.Ok? <==> Keys(sc.quests) + Keys(sc.achievements) <= byName.Keys && Keys(sc.skills) <= levelReqs.Keys)
    ensures var res := MapShortcut(root, NodeMap(st, byName), [], map[]);
            res.Ok? && r.Ok? ==>
              |r.value| == |st| &&
              forall k :: 0 <= k < |st| ==> r.value[k] == st[k].(priority := st[k].priority + Gain(res.value.0, byName, levelReqs, k))
    ensures var res := MapShortcut(root, NodeMap(st, byName), [], map[]);
            res.Ok? && r.Err? ==>
              Reports(r.message, NoRequirement, Keys(res.value.0.quests) + Keys(res.value.0.achievements), byName.Keys) ||
              Reports(r.message, NoSkill, Keys(res.value.0.skills), levelReqs.Keys)
  {
    var reqs := NodeMap(st, byName);
    var res := MapShortcut(root, reqs, [], map[]);
    if res.Err? {
      return Err(res.message);
    }
    r := ApplyTally(st, res.value.0, byName, levelReqs);
  }

  /** The two loops of `mapReqOrder` over a tally. */
  method ApplyTally(st: seq<Step>, sc: Shortcut, byName: map<string, nat>, levelReqs: map<string, map<int, nat>>) returns (r: Result<seq<Step>>)
    requires Indexed(st, byName, levelReqs)
    ensures r.Ok? <==> Keys(sc.quests) + Keys(sc.achievements) <= byName.Keys && Keys(sc.skills) <= levelReqs.Keys
    ensures r.Ok? ==> (|r.value| == |st| &&
              forall k :: 0 <= k < |st| ==> r.value[k] == st[k].(priority := st[k].priority + Gain(sc, byName, levelReqs, k)))
    ensures r.Err? ==>
              Reports(r.message, NoRequirement, Keys(sc.quests) + Keys(sc.achievements), byName.Keys) ||
              Reports(r.message, NoSkill, Keys(sc.skills), levelReqs.Keys)
  {
    KeysAppend(sc.quests, sc.achievements);
    var named := AddNamePriorities(st, sc.quests + sc.achievements, byName);
    if named.Err? {
      return Err(named.message);
    }
    var skilled := AddSkillPriorities(named.value, sc.skills, levelReqs);
    if skilled.Err? {
      return Err(skilled.message);
    }
    forall k | 0 <= k < |st|
      ensures skilled.value[k] == st[k].(priority := st[k].priority + Gain(sc, byName, levelReqs, k))
    {
      assert named.value[k] == st[k].(priority := st[k].priority + NameGain(sc.quests + sc.achievements, byName, k));
    }
    return Ok(skilled.value);
  }
}
