/**
 * What `mapReqOrder` means for a single step: a quest or achievement gains
 * the number of times the tally counted its name, and the step for level L
 * of a skill gains every count of that skill at L or above, so a lower
 * level never gains less than a higher one.
 */
module CompGain {
  import opened Wrappers
  import opened Assoc
  import opened Shortcuts
  import opened CompSteps
  import opened CompShortcut
  import opened CompPriority

  lemma {:induction false} NameGainAppend(a: seq<(string, int)>, b: seq<(string, int)>, byName: map<string, nat>, k: nat)
    ensures NameGain(a + b, byName, k) == NameGain(a, byName, k) + NameGain(b, byName, k)
    decreases |b|
  {
    if b == [] {
      assert a + b == a;
    } else {
      var init := b[..|b| - 1];
      assert (a + b)[..|a + b| - 1] == a + init;
      assert (a + b)[|a + b| - 1] == b[|b| - 1];
      NameGainAppend(a, init, byName, k);
    }
  }

  /** From a dictionary of distinct names, step `k` gains the count of its
      own name when the table leads that name to it, and nothing else. */
  lemma {:induction false} NameGainOwn(entries: seq<(string, int)>, byName: map<string, nat>, k: nat, name: string)
    requires Distinct(entries)
    requires forall n :: n in byName && byName[n] == k ==> n == name
    ensures NameGain(entries, byName, k) == if name in byName && byName[name] == k then Get(entries, name) else 0
    decreases |entries|
  {
    if entries != [] {
      var init := entries[..|entries| - 1];
      var x := entries[|entries| - 1];
      LastEntry(entries);
      NameGainOwn(init, byName, k, name);
      assert entries == init + [x];
      GetSnoc(init, x, name);
    }
  }

  /** A count added from `level` down to 2 reaches a step that only level
      `L` leads to once if `L` lies in that range, and never otherwise. */
  lemma {:induction false} CountdownOne(lm: map<int, nat>, level: int, count: int, k: nat, L: int)
    requires forall i :: i in lm && lm[i] == k ==> i == L
    ensures CountdownGain(lm, level, count, k) == if 2 <= L <= level && L in lm && lm[L] == k then count else 0
    decreases level
  {
    if level >= 2 {
      CountdownOne(lm, level - 1, count, k, L);
    }
  }

  /** The counts of the levels at `L` or above. */
  function CountFrom(levels: Levels, L: int): int
  {
    if levels == [] then 0
    else CountFrom(levels[..|levels| - 1], L) + (if levels[|levels| - 1].0 >= L then levels[|levels| - 1].1 else 0)
  }

  lemma {:induction false} LevelGainOne(levels: Levels, lm: map<int, nat>, k: nat, L: int)
    requires forall i :: i in lm && lm[i] == k ==> i == L
    ensures LevelGain(levels, lm, k) == if 2 <= L && L in lm && lm[L] == k then CountFrom(levels, L) else 0
    decreases |levels|
  {
    if levels != [] {
      var e := levels[|levels| - 1];
      LevelGainOne(levels[..|levels| - 1], lm, k, L);
      CountdownOne(lm, e.0, e.1, k, L);
    }
  }

  /** From skills of distinct names, a step that only (s, L) leads to gains
      the counts of `s` at `L` or above. */
  lemma {:induction false} SkillGainOne(skills: seq<(string, Levels)>, levelReqs: map<string, map<int, nat>>, k: nat, s: string, L: int)
    requires Distinct(skills)
    requires forall n, i :: n in levelReqs && i in levelReqs[n] && levelReqs[n][i] == k ==> n == s && i == L
    ensures SkillGain(skills, levelReqs, k) ==
            if 2 <= L && s in levelReqs && L in levelReqs[s] && levelReqs[s][L] == k then CountFrom(LevelsOf(skills, s), L) else 0
    decreases |skills|
  {
    if skills != [] {
      var init := skills[..|skills| - 1];
      var e := skills[|skills| - 1];
      LastEntry(skills);
      SkillGainOne(init, levelReqs, k, s, L);
      if e.0 in levelReqs {
        LevelGainOne(e.1, levelReqs[e.0], k, L);
      }
      assert LevelsOf(skills, s) == if s == e.0 then e.1 else LevelsOf(init, s);
      assert s == e.0 ==> LevelsOf(init, s) == [];
    }
  }

  /** Every level table entry leads to a step of that skill and level. */
  ghost predicate LevelTables(st: seq<Step>, levelReqs: map<string, map<int, nat>>)
  {
    forall n, i :: n in levelReqs && i in levelReqs[n] ==>
      levelReqs[n][i] < |st| && st[levelReqs[n][i]].node.name == n && st[levelReqs[n][i]].node.level == i
  }

  /** The priority a well-formed tally gives step `k`: the count of its name
      if `requirementMap` leads that name to it, plus, if `skillReqMap` leads
      its skill and level to it, the counts of that skill at its level or
      above. */
  lemma StepGain(st: seq<Step>, byName: map<string, nat>, levelReqs: map<string, map<int, nat>>, sc: Shortcut, k: nat)
    requires Indexed(st, byName, levelReqs) && LevelTables(st, levelReqs) && WellFormed(sc) && k < |st|
    ensures var n, L := st[k].node.name, st[k].node.level;
            Gain(sc, byName, levelReqs, k) ==
              (if n in byName && byName[n] == k then Own(sc, n) else 0) +
              (if 2 <= L && n in levelReqs && L in levelReqs[n] && levelReqs[n][L] == k then CountFrom(LevelsOf(sc.skills, n), L) else 0)
  {
    var n := st[k].node.name;
    NameGainAppend(sc.quests, sc.achievements, byName, k);
    NameGainOwn(sc.quests, byName, k, n);
    NameGainOwn(sc.achievements, byName, k, n);
    SkillGainOne(sc.skills, levelReqs, k, n, st[k].node.level);
  }

  lemma {:induction false} CountFromMonotone(levels: Levels, L: int)
    requires forall i :: 0 <= i < |levels| ==> levels[i].1 >= 0
    ensures CountFrom(levels, L + 1) <= CountFrom(levels, L)
    decreases |levels|
  {
    if levels != [] {
      CountFromMonotone(levels[..|levels| - 1], L);
    }
  }

  /** In a well-formed tally with no negative count, a skill's lower level
      collects at least as much as the level above it. */
  lemma LowerLevelsFirst(sc: Shortcut, s: string, L: int)
    requires WellFormed(sc) && NonNeg(sc)
    ensures CountFrom(LevelsOf(sc.skills, s), L + 1) <= CountFrom(LevelsOf(sc.skills, s), L)
  {
    var levels := LevelsOf(sc.skills, s);
    forall i | 0 <= i < |levels| ensures levels[i].1 >= 0 {
      FindAt(levels, i);
      assert LevelCount(sc, s, levels[i].0) >= 0;
    }
    CountFromMonotone(levels, L);
  }

  /** The tables built from the generated skill steps lead every (skill,
      level) to its one step. */
  lemma SkillTablesLead(k: int)
    requires 0 <= k < |SkillSteps(SkillNames)|
    ensures var skills := SkillSteps(SkillNames);
            var levelReqs := LevelIndexes(skills, SkillNames);
            var n, L := skills[k].node.name, skills[k].node.level;
            2 <= L && n in levelReqs && L in levelReqs[n] && levelReqs[n][L] == k
  {
    var skills := SkillSteps(SkillNames);
    SkillStepsSound(SkillNames, k);
    var n := skills[k].node.name;
    var lm := LevelIndex(skills, n);
    var j := lm[skills[k].node.level];
    SkillNamesDistinct();
    SkillStepsUnique(SkillNames, j, k);
  }

  /** The same tables satisfy `LevelTables`. */
  lemma SkillTablesSound(st: seq<Step>)
    requires |SkillSteps(SkillNames)| <= |st| && st[..|SkillSteps(SkillNames)|] == SkillSteps(SkillNames)
    ensures LevelTables(st, LevelIndexes(SkillSteps(SkillNames), SkillNames))
  {
    var skills := SkillSteps(SkillNames);
    forall n, i | n in LevelIndexes(skills, SkillNames) && i in LevelIndexes(skills, SkillNames)[n]
      ensures LevelIndexes(skills, SkillNames)[n][i] < |st|
      ensures st[LevelIndexes(skills, SkillNames)[n][i]] == skills[LevelIndexes(skills, SkillNames)[n][i]]
    {
      assert st[..|skills|][LevelIndex(skills, n)[i]] == skills[LevelIndex(skills, n)[i]];
    }
  }
}
