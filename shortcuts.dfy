/**
 * The shortcut counts of the completionist planner and `mergeShortcuts`:
 * how often each quest, each achievement and each (skill, level) is
 * reached, and the merge that adds two such tallies key by key into fresh
 * dictionaries.
 */
module Shortcuts {
  import opened Wrappers
  import opened Assoc

  /** Counts by level for one skill. */
  type Levels = seq<(int, int)>

  datatype Shortcut = Shortcut(
    quests: seq<(string, int)>,
    achievements: seq<(string, int)>,
    skills: seq<(string, Levels)>)

  const Empty: Shortcut := Shortcut([], [], [])

  /** `skills[name] || {}`. */
  function LevelsOf(skills: seq<(string, Levels)>, name: string): Levels
  {
    match Find(skills, name)
    case Some(levels) => levels
    case None => []
  }

  /** Every inner dictionary holds each level once. */
  ghost predicate LevelsDistinct(skills: seq<(string, Levels)>)
  {
    forall name :: Distinct(LevelsOf(skills, name))
  }

  /** Every dictionary, outer and inner, holds each key once, as the keys
      of a JavaScript object do. */
  ghost predicate WellFormed(sc: Shortcut)
  {
    Distinct(sc.quests) && Distinct(sc.achievements) && Distinct(sc.skills) && LevelsDistinct(sc.skills)
  }

  /** The count at (skill, level), 0 when absent. */
  function LevelCount(sc: Shortcut, name: string, level: int): int
  {
    Get(LevelsOf(sc.skills, name), level)
  }

  /** `skills[name][level] += 1`, creating the skill's dictionary when
      missing: that one count goes up by one and no other changes. */
  function CountLevel(skills: seq<(string, Levels)>, name: string, level: int): (r: seq<(string, Levels)>)
    ensures Distinct(skills) ==> Distinct(r)
    ensures LevelsDistinct(skills) ==> LevelsDistinct(r)
    ensures forall n, l :: Get(LevelsOf(r, n), l) == Get(LevelsOf(skills, n), l) + (if n == name && l == level then 1 else 0)
  {
    var levels := LevelsOf(skills, name);
    var r := Put(skills, name, Put(levels, level, Get(levels, level) + 1));
    CountLevelCounts(skills, name, level, r);
    CountLevelDistinct(skills, name, level, r);
    r
  }

  /** The count bump behind `CountLevel`: one count up by one, the rest
      unchanged. */
  lemma CountLevelCounts(skills: seq<(string, Levels)>, name: string, level: int, r: seq<(string, Levels)>)
    requires r == Put(skills, name, Put(LevelsOf(skills, name), level, Get(LevelsOf(skills, name), level) + 1))
    ensures forall n, l :: Get(LevelsOf(r, n), l) == Get(LevelsOf(skills, n), l) + (if n == name && l == level then 1 else 0)
  {
    forall n, l
      ensures Get(LevelsOf(r, n), l) == Get(LevelsOf(skills, n), l) + (if n == name && l == level then 1 else 0)
    {
      CountLevelAt(skills, name, level, n, l);
    }
  }

  /** The count bump read at one skill and level. */
  lemma CountLevelAt(skills: seq<(string, Levels)>, name: string, level: int, n: string, l: int)
    ensures var levels := LevelsOf(skills, name);
      Get(LevelsOf(Put(skills, name, Put(levels, level, Get(levels, level) + 1)), n), l) ==
      Get(LevelsOf(skills, n), l) + (if n == name && l == level then 1 else 0)
  {
    var levels := LevelsOf(skills, name);
    var bumped := Put(levels, level, Get(levels, level) + 1);
    LevelsOfPut(skills, name, bumped, n);
    GetPut(levels, level, Get(levels, level) + 1, l);
  }

  /** The count bump keeps every dictionary free of repeated keys. */
  lemma CountLevelDistinct(skills: seq<(string, Levels)>, name: string, level: int, r: seq<(string, Levels)>)
    requires r == Put(skills, name, Put(LevelsOf(skills, name), level, Get(LevelsOf(skills, name), level) + 1))
    ensures LevelsDistinct(skills) ==> LevelsDistinct(r)
  {
    var levels := LevelsOf(skills, name);
    var bumped := Put(levels, level, Get(levels, level) + 1);
    if LevelsDistinct(skills) {
      forall n
        ensures Distinct(LevelsOf(r, n))
      {
        LevelsOfPut(skills, name, bumped, n);
      }
    }
  }

  /** Looking up a skill after a put. */
  lemma LevelsOfPut(skills: seq<(string, Levels)>, name: string, v: Levels, n: string)
    ensures LevelsOf(Put(skills, name, v), n) == if n == name then v else LevelsOf(skills, n)
  {
    assert Find(Put(skills, name, v), n) == if n == name then Some(v) else Find(skills, n);
  }

  /** Reading a count after a put. */
  lemma GetPut(d: Levels, k: int, v: int, j: int)
    ensures Get(Put(d, k, v), j) == if j == k then v else Get(d, j)
  {
    assert Find(Put(d, k, v), j) == if j == k then Some(v) else Find(d, j);
  }

  /** Adds the level counts of every skill of `b` into `acc`, skill by
      skill in order; a skill new to `acc` starts from an empty
      dictionary. */
  function AddSkills(acc: seq<(string, Levels)>, b: seq<(string, Levels)>): (r: seq<(string, Levels)>)
    ensures Distinct(acc) ==> Distinct(r)
  {
    if b == [] then acc
    else
      var init := b[..|b| - 1];
      var rest := AddSkills(acc, init);
      var name := b[|b| - 1].0;
      Put(rest, name, AddAll(LevelsOf(rest, name), b[|b| - 1].1))
  }

  /** The skills after adding are those of either side. */
  lemma {:induction false} AddSkillsKeys(acc: seq<(string, Levels)>, b: seq<(string, Levels)>)
    ensures Keys(AddSkills(acc, b)) == Keys(acc) + Keys(b)
    decreases |b|
  {
    if b != [] {
      var init := b[..|b| - 1];
      var last := b[|b| - 1];
      var rest := AddSkills(acc, init);
      AddSkillsKeys(acc, init);
      LastEntry(b);
    }
  }

  /** Adding skills keeps every inner dictionary free of repeated levels. */
  lemma {:induction false} AddSkillsDistinct(acc: seq<(string, Levels)>, b: seq<(string, Levels)>)
    requires LevelsDistinct(acc)
    ensures LevelsDistinct(AddSkills(acc, b))
    decreases |b|
  {
    if b != [] {
      var init := b[..|b| - 1];
      var rest := AddSkills(acc, init);
      var name := b[|b| - 1].0;
      AddSkillsDistinct(acc, init);
      var r := Put(rest, name, AddAll(LevelsOf(rest, name), b[|b| - 1].1));
      forall n ensures Distinct(LevelsOf(r, n)) {
        if n != name {
          assert LevelsOf(r, n) == LevelsOf(rest, n);
        }
      }
    }
  }

  /** The value `mergeShortcuts` returns. For dictionaries with distinct
      keys, the copy of the first argument it starts from equals that
      argument. */
  function Merge(a: Shortcut, b: Shortcut): Shortcut
  {
    Shortcut(AddAll(a.quests, b.quests), AddAll(a.achievements, b.achievements), AddSkills(a.skills, b.skills))
  }

  /** Each (skill, level) count of `AddSkills(acc, b)` is the sum of the
      two counts. */
  lemma {:induction false} LevelCountAddSkills(acc: seq<(string, Levels)>, b: seq<(string, Levels)>, name: string, level: int)
    requires Distinct(b) && LevelsDistinct(b)
    ensures Get(LevelsOf(AddSkills(acc, b), name), level) ==
            Get(LevelsOf(acc, name), level) + Get(LevelsOf(b, name), level)
    decreases |b|
  {
    if b != [] {
      var init := b[..|b| - 1];
      var x := b[|b| - 1];
      assert b == init + [x];
      assert Distinct(init) by {
        forall i, j | 0 <= i < j < |init| ensures init[i].0 != init[j].0 {
          assert init[i] == b[i] && init[j] == b[j];
        }
      }
      assert x.0 !in Keys(init);
      forall n ensures LevelsOf(init, n) == if n == x.0 then [] else LevelsOf(b, n) {
        FindAppend(init, x, n);
      }
      assert LevelsDistinct(init) by {
        forall n ensures Distinct(LevelsOf(init, n)) {
          assert n != x.0 ==> LevelsOf(init, n) == LevelsOf(b, n);
        }
      }
      LevelCountAddSkills(acc, init, name, level);
      FindAppend(init, x, x.0);
      assert LevelsOf(b, x.0) == x.1;
      assert Distinct(x.1);
      if name == x.0 {
        GetAddAll(LevelsOf(AddSkills(acc, init), name), x.1, level);
      }
    }
  }

  /** The merge keeps each key once. */
  lemma MergeWellFormed(a: Shortcut, b: Shortcut)
    requires WellFormed(a) && WellFormed(b)
    ensures WellFormed(Merge(a, b))
  {
    AddSkillsDistinct(a.skills, b.skills);
  }

  /** Every count of the merge, for quests, achievements and (skill, level)
      alike, is the sum of the two inputs' counts. */
  lemma MergeSums(a: Shortcut, b: Shortcut, name: string, level: int)
    requires WellFormed(b)
    ensures Get(Merge(a, b).quests, name) == Get(a.quests, name) + Get(b.quests, name)
    ensures Get(Merge(a, b).achievements, name) == Get(a.achievements, name) + Get(b.achievements, name)
    ensures LevelCount(Merge(a, b), name, level) == LevelCount(a, name, level) + LevelCount(b, name, level)
  {
    GetAddAll(a.quests, b.quests, name);
    GetAddAll(a.achievements, b.achievements, name);
    LevelCountAddSkills(a.skills, b.skills, name, level);
  }

  /** The keys of the merge are the keys of either input. */
  lemma MergeKeys(a: Shortcut, b: Shortcut)
    ensures Keys(Merge(a, b).quests) == Keys(a.quests) + Keys(b.quests)
    ensures Keys(Merge(a, b).achievements) == Keys(a.achievements) + Keys(b.achievements)
    ensures Keys(Merge(a, b).skills) == Keys(a.skills) + Keys(b.skills)
  {
    AddSkillsKeys(a.skills, b.skills);
  }

  /** The first loop over a dictionary: its entries copied into a fresh
      one. */
  method CopyDict<K(==,!new)>(a: seq<(K, int)>) returns (m: seq<(K, int)>)
    requires Distinct(a)
    ensures m == a
  {
    m := [];
    for j := 0 to |a|
      invariant m == a[..j]
    {
      assert a[j].0 !in Keys(a[..j]);
      m := Put(m, a[j].0, a[j].1);
      assert a[..j + 1] == a[..j] + [a[j]];
    }
    assert a[..|a|] == a;
  }

  /** The second loop: each count of `b` added to what `m` holds under that
      key. */
  method AddDict<K(==,!new)>(a: seq<(K, int)>, b: seq<(K, int)>) returns (m: seq<(K, int)>)
    ensures m == AddAll(a, b)
  {
    m := a;
    for j := 0 to |b|
      invariant m == AddAll(a, b[..j])
    {
      assert b[..j + 1][..j] == b[..j];
      m := Put(m, b[j].0, Get(m, b[j].0) + b[j].1);
    }
    assert b[..|b|] == b;
  }

  /** The first loop over the skills: each skill's levels copied into a
      fresh dictionary. */
  method CopySkills(a: seq<(string, Levels)>) returns (skills: seq<(string, Levels)>)
    requires Distinct(a) && LevelsDistinct(a)
    ensures skills == a
  {
    skills := [];
    for j := 0 to |a|
      invariant skills == a[..j]
    {
      var name := a[j].0;
      FindAt(a, j);
      assert Distinct(LevelsOf(a, name));
      // `skills[name] = {}`, then filled through its alias `skill`
      var skill := CopyDict(a[j].1);
      assert name !in Keys(a[..j]);
      skills := Put(skills, name, skill);
      assert a[..j + 1] == a[..j] + [a[j]];
    }
    assert a[..|a|] == a;
  }

  /** The second loop over the skills: each level count of `b` added into
      that skill's dictionary, created empty when missing. */
  method AddSkillDicts(a: seq<(string, Levels)>, b: seq<(string, Levels)>) returns (skills: seq<(string, Levels)>)
    ensures skills == AddSkills(a, b)
  {
    skills := a;
    for j := 0 to |b|
      invariant skills == AddSkills(a, b[..j])
    {
      var name := b[j].0;
      // `skills[name] = skills[name] || {}`
      var skill := AddDict(LevelsOf(skills, name), b[j].1);
      assert b[..j + 1][..j] == b[..j];
      skills := Put(skills, name, skill);
    }
    assert b[..|b|] == b;
  }

  /** `mergeShortcuts`: fresh dictionaries holding the summed counts; the
      inputs are values and stay as they were. */
  method MergeShortcuts(a: Shortcut, b: Shortcut) returns (r: Shortcut)
    requires WellFormed(a)
    ensures r == Merge(a, b)
  {
    var quests := CopyDict(a.quests);
    quests := AddDict(quests, b.quests);
    var achievements := CopyDict(a.achievements);
    achievements := AddDict(achievements, b.achievements);
    var skills := CopySkills(a.skills);
    skills := AddSkillDicts(skills, b.skills);
    r := Shortcut(quests, achievements, skills);
  }
}
