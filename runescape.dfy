/**
 * The game model: the 29 skill names in RuneScape id order, the skill set,
 * the id-to-skill table, and the conversion from a combat level to the
 * average skill level that reaches it.
 */
module Runescape {

  /** Skill names, ordered by their RuneScape id. */
  const Skills: seq<string> := [
    "attack", "defence", "strength", "constitution", "ranged", "prayer",
    "magic", "cooking", "woodcutting", "fletching", "fishing", "firemaking",
    "crafting", "smithing", "mining", "herblore", "agility", "thieving",
    "slayer", "farming", "runecrafting", "hunter", "construction",
    "summoning", "dungeoneering", "divination", "invention", "archaeology",
    "necromancy"
  ]

  const SkillSet: set<string> := set s | s in Skills

  predicate IsSkill(text: string)
  {
    text in SkillSet
  }

  /** Skill name by id: every id from 0 to 28 and nothing else. */
  function SkillsById(): (m: map<int, string>)
    ensures forall id :: id in m <==> 0 <= id < |Skills|
    ensures forall id :: id in m ==> m[id] == Skills[id]
  {
    map id | 0 <= id < |Skills| :: Skills[id]
  }

  /** `isSkill` accepts exactly the names listed in `Skills`. */
  lemma IsSkillSpec(text: string)
    ensures IsSkill(text) <==> exists id :: 0 <= id < |Skills| && Skills[id] == text
  {
    if IsSkill(text) {
      var id :| 0 <= id < |Skills| && Skills[id] == text;
    }
  }

  /** The names are pairwise distinct, so the set has 29 members and the
      id table is one-to-one. */
  lemma SkillsDistinct()
    ensures forall i, j :: 0 <= i < j < |Skills| ==> Skills[i] != Skills[j]
    ensures |SkillSet| == |Skills| == 29
  {
    DistinctCard(Skills);
  }

  lemma {:induction false} DistinctCard(xs: seq<string>)
    requires forall i, j :: 0 <= i < j < |xs| ==> xs[i] != xs[j]
    ensures |set s | s in xs| == |xs|
  {
    if xs != [] {
      var last := xs[|xs| - 1];
      var init := xs[..|xs| - 1];
      DistinctCard(init);
      assert (set s | s in xs) == (set s | s in init) + {last};
      assert last !in (set s | s in init);
    }
  }

  /** Every id-table value is a skill, and every skill is some id's value. */
  lemma SkillsByIdCoversSkills(text: string)
    ensures IsSkill(text) <==> text in SkillsById().Values
  {
    var m := SkillsById();
    if IsSkill(text) {
      var id :| 0 <= id < |Skills| && Skills[id] == text;
      assert m[id] == text;
    }
    if text in m.Values {
      var id :| id in m && m[id] == text;
      assert Skills[id] in Skills;
    }
  }

  /** `floor(combatLvl / 1.4)`, taken as the exact quotient: the largest
      level whose seven-fold does not exceed five times the combat level. */
  function AvgLevelForCombatLvl(combatLvl: int): (level: int)
    ensures 7 * level <= 5 * combatLvl < 7 * level + 7
  {
    (5 * combatLvl) / 7
  }

  /** A higher combat level never asks for a lower average skill level. */
  lemma AvgLevelMonotone(a: int, b: int)
    requires a <= b
    ensures AvgLevelForCombatLvl(a) <= AvgLevelForCombatLvl(b)
  {
    var la, lb := AvgLevelForCombatLvl(a), AvgLevelForCombatLvl(b);
    assert 7 * la <= 5 * a <= 5 * b < 7 * lb + 7;
  }

  /** For a non-negative combat level the average level is non-negative and
      never exceeds the combat level itself. */
  lemma AvgLevelBelowCombat(c: int)
    requires c >= 0
    ensures 0 <= AvgLevelForCombatLvl(c) <= c
  {
    var l := AvgLevelForCombatLvl(c);
    assert 7 * l <= 5 * c < 7 * l + 7;
  }
}
