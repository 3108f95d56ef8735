/**
 * The steps of the completionist planner: a quest, a skill level or an
 * achievement with its prerequisites, the fields the planner writes into
 * it, the skill-level steps it generates itself, and its two lookup
 * tables (by name, and by skill and level).
 */
module CompSteps {
  import opened Wrappers
  import opened StringUtil
  import R = ReqsById
  import Runescape

  datatype Kind = Quest | Skill | Achievement

  /** A quest prerequisite; only the required ones are hard requirements. */
  datatype QuestRef = QuestRef(name: string, required: bool)

  datatype SkillRef = SkillRef(name: string, level: int)

  /** What a step is built with: its kind, name and page, its level as the
      sort reads it (`level || 0`, so 0 for quests and achievements), and its
      prerequisites. */
  datatype Node = Node(
    kind: Kind, name: string, page: string, level: int,
    quests: seq<QuestRef>, achievements: seq<string>, skills: seq<SkillRef>)

  /** A step and the fields the planner writes into it: `priority` (unset
      reads as 0), `maximumLevelRequirement` and `maximumLevelRecommended`
      (None while undefined, minus infinity when taken over nothing), and
      `order`. */
  datatype Step = Step(node: Node, priority: int, maxReq: Option<R.ExtInt>, maxRec: Option<R.ExtInt>, order: int)

  /** A scraped quest or achievement before the planner writes into it. */
  function Fresh(node: Node): (s: Step)
    ensures s.node == node && s.priority == 0 && s.maxReq.None? && s.maxRec.None?
  {
    Step(node, 0, None, None, 0)
  }

  /** The skill names of the RuneScape API client, in id order. */
  const SkillNames: seq<string> := [
    "attack", "defence", "strength", "constitution", "ranged", "prayer",
    "magic", "cooking", "woodcutting", "fletching", "fishing", "firemaking",
    "crafting", "smithing", "mining", "herblore", "agility", "thieving",
    "slayer", "farming", "runecrafting", "hunter", "construction",
    "summoning", "dungeoneering", "divination", "invention", "archaeology"
  ]

  /** The skills whose levels go to 120. */
  const Skill120s: set<string> := {"archaeology", "dungeoneering", "farming", "herblore", "invention", "slayer"}

  function MaxLevel(skill: string): int
  {
    if skill in Skill120s then 120 else 99
  }

  /** `/w/` and the name with its first letter capitalised. */
  function SkillPage(skill: string): string
  {
    "/w/" + UpperFirst(skill)
  }

  /** The step for `level` of `skill`. */
  function SkillStep(skill: string, level: int): Step
  {
    var maxReq := if skill == "invention" && level - 1 < 80 then 80 else level - 1;
    Step(Node(Skill, skill, SkillPage(skill), level, [], [], [SkillRef(skill, level - 1)]), 0, Some(R.Fin(maxReq)), None, 0)
  }

  /** Levels 2 to the maximum of one skill, in order, each requiring the
      level of the step before it. */
  function SkillChain(skill: string): (c: seq<Step>)
    ensures |c| == MaxLevel(skill) - 1
    ensures forall k :: 0 <= k < |c| ==> c[k].node.name == skill && c[k].node.level == k + 2
    ensures forall k :: 0 < k < |c| ==> c[k].node.skills == [SkillRef(skill, c[k - 1].node.level)]
  {
    seq(MaxLevel(skill) - 1, k => SkillStep(skill, k + 2))
  }

  /** The chains of the listed skills, one after the other. */
  function SkillSteps(names: seq<string>): seq<Step>
  {
    if names == [] then []
    else SkillSteps(names[..|names| - 1]) + SkillChain(names[|names| - 1])
  }

  /** `getSkillRequirements`: every skill in turn, its levels from 2 up. */
  method GetSkillRequirements() returns (reqs: seq<Step>)
    ensures reqs == SkillSteps(SkillNames)
  {
    reqs := [];
    for i := 0 to |SkillNames|
      invariant reqs == SkillSteps(SkillNames[..i])
    {
      var chain := GetSkillChain(SkillNames[i]);
      assert SkillNames[..i + 1][..i] == SkillNames[..i];
      reqs := reqs + chain;
    }
    assert SkillNames[..|SkillNames|] == SkillNames;
  }

  /** The inner loop of `getSkillRequirements`: one skill's levels. */
  method GetSkillChain(skill: string) returns (chain: seq<Step>)
    ensures chain == SkillChain(skill)
  {
    chain := [];
    var page := "/w/" + UpperFirst(skill);
    var max := if skill in Skill120s then 120 else 99;
    var level := 2;
    while level <= max
      invariant 2 <= level <= max + 1
      invariant chain == SkillChain(skill)[..level - 2]
    {
      var req := LevelStep(skill, page, level);
      ChainPrefix(skill, level);
      chain := chain + [req];
      level := level + 1;
    }
  }

  /** One step of the inner loop: the node for `level`, its cap raised to
      80 for invention below level 81. */
  method LevelStep(skill: string, page: string, level: int) returns (req: Step)
    requires page == SkillPage(skill)
    ensures req == SkillStep(skill, level)
  {
    req := Step(Node(Skill, skill, page, level, [], [], [SkillRef(skill, level - 1)]), 0, Some(R.Fin(level - 1)), None, 0);
    if skill == "invention" && level - 1 < 80 {
      req := req.(maxReq := Some(R.Fin(80)));
    }
  }

  /** The chain up to `level` extends the chain below it by that level's
      step. */
  lemma ChainPrefix(skill: string, level: int)
    requires 2 <= level <= MaxLevel(skill)
    ensures SkillChain(skill)[..level - 1] == SkillChain(skill)[..level - 2] + [SkillStep(skill, level)]
  {
    assert SkillChain(skill)[level - 2] == SkillStep(skill, level);
  }

  /** Every generated step is the step of a listed skill at a level from 2
      to that skill's maximum. */
  lemma {:induction false} SkillStepsSound(names: seq<string>, k: int)
    requires 0 <= k < |SkillSteps(names)|
    ensures SkillSteps(names)[k] == SkillStep(SkillSteps(names)[k].node.name, SkillSteps(names)[k].node.level)
    ensures SkillSteps(names)[k].node.name in names
    ensures 2 <= SkillSteps(names)[k].node.level <= MaxLevel(SkillSteps(names)[k].node.name)
    decreases |names|
  {
    var init := names[..|names| - 1];
    var head := SkillSteps(init);
    if k < |head| {
      SkillStepsSound(init, k);
    } else {
      assert SkillSteps(names)[k] == SkillChain(names[|names| - 1])[k - |head|];
    }
  }

  /** Every level from 2 to the maximum of every listed skill has its
      step. */
  lemma {:induction false} SkillStepsCover(names: seq<string>, skill: string, level: int)
    requires skill in names && 2 <= level <= MaxLevel(skill)
    ensures exists k :: 0 <= k < |SkillSteps(names)| && SkillSteps(names)[k] == SkillStep(skill, level)
    decreases |names|
  {
    var init := names[..|names| - 1];
    var head := SkillSteps(init);
    if skill == names[|names| - 1] {
      var k := |head| + level - 2;
      assert SkillSteps(names)[k] == SkillChain(skill)[level - 2];
    } else {
      assert skill in init by {
        var i :| 0 <= i < |names| && names[i] == skill;
        assert init[i] == skill;
      }
      SkillStepsCover(init, skill, level);
      var k :| 0 <= k < |head| && head[k] == SkillStep(skill, level);
      assert SkillSteps(names)[k] == head[k];
    }
  }

  /** The API's names are the first 28 of the game's skills, so no name
      is listed twice. */
  lemma SkillNamesDistinct()
    ensures forall i, j :: 0 <= i < j < |SkillNames| ==> SkillNames[i] != SkillNames[j]
  {
    assert SkillNames == Runescape.Skills[..28];
    Runescape.SkillsDistinct();
  }

  /** With no skill listed twice, no (skill, level) has two steps. */
  lemma {:induction false} SkillStepsUnique(names: seq<string>, i: int, j: int)
    requires forall a, b :: 0 <= a < b < |names| ==> names[a] != names[b]
    requires 0 <= i < |SkillSteps(names)| && 0 <= j < |SkillSteps(names)|
    requires SkillSteps(names)[i].node.name == SkillSteps(names)[j].node.name
    requires SkillSteps(names)[i].node.level == SkillSteps(names)[j].node.level
    ensures i == j
    decreases |names|
  {
    var init := names[..|names| - 1];
    var last := names[|names| - 1];
    var head := SkillSteps(init);
    var s := SkillSteps(names);
    assert s == head + SkillChain(last);
    assert last !in init by {
      forall a | 0 <= a < |init| ensures init[a] != last {
        assert init[a] == names[a];
      }
    }
    forall h | 0 <= h < |head| ensures head[h].node.name != last {
      SkillStepsSound(init, h);
    }
    if i < |head| && j < |head| {
      forall a, b | 0 <= a < b < |init| ensures init[a] != init[b] {
        assert init[a] == names[a] && init[b] == names[b];
      }
      SkillStepsUnique(init, i, j);
    } else if i >= |head| && j >= |head| {
      assert s[i] == SkillChain(last)[i - |head|];
      assert s[j] == SkillChain(last)[j - |head|];
    }
  }

  /** A step's required level is the level it requires (one below its own),
      except that invention's is never below 80. */
  lemma SkillStepLevels(skill: string, level: int)
    ensures SkillStep(skill, level).maxReq.Some? && SkillStep(skill, level).maxReq.value.Fin?
    ensures SkillStep(skill, level).maxReq.value.n >= SkillStep(skill, level).node.skills[0].level
    ensures skill != "invention" ==> SkillStep(skill, level).maxReq.value.n == level - 1
    ensures skill == "invention" ==> SkillStep(skill, level).maxReq.value.n == if level <= 80 then 80 else level - 1
  {
  }

  /** `requirementMap`: name to position for the steps from `from` on; a
      later step of the same name takes the place of an earlier one. */
  function NameIndex(steps: seq<Step>, from: nat): (m: map<string, nat>)
    ensures forall n :: n in m ==> from <= m[n] < |steps| && steps[m[n]].node.name == n
    ensures forall k :: from <= k < |steps| ==> steps[k].node.name in m && k <= m[steps[k].node.name]
    decreases |steps|
  {
    if |steps| <= from then map[]
    else NameIndex(steps[..|steps| - 1], from)[steps[|steps| - 1].node.name := |steps| - 1]
  }

  /** One skill's `levelReqMap`: level to position among the skill steps, a
      later step of the same level taking the place of an earlier one. */
  function LevelIndex(skills: seq<Step>, name: string): (m: map<int, nat>)
    ensures forall l :: l in m ==> m[l] < |skills| && skills[m[l]].node.name == name && skills[m[l]].node.level == l
    ensures forall k :: 0 <= k < |skills| && skills[k].node.name == name ==> skills[k].node.level in m
  {
    if skills == [] then map[]
    else
      var m := LevelIndex(skills[..|skills| - 1], name);
      if skills[|skills| - 1].node.name == name then m[skills[|skills| - 1].node.level := |skills| - 1] else m
  }

  /** `skillReqMap`: the level table of every listed skill. */
  function LevelIndexes(skills: seq<Step>, names: seq<string>): (m: map<string, map<int, nat>>)
    ensures forall n :: n in m <==> n in names
    ensures forall n :: n in m ==> m[n] == LevelIndex(skills, n)
  {
    map n | n in names :: LevelIndex(skills, n)
  }
}
