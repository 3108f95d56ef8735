/** Skill-level requirement nodes and the per-skill level chains. */
module Skills {
  import opened Wrappers
  import opened Text
  import opened AndOr
  import opened Requirements
  import opened Runescape
  import opened RsWiki

  /** `SKILL_REQS`: level 2 of Invention also needs Divination, Crafting and
      Smithing at level 80. No other skill has extra prerequisites. */
  const SkillReqs: map<string, (int, seq<string>)> :=
    map["invention" := (80, ["divination", "crafting", "smithing"])]

  /** A skill node. The page defaults to the skill's wiki page; the required
      tree defaults to one leaf: the same skill one level lower, on the same
      page, not boostable. */
  function NewSkillRequirement(name: string, level: int, page: Option<string>,
                               required: Option<seq<Elem<Ref>>>): (r: Requirement)
    ensures r.kind == Requirements.Skill && r.name == name && r.level == level
    ensures r.page == (if page.Some? then page.value else GetSkillPage(name))
    ensures r.recommended == []
    ensures r.IdMatches()
  {
    var p := if page.Some? then page.value else GetSkillPage(name);
    var req := if required.Some? then required.value else [Leaf(Ref(Requirements.Skill, name, p, level - 1, false))];
    Requirement(GetRequirementID(Requirements.Skill, p, level), Requirements.Skill, name, p, level, req, [])
  }

  /** The number of header cells on a level-up table decides the maximum
      level: 120 from 124 cells on (120 rows plus four header cells), else 99. */
  function GetMaxLevel(headerCells: nat): (maxLevel: nat)
    ensures maxLevel == 99 || maxLevel == 120
    ensures maxLevel == 120 <==> headerCells >= 124
  {
    if headerCells >= 124 then 120 else 99
  }

  /** The extra level-2 leaves of a skill listed in `SkillReqs`. */
  function ExtraLeaves(skill: string): seq<Elem<Ref>>
    requires skill in SkillReqs
  {
    var (level, names) := SkillReqs[skill];
    seq(|names|, i requires 0 <= i < |names| =>
      Leaf(Ref(Requirements.Skill, names[i], GetSkillPage(names[i]), level, false)))
  }

  /** The node the generator makes for one level from 2 upwards. */
  function LevelUp(skill: string, page: string, level: int): Requirement
  {
    var req := NewSkillRequirement(skill, level, Some(page), None);
    if level == 2 && skill in SkillReqs then req.AddRequired(ExtraLeaves(skill)) else req
  }

  /** Level 1 of a skill: nothing required. */
  function LevelOne(skill: string, page: string): Requirement
  {
    NewSkillRequirement(skill, 1, Some(page), Some([]))
  }

  /** All nodes of one skill: level 1, then 2..maxLevel in ascending order. */
  function Chain(skill: string, maxLevel: int): seq<Requirement>
    decreases maxLevel
  {
    if maxLevel < 2 then [LevelOne(skill, GetSkillPage(skill))]
    else Chain(skill, maxLevel - 1) + [LevelUp(skill, GetSkillPage(skill), maxLevel)]
  }

  function AllChains(skills: seq<string>, headerCells: string -> nat): seq<Requirement>
  {
    if skills == [] then []
    else AllChains(skills[..|skills| - 1], headerCells) +
         Chain(skills[|skills| - 1], GetMaxLevel(headerCells(skills[|skills| - 1])))
  }

  /** `getSkillRequirements`: for each skill in id order, the level chain up
      to the maximum level its level-up table gives. The header-cell count
      of each table is an input. */
  method GetSkillRequirements(headerCells: string -> nat) returns (reqs: seq<Requirement>)
    ensures reqs == AllChains(Skills, headerCells)
  {
    reqs := ChainsOf(Skills, headerCells);
  }

  /** The outer loop of `getSkillRequirements`, over a list of skills. */
  method ChainsOf(skills: seq<string>, headerCells: string -> nat) returns (reqs: seq<Requirement>)
    ensures reqs == AllChains(skills, headerCells)
  {
    reqs := [];
    var i := 0;
    while i < |skills|
      invariant 0 <= i <= |skills|
      invariant reqs == AllChains(skills[..i], headerCells)
    {
      var skill := skills[i];
      var chain := ChainOf(skill, GetMaxLevel(headerCells(skill)));
      reqs := reqs + chain;
      AllChainsSnoc(skills, i, headerCells);
      i := i + 1;
    }
    AllChainsWhole(skills, headerCells);
  }

  /** The inner loop: level 1, then each level from 2 to `maxLevel`. */
  method ChainOf(skill: string, maxLevel: int) returns (reqs: seq<Requirement>)
    ensures reqs == Chain(skill, maxLevel)
  {
    var page := GetSkillPage(skill);
    reqs := [NewSkillRequirement(skill, 1, Some(page), Some([]))];
    assert reqs == Chain(skill, 1);
    var level := 2;
    while level <= maxLevel
      invariant 2 <= level <= if maxLevel >= 2 then maxLevel + 1 else 2
      invariant reqs == Chain(skill, level - 1)
    {
      var req := LevelNode(skill, page, level);
      ChainSnoc(skill, level);
      reqs := reqs + [req];
      level := level + 1;
    }
    if maxLevel < 2 {
      ChainShort(skill, maxLevel);
    } else {
      assert level - 1 == maxLevel;
    }
  }

  /** One pass of the inner loop: the node for `level`, with Invention's
      extra prerequisites added to its level 2. */
  method LevelNode(skill: string, page: string, level: int) returns (req: Requirement)
    ensures req == LevelUp(skill, page, level)
  {
    req := NewSkillRequirement(skill, level, Some(page), None);
    if level == 2 && skill in SkillReqs {
      req := req.AddRequired(ExtraLeaves(skill));
    }
  }

  lemma ChainSnoc(skill: string, level: int)
    requires level >= 2
    ensures Chain(skill, level) == Chain(skill, level - 1) + [LevelUp(skill, GetSkillPage(skill), level)]
  {
  }

  /** Below level 2 every chain is level 1 alone. */
  lemma ChainShort(skill: string, maxLevel: int)
    requires maxLevel < 2
    ensures Chain(skill, maxLevel) == Chain(skill, 1)
  {
  }

  // ----- lemmas -----

  lemma AllChainsSnoc(skills: seq<string>, i: int, headerCells: string -> nat)
    requires 0 <= i < |skills|
    ensures AllChains(skills[..i + 1], headerCells) ==
            AllChains(skills[..i], headerCells) + Chain(skills[i], GetMaxLevel(headerCells(skills[i])))
  {
    var prefix := skills[..i + 1];
    assert prefix[..i] == skills[..i] && prefix[i] == skills[i];
  }

  lemma AllChainsWhole(skills: seq<string>, headerCells: string -> nat)
    ensures AllChains(skills[..|skills|], headerCells) == AllChains(skills, headerCells)
  {
    assert skills[..|skills|] == skills;
  }

  /** A skill node's id is `skill:<page slug>:<level>`. */
  lemma SkillID(name: string, level: int, page: Option<string>, required: Option<seq<Elem<Ref>>>)
    ensures NewSkillRequirement(name, level, page, required).id ==
            "skill:" + Slug(NewSkillRequirement(name, level, page, required).page) + ":" + IntToString(level)
  {
  }

  /** On the default page of a slash-free skill name the slug is the
      capitalised name. */
  lemma DefaultSkillID(name: string, level: int, required: Option<seq<Elem<Ref>>>)
    requires '/' !in name
    ensures NewSkillRequirement(name, level, None, required).id ==
            "skill:" + StringUtil.UpperFirst(name) + ":" + IntToString(level)
  {
    SkillID(name, level, None, required);
    SkillPageSlug(name);
    assert Slug(GetSkillPage(name)) == StringUtil.UpperFirst(name);
  }

  /** Without an explicit tree, a skill node requires exactly the node one
      level below: same skill, same page, not boostable, and the leaf's id
      is that node's id. */
  lemma DefaultRequiredIsPreviousLevel(name: string, level: int, page: Option<string>)
    ensures var r := NewSkillRequirement(name, level, page, None);
            r.required == [Leaf(Ref(Requirements.Skill, name, r.page, level - 1, false))] &&
            RefID(r.required[0].value) == NewSkillRequirement(name, level - 1, Some(r.page), None).id
  {
  }

  lemma {:induction false} ChainLength(skill: string, maxLevel: int)
    requires maxLevel >= 1
    ensures |Chain(skill, maxLevel)| == maxLevel
    decreases maxLevel
  {
    if maxLevel >= 2 {
      ChainLength(skill, maxLevel - 1);
    }
  }

  /** Chain element 0 is level 1. */
  lemma {:induction false} ChainFirst(skill: string, maxLevel: int)
    requires 1 <= maxLevel
    ensures |Chain(skill, maxLevel)| == maxLevel
    ensures Chain(skill, maxLevel)[0] == LevelOne(skill, GetSkillPage(skill))
    decreases maxLevel
  {
    ChainLength(skill, maxLevel);
    if maxLevel >= 2 {
      ChainFirst(skill, maxLevel - 1);
    }
  }

  /** Chain element `j` from level 2 on is the generator's level `j + 1`. */
  lemma {:induction false} ChainAt(skill: string, maxLevel: int, j: int)
    requires 1 <= j < maxLevel
    ensures |Chain(skill, maxLevel)| == maxLevel
    ensures Chain(skill, maxLevel)[j] == LevelUp(skill, GetSkillPage(skill), j + 1)
    decreases maxLevel
  {
    ChainLength(skill, maxLevel - 1);
    if j < maxLevel - 1 {
      ChainAt(skill, maxLevel - 1, j);
    }
  }

  /** The fields of the generator's node for one level from 2 on. */
  lemma LevelUpShape(skill: string, page: string, level: int)
    ensures var r := LevelUp(skill, page, level);
            r.level == level && r.name == skill && r.kind == Requirements.Skill && r.page == page &&
            |r.required| >= 1 && r.required[0] == Leaf(Ref(Requirements.Skill, skill, page, level - 1, false))
  {
  }

  /** Each chain has one node per level 1..maxLevel in ascending order, all
      on the skill's page; level 1 requires nothing, and every later level
      requires the level below it (its first leaf has the id of the node
      before it). */
  lemma ChainSpec(skill: string, maxLevel: int)
    requires maxLevel >= 1
    ensures |Chain(skill, maxLevel)| == maxLevel
    ensures forall j :: 0 <= j < maxLevel ==>
              Chain(skill, maxLevel)[j].level == j + 1 &&
              Chain(skill, maxLevel)[j].name == skill &&
              Chain(skill, maxLevel)[j].kind == Requirements.Skill &&
              Chain(skill, maxLevel)[j].page == GetSkillPage(skill)
    ensures Chain(skill, maxLevel)[0].required == []
    ensures forall j :: 1 <= j < maxLevel ==>
              |Chain(skill, maxLevel)[j].required| >= 1 &&
              Chain(skill, maxLevel)[j].required[0] == Leaf(Ref(Requirements.Skill, skill, GetSkillPage(skill), j, false))
  {
    var c := Chain(skill, maxLevel);
    var page := GetSkillPage(skill);
    ChainFirst(skill, maxLevel);
    forall j | 1 <= j < maxLevel
      ensures c[j].level == j + 1 && c[j].name == skill && c[j].kind == Requirements.Skill && c[j].page == page
      ensures |c[j].required| >= 1 && c[j].required[0] == Leaf(Ref(Requirements.Skill, skill, page, j, false))
    {
      ChainAt(skill, maxLevel, j);
      LevelUpShape(skill, page, j + 1);
    }
  }

  /** Every level from 2 on names, as its first prerequisite, exactly the
      node before it in the chain. */
  lemma ChainLinks(skill: string, maxLevel: int, j: int)
    requires 1 <= j < maxLevel
    ensures |Chain(skill, maxLevel)| == maxLevel
    ensures |Chain(skill, maxLevel)[j].required| >= 1 && Chain(skill, maxLevel)[j].required[0].Leaf?
    ensures RefID(Chain(skill, maxLevel)[j].required[0].value) == Chain(skill, maxLevel)[j - 1].id
  {
    ChainSpec(skill, maxLevel);
    var c := Chain(skill, maxLevel);
    var page := GetSkillPage(skill);
    var leaf := c[j].required[0].value;
    assert leaf == Ref(Requirements.Skill, skill, page, j, false);
    assert RefID(leaf) == GetRequirementID(Requirements.Skill, page, j);
    assert c[j - 1].kind == Requirements.Skill && c[j - 1].page == page && c[j - 1].level == j;
  }

  /** Only Invention's level 2 has more than one required leaf: the three
      skills at level 80 follow the level-1 leaf. */
  lemma OnlyInventionLevelTwoHasExtras(skill: string, maxLevel: int, j: int)
    requires 1 <= j < maxLevel
    ensures |Chain(skill, maxLevel)| == maxLevel
    ensures |Chain(skill, maxLevel)[j].required| > 1 <==> skill == "invention" && j == 1
    ensures skill == "invention" && j == 1 ==>
              Chain(skill, maxLevel)[j].required[1..] == ExtraLeaves(skill) &&
              |ExtraLeaves(skill)| == 3 &&
              forall k :: 0 <= k < 3 ==> ExtraLeaves(skill)[k].value.level == 80
  {
    ChainAt(skill, maxLevel, j);
  }
}
