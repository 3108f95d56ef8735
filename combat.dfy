/** Combat-level requirement nodes. */
module Combat {
  import opened Text
  import opened Requirements

  const CombatName: string := "Combat"
  const CombatPage: string := "/w/Combat_level"

  /** A combat node: fixed name, kind and page, the given level, no trees. */
  function NewCombatRequirement(level: int): (r: Requirement)
    ensures r.kind == Requirements.Combat && r.name == CombatName && r.page == CombatPage
    ensures r.level == level
    ensures r.required == [] && r.recommended == []
    ensures r.IdMatches()
  {
    Requirement(GetRequirementID(Requirements.Combat, CombatPage, level), Requirements.Combat, CombatName, CombatPage, level, [], [])
  }

  /** The id of the combat node of a level. */
  function CombatID(level: int): string
  {
    NewCombatRequirement(level).id
  }

  lemma CombatSlug()
    ensures Slug(CombatPage) == "Combat_level"
  {
    var t := "Combat_level";
    assert PageMarker + t == CombatPage;
    SplitLastAfterSeparator(PageMarker, t);
  }

  /** A combat node's id is `combat:Combat_level:<level>`, whatever page the
      reference that created it named; so one id per level. */
  lemma CombatIDShape(level: int)
    ensures CombatID(level) == "combat" + ":" + "Combat_level" + ":" + IntToString(level)
    ensures forall other: int :: CombatID(other) == CombatID(level) <==> other == level
  {
    CombatIDText(level);
    forall other: int
      ensures CombatID(other) == CombatID(level) <==> other == level
    {
      CombatIDsEqual(other, level);
    }
  }

  lemma CombatIDText(level: int)
    ensures CombatID(level) == "combat" + ":" + "Combat_level" + ":" + IntToString(level)
  {
    CombatSlug();
  }

  lemma CombatIDsEqual(a: int, b: int)
    ensures CombatID(a) == CombatID(b) <==> a == b
  {
    IDsEqual(Requirements.Combat, CombatPage, a, Requirements.Combat, CombatPage, b);
  }
}
