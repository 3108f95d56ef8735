/**
 * Requirement nodes: the four kinds, the prerequisite references stored in
 * the trees, requirement ids, and the node with its required and
 * recommended AND/OR trees.
 */
module Requirements {
  import opened Wrappers
  import opened Text
  import opened AndOr

  datatype Kind = Quest | Skill | Achievement | Combat

  /** The `type` string of a kind. */
  function KindName(k: Kind): (name: string)
    ensures ':' !in name && |name| >= 5
  {
    match k
    case Quest => "quest"
    case Skill => "skill"
    case Achievement => "achievement"
    case Combat => "combat"
  }

  /** Skill and combat requirements carry a level; their ids include it. */
  predicate HasLevel(k: Kind)
  {
    k == Skill || k == Combat
  }

  /**
   * A prerequisite as a tree leaf holds it: kind, name, wiki page, and for
   * skills and combat a level (skills also say whether boosts count). For
   * quests and achievements `level` and `boostable` play no part.
   */
  datatype Ref = Ref(kind: Kind, name: string, page: string, level: int, boostable: bool)

  const PageMarker: string := "/w/"

  /** The page's slug: the last piece of `page.split('/w/')`. */
  function Slug(page: string): string
  {
    SplitLast(page, PageMarker)
  }

  /** `type:slug`, followed by `:level` for skills and combat. */
  function GetRequirementID(kind: Kind, page: string, level: int): (id: string)
    ensures |id| > |KindName(kind)| && id[..|KindName(kind)| + 1] == KindName(kind) + ":"
  {
    var normalId := KindName(kind) + ":" + Slug(page);
    if HasLevel(kind) then normalId + ":" + IntToString(level) else normalId
  }

  function RefID(r: Ref): string
  {
    GetRequirementID(r.kind, r.page, r.level)
  }

  // ----- the id is a faithful key -----

  /** Length of the text before the first `:` (the whole length if none). */
  function BeforeFirstColon(s: string): nat
  {
    if s == [] || s[0] == ':' then 0 else 1 + BeforeFirstColon(s[1..])
  }

  /** Length of the text after the last `:` (the whole length if none). */
  function AfterLastColon(s: string): nat
  {
    if s == [] || s[|s| - 1] == ':' then 0 else 1 + AfterLastColon(s[..|s| - 1])
  }

  lemma {:induction false} BeforeFirstColonOf(a: string, x: string)
    requires ':' !in a
    ensures BeforeFirstColon(a + ":" + x) == |a|
    decreases |a|
  {
    if a != [] {
      assert (a + ":" + x)[1..] == a[1..] + ":" + x;
      BeforeFirstColonOf(a[1..], x);
    }
  }

  lemma {:induction false} AfterLastColonOf(x: string, a: string)
    requires ':' !in a
    ensures AfterLastColon(x + ":" + a) == |a|
    decreases |a|
  {
    if a != [] {
      var s := x + ":" + a;
      assert s[..|s| - 1] == x + ":" + a[..|a| - 1];
      AfterLastColonOf(x, a[..|a| - 1]);
    }
  }

  lemma ColonPrefix(a: string, x: string, b: string, y: string)
    requires ':' !in a && ':' !in b
    requires a + ":" + x == b + ":" + y
    ensures a == b && x == y
  {
    var s := a + ":" + x;
    BeforeFirstColonOf(a, x);
    BeforeFirstColonOf(b, y);
    assert a == s[..|a|] == b;
    assert x == s[|a| + 1..] == y;
  }

  lemma ColonSuffix(x: string, a: string, y: string, b: string)
    requires ':' !in a && ':' !in b
    requires x + ":" + a == y + ":" + b
    ensures x == y && a == b
  {
    var s := x + ":" + a;
    var n := |s|;
    AfterLastColonOf(x, a);
    AfterLastColonOf(y, b);
    assert a == s[n - |a|..] == b;
    assert x == s[..n - |a| - 1] == y;
  }

  lemma KindNameInjective(k1: Kind, k2: Kind)
    requires KindName(k1) == KindName(k2)
    ensures k1 == k2
  {
  }

  /** Everything after `type:`. */
  function IDTail(kind: Kind, page: string, level: int): string
  {
    Slug(page) + (if HasLevel(kind) then ":" + IntToString(level) else "")
  }

  lemma IDShape(kind: Kind, page: string, level: int)
    ensures GetRequirementID(kind, page, level) == KindName(kind) + ":" + IDTail(kind, page, level)
  {
  }

  /** Two ids are equal exactly when the kinds are equal, the page slugs are
      equal, and, for skills and combat, the levels are equal. */
  lemma IDsEqual(k1: Kind, p1: string, l1: int, k2: Kind, p2: string, l2: int)
    ensures GetRequirementID(k1, p1, l1) == GetRequirementID(k2, p2, l2) <==>
            k1 == k2 && Slug(p1) == Slug(p2) && (HasLevel(k1) ==> l1 == l2)
  {
    IDShape(k1, p1, l1);
    IDShape(k2, p2, l2);
    if GetRequirementID(k1, p1, l1) == GetRequirementID(k2, p2, l2) {
      ColonPrefix(KindName(k1), IDTail(k1, p1, l1), KindName(k2), IDTail(k2, p2, l2));
      KindNameInjective(k1, k2);
      if HasLevel(k1) {
        assert IDTail(k1, p1, l1) == Slug(p1) + ":" + IntToString(l1);
        assert IDTail(k2, p2, l2) == Slug(p2) + ":" + IntToString(l2);
        IntToStringHasNo(l1, ':');
        IntToStringHasNo(l2, ':');
        ColonSuffix(Slug(p1), IntToString(l1), Slug(p2), IntToString(l2));
        IntToStringInjective(l1, l2);
      }
    }
  }

  /** Two skill (or combat) references to the same page with different levels
      get different ids; quest and achievement ids ignore the level. */
  lemma LevelInID(k: Kind, page: string, l1: int, l2: int)
    ensures HasLevel(k) && l1 != l2 ==> GetRequirementID(k, page, l1) != GetRequirementID(k, page, l2)
    ensures !HasLevel(k) ==> GetRequirementID(k, page, l1) == GetRequirementID(k, page, l2)
  {
    IDsEqual(k, page, l1, k, page, l2);
  }

  // ----- requirement nodes -----

  /**
   * A requirement node: its id (set once by each kind's constructor), kind,
   * name, page, level (for skills and combat), and the required and
   * recommended trees. Icons, release dates and quest flags are not
   * modelled.
   */
  datatype Requirement = Requirement(
    id: string, kind: Kind, name: string, page: string, level: int,
    required: seq<Elem<Ref>>, recommended: seq<Elem<Ref>>)
  {
    /** The id every constructor gives a node: derived as for a reference. */
    predicate IdMatches()
    {
      id == GetRequirementID(kind, page, level)
    }

    /** This node as a reference (what `isSkill` and friends test). */
    function AsRef(): Ref
    {
      Ref(kind, name, page, level, false)
    }

    /** `addRequired`: appends to `required`, nothing else changes. */
    function AddRequired(xs: seq<Elem<Ref>>): (r: Requirement)
      ensures r.required == required + xs
      ensures r.(required := required) == this
    {
      this.(required := required + xs)
    }

    /** `addRecommended`: appends to `recommended`, nothing else changes. */
    function AddRecommended(xs: seq<Elem<Ref>>): (r: Requirement)
      ensures r.recommended == recommended + xs
      ensures r.(recommended := recommended) == this
    {
      this.(recommended := recommended + xs)
    }

    /** `find`: the required tree first (the predicate sees `true`), then, only
        if nothing was found and `withRecommended` is set, the recommended
        tree (the predicate sees `false`). */
    function Find(p: (Ref, bool) -> bool, withRecommended: bool): Option<Elem<Ref>>
    {
      var inRequired := AndOr.Find(required, (x: Ref) => p(x, true));
      if inRequired.Some? then inRequired
      else if withRecommended then AndOr.Find(recommended, (x: Ref) => p(x, false))
      else None
    }

    /** Every prerequisite, required ones first, in iteration order: the
        leaves `forEach` and `map` visit with recommendations included. */
    function AllLeaves(): seq<Ref>
    {
      Leaves(required) + Leaves(recommended)
    }

    /** The calls `forEach` makes: every required leaf with `true`, then, if
        `withRecommended` is set, every recommended leaf with `false`. */
    function Visits(withRecommended: bool): seq<(Ref, bool)>
    {
      Tagged(Leaves(required), true) + (if withRecommended then Tagged(Leaves(recommended), false) else [])
    }

    /** `map`: the mapped required tree, with the mapped recommended tree
        appended as one nested AND group when `withRecommended` is set. */
    function MapTrees<U>(f: (Ref, bool) -> U, withRecommended: bool): seq<Elem<U>>
    {
      var a := AndOr.Map(required, (x: Ref) => f(x, true));
      if withRecommended then a + [And(AndOr.Map(recommended, (x: Ref) => f(x, false)))] else a
    }

    /** `filterByType`: flattened required leaves of kind `k`, followed by
        the recommended ones when `withRecommended` is set. */
    function FilterByType(k: Kind, withRecommended: bool): seq<Ref>
    {
      OfKind(Flatten(required), k) + (if withRecommended then OfKind(Flatten(recommended), k) else [])
    }

    function GetSkills(withRecommended: bool): seq<Ref> { FilterByType(Skill, withRecommended) }
    function GetQuests(withRecommended: bool): seq<Ref> { FilterByType(Quest, withRecommended) }
    function GetAchievements(withRecommended: bool): seq<Ref> { FilterByType(Achievement, withRecommended) }
  }

  /** A node built with the optional trees left out starts with both empty. */
  function NewRequirement(kind: Kind, name: string, page: string, level: int,
                          required: Option<seq<Elem<Ref>>>, recommended: Option<seq<Elem<Ref>>>): (r: Requirement)
    ensures r.kind == kind && r.name == name && r.page == page && r.level == level
    ensures r.required == (if required.Some? then required.value else [])
    ensures r.recommended == (if recommended.Some? then recommended.value else [])
    ensures r.IdMatches()
  {
    Requirement(GetRequirementID(kind, page, level), kind, name, page, level,
                if required.Some? then required.value else [],
                if recommended.Some? then recommended.value else [])
  }

  function Tagged(xs: seq<Ref>, flag: bool): (r: seq<(Ref, bool)>)
    ensures |r| == |xs|
    ensures forall i :: 0 <= i < |xs| ==> r[i] == (xs[i], flag)
  {
    seq(|xs|, i requires 0 <= i < |xs| => (xs[i], flag))
  }

  /** The references of one kind, in order. */
  function OfKind(xs: seq<Ref>, k: Kind): seq<Ref>
  {
    if xs == [] then [] else (if xs[0].kind == k then [xs[0]] else []) + OfKind(xs[1..], k)
  }

  // ----- lemmas -----

  lemma {:induction false} OfKindSpec(xs: seq<Ref>, k: Kind)
    ensures forall x :: x in OfKind(xs, k) <==> x in xs && x.kind == k
    ensures |OfKind(xs, k)| <= |xs|
    ensures (forall i :: 0 <= i < |xs| ==> xs[i].kind == k) ==> OfKind(xs, k) == xs
    decreases |xs|
  {
    if xs != [] {
      OfKindSpec(xs[1..], k);
      assert xs == [xs[0]] + xs[1..];
      if forall i :: 0 <= i < |xs| ==> xs[i].kind == k {
        assert forall i :: 0 <= i < |xs[1..]| ==> xs[1..][i].kind == k by {
          forall i | 0 <= i < |xs[1..]| ensures xs[1..][i].kind == k {
            assert xs[1..][i] == xs[i + 1];
          }
        }
      }
    }
  }

  lemma {:induction false} OfKindAppend(a: seq<Ref>, b: seq<Ref>, k: Kind)
    ensures OfKind(a + b, k) == OfKind(a, k) + OfKind(b, k)
    decreases |a|
  {
    if a != [] {
      OfKindAppend(a[1..], b, k);
      assert (a + b)[1..] == a[1..] + b;
    } else {
      assert a + b == b;
    }
  }

  /** `getSkills`/`getQuests`/`getAchievements` return the required leaves of
      that kind in tree order, duplicates kept, then the recommended ones
      when asked; a leaf is listed exactly when it has that kind. */
  lemma FilterByTypeSpec(req: Requirement, k: Kind, withRecommended: bool)
    ensures req.FilterByType(k, withRecommended) ==
            OfKind(Leaves(req.required), k) + (if withRecommended then OfKind(Leaves(req.recommended), k) else [])
    ensures forall x :: x in req.FilterByType(k, withRecommended) <==>
            x.kind == k && (x in Leaves(req.required) || (withRecommended && x in Leaves(req.recommended)))
  {
    FlattenIsLeaves(req.required);
    FlattenIsLeaves(req.recommended);
    OfKindSpec(Leaves(req.required), k);
    OfKindSpec(Leaves(req.recommended), k);
  }

  /** `find` answers `None` exactly when no required leaf matches (with
      `true`) and, if asked, no recommended leaf matches (with `false`); a
      match in the required tree always wins. */
  lemma FindSpecReq(req: Requirement, p: (Ref, bool) -> bool, withRecommended: bool)
    ensures req.Find(p, withRecommended).None? <==>
            (forall x :: x in Leaves(req.required) ==> !p(x, true)) &&
            (withRecommended ==> forall x :: x in Leaves(req.recommended) ==> !p(x, false))
    ensures (exists x :: x in Leaves(req.required) && p(x, true)) ==>
            req.Find(p, withRecommended) == AndOr.Find(req.required, (x: Ref) => p(x, true))
  {
    var pr := (x: Ref) => p(x, true);
    var pc := (x: Ref) => p(x, false);
    AndOr.FindSpec(req.required, pr);
    AndOr.FindSpec(req.recommended, pc);
  }

  /** `map` keeps the required tree's shape and, with recommendations, adds
      exactly one top-level element; its leaves, in order, are the mapped
      required leaves followed by the mapped recommended ones, which is the
      order `forEach` visits them in. */
  lemma MapTreesSpec<U>(req: Requirement, f: (Ref, bool) -> U, withRecommended: bool)
    ensures |req.MapTrees(f, withRecommended)| == |req.required| + (if withRecommended then 1 else 0)
    ensures Leaves(req.MapTrees(f, withRecommended)) ==
            MapSeq(Leaves(req.required), (x: Ref) => f(x, true)) +
            (if withRecommended then MapSeq(Leaves(req.recommended), (x: Ref) => f(x, false)) else [])
    ensures Leaves(req.MapTrees((x: Ref, b: bool) => (x, b), withRecommended)) == req.Visits(withRecommended)
  {
    MapAppendedLeaves(req, f, withRecommended);
    var g := (x: Ref, b: bool) => (x, b);
    MapAppendedLeaves(req, g, withRecommended);
  }

  lemma MapAppendedLeaves<U>(req: Requirement, f: (Ref, bool) -> U, withRecommended: bool)
    ensures |req.MapTrees(f, withRecommended)| == |req.required| + (if withRecommended then 1 else 0)
    ensures Leaves(req.MapTrees(f, withRecommended)) ==
            MapSeq(Leaves(req.required), (x: Ref) => f(x, true)) +
            (if withRecommended then MapSeq(Leaves(req.recommended), (x: Ref) => f(x, false)) else [])
  {
    var ft := (x: Ref) => f(x, true);
    var ff := (x: Ref) => f(x, false);
    var a := AndOr.Map(req.required, ft);
    MapLeaves(req.required, ft);
    if withRecommended {
      var b := AndOr.Map(req.recommended, ff);
      MapLeaves(req.recommended, ff);
      LeavesAppend(a, [And(b)]);
      LeavesCons([And(b)]);
      assert Leaves([And(b)][1..]) == [];
    }
  }
}
