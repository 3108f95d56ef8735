/**
 * `getRequirements`: the node list (skills, quests, achievements, the Quest
 * Cape, the trimmed cape and True Trim), the map built from it, the three
 * passes run from True Trim, one row per stored node, the 7-key sort, and
 * the replay that reports prerequisites placed after the step needing them.
 * Scraping the skills, quests and achievements is I/O: they are inputs.
 */
module Pipeline {
  import opened Wrappers
  import opened Sets
  import opened AndOr
  import opened Requirements
  import opened ReqsById
  import MaxDepth
  import MaxLevels
  import DependentCounts
  import Achievements
  import RsWiki
  import opened Sorting
  import Url

  const QuestCapeName: string := "Quest Cape"
  const QuestCapePage: string := "/w/Quest_Cape"
  const TrueTrimName: string := "True Trim"
  const TrueTrimPage: string := "/w/True_trim"

  // ----- the node list -----

  /** The Quest Cape: an achievement requiring every quest, in order. */
  function QuestCape(quests: seq<Requirement>): (r: Requirement)
    ensures r.kind == Achievement && r.name == QuestCapeName && r.page == QuestCapePage
    ensures Leaves(r.required) == MapSeq(quests, (q: Requirement) => q.AsRef())
    ensures r.recommended == []
  {
    var leaves := MapSeq(quests, (q: Requirement) => Leaf(q.AsRef()));
    LeavesOfLeafList(leaves, MapSeq(quests, (q: Requirement) => q.AsRef()));
    Achievements.NewAchievementRequirement(QuestCapeName, QuestCapePage, Some(leaves), None)
  }

  /** True Trim: an achievement requiring the Quest Cape and the trimmed
      cape. */
  function TrueTrim(questCape: Requirement, trimmed: Requirement): (r: Requirement)
    ensures r.kind == Achievement && r.name == TrueTrimName && r.page == TrueTrimPage
    ensures Leaves(r.required) == [questCape.AsRef(), trimmed.AsRef()]
    ensures r.recommended == []
  {
    LeavesOfLeafList([Leaf(questCape.AsRef()), Leaf(trimmed.AsRef())], [questCape.AsRef(), trimmed.AsRef()]);
    Achievements.NewAchievementRequirement(TrueTrimName, TrueTrimPage,
      Some([Leaf(questCape.AsRef()), Leaf(trimmed.AsRef())]), None)
  }

  /** The nodes in the order they are put into `reqsById`. */
  function AllNodes(skills: seq<Requirement>, quests: seq<Requirement>, achievements: seq<Requirement>,
                    trimmed: Requirement): (nodes: seq<Requirement>)
    ensures |nodes| == |skills| + |quests| + |achievements| + 3
    ensures nodes[..|skills|] == skills
    ensures nodes[|nodes| - 1] == TrueTrim(QuestCape(quests), trimmed)
  {
    var questCape := QuestCape(quests);
    skills + quests + achievements + [questCape, trimmed, TrueTrim(questCape, trimmed)]
  }

  /** The key every pass starts from: True Trim's id. */
  function Root(quests: seq<Requirement>, trimmed: Requirement): string
  {
    TrueTrim(QuestCape(quests), trimmed).id
  }

  /** True Trim is the last node set, so the map holds it under its id. */
  lemma RootStored(skills: seq<Requirement>, quests: seq<Requirement>, achievements: seq<Requirement>,
                   trimmed: Requirement)
    ensures var nodes := AllNodes(skills, quests, achievements, trimmed);
            var root := Root(quests, trimmed);
            root in Build(nodes).reqs && Build(nodes).reqs[root] == TrueTrim(QuestCape(quests), trimmed)
  {
    var nodes := AllNodes(skills, quests, achievements, trimmed);
    var n := |nodes| - 1;
    assert nodes == nodes[..n] + [nodes[n]];
    assert ById(nodes) == ById(nodes[..n])[nodes[n].id := nodes[n]];
  }

  // ----- the passes -----

  /** What a later pass keeps: a well-formed, grown store, the root's
      depth, and the two orderings of the analysis fields. */
  ghost predicate Carried(r: Store, s: Store, root: string, u: set<string>)
  {
    Valid(r, u) && Grows(r, s) && root in s.info && root in r.info &&
    r.info[root].depth == s.info[root].depth &&
    (MaxLevels.AllOrdered(s) ==> MaxLevels.AllOrdered(r)) &&
    (DependentCounts.AllNested(s) ==> DependentCounts.AllNested(r)) &&
    (DependentCounts.Sound(s) ==> DependentCounts.Sound(r))
  }

  /** Depth, then levels, then dependents, all from `root`; the first error
      ends the run. */
  function Analyse(s: Store, root: string, ghost u: set<string>): (res: Result<Store>)
    requires Valid(s, u) && root in s.reqs
    ensures res.Ok? ==> Valid(res.value, u) && Grows(res.value, s)
    ensures res.Ok? && s.info[root].depth == NegInf ==> res.value.info[root].depth == Fin(0)
    ensures res.Ok? && MaxLevels.AllOrdered(s) ==> MaxLevels.AllOrdered(res.value)
    ensures res.Ok? && DependentCounts.AllNested(s) ==> DependentCounts.AllNested(res.value)
    ensures res.Ok? && DependentCounts.Sound(s) ==> DependentCounts.Sound(res.value)
  {
    match MaxDepth.FindMaxDepth(s, root, u)
    case Err(m) => Err(m)
    case Ok(s1) =>
      MaxDepth.RootDepth(s, root, u);
      match LevelsThenDependents(s1, root, u)
      case Err(m) => Err(m)
      case Ok(s3) =>
        DepthThenRest(s, s1, s3, root, u);
        Ok(s3)
  }

  /** The depth pass followed by passes that carry its results. */
  lemma DepthThenRest(s: Store, s1: Store, s3: Store, root: string, u: set<string>)
    requires MaxDepth.DepthStep(s1, s, u) && root in s.info && Carried(s3, s1, root, u)
    requires s.info[root].depth == NegInf ==> s1.info[root].depth == Fin(0)
    ensures Valid(s3, u) && Grows(s3, s)
    ensures s.info[root].depth == NegInf ==> s3.info[root].depth == Fin(0)
    ensures MaxLevels.AllOrdered(s) ==> MaxLevels.AllOrdered(s3)
    ensures DependentCounts.AllNested(s) ==> DependentCounts.AllNested(s3)
    ensures DependentCounts.Sound(s) ==> DependentCounts.Sound(s3)
  {
    DepthKeeps(s, s1, u);
    GrowsTrans(s, s1, s3);
  }

  /** The level pass, then the dependents pass. */
  function LevelsThenDependents(s1: Store, root: string, ghost u: set<string>): (res: Result<Store>)
    requires Valid(s1, u) && root in s1.reqs
    ensures res.Ok? ==> Carried(res.value, s1, root, u)
  {
    match MaxLevels.FindMaxLevels(s1, root, u)
    case Err(m) => Err(m)
    case Ok(s2) =>
      LevelsKeep(s1, s2, root, u);
      DependentCounts.FindSound(s2, root, u);
      match DependentCounts.FindDependentCounts(s2, root, u)
      case Err(m) => Err(m)
      case Ok(s3) =>
        DependentsKeep(s2, s3, root, u);
        CarriedTrans(s1, s2, s3, root, u);
        Ok(s3)
  }

  lemma CarriedTrans(s1: Store, s2: Store, s3: Store, root: string, u: set<string>)
    requires Carried(s2, s1, root, u) && Carried(s3, s2, root, u)
    ensures Carried(s3, s1, root, u)
  {
    GrowsTrans(s1, s2, s3);
  }

  /** The depth pass touches neither the levels nor the dependent sets. */
  lemma DepthKeeps(s: Store, s1: Store, u: set<string>)
    requires MaxDepth.DepthStep(s1, s, u)
    ensures MaxLevels.AllOrdered(s) ==> MaxLevels.AllOrdered(s1)
    ensures DependentCounts.AllNested(s) ==> DependentCounts.AllNested(s1)
    ensures DependentCounts.Sound(s) ==> DependentCounts.Sound(s1)
  {
    DepthSets(s, s1, u);
    DependentCounts.SoundKept(s, s1);
  }

  lemma DepthSets(s: Store, s1: Store, u: set<string>)
    requires MaxDepth.DepthStep(s1, s, u)
    ensures DependentCounts.SetsKept(s1, s)
  {
  }

  lemma LevelsSets(s1: Store, s2: Store)
    requires MaxLevels.LevelsChanged(s2, s1)
    ensures DependentCounts.SetsKept(s2, s1)
  {
  }

  /** The level pass touches neither the depths nor the dependent sets. */
  lemma LevelsKeep(s1: Store, s2: Store, root: string, u: set<string>)
    requires Valid(s2, u) && Grows(s2, s1) && MaxLevels.LevelsChanged(s2, s1)
    requires MaxLevels.AllOrdered(s1) ==> MaxLevels.AllOrdered(s2)
    requires root in s1.info
    ensures Carried(s2, s1, root, u)
  {
    LevelsSets(s1, s2);
    DependentCounts.SoundKept(s1, s2);
  }

  /** The dependents pass touches neither the depths nor the levels. */
  lemma DependentsKeep(s2: Store, s3: Store, root: string, u: set<string>)
    requires DependentCounts.DepStep(s3, s2, u)
    requires DependentCounts.AllNested(s2) ==> DependentCounts.AllNested(s3)
    requires DependentCounts.Sound(s2) ==> DependentCounts.Sound(s3)
    requires root in s2.info
    ensures Carried(s3, s2, root, u)
  {
  }

  // ----- rows -----

  /** A row of the result: the node without its trees and recommended
      fields, its page as a wiki link, the dependent sets as counts, and its
      skill, quest and achievement prerequisites with recommendations. */
  datatype Row = Row(
    id: string, kind: Kind, name: string, page: string, level: int,
    depth: ExtInt, maxLevel: int, maxLevelRecommended: int,
    directDependents: nat, indirectDependents: nat,
    quests: seq<Ref>, skills: seq<Ref>, achievements: seq<Ref>)

  function ToRow(node: Requirement, info: Info): (r: Row)
    ensures r.id == node.id && r.name == node.name && r.kind == node.kind
    ensures r.depth == info.depth && r.maxLevel == info.maxLevel && r.maxLevelRecommended == info.maxLevelRecommended
    ensures r.directDependents == |info.direct| && r.indirectDependents == |info.indirect|
    ensures r.page == RsWiki.WikiUrl + node.page
    ensures r.skills == node.GetSkills(true) && r.quests == node.GetQuests(true) &&
            r.achievements == node.GetAchievements(true)
  {
    Url.AddThenBuild(RsWiki.WikiUrlBuilder, node.page);
    Row(node.id, node.kind, node.name, RsWiki.WikiUrlBuilder.Build(Url.PageAndQuery(node.page, None)), node.level,
        info.depth, info.maxLevel, info.maxLevelRecommended, |info.direct|, |info.indirect|,
        node.GetQuests(true), node.GetSkills(true), node.GetAchievements(true))
  }

  /** One row per stored node, in the map's iteration order. */
  function Rows(s: Store): (rows: seq<Row>)
    requires forall k :: k in s.keys ==> k in s.reqs && k in s.info
    ensures |rows| == |s.keys|
    ensures forall i :: 0 <= i < |s.keys| ==> rows[i] == ToRow(s.reqs[s.keys[i]], s.info[s.keys[i]])
  {
    seq(|s.keys|, i requires 0 <= i < |s.keys| => ToRow(s.reqs[s.keys[i]], s.info[s.keys[i]]))
  }

  // ----- the sort -----

  /** `typePriority`: quests first, then skills, then combat and
      achievements together. */
  function TypePriority(k: Kind): (p: int)
    ensures 1 <= p <= 3
    ensures p == 1 <==> k == Quest
    ensures p == 2 <==> k == Skill
  {
    match k
    case Quest => 1
    case Skill => 2
    case Combat => 3
    case Achievement => 3
  }

  /** `b.depth - a.depth` as the comparator's `||` sees it: minus infinity
      on both sides gives NaN, which `||` passes over like 0. */
  function DepthDesc(a: ExtInt, b: ExtInt): int
  {
    match (a, b)
    case (NegInf, NegInf) => 0
    case (NegInf, Fin(_)) => 1
    case (Fin(_), NegInf) => -1
    case (Fin(x), Fin(y)) => y - x
  }

  /** The comparator: the first key that differs decides; `localeCompare`
      on the names is a parameter. */
  function Compare(a: Row, b: Row, localeCompare: (string, string) -> int): int
  {
    var byDepth := DepthDesc(a.depth, b.depth);
    if byDepth != 0 then byDepth
    else if a.maxLevel != b.maxLevel then a.maxLevel - b.maxLevel
    else if a.maxLevelRecommended != b.maxLevelRecommended then a.maxLevelRecommended - b.maxLevelRecommended
    else if a.indirectDependents != b.indirectDependents then b.indirectDependents - a.indirectDependents
    else if a.directDependents != b.directDependents then b.directDependents - a.directDependents
    else if TypePriority(a.kind) != TypePriority(b.kind) then TypePriority(a.kind) - TypePriority(b.kind)
    else localeCompare(a.name, b.name)
  }

  /** `localeCompare` orders any two names one way or the other. */
  ghost predicate LocaleTotal(localeCompare: (string, string) -> int)
  {
    forall x, y :: localeCompare(x, y) <= 0 || localeCompare(y, x) <= 0
  }

  /** The comparator with `localeCompare` fixed. */
  function RowOrder(localeCompare: (string, string) -> int): (Row, Row) -> int
  {
    (a: Row, b: Row) => Compare(a, b, localeCompare)
  }

  predicate Sorted(rows: seq<Row>, localeCompare: (string, string) -> int)
  {
    SortedBy(rows, RowOrder(localeCompare))
  }

  /** The rows sorted in place with the comparator. */
  function SortRows(rows: seq<Row>, localeCompare: (string, string) -> int): (r: seq<Row>)
    ensures multiset(r) == multiset(rows)
  {
    Sort(rows, RowOrder(localeCompare))
  }

  /** Any two rows compare one way or the other. */
  lemma CompareTotal(localeCompare: (string, string) -> int)
    requires LocaleTotal(localeCompare)
    ensures Total(RowOrder(localeCompare))
  {
    forall a: Row, b: Row ensures Compare(a, b, localeCompare) <= 0 || Compare(b, a, localeCompare) <= 0 {
      assert localeCompare(a.name, b.name) <= 0 || localeCompare(b.name, a.name) <= 0;
    }
  }

  /** The sort leaves every adjacent pair in comparator order and is a
      permutation of its input. */
  lemma SortRowsSorted(rows: seq<Row>, localeCompare: (string, string) -> int)
    requires LocaleTotal(localeCompare)
    ensures Sorted(SortRows(rows, localeCompare), localeCompare)
    ensures multiset(SortRows(rows, localeCompare)) == multiset(rows)
  {
    CompareTotal(localeCompare);
    SortSorted(rows, RowOrder(localeCompare));
  }

  /** A row the comparator puts first is no shallower; on equal depth its
      required level is no higher; on equal levels too, its recommended
      level is no higher. */
  lemma PrecedesKeys(a: Row, b: Row, localeCompare: (string, string) -> int)
    requires Compare(a, b, localeCompare) <= 0
    ensures AtLeast(a.depth, b.depth)
    ensures a.depth == b.depth ==> a.maxLevel <= b.maxLevel
    ensures a.depth == b.depth && a.maxLevel == b.maxLevel ==> a.maxLevelRecommended <= b.maxLevelRecommended
    ensures a.depth == b.depth && a.maxLevel == b.maxLevel && a.maxLevelRecommended == b.maxLevelRecommended ==>
              a.indirectDependents >= b.indirectDependents
  {
    match (a.depth, b.depth)
    case (NegInf, NegInf) =>
    case (NegInf, Fin(_)) =>
    case (Fin(_), NegInf) =>
    case (Fin(x), Fin(y)) =>
  }


  /** In sorted rows depth never rises from one row to any later one. */
  lemma {:induction false} SortedByDepth(rows: seq<Row>, localeCompare: (string, string) -> int, i: int, j: int)
    requires Sorted(rows, localeCompare) && 0 <= i <= j < |rows|
    ensures AtLeast(rows[i].depth, rows[j].depth)
    decreases j - i
  {
    if i < j {
      SortedByDepth(rows, localeCompare, i + 1, j);
      PrecedesKeys(rows[i], rows[i + 1], localeCompare);
      AtLeastTrans(rows[i].depth, rows[i + 1].depth, rows[j].depth);
    }
  }

  /** Among sorted rows of equal depth, the required level never falls. */
  lemma {:induction false} SortedByLevel(rows: seq<Row>, localeCompare: (string, string) -> int, i: int, j: int)
    requires Sorted(rows, localeCompare) && 0 <= i <= j < |rows|
    requires rows[i].depth == rows[j].depth
    ensures rows[i].maxLevel <= rows[j].maxLevel
    decreases j - i
  {
    if i < j {
      PrecedesKeys(rows[i], rows[i + 1], localeCompare);
      SortedByDepth(rows, localeCompare, i + 1, j);
      assert rows[i + 1].depth == rows[j].depth;
      SortedByLevel(rows, localeCompare, i + 1, j);
    }
  }

  // ----- the replay -----

  /** A line the replay logs: a step and the prerequisites it comes
      before. */
  datatype Report = Report(id: string, before: seq<string>)

  /** The prerequisite ids of a row: skills, then achievements, then
      quests. */
  function PrereqIDs(r: Row): seq<string>
  {
    MapSeq(r.skills + r.achievements + r.quests, RefID)
  }

  /** The ids not in `seen`, in order, duplicates kept. */
  function Unseen(ids: seq<string>, seen: set<string>): seq<string>
  {
    if ids == [] then []
    else (if ids[0] in seen then [] else [ids[0]]) + Unseen(ids[1..], seen)
  }

  /** `Unseen` keeps exactly the ids outside `seen`. */
  lemma {:induction false} UnseenSpec(ids: seq<string>, seen: set<string>)
    ensures forall x :: x in Unseen(ids, seen) <==> x in ids && x !in seen
    ensures |Unseen(ids, seen)| <= |ids|
  {
    if ids != [] {
      UnseenSpec(ids[1..], seen);
      assert ids == [ids[0]] + ids[1..];
    }
  }

  /** The ids of the first `n` rows. */
  function IdsUpTo(rows: seq<Row>, n: int): (ids: set<string>)
    requires 0 <= n <= |rows|
  {
    if n == 0 then {} else IdsUpTo(rows, n - 1) + {rows[n - 1].id}
  }

  /** The line logged for row `r` once the ids in `seen` are placed: none
      if every prerequisite is among them. */
  function ReportFor(r: Row, seen: set<string>): seq<Report>
  {
    var missing := Unseen(PrereqIDs(r), seen);
    if |missing| > 0 then [Report(r.id, missing)] else []
  }

  /** The lines logged for the first `n` rows, each row checked against the
      ids up to and including its own. */
  function ReportsUpTo(rows: seq<Row>, n: int): seq<Report>
    requires 0 <= n <= |rows|
  {
    Joined(Lines(rows, n))
  }

  /** Row by row, what each of the first `n` rows logs. */
  function Lines(rows: seq<Row>, n: int): (lines: seq<seq<Report>>)
    requires 0 <= n <= |rows|
    ensures |lines| == n
  {
    seq(n, i requires 0 <= i < n => ReportFor(rows[i], IdsUpTo(rows, i + 1)))
  }

  /** The lines one after another. */
  function Joined(lines: seq<seq<Report>>): seq<Report>
  {
    if lines == [] then [] else Joined(lines[..|lines| - 1]) + lines[|lines| - 1]
  }

  /** Joined lines are empty exactly when every line is. */
  lemma {:induction false} JoinedEmpty(lines: seq<seq<Report>>)
    ensures |Joined(lines)| == 0 <==> forall i :: 0 <= i < |lines| ==> |lines[i]| == 0
  {
    if lines != [] {
      var init := lines[..|lines| - 1];
      JoinedEmpty(init);
      assert forall i :: 0 <= i < |init| ==> init[i] == lines[i];
    }
  }

  function Reports(rows: seq<Row>): seq<Report>
  {
    ReportsUpTo(rows, |rows|)
  }

  /**
   * The validation replay: each step's id is added to `seen` before its
   * prerequisites are checked, a line is logged for any prerequisite not
   * yet seen, and the rows are left as they are.
   */
  method Replay(sorted: seq<Row>) returns (reports: seq<Report>)
    ensures reports == Reports(sorted)
  {
    var seen: set<string> := {};
    reports := [];
    for i := 0 to |sorted|
      invariant seen == IdsUpTo(sorted, i)
      invariant reports == ReportsUpTo(sorted, i)
    {
      ReplayStep(sorted, i);
      seen := seen + {sorted[i].id};
      var line := ReportRow(sorted[i], seen);
      reports := reports + line;
    }
  }

  /** One more row: its id joins the seen ids and its line, if any, is
      appended. */
  lemma ReplayStep(rows: seq<Row>, i: int)
    requires 0 <= i < |rows|
    ensures IdsUpTo(rows, i + 1) == IdsUpTo(rows, i) + {rows[i].id}
    ensures ReportsUpTo(rows, i + 1) == ReportsUpTo(rows, i) + ReportFor(rows[i], IdsUpTo(rows, i + 1))
  {
    var line := ReportFor(rows[i], IdsUpTo(rows, i + 1));
    LinesStep(rows, i);
    assert (Lines(rows, i) + [line])[..i] == Lines(rows, i);
  }

  /** The lines of one more row: the earlier lines, then the new row's. */
  lemma LinesStep(rows: seq<Row>, i: int)
    requires 0 <= i < |rows|
    ensures Lines(rows, i + 1) == Lines(rows, i) + [ReportFor(rows[i], IdsUpTo(rows, i + 1))]
  {
  }

  /** The check of one step: a line if some prerequisite is not yet seen. */
  method ReportRow(r: Row, seen: set<string>) returns (line: seq<Report>)
    ensures line == ReportFor(r, seen)
    ensures |line| <= 1 && (line != [] ==> line[0].id == r.id)
  {
    line := [];
    var missing := Unseen(PrereqIDs(r), seen);
    if |missing| > 0 {
      line := [Report(r.id, missing)];
    }
  }

  /** Every prerequisite of row `i` is the id of that row or of one before
      it. */
  ghost predicate Placed(rows: seq<Row>, i: int)
    requires 0 <= i < |rows|
  {
    forall x :: x in PrereqIDs(rows[i]) ==> x in IdsUpTo(rows, i + 1)
  }

  /** Row `n - 1` gets no line exactly when it is placed. */
  lemma ReportForPlaced(rows: seq<Row>, n: int)
    requires 1 <= n <= |rows|
    ensures ReportFor(rows[n - 1], IdsUpTo(rows, n)) == [] <==> Placed(rows, n - 1)
  {
    var missing := Unseen(PrereqIDs(rows[n - 1]), IdsUpTo(rows, n));
    UnseenSpec(PrereqIDs(rows[n - 1]), IdsUpTo(rows, n));
    if missing != [] {
      assert missing[0] in missing;
    }
  }

  /** Nothing is logged for the first `n` rows exactly when each of them is
      placed after all of its prerequisites. */
  lemma NoReportsUpTo(rows: seq<Row>, n: int)
    requires 0 <= n <= |rows|
    ensures ReportsUpTo(rows, n) == [] <==> forall i :: 0 <= i < n ==> Placed(rows, i)
  {
    var lines := Lines(rows, n);
    JoinedEmpty(lines);
    forall i | 0 <= i < n
      ensures |lines[i]| == 0 <==> Placed(rows, i)
    {
      ReportForPlaced(rows, i + 1);
    }
  }

  /** Nothing is logged exactly when every row comes after all of its
      prerequisites. */
  lemma NoReports(rows: seq<Row>)
    ensures Reports(rows) == [] <==> forall i :: 0 <= i < |rows| ==> Placed(rows, i)
  {
    NoReportsUpTo(rows, |rows|);
  }

  /** Line `rep` is about row `i`: it names the row and only prerequisites
      of it not placed at or before it. */
  ghost predicate Explains(rows: seq<Row>, rep: Report, i: int)
    requires 0 <= i < |rows|
  {
    rep.id == rows[i].id &&
    forall x :: x in rep.before ==> x in PrereqIDs(rows[i]) && x !in IdsUpTo(rows, i + 1)
  }

  /** Every logged line is about one of the rows replayed so far. */
  lemma {:induction false} ReportsSound(rows: seq<Row>, n: int, k: int)
    requires 0 <= n <= |rows| && 0 <= k < |ReportsUpTo(rows, n)|
    ensures exists i :: 0 <= i < n && Explains(rows, ReportsUpTo(rows, n)[k], i)
  {
    var prev := ReportsUpTo(rows, n - 1);
    var missing := Unseen(PrereqIDs(rows[n - 1]), IdsUpTo(rows, n));
    UnseenSpec(PrereqIDs(rows[n - 1]), IdsUpTo(rows, n));
    ReplayStep(rows, n - 1);
    if k < |prev| {
      ReportsSound(rows, n - 1, k);
      var i :| 0 <= i < n - 1 && Explains(rows, prev[k], i);
      assert ReportsUpTo(rows, n)[k] == prev[k];
      assert Explains(rows, ReportsUpTo(rows, n)[k], i);
    } else {
      assert ReportsUpTo(rows, n)[k] == Report(rows[n - 1].id, missing);
      assert Explains(rows, ReportsUpTo(rows, n)[k], n - 1);
    }
  }

  // ----- the whole run -----

  /**
   * The passes from `root` over the map built from `nodes`, then the sorted
   * rows; or the first pass error. When the root is True Trim, a
   * successful run returns rows in comparator order, a True Trim row at
   * depth 0, a row for every node given, every recommended level at least
   * the required one, and no more direct than indirect dependents.
   */
  function Run(nodes: seq<Requirement>, root: string, localeCompare: (string, string) -> int): (res: Result<seq<Row>>)
    requires root in Build(nodes).reqs
    ensures res.Ok? && LocaleTotal(localeCompare) && Build(nodes).reqs[root].name == TrueTrimName ==>
              OutputFacts(res.value, nodes, root, localeCompare)
  {
    BuildValid(nodes);
    BuildDefaults(nodes);
    match Analyse(Build(nodes), root, NodeUniverse(nodes))
    case Err(m) => Err(m)
    case Ok(s) =>
      AnalysedRows(nodes, Build(nodes), s, root, NodeUniverse(nodes), localeCompare);
      Ok(SortRows(Rows(s), localeCompare))
  }

  /** The sorted rows of a run from True Trim over all the nodes. */
  function Output(skills: seq<Requirement>, quests: seq<Requirement>, achievements: seq<Requirement>,
                  trimmed: Requirement, localeCompare: (string, string) -> int): (res: Result<seq<Row>>)
    ensures res.Ok? && LocaleTotal(localeCompare) ==>
              OutputFacts(res.value, AllNodes(skills, quests, achievements, trimmed), Root(quests, trimmed), localeCompare)
  {
    RootStored(skills, quests, achievements, trimmed);
    Run(AllNodes(skills, quests, achievements, trimmed), Root(quests, trimmed), localeCompare)
  }

  /** The defaults: every depth at minus infinity, both levels 0, all
      dependent sets empty. */
  lemma BuildDefaults(nodes: seq<Requirement>)
    ensures MaxLevels.AllOrdered(Build(nodes)) && DependentCounts.AllNested(Build(nodes))
    ensures forall k :: k in Build(nodes).info ==> Build(nodes).info[k].depth == NegInf
  {
  }

  /** `getRequirements`: builds the map, runs the passes, sorts the rows and
      replays them; the sorted rows are returned as the sort left them. */
  method GetRequirements(skills: seq<Requirement>, quests: seq<Requirement>, achievements: seq<Requirement>,
                         trimmed: Requirement, localeCompare: (string, string) -> int)
    returns (res: Result<seq<Row>>, reports: seq<Report>)
    ensures res == Output(skills, quests, achievements, trimmed, localeCompare)
    ensures reports == (if res.Ok? then Reports(res.value) else [])
  {
    var nodes := AllNodes(skills, quests, achievements, trimmed);
    var root := Root(quests, trimmed);
    RootStored(skills, quests, achievements, trimmed);
    var s := ConvertAll(nodes);
    BuildValid(nodes);
    var analysed := Analyse(s, root, NodeUniverse(nodes));
    if analysed.Err? {
      return Err(analysed.message), [];
    }
    var sorted := SortRows(Rows(analysed.value), localeCompare);
    reports := Replay(sorted);
    res := Ok(sorted);
  }

  /** The promises of a successful run about its sorted rows. */
  ghost predicate OutputFacts(sorted: seq<Row>, nodes: seq<Requirement>, root: string,
                              localeCompare: (string, string) -> int)
  {
    Sorted(sorted, localeCompare) &&
    (exists r :: r in sorted && r.id == root && r.name == TrueTrimName && r.depth == Fin(0)) &&
    (forall n :: n in nodes ==> exists r :: r in sorted && r.id == n.id) &&
    (forall r :: r in sorted ==> r.maxLevelRecommended >= r.maxLevel && r.directDependents <= r.indirectDependents)
  }

  lemma AnalysedRows(nodes: seq<Requirement>, s0: Store, s: Store, root: string, u: set<string>,
                     localeCompare: (string, string) -> int)
    requires s0 == Build(nodes) && Valid(s, u) && Grows(s, s0) && root in s0.reqs
    requires s0.info[root].depth == NegInf ==> s.info[root].depth == Fin(0)
    requires MaxLevels.AllOrdered(s0) ==> MaxLevels.AllOrdered(s)
    requires DependentCounts.AllNested(s0) ==> DependentCounts.AllNested(s)
    requires MaxLevels.AllOrdered(s0) && DependentCounts.AllNested(s0) && s0.info[root].depth == NegInf
    ensures LocaleTotal(localeCompare) && s0.reqs[root].name == TrueTrimName ==>
              OutputFacts(SortRows(Rows(s), localeCompare), nodes, root, localeCompare)
  {
    if !LocaleTotal(localeCompare) || s0.reqs[root].name != TrueTrimName {
      return;
    }
    ByIdValue(nodes, root);
    var rows := Rows(s);
    var sorted := SortRows(rows, localeCompare);
    SortRowsSorted(rows, localeCompare);
    RowsFacts(s, u);
    forall r | r in sorted
      ensures r.maxLevelRecommended >= r.maxLevel && r.directDependents <= r.indirectDependents
    {
      assert r in multiset(rows);
    }
    StoredRow(s, root, sorted, localeCompare);
    forall n | n in nodes ensures exists r :: r in sorted && r.id == n.id {
      NodeStored(nodes, n, s0);
      StoredRow(s, n.id, sorted, localeCompare);
    }
  }

  /** Every row of an analysed store is ordered and nested. */
  lemma RowsFacts(s: Store, u: set<string>)
    requires Valid(s, u) && MaxLevels.AllOrdered(s) && DependentCounts.AllNested(s)
    ensures forall r :: r in Rows(s) ==> r.maxLevelRecommended >= r.maxLevel && r.directDependents <= r.indirectDependents
  {
    forall r | r in Rows(s)
      ensures r.maxLevelRecommended >= r.maxLevel && r.directDependents <= r.indirectDependents
    {
      var i :| 0 <= i < |Rows(s)| && Rows(s)[i] == r;
      var k := s.keys[i];
      assert MaxLevels.Ordered(s.info[k]) && DependentCounts.Nested(s.info[k]);
      SubsetCard(s.info[k].direct, s.info[k].indirect);
    }
  }

  /** A node given is stored under its own id. */
  lemma NodeStored(nodes: seq<Requirement>, n: Requirement, s0: Store)
    requires n in nodes && s0 == Build(nodes)
    ensures n.id in s0.reqs && s0.reqs[n.id].id == n.id
  {
    var i :| 0 <= i < |nodes| && nodes[i] == n;
    ByIdKeys(nodes, n.id);
    ByIdValue(nodes, n.id);
  }

  /** A stored key has its row in the sorted output. */
  lemma StoredRow(s: Store, k: string, sorted: seq<Row>, localeCompare: (string, string) -> int)
    requires forall k :: k in s.keys ==> k in s.reqs && k in s.info
    requires k in s.keys && sorted == SortRows(Rows(s), localeCompare)
    ensures ToRow(s.reqs[k], s.info[k]) in sorted
  {
    var i :| 0 <= i < |s.keys| && s.keys[i] == k;
    assert Rows(s)[i] in multiset(Rows(s));
  }
}
