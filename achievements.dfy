/**
 * Achievement nodes and the worklist that fetches achievements until no new
 * page turns up. The wiki is a finite map from page to the required and
 * recommended trees its achievement infobox yields; a page outside the map
 * cannot be loaded.
 */
module Achievements {
  import opened Wrappers
  import opened Sets
  import opened Text
  import opened AndOr
  import opened Requirements
  import opened Runescape

  /** What fetching one achievement page yields: its required and
      recommended trees. */
  type Trees = (seq<Elem<Ref>>, seq<Elem<Ref>>)

  const TrimmedName: string := "Trimmed Completionist"
  const UnexpectedMessage: string := "Unexpected?"
  const LoadFailure: string := "Failed to load "

  /** An achievement node; its level plays no part (the id ignores it). */
  function NewAchievementRequirement(name: string, page: string,
                                     required: Option<seq<Elem<Ref>>>,
                                     recommended: Option<seq<Elem<Ref>>>): (r: Requirement)
    ensures r.kind == Requirements.Achievement && r.name == name && r.page == page
    ensures r.required == (if required.Some? then required.value else [])
    ensures r.recommended == (if recommended.Some? then recommended.value else [])
  {
    NewRequirement(Requirements.Achievement, name, page, 0, required, recommended)
  }

  /** An achievement's id is `achievement:` and its page slug, whatever its
      level field holds. */
  lemma AchievementID(r: Requirement)
    requires r.kind == Requirements.Achievement && r.IdMatches()
    ensures r.id == "achievement:" + Slug(r.page)
    ensures forall l: int :: GetRequirementID(r.kind, r.page, l) == r.id
  {
    forall l: int
      ensures GetRequirementID(r.kind, r.page, l) == r.id
    {
      LevelInID(r.kind, r.page, l, r.level);
    }
  }

  // ----- one round of fetching -----

  /** A pending entry the fetch accepts: not the trimmed cape itself, and on
      a page that can be loaded. */
  predicate Fetchable(x: Ref, wiki: map<string, Trees>)
  {
    x.name != TrimmedName && x.page in wiki
  }

  /** The error a pending entry that cannot be fetched raises. */
  function FailureMessage(x: Ref): string
  {
    if x.name == TrimmedName then UnexpectedMessage else LoadFailure + x.page
  }

  /** The node fetched for a pending entry: its name and page, with the trees
      its page yields. */
  function Fetch(x: Ref, wiki: map<string, Trees>): (r: Requirement)
    requires x.page in wiki
    ensures r.kind == Requirements.Achievement && r.name == x.name && r.page == x.page
    ensures r.required == wiki[x.page].0 && r.recommended == wiki[x.page].1
  {
    NewAchievementRequirement(x.name, x.page, Some(wiki[x.page].0), Some(wiki[x.page].1))
  }

  /** The `for` loop of one round: fetch every pending entry, in order,
      stopping at the first one that is the trimmed cape or cannot be loaded. */
  method FetchRound(pending: seq<Ref>, wiki: map<string, Trees>) returns (res: Result<seq<Requirement>>)
    ensures res.Ok? <==> forall k :: 0 <= k < |pending| ==> Fetchable(pending[k], wiki)
    ensures res.Ok? ==> |res.value| == |pending|
    ensures res.Ok? ==> forall k :: 0 <= k < |pending| ==>
              pending[k].page in wiki && res.value[k] == Fetch(pending[k], wiki)
    ensures res.Err? ==>
              exists k :: 0 <= k < |pending| && !Fetchable(pending[k], wiki) &&
                (forall j :: 0 <= j < k ==> Fetchable(pending[j], wiki)) &&
                res.message == FailureMessage(pending[k])
  {
    var round: seq<Requirement> := [];
    var i := 0;
    while i < |pending|
      invariant 0 <= i <= |pending|
      invariant forall j :: 0 <= j < i ==> Fetchable(pending[j], wiki)
      invariant |round| == i
      invariant forall j :: 0 <= j < i ==> pending[j].page in wiki && round[j] == Fetch(pending[j], wiki)
    {
      var x := pending[i];
      if x.name == TrimmedName {
        return Err(UnexpectedMessage);
      }
      if x.page !in wiki {
        return Err(LoadFailure + x.page);
      }
      round := round + [Fetch(x, wiki)];
      i := i + 1;
    }
    res := Ok(round);
  }

  // ----- discovering new entries -----

  function PagesOf(xs: seq<Requirement>): set<string>
  {
    set i | 0 <= i < |xs| :: xs[i].page
  }

  function RefPages(xs: seq<Ref>): set<string>
  {
    set i | 0 <= i < |xs| :: xs[i].page
  }

  /** A prerequisite that is never queued: a quest, or a skill by its
      lower-cased name. */
  predicate Ignored(x: Ref, questNames: set<string>)
  {
    x.name in questNames || IsSkill(ToLower(x.name))
  }

  /** The leaves of a whole round, node after node. */
  function RoundLeaves(round: seq<Requirement>): seq<Ref>
  {
    if round == [] then []
    else RoundLeaves(round[..|round| - 1]) + round[|round| - 1].AllLeaves()
  }

  /** The entries queued from a list of visited leaves: a leaf is queued
      unless a fetched node (pages `known`) or an entry queued before it has
      its page, or it is ignored by name. */
  function Discover(leaves: seq<Ref>, known: set<string>, questNames: set<string>): seq<Ref>
  {
    if leaves == [] then []
    else
      var prev := Discover(leaves[..|leaves| - 1], known, questNames);
      var x := leaves[|leaves| - 1];
      if x.page in known || x.page in RefPages(prev) || Ignored(x, questNames) then prev else prev + [x]
  }

  /** The inner `forEach`: the leaves of one node, appended to the entries
      queued so far. */
  method QueueLeaves(ghost visited: seq<Ref>, leaves: seq<Ref>, known: set<string>, questNames: set<string>,
                     queued: seq<Ref>) returns (pending: seq<Ref>)
    requires queued == Discover(visited, known, questNames)
    ensures pending == Discover(visited + leaves, known, questNames)
  {
    pending := queued;
    var j := 0;
    assert visited + leaves[..0] == visited;
    while j < |leaves|
      invariant 0 <= j <= |leaves|
      invariant pending == Discover(visited + leaves[..j], known, questNames)
    {
      var x := leaves[j];
      assert (visited + leaves[..j + 1])[..|visited| + j] == visited + leaves[..j];
      if !(x.page in known || x.page in RefPages(pending) || Ignored(x, questNames)) {
        pending := pending + [x];
      }
      j := j + 1;
    }
    assert leaves[..|leaves|] == leaves;
  }

  /** The `forEach` over a round: the entries queued after a round, looking up pages among
      all fetched nodes (this round included) and among the entries queued
      so far. */
  method Queue(round: seq<Requirement>, fetched: seq<Requirement>, questNames: set<string>)
    returns (pending: seq<Ref>)
    ensures pending == Discover(RoundLeaves(round), PagesOf(fetched), questNames)
  {
    pending := [];
    var i := 0;
    while i < |round|
      invariant 0 <= i <= |round|
      invariant pending == Discover(RoundLeaves(round[..i]), PagesOf(fetched), questNames)
    {
      assert round[..i + 1][..i] == round[..i];
      pending := QueueLeaves(RoundLeaves(round[..i]), round[i].AllLeaves(), PagesOf(fetched), questNames, pending);
      i := i + 1;
    }
    assert round[..|round|] == round;
  }

  /** Queued entries are leaves that pass the filter, with pairwise distinct
      pages none of which is known; every leaf is either queued by page,
      known by page, or ignored by name. */
  ghost predicate QueuedFrom(leaves: seq<Ref>, known: set<string>, questNames: set<string>, queued: seq<Ref>)
  {
    (forall k :: 0 <= k < |queued| ==>
       queued[k] in leaves && queued[k].page !in known && !Ignored(queued[k], questNames)) &&
    (forall k, m :: 0 <= k < m < |queued| ==> queued[k].page != queued[m].page) &&
    (forall x :: x in leaves ==> x.page in known || x.page in RefPages(queued) || Ignored(x, questNames))
  }

  lemma {:induction false} DiscoverSpec(leaves: seq<Ref>, known: set<string>, questNames: set<string>)
    ensures QueuedFrom(leaves, known, questNames, Discover(leaves, known, questNames))
    decreases |leaves|
  {
    if leaves != [] {
      var init := leaves[..|leaves| - 1];
      var x := leaves[|leaves| - 1];
      DiscoverSpec(init, known, questNames);
      assert leaves == init + [x];
      DiscoverStep(init, x, known, questNames, Discover(init, known, questNames), Discover(leaves, known, questNames));
    }
  }

  /** One leaf more keeps `QueuedFrom`. */
  lemma DiscoverStep(init: seq<Ref>, x: Ref, known: set<string>, questNames: set<string>, prev: seq<Ref>, r: seq<Ref>)
    requires QueuedFrom(init, known, questNames, prev)
    requires r == if x.page in known || x.page in RefPages(prev) || Ignored(x, questNames) then prev else prev + [x]
    ensures QueuedFrom(init + [x], known, questNames, r)
  {
    assert RefPages(prev) <= RefPages(r) by {
      forall p | p in RefPages(prev) ensures p in RefPages(r) {
        var k :| 0 <= k < |prev| && prev[k].page == p;
        assert r[k] == prev[k];
      }
    }
    if r != prev {
      assert r[|prev|].page == x.page;
    }
  }

  lemma {:induction false} RoundLeavesSpec(round: seq<Requirement>, x: Ref)
    ensures x in RoundLeaves(round) <==> exists i :: 0 <= i < |round| && x in round[i].AllLeaves()
    decreases |round|
  {
    if round != [] {
      var n := |round| - 1;
      var init := round[..n];
      RoundLeavesSpec(init, x);
      var a, b := RoundLeaves(init), round[n].AllLeaves();
      assert RoundLeaves(round) == a + b;
      assert x in a + b <==> x in a || x in b;
      if x in a {
        var i :| 0 <= i < |init| && x in init[i].AllLeaves();
        assert round[i] == init[i];
      } else if x !in b {
        forall i | 0 <= i < |round| ensures x !in round[i].AllLeaves() {
          if i < n {
            assert round[i] == init[i];
          }
        }
      }
    }
  }

  // ----- the worklist -----

  lemma ShrinkingRemainder(universe: set<string>, before: set<string>, after: set<string>, p: string)
    requires before <= after && p in universe && p in after && p !in before
    ensures |universe - after| < |universe - before|
  {
    var a := universe - after;
    var b := universe - before;
    assert a <= b - {p};
    assert |b - {p}| == |b| - 1;
    SubsetCard(a, b - {p});
  }

  /** Every node is what its page yields, and none is the trimmed cape. */
  predicate AllFetched(all: seq<Requirement>, wiki: map<string, Trees>)
  {
    forall k :: 0 <= k < |all| ==>
      all[k].name != TrimmedName && all[k].page in wiki && all[k] == Fetch(all[k].AsRef(), wiki)
  }

  /** The initial entries were fetched first, in order. */
  predicate InitialFirst(all: seq<Requirement>, initial: seq<Ref>, wiki: map<string, Trees>)
  {
    |all| >= |initial| &&
    forall k :: 0 <= k < |initial| ==> initial[k].page in wiki && all[k] == Fetch(initial[k], wiki)
  }

  /** Every prerequisite of a fetched node is fetched or pending (by page),
      or ignored by name. */
  predicate Covered(all: seq<Requirement>, pending: seq<Ref>, questNames: set<string>)
  {
    forall k, x :: 0 <= k < |all| && x in all[k].AllLeaves() ==>
      x.page in PagesOf(all) || x.page in RefPages(pending) || Ignored(x, questNames)
  }

  /** Pending pages are pairwise distinct and not yet fetched. */
  predicate Fresh(pending: seq<Ref>, all: seq<Requirement>)
  {
    (forall k :: 0 <= k < |pending| ==> pending[k].page !in PagesOf(all)) &&
    (forall k, m :: 0 <= k < m < |pending| ==> pending[k].page != pending[m].page)
  }

  /** Every node from index `from` on has a page no earlier node has. */
  predicate NewPagesFrom(all: seq<Requirement>, from: int)
  {
    forall k, m :: 0 <= k < m < |all| && from <= m ==> all[k].page != all[m].page
  }

  /** `target` is named, by name and page, by a leaf of `r` that is neither
      a quest nor a skill. */
  ghost predicate LeadsTo(r: Requirement, target: Requirement, questNames: set<string>)
  {
    exists x :: x in r.AllLeaves() && x.name == target.name && x.page == target.page && !Ignored(x, questNames)
  }

  /** Every node fetched after the initial ones was named by a leaf of an
      earlier node. */
  ghost predicate Discovered(all: seq<Requirement>, initial: seq<Ref>, questNames: set<string>)
  {
    forall m :: |initial| <= m < |all| ==> NamedBefore(all, m, questNames)
  }

  /** Some node before position `m` leads to the node at `m`. */
  ghost predicate NamedBefore(all: seq<Requirement>, m: int, questNames: set<string>)
    requires 0 <= m < |all|
  {
    exists k :: 0 <= k < m && LeadsTo(all[k], all[m], questNames)
  }

  /** Every pending entry is a leaf of a fetched node, neither a quest nor a
      skill. */
  ghost predicate PendingFrom(all: seq<Requirement>, pending: seq<Ref>, questNames: set<string>)
  {
    forall j :: 0 <= j < |pending| ==>
      !Ignored(pending[j], questNames) && exists k :: 0 <= k < |all| && pending[j] in all[k].AllLeaves()
  }

  /** One round as the fetch yields it. */
  predicate RoundOf(round: seq<Requirement>, pending: seq<Ref>, wiki: map<string, Trees>)
  {
    |round| == |pending| &&
    forall k :: 0 <= k < |pending| ==> Fetchable(pending[k], wiki) && round[k] == Fetch(pending[k], wiki)
  }

  lemma StepPages(before: seq<Requirement>, pending: seq<Ref>, round: seq<Requirement>, wiki: map<string, Trees>)
    requires RoundOf(round, pending, wiki)
    ensures PagesOf(before + round) == PagesOf(before) + RefPages(pending)
  {
    var all := before + round;
    forall p | p in PagesOf(all) ensures p in PagesOf(before) + RefPages(pending) {
      var k :| 0 <= k < |all| && all[k].page == p;
      if k >= |before| {
        assert all[k] == round[k - |before|];
      }
    }
    forall p | p in RefPages(pending) ensures p in PagesOf(all) {
      var k :| 0 <= k < |pending| && pending[k].page == p;
      assert all[|before| + k] == round[k];
    }
    forall p | p in PagesOf(before) ensures p in PagesOf(all) {
      var k :| 0 <= k < |before| && before[k].page == p;
      assert all[k] == before[k];
    }
  }

  lemma StepFetched(before: seq<Requirement>, pending: seq<Ref>, round: seq<Requirement>,
                    initial: seq<Ref>, wiki: map<string, Trees>)
    requires (before == [] && pending == initial) || InitialFirst(before, initial, wiki)
    requires AllFetched(before, wiki) && RoundOf(round, pending, wiki)
    ensures AllFetched(before + round, wiki) && InitialFirst(before + round, initial, wiki)
  {
    StepAllFetched(before, pending, round, wiki);
    StepInitialFirst(before, pending, round, initial, wiki);
  }

  lemma StepAllFetched(before: seq<Requirement>, pending: seq<Ref>, round: seq<Requirement>, wiki: map<string, Trees>)
    requires AllFetched(before, wiki) && RoundOf(round, pending, wiki)
    ensures AllFetched(before + round, wiki)
  {
    var all := before + round;
    forall k | 0 <= k < |all|
      ensures all[k].name != TrimmedName && all[k].page in wiki && all[k] == Fetch(all[k].AsRef(), wiki)
    {
      if k >= |before| {
        assert all[k] == round[k - |before|];
      } else {
        assert all[k] == before[k];
      }
    }
  }

  lemma StepInitialFirst(before: seq<Requirement>, pending: seq<Ref>, round: seq<Requirement>,
                         initial: seq<Ref>, wiki: map<string, Trees>)
    requires (before == [] && pending == initial) || InitialFirst(before, initial, wiki)
    requires RoundOf(round, pending, wiki)
    ensures InitialFirst(before + round, initial, wiki)
  {
    var all := before + round;
    if before == [] && pending == initial {
      assert all == round;
    } else {
      forall k | 0 <= k < |initial|
        ensures all[k] == Fetch(initial[k], wiki)
      {
        assert all[k] == before[k];
      }
    }
  }

  lemma StepCovered(before: seq<Requirement>, pending: seq<Ref>, round: seq<Requirement>,
                    questNames: set<string>, wiki: map<string, Trees>)
    requires Covered(before, pending, questNames) && RoundOf(round, pending, wiki)
    ensures Covered(before + round, Discover(RoundLeaves(round), PagesOf(before + round), questNames), questNames)
  {
    var all := before + round;
    var next := Discover(RoundLeaves(round), PagesOf(all), questNames);
    StepPages(before, pending, round, wiki);
    DiscoverSpec(RoundLeaves(round), PagesOf(all), questNames);
    forall k, x | 0 <= k < |all| && x in all[k].AllLeaves()
      ensures x.page in PagesOf(all) || x.page in RefPages(next) || Ignored(x, questNames)
    {
      if k >= |before| {
        assert all[k] == round[k - |before|];
        RoundLeavesSpec(round, x);
      } else {
        assert all[k] == before[k];
      }
    }
  }

  lemma StepNewPages(before: seq<Requirement>, pending: seq<Ref>, round: seq<Requirement>,
                     from: int, wiki: map<string, Trees>)
    requires |before| >= from
    requires NewPagesFrom(before, from) && Fresh(pending, before) && RoundOf(round, pending, wiki)
    ensures NewPagesFrom(before + round, from)
  {
    var all := before + round;
    forall k, m | 0 <= k < m < |all| && from <= m
      ensures all[k].page != all[m].page
    {
      if m >= |before| {
        assert all[m] == round[m - |before|];
        if k >= |before| {
          assert all[k] == round[k - |before|];
        } else {
          assert all[k] == before[k];
          assert all[k].page in PagesOf(before);
        }
      } else {
        assert all[k] == before[k] && all[m] == before[m];
      }
    }
  }

  lemma StepPendingFrom(before: seq<Requirement>, round: seq<Requirement>, known: set<string>, questNames: set<string>)
    ensures PendingFrom(before + round, Discover(RoundLeaves(round), known, questNames), questNames)
  {
    var all := before + round;
    var next := Discover(RoundLeaves(round), known, questNames);
    DiscoverSpec(RoundLeaves(round), known, questNames);
    forall j | 0 <= j < |next|
      ensures exists k :: 0 <= k < |all| && next[j] in all[k].AllLeaves()
    {
      RoundLeavesSpec(round, next[j]);
      var i :| 0 <= i < |round| && next[j] in round[i].AllLeaves();
      assert all[|before| + i] == round[i];
    }
  }

  lemma StepDiscovered(before: seq<Requirement>, pending: seq<Ref>, round: seq<Requirement>,
                       initial: seq<Ref>, questNames: set<string>, wiki: map<string, Trees>)
    requires (before == [] && pending == initial) || (|before| >= |initial| && PendingFrom(before, pending, questNames))
    requires Discovered(before, initial, questNames) && RoundOf(round, pending, wiki)
    ensures Discovered(before + round, initial, questNames)
  {
    forall m | |initial| <= m < |before + round|
      ensures NamedBefore(before + round, m, questNames)
    {
      DiscoveredAt(before, pending, round, initial, questNames, wiki, m);
    }
  }

  /** The node at position `m` after a round was named by an earlier node. */
  lemma DiscoveredAt(before: seq<Requirement>, pending: seq<Ref>, round: seq<Requirement>,
                     initial: seq<Ref>, questNames: set<string>, wiki: map<string, Trees>, m: int)
    requires (before == [] && pending == initial) || (|before| >= |initial| && PendingFrom(before, pending, questNames))
    requires Discovered(before, initial, questNames) && RoundOf(round, pending, wiki)
    requires |initial| <= m < |before + round|
    ensures NamedBefore(before + round, m, questNames)
  {
    var all := before + round;
    if m < |before| {
      assert NamedBefore(before, m, questNames);
      var k :| 0 <= k < m && LeadsTo(before[k], before[m], questNames);
      assert all[k] == before[k] && all[m] == before[m];
    } else {
      var j := m - |before|;
      assert all[m] == round[j] == Fetch(pending[j], wiki);
      var k :| 0 <= k < |before| && pending[j] in before[k].AllLeaves();
      assert all[k] == before[k];
      assert LeadsTo(all[k], all[m], questNames);
    }
  }

  /** The do/while worklist. The first round fetches the initial
      entries; each later round fetches what the previous round queued; it
      stops after a round that queues nothing. */
  method CloseAchievements(initial: seq<Ref>, questNames: set<string>, wiki: map<string, Trees>)
    returns (res: Result<seq<Requirement>>)
    ensures res.Ok? ==> InitialFirst(res.value, initial, wiki)
    ensures res.Ok? ==> AllFetched(res.value, wiki)
    ensures res.Ok? ==> Covered(res.value, [], questNames)
    ensures res.Ok? ==> NewPagesFrom(res.value, |initial|)
    ensures res.Ok? ==> Discovered(res.value, initial, questNames)
    ensures (exists k :: 0 <= k < |initial| && !Fetchable(initial[k], wiki)) ==> res.Err?
  {
    var all: seq<Requirement> := [];
    var pending := initial;
    var first := true;
    while first || pending != []
      invariant first ==> all == [] && pending == initial
      invariant !first ==> InitialFirst(all, initial, wiki) && Fresh(pending, all) && NewPagesFrom(all, |initial|)
      invariant !first ==> PendingFrom(all, pending, questNames)
      invariant Discovered(all, initial, questNames)
      invariant AllFetched(all, wiki) && Covered(all, pending, questNames)
      invariant PagesOf(all) <= wiki.Keys
      decreases (if first then 1 else 0) + |wiki.Keys - PagesOf(all)|
    {
      var fetchedRound := FetchRound(pending, wiki);
      if fetchedRound.Err? {
        return Err(fetchedRound.message);
      }
      var round := fetchedRound.value;
      assert RoundOf(round, pending, wiki);
      ghost var before := all;
      ghost var oldPending := pending;
      all := all + round;
      pending := Queue(round, all, questNames);
      StepPages(before, oldPending, round, wiki);
      StepFetched(before, oldPending, round, initial, wiki);
      StepCovered(before, oldPending, round, questNames, wiki);
      StepDiscovered(before, oldPending, round, initial, questNames, wiki);
      StepPendingFrom(before, round, PagesOf(all), questNames);
      DiscoverSpec(RoundLeaves(round), PagesOf(all), questNames);
      if first {
        assert NewPagesFrom(all, |initial|);
        SubsetCard(wiki.Keys - PagesOf(all), wiki.Keys - PagesOf(before));
      } else {
        StepNewPages(before, oldPending, round, |initial|, wiki);
        if oldPending != [] {
          ShrinkingRemainder(wiki.Keys, PagesOf(before), PagesOf(all), oldPending[0].page);
        }
      }
      first := false;
    }
    res := Ok(all);
  }

  // ----- the trimmed node -----

  /** A fetched node as an achievement leaf: name, page, kind. */
  function AchievementRef(r: Requirement): Ref
  {
    Ref(Requirements.Achievement, r.name, r.page, 0, false)
  }

  /** The fetched nodes whose names are in `names`, as achievement leaves, in
      fetch order. */
  function NamedRefs(all: seq<Requirement>, names: set<string>): seq<Ref>
  {
    if all == [] then []
    else (if all[0].name in names then [AchievementRef(all[0])] else []) + NamedRefs(all[1..], names)
  }

  function NamesOf(xs: seq<Ref>): set<string>
  {
    set k | 0 <= k < |xs| :: xs[k].name
  }

  /** The trimmed cape: its required tree is one leaf per fetched node whose
      name is among the initial achievements' names. */
  function TrimmedNode(name: string, page: string, initial: seq<Ref>, all: seq<Requirement>): (r: Requirement)
    ensures r.kind == Requirements.Achievement && r.name == name && r.page == page
    ensures r.recommended == []
  {
    var refs := NamedRefs(all, NamesOf(initial));
    NewAchievementRequirement(name, page, Some(seq(|refs|, k requires 0 <= k < |refs| => Leaf(refs[k]))), None)
  }

  lemma {:induction false} NamedRefsSpec(all: seq<Requirement>, names: set<string>, x: Ref)
    ensures x in NamedRefs(all, names) <==> exists k :: 0 <= k < |all| && all[k].name in names && x == AchievementRef(all[k])
    decreases |all|
  {
    if all != [] {
      NamedRefsSpec(all[1..], names, x);
      if exists k :: 0 <= k < |all[1..]| && all[1..][k].name in names && x == AchievementRef(all[1..][k]) {
        var k :| 0 <= k < |all[1..]| && all[1..][k].name in names && x == AchievementRef(all[1..][k]);
        assert all[k + 1] == all[1..][k];
      }
      if exists k :: 0 <= k < |all| && all[k].name in names && x == AchievementRef(all[k]) {
        var k :| 0 <= k < |all| && all[k].name in names && x == AchievementRef(all[k]);
        if k > 0 {
          assert all[1..][k - 1] == all[k];
        }
      }
    }
  }

  /** The trimmed node's leaves are exactly the fetched nodes named in the
      initial list; after a successful closure every initial achievement is
      among them. */
  lemma TrimmedSpec(name: string, page: string, initial: seq<Ref>, all: seq<Requirement>, x: Ref)
    ensures x in Leaves(TrimmedNode(name, page, initial, all).required) <==>
            exists k :: 0 <= k < |all| && all[k].name in NamesOf(initial) && x == AchievementRef(all[k])
    ensures |all| >= |initial| && (forall k :: 0 <= k < |initial| ==> all[k].name == initial[k].name && all[k].page == initial[k].page) ==>
            forall k :: 0 <= k < |initial| ==>
              Ref(Requirements.Achievement, initial[k].name, initial[k].page, 0, false) in Leaves(TrimmedNode(name, page, initial, all).required)
  {
    var refs := NamedRefs(all, NamesOf(initial));
    var tree := seq(|refs|, k requires 0 <= k < |refs| => Leaf(refs[k]));
    LeavesOfLeafList(tree, refs);
    NamedRefsSpec(all, NamesOf(initial), x);
    if |all| >= |initial| && (forall k :: 0 <= k < |initial| ==> all[k].name == initial[k].name && all[k].page == initial[k].page) {
      forall k | 0 <= k < |initial|
        ensures Ref(Requirements.Achievement, initial[k].name, initial[k].page, 0, false) in Leaves(TrimmedNode(name, page, initial, all).required)
      {
        var y := Ref(Requirements.Achievement, initial[k].name, initial[k].page, 0, false);
        NamedRefsSpec(all, NamesOf(initial), y);
        assert y == AchievementRef(all[k]);
        assert all[k].name in NamesOf(initial);
      }
    }
  }

  /** `getCompletionistCapeAchievementsWithRequirements`: the closure, then
      the trimmed node built from it. */
  method GetCompletionistCapeAchievementsWithRequirements(
    trimmedName: string, trimmedPage: string, initial: seq<Ref>,
    questNames: set<string>, wiki: map<string, Trees>)
    returns (res: Result<(Requirement, seq<Requirement>)>)
    ensures res.Ok? ==> res.value.0 == TrimmedNode(trimmedName, trimmedPage, initial, res.value.1)
    ensures res.Ok? ==> forall k :: 0 <= k < |initial| ==>
              Ref(Requirements.Achievement, initial[k].name, initial[k].page, 0, false) in Leaves(res.value.0.required)
    ensures res.Ok? ==> AllFetched(res.value.1, wiki) && Covered(res.value.1, [], questNames)
    ensures res.Ok? ==> InitialFirst(res.value.1, initial, wiki) && Discovered(res.value.1, initial, questNames)
  {
    var closed := CloseAchievements(initial, questNames, wiki);
    if closed.Err? {
      return Err(closed.message);
    }
    var all := closed.value;
    forall k | 0 <= k < |initial|
      ensures Ref(Requirements.Achievement, initial[k].name, initial[k].page, 0, false) in
              Leaves(TrimmedNode(trimmedName, trimmedPage, initial, all).required)
    {
      TrimmedSpec(trimmedName, trimmedPage, initial, all, Ref(Requirements.Achievement, initial[k].name, initial[k].page, 0, false));
    }
    res := Ok((TrimmedNode(trimmedName, trimmedPage, initial, all), all));
  }
}
