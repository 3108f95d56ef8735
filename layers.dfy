/**
 * The layering prototype: skill levels named as text (`"<skill> level
 * 007"`), the generated skilling steps, the graph keyed by name with
 * duplicates refused, and the layering of the steps below the ending
 * requirement for a player's profile.
 */
module Layers {
  import opened Wrappers
  import opened Sets
  import opened Text
  import CompSteps

  // ----- formatSkill -----

  /** Zeros added on the left until the text has three characters. */
  function Pad(s: string): string
    decreases 3 - |s|
  {
    if |s| >= 3 then s else Pad("0" + s)
  }

  /** Padding stops at three characters. */
  lemma {:induction false} PadLength(s: string)
    ensures |Pad(s)| == if |s| >= 3 then |s| else 3
    decreases 3 - |s|
  {
    if |s| < 3 {
      PadLength("0" + s);
    }
  }

  /** Padding keeps the text as a suffix and adds only zeros before it. */
  lemma {:induction false} PadShape(s: string)
    ensures |Pad(s)| >= |s| && Pad(s)[|Pad(s)| - |s|..] == s
    ensures forall i :: 0 <= i < |Pad(s)| - |s| ==> Pad(s)[i] == '0'
    decreases 3 - |s|
  {
    if |s| < 3 {
      var t := "0" + s;
      PadShape(t);
      var r := Pad(t);
      assert Pad(s) == r;
      assert r[|r| - |t|..] == t;
      assert r[|r| - |s|..] == t[1..];
    }
  }

  /** `formatSkill(name, level)`. */
  function Formatted(name: string, level: int): string
  {
    name + " level " + Pad(IntToString(level))
  }

  /** `formatSkill`: the level as text, padded in a loop. */
  method FormatSkill(name: string, level: int) returns (r: string)
    ensures r == Formatted(name, level)
  {
    var text := IntToString(level);
    while |text| < 3
      invariant Pad(text) == Pad(IntToString(level))
      decreases 3 - |text|
    {
      text := "0" + text;
    }
    r := name + " level " + text;
  }

  function Digits3(a: nat): (r: string)
    requires a < 1000
  {
    [DigitChar(a / 10 / 10), DigitChar(a / 10 % 10), DigitChar(a % 10)]
  }

  /** Levels below 1000 are written with exactly three digits. */
  lemma PadThree(a: nat)
    requires a < 1000
    ensures Pad(IntToString(a)) == Digits3(a)
  {
    var t := NatToString(a);
    assert IntToString(a) == t;
    assert DigitChar(0) == '0';
    if a < 10 {
      assert t == [DigitChar(a)];
      assert a / 10 / 10 == 0 && a / 10 % 10 == 0 && a % 10 == a;
      assert Pad(t) == Pad("0" + t) == Pad("00" + t) == "00" + t;
    } else if a < 100 {
      assert NatToString(a / 10) == [DigitChar(a / 10)];
      assert t == [DigitChar(a / 10), DigitChar(a % 10)];
      assert a / 10 / 10 == 0 && a / 10 % 10 == a / 10;
      assert Pad(t) == Pad("0" + t) == "0" + t;
    } else {
      assert NatToString(a / 10 / 10) == [DigitChar(a / 10 / 10)];
      assert NatToString(a / 10) == [DigitChar(a / 10 / 10), DigitChar(a / 10 % 10)];
      assert t == Digits3(a);
    }
  }

  lemma DigitCode(d: nat)
    requires d < 10
    ensures DigitChar(d) as int == '0' as int + d
  {
    if d == 0 {} else if d == 1 {} else if d == 2 {} else if d == 3 {} else if d == 4 {}
    else if d == 5 {} else if d == 6 {} else if d == 7 {} else if d == 8 {} else {}
  }

  /** Code-unit order on three-character texts, position by position. */
  lemma LexLeThree(x: string, y: string)
    requires |x| == 3 && |y| == 3
    ensures LexLe(x, y) <==> (x[0] < y[0] || (x[0] == y[0] && (x[1] < y[1] || (x[1] == y[1] && x[2] <= y[2]))))
  {
    var x1, y1 := x[1..], y[1..];
    var x2, y2 := x1[1..], y1[1..];
    assert x2[1..] == [] && y2[1..] == [];
    assert LexLe(x2, y2) <==> x2[0] <= y2[0];
    assert LexLe(x1, y1) <==> (x1[0] < y1[0] || (x1[0] == y1[0] && LexLe(x2, y2)));
  }

  /** Digit by digit comparison of two numbers below 1000. */
  lemma DigitsOrder(a: nat, b: nat)
    requires a < 1000 && b < 1000
    ensures a <= b <==> (a / 10 / 10 < b / 10 / 10 || (a / 10 / 10 == b / 10 / 10 &&
              (a / 10 % 10 < b / 10 % 10 || (a / 10 % 10 == b / 10 % 10 && a % 10 <= b % 10))))
  {
    var qa, qb := a / 10, b / 10;
    assert a == 10 * qa + a % 10 && b == 10 * qb + b % 10;
    assert qa == 10 * (qa / 10) + qa % 10 && qb == 10 * (qb / 10) + qb % 10;
  }

  /** Three-digit texts compare as the numbers they write. */
  lemma LevelTextOrder(a: nat, b: nat)
    requires a < 1000 && b < 1000
    ensures LexLe(Pad(IntToString(a)), Pad(IntToString(b))) <==> a <= b
  {
    PadThree(a);
    PadThree(b);
    DigitCode(a / 10 / 10);
    DigitCode(a / 10 % 10);
    DigitCode(a % 10);
    DigitCode(b / 10 / 10);
    DigitCode(b / 10 % 10);
    DigitCode(b % 10);
    LexLeThree(Digits3(a), Digits3(b));
    DigitsOrder(a, b);
  }

  /** For levels from 0 to 999 of one skill, text order is level order:
      the player has a level exactly when its text sorts at or after the
      level's. */
  lemma HasLevel(name: string, player: nat, level: nat)
    requires player < 1000 && level < 1000
    ensures LexLe(Formatted(name, level), Formatted(name, player)) <==> level <= player
  {
    LexLeCommonPrefix(name + " level ", Pad(IntToString(level)), Pad(IntToString(player)));
    LevelTextOrder(level, player);
  }

  lemma SpaceAfterName(n: string, t: string)
    ensures (n + " level " + t)[|n|] == ' '
    ensures forall i :: 0 <= i < |n| ==> (n + " level " + t)[i] == n[i]
  {
  }

  /** The skill name ends at the first space. */
  lemma SplitAtSpace(n1: string, t1: string, n2: string, t2: string)
    requires ' ' !in n1 && ' ' !in n2
    requires n1 + " level " + t1 == n2 + " level " + t2
    ensures n1 == n2 && t1 == t2
  {
    var s := n1 + " level " + t1;
    SpaceAfterName(n1, t1);
    SpaceAfterName(n2, t2);
    if |n1| < |n2| {
      assert false;
    } else if |n2| < |n1| {
      assert false;
    } else {
      assert n1 == s[..|n1|] == n2;
      assert t1 == s[|n1| + 7..] == t2;
    }
  }

  /** Names without spaces and levels below 1000 give different texts for
      different (skill, level) pairs. */
  lemma FormattedInjective(n1: string, l1: nat, n2: string, l2: nat)
    requires ' ' !in n1 && ' ' !in n2 && l1 < 1000 && l2 < 1000
    requires Formatted(n1, l1) == Formatted(n2, l2)
    ensures n1 == n2 && l1 == l2
  {
    SplitAtSpace(n1, Pad(IntToString(l1)), n2, Pad(IntToString(l2)));
    LevelTextOrder(l1, l2);
    LevelTextOrder(l2, l1);
  }

  // ----- getSkillingRequirements -----

  /** A step of the graph: its name and the names of what it needs. */
  datatype GNode = GNode(name: string, quests: seq<string>, achievements: seq<string>, skills: seq<string>)

  /** The skill names of the RuneScape API client: the 28 skills and
      `combat`. */
  const ApiSkillNames: seq<string> := CompSteps.SkillNames + ["combat"]

  function FirstLevel(skill: string): (r: int)
    ensures r == 2 || r == 11
  {
    if skill == "constitution" then 11 else 2
  }

  function LastLevel(skill: string): (r: int)
    ensures r == 99 || r == 120 || r == 138
  {
    if skill == "combat" then 138 else if skill in CompSteps.Skill120s then 120 else 99
  }

  /** The step for `level` of `skill`: it needs the level below. */
  function SkillingStep(skill: string, level: int): GNode
  {
    GNode(Formatted(skill, level), [], [], [Formatted(skill, level - 1)])
  }

  /** The first `count` levels of one skill from its first level. */
  function SkillingChain(skill: string, count: nat): seq<GNode>
  {
    seq(count, k => SkillingStep(skill, FirstLevel(skill) + k))
  }

  lemma ChainStep(skill: string, n: nat)
    ensures SkillingChain(skill, n + 1) == SkillingChain(skill, n) + [SkillingStep(skill, FirstLevel(skill) + n)]
  {
  }

  function ChainLength(skill: string): nat
  {
    if LastLevel(skill) < FirstLevel(skill) then 0 else LastLevel(skill) - FirstLevel(skill) + 1
  }

  /** The chains of the listed skills, one after the other. */
  function Skilling(names: seq<string>): seq<GNode>
  {
    if names == [] then []
    else Skilling(names[..|names| - 1]) + SkillingChain(names[|names| - 1], ChainLength(names[|names| - 1]))
  }

  /** `getSkillingRequirements`: the chains of the API's skills in order. */
  method GetSkillingRequirements() returns (reqs: seq<GNode>)
    ensures reqs == Skilling(ApiSkillNames)
  {
    reqs := [];
    for i := 0 to |ApiSkillNames|
      invariant reqs == Skilling(ApiSkillNames[..i])
    {
      var chain := LevelChain(ApiSkillNames[i]);
      assert ApiSkillNames[..i + 1][..i] == ApiSkillNames[..i];
      reqs := reqs + chain;
    }
    assert ApiSkillNames[..|ApiSkillNames|] == ApiSkillNames;
  }

  /** The inner loop of `getSkillingRequirements`: one step per level of
      the skill from its first level to its last. */
  method LevelChain(skill: string) returns (chain: seq<GNode>)
    ensures chain == SkillingChain(skill, ChainLength(skill))
  {
    var level := if skill == "constitution" then 11 else 2;
    var maxLevel := if skill == "combat" then 138 else if skill in CompSteps.Skill120s then 120 else 99;
    chain := [];
    while level <= maxLevel
      invariant FirstLevel(skill) <= level <= maxLevel + 1
      invariant chain == SkillingChain(skill, level - FirstLevel(skill))
    {
      var name := FormatSkill(skill, level);
      var below := FormatSkill(skill, level - 1);
      ChainStep(skill, level - FirstLevel(skill));
      chain := chain + [GNode(name, [], [], [below])];
      level := level + 1;
    }
  }

  /** Every generated step is the step of a listed skill at a level from its
      first to its last. */
  lemma {:induction false} SkillingSound(names: seq<string>, k: int)
    requires 0 <= k < |Skilling(names)|
    ensures exists i, level :: 0 <= i < |names| && FirstLevel(names[i]) <= level <= LastLevel(names[i]) &&
                               Skilling(names)[k] == SkillingStep(names[i], level)
    decreases |names|
  {
    var init := names[..|names| - 1];
    var last := names[|names| - 1];
    if k < |Skilling(init)| {
      SkillingSound(init, k);
      var i, level :| 0 <= i < |init| && FirstLevel(init[i]) <= level <= LastLevel(init[i]) &&
                      Skilling(init)[k] == SkillingStep(init[i], level);
      assert names[i] == init[i];
    } else {
      var j := k - |Skilling(init)|;
      assert Skilling(names)[k] == SkillingChain(last, ChainLength(last))[j];
      assert FirstLevel(last) <= FirstLevel(last) + j <= LastLevel(last);
    }
  }

  lemma ApiSkillNamesDistinct()
    ensures forall i, j :: 0 <= i < j < |ApiSkillNames| ==> ApiSkillNames[i] != ApiSkillNames[j]
    ensures forall i :: 0 <= i < |ApiSkillNames| ==> ' ' !in ApiSkillNames[i]
  {
    CompSteps.SkillNamesDistinct();
  }

  /** The levels of one skill have distinct step names. */
  lemma ChainDistinct(skill: string, c1: nat, c2: nat)
    requires ' ' !in skill && c1 < c2 < ChainLength(skill)
    ensures SkillingChain(skill, ChainLength(skill))[c1].name != SkillingChain(skill, ChainLength(skill))[c2].name
  {
    var chain := SkillingChain(skill, ChainLength(skill));
    if chain[c1].name == chain[c2].name {
      FormattedInjective(skill, FirstLevel(skill) + c1, skill, FirstLevel(skill) + c2);
    }
  }

  /** A step of an earlier skill never shares its name with a step of a
      later, different skill. */
  lemma HeadChainDistinct(init: seq<string>, last: string, h: int, c: int)
    requires last !in init && ' ' !in last
    requires forall i :: 0 <= i < |init| ==> ' ' !in init[i]
    requires 0 <= h < |Skilling(init)| && 0 <= c < ChainLength(last)
    ensures Skilling(init)[h].name != SkillingChain(last, ChainLength(last))[c].name
  {
    SkillingNameAt(init, h);
    var a, l :| 0 <= a < |init| && 2 <= l < 1000 && Skilling(init)[h].name == Formatted(init[a], l);
    assert init[a] != last;
    StepNamesDiffer(init[a], l, last, FirstLevel(last) + c);
  }

  lemma SkillingNameAt(names: seq<string>, k: int)
    requires 0 <= k < |Skilling(names)|
    ensures exists i, level :: 0 <= i < |names| && 2 <= level < 1000 && Skilling(names)[k].name == Formatted(names[i], level)
  {
    SkillingSound(names, k);
    var i, level :| 0 <= i < |names| && FirstLevel(names[i]) <= level <= LastLevel(names[i]) &&
                    Skilling(names)[k] == SkillingStep(names[i], level);
    assert Skilling(names)[k].name == Formatted(names[i], level);
  }

  lemma StepNamesDiffer(s1: string, l1: nat, s2: string, l2: nat)
    requires s1 != s2 && ' ' !in s1 && ' ' !in s2 && l1 < 1000 && l2 < 1000
    ensures Formatted(s1, l1) != Formatted(s2, l2)
  {
    if Formatted(s1, l1) == Formatted(s2, l2) {
      FormattedInjective(s1, l1, s2, l2);
    }
  }

  /** The generated steps of distinct, space-free skill names have
      distinct names, so they never trip the duplicate check. */
  lemma {:induction false} SkillingDistinct(names: seq<string>, k1: int, k2: int)
    requires forall i, j :: 0 <= i < j < |names| ==> names[i] != names[j]
    requires forall i :: 0 <= i < |names| ==> ' ' !in names[i]
    requires 0 <= k1 < k2 < |Skilling(names)|
    ensures Skilling(names)[k1].name != Skilling(names)[k2].name
    decreases |names|
  {
    var init := names[..|names| - 1];
    var last := names[|names| - 1];
    var head := Skilling(init);
    assert Skilling(names) == head + SkillingChain(last, ChainLength(last));
    if k2 < |head| {
      forall a, b | 0 <= a < b < |init| ensures init[a] != init[b] {
        assert init[a] == names[a] && init[b] == names[b];
      }
      SkillingDistinct(init, k1, k2);
    } else if k1 < |head| {
      forall a | 0 <= a < |init| ensures init[a] != last {
        assert init[a] == names[a];
      }
      HeadChainDistinct(init, last, k1, k2 - |head|);
    } else {
      ChainDistinct(last, k1 - |head|, k2 - |head|);
    }
  }

  /** The generated skilling steps have distinct names. */
  lemma ApiSkillingDistinct(k1: int, k2: int)
    requires 0 <= k1 < k2 < |Skilling(ApiSkillNames)|
    ensures Skilling(ApiSkillNames)[k1].name != Skilling(ApiSkillNames)[k2].name
  {
    ApiSkillNamesDistinct();
    SkillingDistinct(ApiSkillNames, k1, k2);
  }

  // ----- createRequirementGraph -----

  predicate DistinctNames(nodes: seq<GNode>)
  {
    forall i, j :: 0 <= i < j < |nodes| ==> nodes[i].name != nodes[j].name
  }

  /** `nodes` can be added to `graph` without a name clash. */
  predicate FreshNames(graph: map<string, GNode>, nodes: seq<GNode>)
  {
    DistinctNames(nodes) && forall i :: 0 <= i < |nodes| ==> nodes[i].name !in graph
  }

  /** The nodes keyed by name, a later node winning a clash. */
  function NameMap(nodes: seq<GNode>): map<string, GNode>
  {
    if nodes == [] then map[] else NameMap(nodes[..|nodes| - 1])[nodes[|nodes| - 1].name := nodes[|nodes| - 1]]
  }

  /** The keys of the name map are the nodes' names, and with distinct
      names each name finds its own node. */
  lemma {:induction false} NameMapLookup(nodes: seq<GNode>)
    ensures forall k :: k in NameMap(nodes) <==> exists i :: 0 <= i < |nodes| && nodes[i].name == k
    ensures DistinctNames(nodes) ==> forall i :: 0 <= i < |nodes| ==> NameMap(nodes)[nodes[i].name] == nodes[i]
  {
    if nodes != [] {
      var init := nodes[..|nodes| - 1];
      NameMapLookup(init);
      forall k | k in NameMap(nodes) ensures exists i :: 0 <= i < |nodes| && nodes[i].name == k {
        if k != nodes[|nodes| - 1].name {
          assert k in NameMap(init);
          var i :| 0 <= i < |init| && init[i].name == k;
          assert nodes[i] == init[i];
        }
      }
      forall k | exists i :: 0 <= i < |nodes| && nodes[i].name == k ensures k in NameMap(nodes) {
        var i :| 0 <= i < |nodes| && nodes[i].name == k;
        if i < |init| {
          assert init[i] == nodes[i];
        }
      }
      if DistinctNames(nodes) {
        forall i | 0 <= i < |nodes| ensures NameMap(nodes)[nodes[i].name] == nodes[i] {
          if i < |init| {
            assert init[i] == nodes[i];
            assert DistinctNames(init) by {
              forall a, b | 0 <= a < b < |init| ensures init[a].name != init[b].name {
                assert init[a] == nodes[a] && init[b] == nodes[b];
              }
            }
          }
        }
      }
    }
  }

  /** A name already present is in the graph or on an earlier node. */
  lemma Clash(graph: map<string, GNode>, nodes: seq<GNode>, i: int)
    requires 0 <= i < |nodes| && nodes[i].name in graph + NameMap(nodes[..i])
    ensures !FreshNames(graph, nodes)
    ensures nodes[i].name in graph || exists j :: 0 <= j < i && nodes[j].name == nodes[i].name
  {
    NameMapLookup(nodes[..i]);
    if nodes[i].name !in graph {
      var j :| 0 <= j < i && nodes[..i][j].name == nodes[i].name;
      assert nodes[j] == nodes[..i][j];
    }
  }

  /** A fresh name extends the map and keeps the prefix fresh. */
  lemma AddFresh(graph: map<string, GNode>, nodes: seq<GNode>, i: int)
    requires 0 <= i < |nodes| && FreshNames(graph, nodes[..i]) && nodes[i].name !in graph + NameMap(nodes[..i])
    ensures FreshNames(graph, nodes[..i + 1])
    ensures graph + NameMap(nodes[..i + 1]) == (graph + NameMap(nodes[..i]))[nodes[i].name := nodes[i]]
  {
    var pre, init := nodes[..i + 1], nodes[..i];
    assert pre[..i] == init;
    assert NameMap(pre) == NameMap(init)[nodes[i].name := nodes[i]];
    forall a | 0 <= a < i ensures init[a].name in NameMap(init) {
      NameMapLookup(init);
    }
    forall a, b | 0 <= a < b < |pre| ensures pre[a].name != pre[b].name {
      assert pre[a] == init[a];
      if b < i {
        assert pre[b] == init[b];
      }
    }
  }

  /** Adds the nodes one by one, refusing the first name already in the
      graph with the message `prefix` + name. */
  method AddAll(graph: map<string, GNode>, nodes: seq<GNode>, prefix: string) returns (r: Result<map<string, GNode>>)
    ensures r.Ok? <==> FreshNames(graph, nodes)
    ensures r.Ok? ==> r.value == graph + NameMap(nodes)
    ensures r.Err? ==> exists i :: 0 <= i < |nodes| && r.message == prefix + nodes[i].name && FreshNames(graph, nodes[..i]) &&
                         (nodes[i].name in graph || exists j :: 0 <= j < i && nodes[j].name == nodes[i].name)
  {
    var g := graph;
    for i := 0 to |nodes|
      invariant FreshNames(graph, nodes[..i])
      invariant g == graph + NameMap(nodes[..i])
    {
      if nodes[i].name in g {
        Clash(graph, nodes, i);
        return Err(prefix + nodes[i].name);
      }
      AddFresh(graph, nodes, i);
      g := g[nodes[i].name := nodes[i]];
    }
    assert nodes[..|nodes|] == nodes;
    return Ok(g);
  }

  /** Later nodes win: the map of two lists is the first's map overridden
      by the second's. */
  lemma {:induction false} NameMapAppend(a: seq<GNode>, b: seq<GNode>)
    ensures NameMap(a + b) == NameMap(a) + NameMap(b)
    decreases |b|
  {
    if b != [] {
      var init := b[..|b| - 1];
      assert (a + b)[..|a + b| - 1] == a + init;
      NameMapAppend(a, init);
    } else {
      assert a + b == a;
    }
  }

  /** Two lists have distinct names together exactly when the first does
      and the second is fresh for the first's map. */
  lemma FreshAppend(a: seq<GNode>, b: seq<GNode>)
    ensures DistinctNames(a + b) <==> DistinctNames(a) && FreshNames(NameMap(a), b)
  {
    NameMapLookup(a);
    var ab := a + b;
    if DistinctNames(ab) {
      forall i, j | 0 <= i < j < |a| ensures a[i].name != a[j].name {
        assert ab[i] == a[i] && ab[j] == a[j];
      }
      forall i, j | 0 <= i < j < |b| ensures b[i].name != b[j].name {
        assert ab[|a| + i] == b[i] && ab[|a| + j] == b[j];
      }
      forall i, k | 0 <= i < |b| && 0 <= k < |a| ensures a[k].name != b[i].name {
        assert ab[k] == a[k] && ab[|a| + i] == b[i];
      }
    }
    if DistinctNames(a) && FreshNames(NameMap(a), b) {
      forall i, j | 0 <= i < j < |ab| ensures ab[i].name != ab[j].name {
        if j < |a| {
          assert ab[i] == a[i] && ab[j] == a[j];
        } else if i < |a| {
          assert ab[i] == a[i] && ab[j] == b[j - |a|];
        } else {
          assert ab[i] == b[i - |a|] && ab[j] == b[j - |a|];
        }
      }
    }
  }

  /** The first `i` nodes have pairwise distinct names. */
  predicate DistinctBelow(nodes: seq<GNode>, i: int)
  {
    forall a, b :: 0 <= a < b < i && b < |nodes| ==> nodes[a].name != nodes[b].name
  }

  /** Node `i` is the first whose name an earlier node already has. */
  predicate FirstClash(nodes: seq<GNode>, i: int)
    requires 0 <= i < |nodes|
  {
    DistinctBelow(nodes, i) && exists j :: 0 <= j < i && nodes[j].name == nodes[i].name
  }

  /** `ab` is `pre` followed by `b`, element by element. */
  predicate Joined(ab: seq<GNode>, pre: seq<GNode>, b: seq<GNode>)
  {
    |ab| == |pre| + |b| && (forall x :: 0 <= x < |pre| ==> ab[x] == pre[x]) &&
    forall y :: |pre| <= y < |ab| ==> ab[y] == b[y - |pre|]
  }

  lemma JoinedAppend(pre: seq<GNode>, b: seq<GNode>)
    ensures Joined(pre + b, pre, b)
  {
  }

  /** A clash within `b`, or of `b` with a list before it, is the first
      clash of the two lists together. */
  lemma ClashAfter(pre: seq<GNode>, b: seq<GNode>, ab: seq<GNode>, i: int)
    requires Joined(ab, pre, b) && 0 <= i < |b| && DistinctBelow(ab, |pre| + i)
    requires b[i].name in NameMap(pre) || exists j :: 0 <= j < i && b[j].name == b[i].name
    ensures FirstClash(ab, |pre| + i)
  {
    var n := |pre| + i;
    assert ab[n].name == b[i].name;
    if b[i].name in NameMap(pre) {
      NameMapFind(pre, b[i].name);
      var j :| 0 <= j < |pre| && pre[j].name == b[i].name;
      assert ab[j].name == pre[j].name;
      assert 0 <= j < n && ab[j].name == ab[n].name;
    } else {
      var j :| 0 <= j < i && b[j].name == b[i].name;
      assert ab[|pre| + j].name == b[j].name;
      assert 0 <= |pre| + j < n && ab[|pre| + j].name == ab[n].name;
    }
  }

  lemma NameMapHas(nodes: seq<GNode>, x: int)
    requires 0 <= x < |nodes|
    ensures nodes[x].name in NameMap(nodes)
  {
    NameMapLookup(nodes);
  }

  lemma NameMapFind(nodes: seq<GNode>, k: string)
    requires k in NameMap(nodes)
    ensures exists j :: 0 <= j < |nodes| && nodes[j].name == k
  {
    NameMapLookup(nodes);
  }

  /** Distinct names followed by names fresh for them are distinct. */
  lemma DistinctJoin(pre: seq<GNode>, b: seq<GNode>, ab: seq<GNode>, i: int)
    requires Joined(ab, pre, b) && 0 <= i <= |b| && DistinctNames(pre) && FreshNames(NameMap(pre), b[..i])
    ensures DistinctBelow(ab, |pre| + i)
  {
    forall x, y | 0 <= x < y < |pre| + i ensures ab[x].name != ab[y].name {
      if y < |pre| {
        assert ab[x] == pre[x] && ab[y] == pre[y];
      } else if x < |pre| {
        NameMapHas(pre, x);
        assert ab[x] == pre[x] && ab[y] == b[y - |pre|] == b[..i][y - |pre|];
      } else {
        assert ab[x] == b[x - |pre|] == b[..i][x - |pre|] && ab[y] == b[y - |pre|] == b[..i][y - |pre|];
      }
    }
  }

  /** A first clash stays the first clash as the list goes on. */
  lemma ClashExtends(xs: seq<GNode>, ys: seq<GNode>, i: int)
    requires 0 <= i < |xs| && FirstClash(xs, i)
    ensures FirstClash(xs + ys, i)
  {
    var j :| 0 <= j < i && xs[j].name == xs[i].name;
    assert (xs + ys)[j] == xs[j] && (xs + ys)[i] == xs[i];
    forall a, b | 0 <= a < b < i ensures (xs + ys)[a].name != (xs + ys)[b].name {
      assert (xs + ys)[a] == xs[a] && (xs + ys)[b] == xs[b];
    }
  }

  /** A first clash shows the names are not distinct. */
  lemma ClashNotDistinct(nodes: seq<GNode>, i: int)
    requires 0 <= i < |nodes| && FirstClash(nodes, i)
    ensures !DistinctNames(nodes)
  {
  }

  /** The first clash among the achievements. */
  lemma AchievementsClash(a: seq<GNode>, q: seq<GNode>, s: seq<GNode>, i: int)
    requires 0 <= i < |a| && FreshNames(map[], a[..i]) && exists j :: 0 <= j < i && a[j].name == a[i].name
    ensures i < |a + q| && FirstClash(a + q + s, i) && (a + q + s)[i] == a[i] && !DistinctNames(a + q + s)
  {
    ClashWithin(a, i);
    assert a + q + s == a + (q + s);
    ClashExtends(a, q + s, i);
    ClashNotDistinct(a + q + s, i);
  }

  /** A name repeated after distinct names is the first clash. */
  lemma ClashWithin(a: seq<GNode>, i: int)
    requires 0 <= i < |a| && DistinctNames(a[..i]) && exists j :: 0 <= j < i && a[j].name == a[i].name
    ensures FirstClash(a, i)
  {
    forall x, y | 0 <= x < y < i ensures a[x].name != a[y].name {
      assert a[..i][x] == a[x] && a[..i][y] == a[y];
    }
  }

  /** The first clash among the quests, the achievements being distinct. */
  lemma QuestsClash(a: seq<GNode>, q: seq<GNode>, s: seq<GNode>, i: int)
    requires DistinctNames(a) && 0 <= i < |q| && FreshNames(NameMap(a), q[..i])
    requires q[i].name in NameMap(a) || exists j :: 0 <= j < i && q[j].name == q[i].name
    ensures |a| + i < |a + q| && FirstClash(a + q + s, |a| + i) && (a + q + s)[|a| + i] == q[i] && !DistinctNames(a + q + s)
  {
    JoinedAppend(a, q);
    DistinctJoin(a, q, a + q, i);
    ClashAfter(a, q, a + q, i);
    ClashExtends(a + q, s, |a| + i);
    ClashNotDistinct(a + q + s, |a| + i);
  }

  /** The first clash among the skilling steps, the nodes before them
      being distinct. */
  lemma SkillsClash(aq: seq<GNode>, s: seq<GNode>, i: int)
    requires DistinctNames(aq) && 0 <= i < |s| && FreshNames(NameMap(aq), s[..i])
    requires s[i].name in NameMap(aq) || exists j :: 0 <= j < i && s[j].name == s[i].name
    ensures |aq| <= |aq| + i && FirstClash(aq + s, |aq| + i) && (aq + s)[|aq| + i] == s[i] && !DistinctNames(aq + s)
  {
    JoinedAppend(aq, s);
    DistinctJoin(aq, s, aq + s, i);
    ClashAfter(aq, s, aq + s, i);
    ClashNotDistinct(aq + s, |aq| + i);
  }

  const AchievementClash := "Graph already has achievement: "
  const SkillClash := "Graph already has skill: "

  /** `createRequirementGraph`, after the scraping: achievements, then
      quests, then skilling steps. A clashing quest is reported with the
      achievement message. */
  method CreateGraph(achievements: seq<GNode>, quests: seq<GNode>, skills: seq<GNode>) returns (r: Result<map<string, GNode>>)
    ensures r.Ok? <==> DistinctNames(achievements + quests + skills)
    ensures r.Ok? ==> r.value == NameMap(achievements + quests + skills)
    ensures r.Err? ==>
      exists i :: 0 <= i < |achievements + quests + skills| && FirstClash(achievements + quests + skills, i) &&
        r.message == (if i < |achievements + quests| then AchievementClash else SkillClash) + (achievements + quests + skills)[i].name
  {
    var g1 := AddAll(map[], achievements, AchievementClash);
    if g1.Err? {
      var empty: map<string, GNode> := map[];
      var i :| 0 <= i < |achievements| && g1.message == AchievementClash + achievements[i].name &&
               FreshNames(empty, achievements[..i]) &&
               (achievements[i].name in empty || exists j :: 0 <= j < i && achievements[j].name == achievements[i].name);
      AchievementsClash(achievements, quests, skills, i);
      return Err(g1.message);
    }
    var g2 := AddAll(g1.value, quests, AchievementClash);
    if g2.Err? {
      var i :| 0 <= i < |quests| && g2.message == AchievementClash + quests[i].name &&
               FreshNames(g1.value, quests[..i]) &&
               (quests[i].name in g1.value || exists j :: 0 <= j < i && quests[j].name == quests[i].name);
      QuestsClash(achievements, quests, skills, i);
      return Err(g2.message);
    }
    assert g1.value == NameMap(achievements);
    NameMapAppend(achievements, quests);
    FreshAppend(achievements, quests);
    assert DistinctNames(achievements + quests) && g2.value == NameMap(achievements + quests);
    var g3 := AddAll(g2.value, skills, SkillClash);
    if g3.Err? {
      var i :| 0 <= i < |skills| && g3.message == SkillClash + skills[i].name &&
               FreshNames(g2.value, skills[..i]) &&
               (skills[i].name in g2.value || exists j :: 0 <= j < i && skills[j].name == skills[i].name);
      SkillsClash(achievements + quests, skills, i);
      return Err(g3.message);
    }
    FreshAppend(achievements + quests, skills);
    NameMapAppend(achievements + quests, skills);
    return Ok(g3.value);
  }

  // ----- getRequirementLayers -----

  /** What the layering reads of a player's profile: the level of each
      skill, and whether each quest is completed. */
  datatype Profile = Profile(levels: map<string, int>, completed: map<string, bool>)

  /** The three lists of a node, each checked against the profile in its
      own way. */
  datatype Kind = QuestReq | AchievementReq | SkillReq

  /** Reading `completed` of a quest the profile does not list throws. */
  const UndefinedCompleted := "Cannot read properties of undefined (reading 'completed')"

  /** `s.split(' ')[0]`. */
  function FirstWord(s: string): (w: string)
    ensures w <= s && ' ' !in w
  {
    if s == [] || s[0] == ' ' then [] else [s[0]] + FirstWord(s[1..])
  }

  lemma {:induction false} FirstWordFormatted(name: string, level: int)
    requires ' ' !in name
    ensures FirstWord(Formatted(name, level)) == name
  {
    var s := Formatted(name, level);
    SpaceAfterName(name, Pad(IntToString(level)));
    if name != [] {
      assert s[1..] == Formatted(name[1..], level);
      FirstWordFormatted(name[1..], level);
    }
  }

  /** The skill check on a generated step: the skill is read back from the
      step's name, and the step is skipped exactly when the player's level
      is at least the step's. */
  lemma SkillCheck(skill: string, need: nat, have: nat)
    requires ' ' !in skill && need < 1000 && have < 1000
    ensures FirstWord(Formatted(skill, need)) == skill
    ensures LexLe(Formatted(skill, need), Formatted(skill, have)) <==> need <= have
  {
    FirstWordFormatted(skill, need);
    HasLevel(skill, have, need);
  }

  /** Every quest a node of the graph needs is listed in the profile. */
  predicate QuestsKnown(graph: map<string, GNode>, profile: Profile)
  {
    forall k, q :: k in graph && q in graph[k].quests ==> q in profile.completed
  }

  /** A layer not created yet reads as empty. */
  function Layer(d: seq<seq<GNode>>, i: nat): seq<GNode>
  {
    if i < |d| then d[i] else []
  }

  /** `depths[m] = depths[m] || []; depths[m].push(node)`, for a layer at
      most one past the last. */
  function Place(d: seq<seq<GNode>>, m: nat, node: GNode): (e: seq<seq<GNode>>)
    requires m <= |d|
  {
    if m < |d| then d[m := d[m] + [node]] else d + [[node]]
  }

  /** Each layer of `d` is a prefix of the same layer of `e`. */
  predicate Grows(d: seq<seq<GNode>>, e: seq<seq<GNode>>)
  {
    |d| <= |e| && forall i :: 0 <= i < |d| ==> d[i] <= e[i]
  }

  /** The layers from `from` up are as in `d`. */
  predicate Untouched(d: seq<seq<GNode>>, e: seq<seq<GNode>>, from: int)
  {
    forall i :: 0 <= i && from <= i < |e| ==> i < |d| && e[i] == d[i]
  }

  /** No layer is missing: JavaScript's sparse array has no holes. */
  predicate NoHoles(d: seq<seq<GNode>>)
  {
    forall i :: 0 <= i < |d| ==> d[i] != []
  }

  /** The state a walk threads through: the layers, one past the highest
      layer a requirement of the current node reached (`maxDepth`), and the
      names seen. */
  datatype Walk = Walk(depths: seq<seq<GNode>>, max: nat, seen: set<string>)

  /** From `a` to `b` the layers only grew, and only below `b.max`; the
      seen names only grew; and the highest layer reached either stayed
      where it was or moved to one above a layer the walk added to:
      `maxDepth` only takes the height a requirement returned. */
  predicate Advanced(a: Walk, b: Walk)
  {
    a.max <= b.max <= |b.depths| && |b.depths| <= Max(|a.depths|, b.max) &&
    Grows(a.depths, b.depths) && Untouched(a.depths, b.depths, b.max) &&
    a.seen <= b.seen && (NoHoles(a.depths) ==> NoHoles(b.depths)) &&
    (b.max == a.max || (1 <= b.max && |Layer(a.depths, b.max - 1)| < |b.depths[b.max - 1]|))
  }

  function Max(a: int, b: int): int
  {
    if a < b then b else a
  }

  /** The node went into layer `b.max - 1`, above `a.max`, after what was
      there, and everything else this walk added sits in lower layers. */
  predicate Placed(a: Walk, node: GNode, b: Walk)
  {
    Advanced(a, b) && a.max < b.max && b.depths[b.max - 1] == Layer(a.depths, b.max - 1) + [node]
  }

  lemma AdvancedTrans(a: Walk, b: Walk, c: Walk)
    requires Advanced(a, b) && Advanced(b, c)
    ensures Advanced(a, c)
  {
    if c.max != b.max {
      assert |Layer(a.depths, c.max - 1)| <= |Layer(b.depths, c.max - 1)|;
    } else if b.max != a.max {
      assert b.depths[b.max - 1] <= c.depths[b.max - 1];
    }
  }

  /** Placing the node at the highest layer its requirements reached. */
  lemma PlaceAbove(a: Walk, st: Walk, node: GNode)
    requires Advanced(a, st)
    ensures Placed(a, node, Walk(Place(st.depths, st.max, node), st.max + 1, st.seen))
    ensures st.max == a.max || (st.max >= 1 && |Layer(a.depths, st.max - 1)| < |Place(st.depths, st.max, node)[st.max - 1]|)
  {
    var e := Place(st.depths, st.max, node);
    assert Layer(st.depths, st.max) == Layer(a.depths, st.max);
  }

  /** The order of the three loops of `getRequirementLayers`. */
  const Order: seq<Kind> := [QuestReq, AchievementReq, SkillReq]

  /** The list of a node each loop walks; a missing achievement list is
      empty. */
  function NamesOf(node: GNode, kind: Kind): seq<string>
  {
    match kind
    case QuestReq => node.quests
    case AchievementReq => node.achievements
    case SkillReq => node.skills
  }

  /** Every name in the node's three lists is in `seen`. */
  predicate Covered(node: GNode, seen: set<string>)
  {
    forall j, n :: 0 <= j < 3 && n in NamesOf(node, Order[j]) ==> n in seen
  }

  /** The skip rule of the loop over the list of kind `kind`, for a name
      the profile can answer for: a completed quest, or a skill step whose
      skill the profile lacks or whose level the player already has. An
      achievement is never skipped. */
  predicate Skip(kind: Kind, name: string, profile: Profile)
  {
    match kind
    case QuestReq => name in profile.completed && profile.completed[name]
    case AchievementReq => false
    case SkillReq =>
      var skill := FirstWord(name);
      skill !in profile.levels || LexLe(name, Formatted(skill, profile.levels[skill]))
  }

  /** `name` is in the list of kind `kind` of some node of the graph. */
  ghost predicate ListedAs(graph: map<string, GNode>, kind: Kind, name: string)
  {
    exists x :: x in graph && name in NamesOf(graph[x], kind)
  }

  /** No name is listed under two kinds: quests, achievements and skill
      steps have names of their own. */
  ghost predicate OneKind(graph: map<string, GNode>)
  {
    forall n, k1, k2 :: ListedAs(graph, k1, n) && ListedAs(graph, k2, n) ==> k1 == k2
  }

  /** `name` is skipped under a kind the graph lists it as. */
  ghost predicate SkippedElsewhere(graph: map<string, GNode>, profile: Profile, name: string)
  {
    exists kind :: ListedAs(graph, kind, name) && Skip(kind, name, profile)
  }

  /** `name` is skipped in one of the node's own lists. */
  predicate SkippedIn(node: GNode, profile: Profile, name: string)
  {
    (name in node.quests && Skip(QuestReq, name, profile)) ||
    (name in node.skills && Skip(SkillReq, name, profile))
  }

  /** From `d0` to `d1`, `g` was pushed on some layer from `lo` up to,
      not including, `hi`. */
  ghost predicate PushedBelow(d0: seq<seq<GNode>>, d1: seq<seq<GNode>>, g: GNode, lo: nat, hi: nat)
  {
    exists m: nat, p: nat :: lo <= m < hi && |Layer(d0, m)| <= p < |Layer(d1, m)| && Layer(d1, m)[p] == g
  }

  /** What became of a name a walk marked seen: it has no node, or its
      node was pushed on a layer from `lo` up to below `hi`, or the graph
      lists it under a kind whose skip rule applies. A pushed node's own
      lists were walked: their names are in `seen`. */
  ghost predicate Reached(graph: map<string, GNode>, profile: Profile, d0: seq<seq<GNode>>, d1: seq<seq<GNode>>,
                          lo: nat, hi: nat, seen: set<string>, name: string)
  {
    name !in graph || (PushedBelow(d0, d1, graph[name], lo, hi) && Covered(graph[name], seen)) ||
    SkippedElsewhere(graph, profile, name)
  }

  /** Every name a walk of the lists of `node` marked seen is accounted
      for, or skipped in the node's own lists. */
  ghost predicate AllReached(graph: map<string, GNode>, profile: Profile, node: GNode,
                             d0: seq<seq<GNode>>, lo: nat, seen0: set<string>,
                             d1: seq<seq<GNode>>, hi: nat, seen1: set<string>)
  {
    forall n :: n in seen1 && n !in seen0 ==> Reached(graph, profile, d0, d1, lo, hi, seen1, n) || SkippedIn(node, profile, n)
  }

  /** A push stays recorded as the layers grow and the bound rises. */
  lemma ReachedMoves(graph: map<string, GNode>, profile: Profile, d: seq<seq<GNode>>, d0: seq<seq<GNode>>,
                     d1: seq<seq<GNode>>, d2: seq<seq<GNode>>, lo: nat, hi: nat, hi2: nat,
                     s1: set<string>, s2: set<string>, name: string)
    requires Grows(d, d0) && Grows(d1, d2) && hi <= hi2 && s1 <= s2
    requires Reached(graph, profile, d0, d1, lo, hi, s1, name)
    ensures Reached(graph, profile, d, d2, lo, hi2, s2, name)
  {
    if name in graph && PushedBelow(d0, d1, graph[name], lo, hi) {
      var m: nat, p: nat :| lo <= m < hi && |Layer(d0, m)| <= p < |Layer(d1, m)| && Layer(d1, m)[p] == graph[name];
      assert Layer(d1, m) <= Layer(d2, m);
      assert |Layer(d, m)| <= |Layer(d0, m)|;
      assert Layer(d2, m)[p] == graph[name];
    }
  }

  /** Pushing a node keeps every layer a prefix of the new one. */
  lemma PlaceGrows(d: seq<seq<GNode>>, m: nat, node: GNode)
    requires m <= |d|
    ensures Grows(d, Place(d, m, node))
  {
  }

  /** The requirement `name` was layered: its node went on the layer just
      below the height its walk returned, and what that walk marked seen is
      accounted for from the loop's point of view. */
  lemma Expanded(graph: map<string, GNode>, profile: Profile, name: string, depth: nat, st: Walk, w: Walk)
    requires name in graph
    requires Placed(Walk(st.depths, depth, st.seen + {name}), graph[name], w) && Covered(graph[name], w.seen)
    requires AllReached(graph, profile, graph[name], st.depths, depth, st.seen + {name}, w.depths, w.max - 1, w.seen)
    ensures var hi := if w.max > st.max then w.max else st.max;
            PushedBelow(st.depths, w.depths, graph[name], depth, hi) &&
            forall n :: n in w.seen && n !in st.seen ==> Reached(graph, profile, st.depths, w.depths, depth, hi, w.seen, n)
  {
    var hi := if w.max > st.max then w.max else st.max;
    assert PushedBelow(st.depths, w.depths, graph[name], depth, hi) by {
      var m := w.max - 1;
      assert Layer(w.depths, m) == Layer(st.depths, m) + [graph[name]];
      assert Layer(w.depths, m)[|Layer(st.depths, m)|] == graph[name];
    }
    forall n | n in w.seen && n !in st.seen && n != name
      ensures Reached(graph, profile, st.depths, w.depths, depth, hi, w.seen, n)
    {
      if SkippedIn(graph[name], profile, n) {
        if n in graph[name].quests && Skip(QuestReq, n, profile) {
          assert n in NamesOf(graph[name], QuestReq);
          assert ListedAs(graph, QuestReq, n) && Skip(QuestReq, n, profile);
        } else {
          assert n in NamesOf(graph[name], SkillReq);
          assert ListedAs(graph, SkillReq, n) && Skip(SkillReq, n, profile);
        }
      } else {
        ReachedMoves(graph, profile, st.depths, st.depths, w.depths, w.depths, depth, w.max - 1, hi, w.seen, w.seen, n);
      }
    }
  }

  /** Pushing the node itself on top leaves its requirements accounted
      for below it. */
  lemma PlaceKeepsReached(graph: map<string, GNode>, profile: Profile, node: GNode,
                          depths: seq<seq<GNode>>, depth: nat, seen: set<string>, st: Walk, w: Walk)
    requires st.max <= |st.depths| && w == Walk(Place(st.depths, st.max, node), st.max + 1, st.seen)
    requires AllReached(graph, profile, node, depths, depth, seen, st.depths, st.max, st.seen)
    ensures AllReached(graph, profile, node, depths, depth, seen, w.depths, w.max - 1, w.seen)
  {
    PlaceGrows(st.depths, st.max, node);
    forall n | n in w.seen && n !in seen && !SkippedIn(node, profile, n)
      ensures Reached(graph, profile, depths, w.depths, depth, w.max - 1, w.seen, n)
    {
      ReachedMoves(graph, profile, depths, depths, st.depths, w.depths, depth, st.max, st.max, st.seen, st.seen, n);
    }
  }

  // ----- what a walk pushes -----

  /** What `b` holds past its prefix `a`: the nodes pushed on one layer. */
  function Drop(a: seq<GNode>, b: seq<GNode>): seq<GNode>
  {
    if |a| <= |b| then b[|a|..] else []
  }

  /** The nodes pushed on the lowest `n` layers from `d0` to `d1`. */
  ghost function AddedBelow(d0: seq<seq<GNode>>, d1: seq<seq<GNode>>, n: nat): multiset<GNode>
  {
    if n == 0 then multiset{} else AddedBelow(d0, d1, n - 1) + multiset(Drop(Layer(d0, n - 1), Layer(d1, n - 1)))
  }

  /** The nodes pushed from `d0` to `d1`, on any layer. */
  ghost function Added(d0: seq<seq<GNode>>, d1: seq<seq<GNode>>): multiset<GNode>
  {
    AddedBelow(d0, d1, |d1|)
  }

  /** The nodes of the names `names`, one per name the graph has. */
  ghost function NodesOf(graph: map<string, GNode>, names: seq<string>): multiset<GNode>
  {
    if names == [] then multiset{}
    else (if names[0] in graph then multiset{graph[names[0]]} else multiset{}) + NodesOf(graph, names[1..])
  }

  lemma {:induction false} NodesAppend(graph: map<string, GNode>, a: seq<string>, b: seq<string>)
    ensures NodesOf(graph, a + b) == NodesOf(graph, a) + NodesOf(graph, b)
    decreases |a|
  {
    if a != [] {
      assert (a + b)[1..] == a[1..] + b;
      NodesAppend(graph, a[1..], b);
    } else {
      assert a + b == b;
    }
  }

  /** A layer of a walk is a prefix of the same layer later on. */
  lemma LayerGrows(d0: seq<seq<GNode>>, d1: seq<seq<GNode>>, i: nat)
    requires Grows(d0, d1)
    ensures Layer(d0, i) <= Layer(d1, i)
  {
  }

  lemma DropSplit(a: seq<GNode>, b: seq<GNode>, c: seq<GNode>)
    requires a <= b && b <= c
    ensures multiset(Drop(a, c)) == multiset(Drop(a, b)) + multiset(Drop(b, c))
  {
    assert c[|a|..] == b[|a|..] + c[|b|..];
  }

  lemma SumSwap(p: multiset<GNode>, q: multiset<GNode>, x: multiset<GNode>, y: multiset<GNode>)
    ensures (p + q) + (x + y) == (p + x) + (q + y)
  {
  }

  /** Each of the lowest `n` layers of `d0` is a prefix of that of `d1`. */
  ghost predicate Prefixes(d0: seq<seq<GNode>>, d1: seq<seq<GNode>>, n: nat)
  {
    n == 0 || (Layer(d0, n - 1) <= Layer(d1, n - 1) && Prefixes(d0, d1, n - 1))
  }

  lemma {:induction false} GrowsPrefixes(d0: seq<seq<GNode>>, d1: seq<seq<GNode>>, n: nat)
    requires Grows(d0, d1)
    ensures Prefixes(d0, d1, n)
  {
    if n > 0 {
      var m := n - 1;
      GrowsPrefixes(d0, d1, m);
      LayerGrows(d0, d1, m);
    }
  }

  lemma {:induction false} AddedSplit(d0: seq<seq<GNode>>, d1: seq<seq<GNode>>, d2: seq<seq<GNode>>, n: nat)
    requires Prefixes(d0, d1, n) && Prefixes(d1, d2, n)
    ensures AddedBelow(d0, d2, n) == AddedBelow(d0, d1, n) + AddedBelow(d1, d2, n)
  {
    if n > 0 {
      var m := n - 1;
      AddedSplit(d0, d1, d2, m);
      var a, b, c := Layer(d0, m), Layer(d1, m), Layer(d2, m);
      DropSplit(a, b, c);
      SumSwap(AddedBelow(d0, d1, m), AddedBelow(d1, d2, m), multiset(Drop(a, b)), multiset(Drop(b, c)));
    }
  }

  lemma {:induction false} AddedBeyond(d0: seq<seq<GNode>>, d1: seq<seq<GNode>>, n: nat)
    requires |d1| <= n
    ensures AddedBelow(d0, d1, n) == Added(d0, d1)
    decreases n
  {
    if n > |d1| {
      AddedBeyond(d0, d1, n - 1);
    }
  }

  /** What two walks push one after the other adds up. */
  lemma AddedTrans(d0: seq<seq<GNode>>, d1: seq<seq<GNode>>, d2: seq<seq<GNode>>)
    requires Grows(d0, d1) && Grows(d1, d2)
    ensures Added(d0, d2) == Added(d0, d1) + Added(d1, d2)
  {
    GrowsPrefixes(d0, d1, |d2|);
    GrowsPrefixes(d1, d2, |d2|);
    AddedSplit(d0, d1, d2, |d2|);
    AddedBeyond(d0, d1, |d2|);
  }

  lemma {:induction false} AddedNoneBelow(d: seq<seq<GNode>>, n: nat)
    ensures AddedBelow(d, d, n) == multiset{}
  {
    if n > 0 {
      AddedNoneBelow(d, n - 1);
      assert Drop(Layer(d, n - 1), Layer(d, n - 1)) == [];
    }
  }

  /** Pushing on layer `m` adds the node there and leaves every other
      layer as it was. */
  lemma PlaceLayer(d: seq<seq<GNode>>, m: nat, g: GNode, i: nat)
    requires m <= |d|
    ensures Drop(Layer(d, i), Layer(Place(d, m, g), i)) == if i == m then [g] else []
  {
    var a, b := Layer(d, i), Layer(Place(d, m, g), i);
    if i == m {
      assert b == a + [g];
      assert b[|a|..] == [g];
    } else {
      assert b == a;
      assert b[|a|..] == [];
    }
  }

  lemma {:induction false} PlaceAddsBelow(d: seq<seq<GNode>>, m: nat, g: GNode, n: nat)
    requires m <= |d|
    ensures AddedBelow(d, Place(d, m, g), n) == if n > m then multiset{g} else multiset{}
  {
    if n > 0 {
      PlaceAddsBelow(d, m, g, n - 1);
      PlaceLayer(d, m, g, n - 1);
    }
  }

  /** Pushing a node adds that node and nothing else. */
  lemma PlaceAdds(d: seq<seq<GNode>>, m: nat, g: GNode)
    requires m <= |d|
    ensures Added(d, Place(d, m, g)) == multiset{g}
  {
    PlaceAddsBelow(d, m, g, |Place(d, m, g)|);
  }

  lemma {:induction false} FlattenBelow(d: seq<seq<GNode>>, n: nat)
    requires n <= |d|
    ensures AddedBelow([], d, n) == multiset(Flatten(d[..n]))
  {
    if n > 0 {
      FlattenBelow(d, n - 1);
      assert d[..n][..n - 1] == d[..n - 1];
      assert Drop(Layer([], n - 1), Layer(d, n - 1)) == d[..n][n - 1];
    }
  }

  /** From no layers, what was pushed is the path. */
  lemma AddedFromNothing(d: seq<seq<GNode>>)
    ensures Added([], d) == multiset(Flatten(d))
  {
    FlattenBelow(d, |d|);
    assert d[..|d|] == d;
  }

  /** `e` lists, each once, names with a node first seen between `seen0`
      and `seen1`, and the layers grew from `d0` to `d1` by exactly one node
      per name of `e`, plus `extra`. */
  ghost predicate AddedExactly(graph: map<string, GNode>, d0: seq<seq<GNode>>, d1: seq<seq<GNode>>,
                               seen0: set<string>, seen1: set<string>, e: seq<string>, extra: multiset<GNode>)
  {
    (forall n :: n in e ==> n in graph && n in seen1 && n !in seen0) &&
    Distinct(e) && Added(d0, d1) == NodesOf(graph, e) + extra
  }

  /** No name occurs twice. */
  ghost predicate Distinct(e: seq<string>)
  {
    e == [] || (e[0] !in e[1..] && Distinct(e[1..]))
  }

  lemma {:induction false} DistinctAppend(a: seq<string>, b: seq<string>)
    requires Distinct(a) && Distinct(b) && forall n :: n in a ==> n !in b
    ensures Distinct(a + b)
    decreases |a|
  {
    if a != [] {
      assert (a + b)[1..] == a[1..] + b;
      assert a[0] in a;
      DistinctAppend(a[1..], b);
    } else {
      assert a + b == b;
    }
  }

  /** A name the layering cannot expand: it has no node, or it is skipped
      under a kind the graph lists it as. */
  ghost predicate NotExpanded(graph: map<string, GNode>, profile: Profile, n: string)
  {
    n !in graph || SkippedElsewhere(graph, profile, n)
  }

  /** Every name seen between `seen0` and `seen1` that `e` does not list
      was not expanded: it cannot be, or the list `names` of kind `kind`
      skips it. */
  ghost predicate SkippedRest(graph: map<string, GNode>, profile: Profile, kind: Kind, names: seq<string>,
                              seen0: set<string>, seen1: set<string>, e: seq<string>)
  {
    forall n :: n in seen1 && n !in seen0 && n !in e ==> NotExpanded(graph, profile, n) || (n in names && Skip(kind, n, profile))
  }

  /** The same, where it is the node's own lists that skip the name. */
  ghost predicate SkippedRestIn(graph: map<string, GNode>, profile: Profile, node: GNode,
                                seen0: set<string>, seen1: set<string>, e: seq<string>)
  {
    forall n :: n in seen1 && n !in seen0 && n !in e ==> NotExpanded(graph, profile, n) || SkippedIn(node, profile, n)
  }

  /** Nothing pushed, nothing listed. */
  lemma ExactNone(graph: map<string, GNode>, d: seq<seq<GNode>>, seen0: set<string>, seen1: set<string>)
    ensures AddedExactly(graph, d, d, seen0, seen1, [], multiset{})
  {
    AddedNoneBelow(d, |d|);
  }

  /** Two stretches of a walk, one after the other. */
  lemma ExactTrans(graph: map<string, GNode>, d0: seq<seq<GNode>>, d1: seq<seq<GNode>>, d2: seq<seq<GNode>>,
                   s0: set<string>, s1: set<string>, s2: set<string>,
                   e1: seq<string>, e2: seq<string>, x1: multiset<GNode>, x2: multiset<GNode>)
    requires Grows(d0, d1) && Grows(d1, d2) && s0 <= s1 <= s2
    requires AddedExactly(graph, d0, d1, s0, s1, e1, x1) && AddedExactly(graph, d1, d2, s1, s2, e2, x2)
    ensures AddedExactly(graph, d0, d2, s0, s2, e1 + e2, x1 + x2)
  {
    AddedTrans(d0, d1, d2);
    NodesAppend(graph, e1, e2);
    DistinctAppend(e1, e2);
  }

  /** The node of `name` and what its walk pushed. */
  lemma ExpandedExactly(graph: map<string, GNode>, profile: Profile, kind: Kind, name: string,
                        st: Walk, w: Walk, e: seq<string>)
    requires name in graph && name !in st.seen && name in w.seen
    requires AddedExactly(graph, st.depths, w.depths, st.seen + {name}, w.seen, e, multiset{graph[name]})
    requires SkippedRestIn(graph, profile, graph[name], st.seen + {name}, w.seen, e)
    ensures AddedExactly(graph, st.depths, w.depths, st.seen, w.seen, [name] + e, multiset{})
    ensures SkippedRest(graph, profile, kind, [name], st.seen, w.seen, [name] + e)
  {
    NodesAppend(graph, [name], e);
    assert NodesOf(graph, [name]) == multiset{graph[name]};
    var f := [name] + e;
    assert f[1..] == e;
    forall n | n in w.seen && n !in st.seen && n !in f
      ensures NotExpanded(graph, profile, n)
    {
      if SkippedIn(graph[name], profile, n) && n in graph {
        if n in graph[name].quests && Skip(QuestReq, n, profile) {
          assert n in NamesOf(graph[name], QuestReq);
          assert ListedAs(graph, QuestReq, n);
        } else {
          assert n in NamesOf(graph[name], SkillReq);
          assert ListedAs(graph, SkillReq, n);
        }
      }
    }
  }

  /** One more name of a loop: what the loop pushed, and what it skipped. */
  lemma ExactStep(graph: map<string, GNode>, profile: Profile, kind: Kind, names: seq<string>, name: string,
                  st: Walk, cur: Walk, next: Walk, e1: seq<string>, e2: seq<string>)
    requires Advanced(st, cur) && Advanced(cur, next) && name in names
    requires AddedExactly(graph, st.depths, cur.depths, st.seen, cur.seen, e1, multiset{})
    requires SkippedRest(graph, profile, kind, names, st.seen, cur.seen, e1)
    requires AddedExactly(graph, cur.depths, next.depths, cur.seen, next.seen, e2, multiset{})
    requires SkippedRest(graph, profile, kind, [name], cur.seen, next.seen, e2)
    ensures AddedExactly(graph, st.depths, next.depths, st.seen, next.seen, e1 + e2, multiset{})
    ensures SkippedRest(graph, profile, kind, names, st.seen, next.seen, e1 + e2)
  {
    ExactTrans(graph, st.depths, cur.depths, next.depths, st.seen, cur.seen, next.seen, e1, e2, multiset{}, multiset{});
    forall n | n in next.seen && n !in st.seen && n !in e1 + e2
      ensures NotExpanded(graph, profile, n) || (n in names && Skip(kind, n, profile))
    {
      assert n !in e1 && n !in e2;
    }
  }

  /** A loop over one of the node's lists skips only what the node's lists
      skip. */
  lemma RestIn(graph: map<string, GNode>, profile: Profile, node: GNode, k: nat,
               seen0: set<string>, seen1: set<string>, e: seq<string>)
    requires k < 3 && SkippedRest(graph, profile, Order[k], NamesOf(node, Order[k]), seen0, seen1, e)
    ensures SkippedRestIn(graph, profile, node, seen0, seen1, e)
  {
  }

  /** Two loops over the node's lists, one after the other. */
  lemma RestInTrans(graph: map<string, GNode>, profile: Profile, node: GNode,
                    s0: set<string>, s1: set<string>, s2: set<string>, e1: seq<string>, e2: seq<string>)
    requires s0 <= s1
    requires SkippedRestIn(graph, profile, node, s0, s1, e1) && SkippedRestIn(graph, profile, node, s1, s2, e2)
    ensures SkippedRestIn(graph, profile, node, s0, s2, e1 + e2)
  {
    forall n | n in s2 && n !in s0 && n !in e1 + e2
      ensures NotExpanded(graph, profile, n) || SkippedIn(node, profile, n)
    {
      assert n !in e1 && n !in e2;
    }
  }

  /** `getRequirementLayers(node, graph, profile, depths, depth, seen)`:
      the requirements of the node are walked, list by list, then the node
      is pushed on the layer one above the highest its requirements
      reached. */
  method Layers(node: GNode, graph: map<string, GNode>, profile: Profile,
                depths: seq<seq<GNode>>, depth: nat, seen: set<string>) returns (r: Result<Walk>, ghost e: seq<string>)
    requires depth <= |depths|
    ensures r.Ok? ==> Placed(Walk(depths, depth, seen), node, r.value) && Covered(node, r.value.seen)
    ensures r.Ok? ==> r.value.max - 1 == depth || (r.value.max >= 2 && |Layer(depths, r.value.max - 2)| < |r.value.depths[r.value.max - 2]|)
    ensures Covered(node, seen) ==> r == Ok(Walk(Place(depths, depth, node), depth + 1, seen))
    ensures r.Err? ==> r.message == UndefinedCompleted
    ensures (forall q :: q in node.quests ==> q in profile.completed) && QuestsKnown(graph, profile) ==> r.Ok?
    ensures r.Ok? ==> AllReached(graph, profile, node, depths, depth, seen, r.value.depths, r.value.max - 1, r.value.seen)
    ensures r.Ok? ==> AddedExactly(graph, depths, r.value.depths, seen, r.value.seen, e, multiset{node})
    ensures r.Ok? ==> SkippedRestIn(graph, profile, node, seen, r.value.seen, e)
    decreases |graph.Keys - seen|, 5
  {
    var start := Walk(depths, depth, seen);
    var w;
    w, e := WalkLists(node, graph, profile, start);
    if w.Err? {
      return w, e;
    }
    var st := w.value;
    PlaceAbove(start, st, node);
    var placed := Walk(Place(st.depths, st.max, node), st.max + 1, st.seen);
    PlaceKeepsReached(graph, profile, node, depths, depth, seen, st, placed);
    PlaceExactly(graph, start, st, placed, node, e);
    r := Ok(placed);
  }

  /** Pushing the node itself adds it to what the walk pushed. */
  lemma PlaceExactly(graph: map<string, GNode>, start: Walk, st: Walk, placed: Walk, node: GNode, e: seq<string>)
    requires Advanced(start, st) && placed == Walk(Place(st.depths, st.max, node), st.max + 1, st.seen)
    requires AddedExactly(graph, start.depths, st.depths, start.seen, st.seen, e, multiset{})
    ensures AddedExactly(graph, start.depths, placed.depths, start.seen, placed.seen, e, multiset{node})
  {
    PlaceGrows(st.depths, st.max, node);
    PlaceAdds(st.depths, st.max, node);
    ExactTrans(graph, start.depths, st.depths, placed.depths, start.seen, st.seen, st.seen,
               e, [], multiset{}, multiset{node});
    assert e + [] == e;
  }

  /** The three loops of `getRequirementLayers` one after the other, from
      `maxDepth = depth`. */
  method WalkLists(node: GNode, graph: map<string, GNode>, profile: Profile, start: Walk)
    returns (r: Result<Walk>, ghost e: seq<string>)
    requires start.max <= |start.depths|
    ensures r.Ok? ==> Advanced(start, r.value) && Covered(node, r.value.seen)
    ensures Covered(node, start.seen) ==> r == Ok(start)
    ensures r.Err? ==> r.message == UndefinedCompleted
    ensures (forall q :: q in node.quests ==> q in profile.completed) && QuestsKnown(graph, profile) ==> r.Ok?
    ensures r.Ok? ==> AllReached(graph, profile, node, start.depths, start.max, start.seen, r.value.depths, r.value.max, r.value.seen)
    ensures r.Ok? ==> AddedExactly(graph, start.depths, r.value.depths, start.seen, r.value.seen, e, multiset{})
    ensures r.Ok? ==> SkippedRestIn(graph, profile, node, start.seen, r.value.seen, e)
    decreases |graph.Keys - start.seen|, 4
  {
    var st := start;
    e := [];
    ExactNone(graph, start.depths, start.seen, start.seen);
    for k := 0 to 3
      invariant Advanced(start, st)
      invariant forall j, n :: 0 <= j < k && n in NamesOf(node, Order[j]) ==> n in st.seen
      invariant Covered(node, start.seen) ==> st == start
      invariant AllReached(graph, profile, node, start.depths, start.max, start.seen, st.depths, st.max, st.seen)
      invariant AddedExactly(graph, start.depths, st.depths, start.seen, st.seen, e, multiset{})
      invariant SkippedRestIn(graph, profile, node, start.seen, st.seen, e)
    {
      RemainderNoLarger(graph.Keys, start.seen, st.seen);
      var v;
      ghost var ev;
      v, ev := WalkList(k, node, graph, profile, start.max, start, st);
      if v.Err? {
        return v, e;
      }
      ListsExactly(graph, profile, node, start, st, v.value, e, ev);
      e := e + ev;
      forall n | n in st.seen && n !in start.seen && !SkippedIn(node, profile, n)
        ensures Reached(graph, profile, start.depths, v.value.depths, start.max, v.value.max, v.value.seen, n)
      {
        ReachedMoves(graph, profile, start.depths, start.depths, st.depths, v.value.depths, start.max, st.max, v.value.max, st.seen, v.value.seen, n);
      }
      st := v.value;
    }
    r := Ok(st);
  }

  /** One more list walked: what the walk pushed, and what it skipped. */
  lemma ListsExactly(graph: map<string, GNode>, profile: Profile, node: GNode, start: Walk, st: Walk, next: Walk,
                     e1: seq<string>, e2: seq<string>)
    requires Advanced(start, st) && Advanced(st, next)
    requires AddedExactly(graph, start.depths, st.depths, start.seen, st.seen, e1, multiset{})
    requires SkippedRestIn(graph, profile, node, start.seen, st.seen, e1)
    requires AddedExactly(graph, st.depths, next.depths, st.seen, next.seen, e2, multiset{})
    requires SkippedRestIn(graph, profile, node, st.seen, next.seen, e2)
    ensures AddedExactly(graph, start.depths, next.depths, start.seen, next.seen, e1 + e2, multiset{})
    ensures SkippedRestIn(graph, profile, node, start.seen, next.seen, e1 + e2)
  {
    ExactTrans(graph, start.depths, st.depths, next.depths, start.seen, st.seen, next.seen, e1, e2, multiset{}, multiset{});
    RestInTrans(graph, profile, node, start.seen, st.seen, next.seen, e1, e2);
  }

  /** The loop of `getRequirementLayers` over the node's list `Order[k]`,
      carrying what the walk from `start` has done so far. */
  method WalkList(k: nat, node: GNode, graph: map<string, GNode>, profile: Profile,
                  depth: nat, ghost start: Walk, st: Walk) returns (r: Result<Walk>, ghost e: seq<string>)
    requires k < 3 && Advanced(start, st) && depth <= st.max
    requires forall j, n :: 0 <= j < k && n in NamesOf(node, Order[j]) ==> n in st.seen
    ensures r.Ok? ==> Advanced(start, r.value) && depth <= r.value.max
    ensures r.Ok? ==> forall j, n :: 0 <= j <= k && n in NamesOf(node, Order[j]) ==> n in r.value.seen
    ensures Covered(node, st.seen) ==> r == Ok(st)
    ensures r.Err? ==> r.message == UndefinedCompleted
    ensures (k == 0 ==> forall q :: q in node.quests ==> q in profile.completed) && QuestsKnown(graph, profile) ==> r.Ok?
    ensures r.Ok? ==> Advanced(st, r.value)
    ensures r.Ok? ==> AllReached(graph, profile, node, start.depths, depth, st.seen, r.value.depths, r.value.max, r.value.seen)
    ensures r.Ok? ==> AddedExactly(graph, st.depths, r.value.depths, st.seen, r.value.seen, e, multiset{})
    ensures r.Ok? ==> SkippedRestIn(graph, profile, node, st.seen, r.value.seen, e)
    decreases |graph.Keys - st.seen|, 3
  {
    RemainderNoLarger(graph.Keys, st.seen, st.seen);
    var names := NamesOf(node, Order[k]);
    r, e := VisitAll(Order[k], names, graph, profile, depth, st);
    if r.Ok? {
      RestIn(graph, profile, node, k, st.seen, r.value.seen, e);
      AdvancedTrans(start, st, r.value);
      forall n | n in r.value.seen && n !in st.seen && !SkippedIn(node, profile, n)
        ensures Reached(graph, profile, start.depths, r.value.depths, depth, r.value.max, r.value.seen, n)
      {
        assert !(n in names && Skip(Order[k], n, profile));
        ReachedMoves(graph, profile, start.depths, st.depths, r.value.depths, r.value.depths, depth, r.value.max, r.value.max, r.value.seen, r.value.seen, n);
      }
    }
  }

  /** One of the three loops of `getRequirementLayers`: each name of one
      kind visited in order. */
  method VisitAll(kind: Kind, names: seq<string>, graph: map<string, GNode>, profile: Profile,
                  depth: nat, st: Walk) returns (r: Result<Walk>, ghost e: seq<string>)
    requires depth <= st.max <= |st.depths|
    ensures r.Ok? ==> Advanced(st, r.value) && forall n :: n in names ==> n in r.value.seen
    ensures (forall n :: n in names ==> n in st.seen) ==> r == Ok(st)
    ensures r.Err? ==> r.message == UndefinedCompleted
    ensures (kind == QuestReq ==> forall n :: n in names ==> n in profile.completed) && QuestsKnown(graph, profile) ==> r.Ok?
    ensures r.Ok? ==> forall n :: n in r.value.seen && n !in st.seen ==>
              Reached(graph, profile, st.depths, r.value.depths, depth, r.value.max, r.value.seen, n) || (n in names && Skip(kind, n, profile))
    ensures r.Ok? ==> AddedExactly(graph, st.depths, r.value.depths, st.seen, r.value.seen, e, multiset{})
    ensures r.Ok? ==> SkippedRest(graph, profile, kind, names, st.seen, r.value.seen, e)
    decreases |graph.Keys - st.seen|, 2
  {
    var cur := st;
    e := [];
    ExactNone(graph, st.depths, st.seen, st.seen);
    assert Progress(graph, profile, kind, names, depth, 0, st, cur, e);
    for i := 0 to |names|
      invariant Progress(graph, profile, kind, names, depth, i, st, cur, e)
    {
      RemainderNoLarger(graph.Keys, st.seen, cur.seen);
      var v;
      v, e := Next(kind, names, i, graph, profile, depth, st, cur, e);
      if v.Err? {
        return v, e;
      }
      cur := v.value;
    }
    r := Ok(cur);
  }

  /** The loop from `st` has visited the first `i` names and reached
      `cur`: each visited name is seen, nothing changed if every name was
      already seen, every name marked seen since `st` is accounted for, and
      `e` lists what was pushed. */
  ghost predicate Progress(graph: map<string, GNode>, profile: Profile, kind: Kind, names: seq<string>,
                           depth: nat, i: nat, st: Walk, cur: Walk, e: seq<string>)
  {
    Advanced(st, cur) && depth <= cur.max && i <= |names| &&
    (forall j :: 0 <= j < i ==> names[j] in cur.seen) &&
    ((forall n :: n in names ==> n in st.seen) ==> cur == st) &&
    Accounted(graph, profile, kind, names, depth, st, cur) &&
    AddedExactly(graph, st.depths, cur.depths, st.seen, cur.seen, e, multiset{}) &&
    SkippedRest(graph, profile, kind, names, st.seen, cur.seen, e)
  }

  /** Each name the loop from `st` has marked seen is accounted for. */
  ghost predicate Accounted(graph: map<string, GNode>, profile: Profile, kind: Kind, names: seq<string>,
                            depth: nat, st: Walk, cur: Walk)
  {
    forall n :: n in cur.seen && n !in st.seen ==>
      Reached(graph, profile, st.depths, cur.depths, depth, cur.max, cur.seen, n) || (n in names && Skip(kind, n, profile))
  }

  /** One more name visited keeps the loop's names accounted for. */
  lemma AccountedStep(graph: map<string, GNode>, profile: Profile, kind: Kind, names: seq<string>,
                      depth: nat, st: Walk, cur: Walk, next: Walk, name: string)
    requires Advanced(st, cur) && Advanced(cur, next) && name in names
    requires Accounted(graph, profile, kind, names, depth, st, cur)
    requires forall n :: n in next.seen && n !in cur.seen ==>
               Reached(graph, profile, cur.depths, next.depths, depth, next.max, next.seen, n) || (n == name && Skip(kind, n, profile))
    ensures Accounted(graph, profile, kind, names, depth, st, next)
  {
    forall n | n in next.seen && n !in st.seen && !(n in names && Skip(kind, n, profile))
      ensures Reached(graph, profile, st.depths, next.depths, depth, next.max, next.seen, n)
    {
      if n in cur.seen {
        ReachedMoves(graph, profile, st.depths, st.depths, cur.depths, next.depths, depth, cur.max, next.max, cur.seen, next.seen, n);
      } else {
        ReachedMoves(graph, profile, st.depths, cur.depths, next.depths, next.depths, depth, next.max, next.max, next.seen, next.seen, n);
      }
    }
  }

  /** One iteration of such a loop, carrying what the loop from `st` has
      done so far. */
  method Next(kind: Kind, names: seq<string>, i: nat, graph: map<string, GNode>, profile: Profile,
              depth: nat, ghost st: Walk, cur: Walk, ghost done: seq<string>)
    returns (r: Result<Walk>, ghost e: seq<string>)
    requires i < |names| && Progress(graph, profile, kind, names, depth, i, st, cur, done)
    ensures r.Ok? ==> Progress(graph, profile, kind, names, depth, i + 1, st, r.value, e)
    ensures r.Ok? ==> cur.seen <= r.value.seen
    ensures names[i] in cur.seen ==> r == Ok(cur)
    ensures r.Err? ==> r.message == UndefinedCompleted
    ensures (kind == QuestReq ==> names[i] in profile.completed) && QuestsKnown(graph, profile) ==> r.Ok?
    decreases |graph.Keys - cur.seen|, 1
  {
    ghost var ev;
    var name := names[i];
    assert name in names;
    r, ev := Visit(kind, name, graph, profile, depth, cur);
    e := done + ev;
    if r.Ok? {
      AdvancedTrans(st, cur, r.value);
      AccountedStep(graph, profile, kind, names, depth, st, cur, r.value, name);
      ExactStep(graph, profile, kind, names, name, st, cur, r.value, done, ev);
    }
  }

  /** One name visited from `st` to `next`: `e` lists what was pushed,
      every other name marked seen was not expanded or is the name itself,
      skipped, and the name is listed exactly when it was new, has a node
      and its kind's skip rule does not apply. */
  ghost predicate VisitedExactly(graph: map<string, GNode>, profile: Profile, kind: Kind, name: string,
                                 st: Walk, next: Walk, e: seq<string>)
  {
    AddedExactly(graph, st.depths, next.depths, st.seen, next.seen, e, multiset{}) &&
    SkippedRest(graph, profile, kind, [name], st.seen, next.seen, e) &&
    (name in e <==> name !in st.seen && name in graph && !Skip(kind, name, profile))
  }

  /** A new name that is skipped or has no node is only marked seen. */
  lemma MarkedOnly(graph: map<string, GNode>, profile: Profile, kind: Kind, name: string, depth: nat, st: Walk)
    requires depth <= st.max <= |st.depths| && name !in st.seen
    ensures var marked := Walk(st.depths, st.max, st.seen + {name});
            (name !in graph || Skip(kind, name, profile)) ==>
              Advanced(st, marked) && VisitedExactly(graph, profile, kind, name, st, marked, []) &&
              forall n :: n in marked.seen && n !in st.seen ==>
                Reached(graph, profile, st.depths, marked.depths, depth, marked.max, marked.seen, n) || (n == name && Skip(kind, n, profile))
  {
    ExactNone(graph, st.depths, st.seen, st.seen + {name});
  }

  /** The body of one loop of `getRequirementLayers` for one name: skipped
      when seen; then marked seen; then a quest the player completed, a
      skill level the player has, or a name not in the graph is skipped,
      and anything else is layered. */
  method Visit(kind: Kind, name: string, graph: map<string, GNode>, profile: Profile,
               depth: nat, st: Walk) returns (r: Result<Walk>, ghost e: seq<string>)
    requires depth <= st.max <= |st.depths|
    ensures r.Ok? ==> Advanced(st, r.value) && name in r.value.seen
    ensures name in st.seen ==> r == Ok(st)
    ensures name !in st.seen && kind == QuestReq && name !in profile.completed ==> r == Err(UndefinedCompleted)
    ensures name !in st.seen && kind == QuestReq && name in profile.completed && profile.completed[name] ==>
              r == Ok(Walk(st.depths, st.max, st.seen + {name}))
    ensures name !in st.seen && kind == SkillReq && FirstWord(name) !in profile.levels ==>
              r == Ok(Walk(st.depths, st.max, st.seen + {name}))
    ensures name !in st.seen && kind == SkillReq && FirstWord(name) in profile.levels &&
            LexLe(name, Formatted(FirstWord(name), profile.levels[FirstWord(name)])) ==>
              r == Ok(Walk(st.depths, st.max, st.seen + {name}))
    ensures name !in st.seen && name !in graph && (kind == QuestReq ==> name in profile.completed) ==>
              r == Ok(Walk(st.depths, st.max, st.seen + {name}))
    ensures r.Err? ==> r.message == UndefinedCompleted
    ensures (kind == QuestReq ==> name in profile.completed) && QuestsKnown(graph, profile) ==> r.Ok?
    ensures r.Ok? && name !in st.seen && name in graph && !Skip(kind, name, profile) ==>
              PushedBelow(st.depths, r.value.depths, graph[name], depth, r.value.max)
    ensures r.Ok? ==> forall n :: n in r.value.seen && n !in st.seen ==>
              Reached(graph, profile, st.depths, r.value.depths, depth, r.value.max, r.value.seen, n) || (n == name && Skip(kind, n, profile))
    ensures r.Ok? ==> VisitedExactly(graph, profile, kind, name, st, r.value, e)
    decreases |graph.Keys - st.seen|, 0
  {
    e := [];
    if name in st.seen {
      ExactNone(graph, st.depths, st.seen, st.seen);
      return Ok(st), e;
    }
    var marked := Walk(st.depths, st.max, st.seen + {name});
    MarkedOnly(graph, profile, kind, name, depth, st);
    if kind == QuestReq {
      if name !in profile.completed {
        return Err(UndefinedCompleted), e;
      }
      if profile.completed[name] {
        return Ok(marked), e;
      }
    } else if kind == SkillReq {
      var skill := FirstWord(name);
      if skill !in profile.levels {
        return Ok(marked), e;
      }
      var have := FormatSkill(skill, profile.levels[skill]);
      if LexLe(name, have) {
        return Ok(marked), e;
      }
    }
    if name !in graph {
      return Ok(marked), e;
    }
    RemainderShrinks(graph.Keys, st.seen, name);
    var sub;
    ghost var below;
    sub, below := Layers(graph[name], graph, profile, st.depths, depth, marked.seen);
    if sub.Err? {
      return sub, e;
    }
    var w := sub.value;
    var hi := if w.max > st.max then w.max else st.max;
    Expanded(graph, profile, name, depth, st, w);
    ExpandedExactly(graph, profile, kind, name, st, w, below);
    e := [name] + below;
    r := Ok(Walk(w.depths, hi, w.seen));
  }

  // ----- getRequirementPath -----

  const Ending := "Completionist"

  /** The layers one after the other. */
  function Flatten(d: seq<seq<GNode>>): seq<GNode>
  {
    if d == [] then [] else Flatten(d[..|d| - 1]) + d[|d| - 1]
  }

  /** A pushed node is on the path. */
  lemma {:induction false} InFlatten(d: seq<seq<GNode>>, m: nat, p: nat)
    requires m < |d| && p < |d[m]|
    ensures d[m][p] in Flatten(d)
    decreases |d|
  {
    if m < |d| - 1 {
      var front := d[..|d| - 1];
      assert front[m] == d[m];
      InFlatten(front, m, p);
    }
  }

  /** What the layering from the ending requirement leaves behind: the
      ending node alone on the top layer, one above the highest layer a
      requirement filled, every name of its lists seen, and every seen name
      accounted for below the top. */
  ghost predicate Laid(graph: map<string, GNode>, profile: Profile, w: Walk)
    requires Ending in graph
  {
    Placed(Walk([], 0, {}), graph[Ending], w) && Covered(graph[Ending], w.seen) &&
    (w.max == 1 || (w.max >= 2 && 0 < |w.depths[w.max - 2]|)) &&
    forall n :: n in w.seen ==> Reached(graph, profile, [], w.depths, 0, w.max - 1, w.seen, n)
  }

  /** The layering of the ending node's requirements leaves the graph laid
      out: a name the ending node's own lists skip is skipped where the
      graph lists it. */
  lemma LaidFrom(graph: map<string, GNode>, profile: Profile, w: Walk)
    requires Ending in graph
    requires Placed(Walk([], 0, {}), graph[Ending], w) && Covered(graph[Ending], w.seen)
    requires w.max - 1 == 0 || (w.max >= 2 && |Layer([], w.max - 2)| < |w.depths[w.max - 2]|)
    requires AllReached(graph, profile, graph[Ending], [], 0, {}, w.depths, w.max - 1, w.seen)
    ensures Laid(graph, profile, w)
  {
    forall n | n in w.seen ensures Reached(graph, profile, [], w.depths, 0, w.max - 1, w.seen, n) {
      if SkippedIn(graph[Ending], profile, n) {
        if n in graph[Ending].quests && Skip(QuestReq, n, profile) {
          assert n in NamesOf(graph[Ending], QuestReq);
          assert ListedAs(graph, QuestReq, n);
        } else {
          assert n in NamesOf(graph[Ending], SkillReq);
          assert ListedAs(graph, SkillReq, n);
        }
      }
    }
  }

  /** The path holds the ending node and one node per name of `e`, and
      nothing else: `e` lists, each once, seen names with a node, and every
      other seen name could not be expanded. */
  ghost predicate LaidExactly(graph: map<string, GNode>, profile: Profile, w: Walk, e: seq<string>)
    requires Ending in graph
  {
    (forall n :: n in e ==> n in graph && n in w.seen) && Distinct(e) &&
    multiset(Flatten(w.depths)) == NodesOf(graph, e) + multiset{graph[Ending]} &&
    forall n :: n in w.seen && n !in e ==> NotExpanded(graph, profile, n)
  }

  /** What the layering from the ending node pushed is the path. */
  lemma LaidExactlyFrom(graph: map<string, GNode>, profile: Profile, w: Walk, e: seq<string>)
    requires Ending in graph
    requires AddedExactly(graph, [], w.depths, {}, w.seen, e, multiset{graph[Ending]})
    requires SkippedRestIn(graph, profile, graph[Ending], {}, w.seen, e)
    ensures LaidExactly(graph, profile, w, e)
  {
    AddedFromNothing(w.depths);
    forall n | n in w.seen && n !in e ensures NotExpanded(graph, profile, n) {
      if n in graph && SkippedIn(graph[Ending], profile, n) {
        if n in graph[Ending].quests && Skip(QuestReq, n, profile) {
          assert n in NamesOf(graph[Ending], QuestReq);
          assert ListedAs(graph, QuestReq, n);
        } else {
          assert n in NamesOf(graph[Ending], SkillReq);
          assert ListedAs(graph, SkillReq, n);
        }
      }
    }
  }

  /** `n` is a requirement of the node of `x` that the layering does not
      skip: listed by it under a kind whose skip rule does not apply, and
      with a node of its own. */
  ghost predicate Needs(graph: map<string, GNode>, profile: Profile, x: string, n: string)
  {
    x in graph && n in graph && exists j :: 0 <= j < 3 && n in NamesOf(graph[x], Order[j]) && !Skip(Order[j], n, profile)
  }

  /** A chain of such requirements from the ending requirement. */
  ghost predicate Chain(graph: map<string, GNode>, profile: Profile, c: seq<string>)
  {
    |c| > 0 && c[0] == Ending && (forall i :: 0 <= i < |c| ==> c[i] in graph) &&
    forall i :: 0 <= i < |c| - 1 ==> Needs(graph, profile, c[i], c[i + 1])
  }

  /** When names keep to one kind, the end of every chain was seen, pushed
      below the top layer, and had its own lists walked. */
  lemma {:induction false} ChainLaid(graph: map<string, GNode>, profile: Profile, w: Walk, c: seq<string>)
    requires Ending in graph && Laid(graph, profile, w) && OneKind(graph)
    requires Chain(graph, profile, c) && |c| > 1
    ensures var n := c[|c| - 1];
            n in graph && PushedBelow([], w.depths, graph[n], 0, w.max - 1) && Covered(graph[n], w.seen)
    decreases |c|
  {
    var n, x := c[|c| - 1], c[|c| - 2];
    assert Needs(graph, profile, x, n);
    var j :| 0 <= j < 3 && n in NamesOf(graph[x], Order[j]) && !Skip(Order[j], n, profile);
    if |c| > 2 {
      var front := c[..|c| - 1];
      forall i | 0 <= i < |front| - 1 ensures Needs(graph, profile, front[i], front[i + 1]) {
        assert front[i] == c[i] && front[i + 1] == c[i + 1];
      }
      ChainLaid(graph, profile, w, front);
    }
    assert n in w.seen;
    assert ListedAs(graph, Order[j], n);
    assert !SkippedElsewhere(graph, profile, n);
  }

  /** A node pushed below the top layer is on the path before the top. */
  lemma PushedOnPath(w: Walk, g: GNode)
    requires 1 <= w.max == |w.depths| && PushedBelow([], w.depths, g, 0, w.max - 1)
    ensures g in Flatten(w.depths[..w.max - 1])
  {
    var m: nat, p: nat :| m < w.max - 1 && p < |Layer(w.depths, m)| && Layer(w.depths, m)[p] == g;
    var front := w.depths[..w.max - 1];
    assert front[m] == w.depths[m];
    InFlatten(front, m, p);
  }

  /** When names keep to one kind, the end of every chain is on the path
      before the ending node. */
  lemma ChainsOnPath(graph: map<string, GNode>, profile: Profile, w: Walk)
    requires Ending in graph && Laid(graph, profile, w) && OneKind(graph)
    ensures 1 <= w.max == |w.depths|
    ensures forall c :: Chain(graph, profile, c) && |c| > 1 ==> graph[c[|c| - 1]] in Flatten(w.depths[..w.max - 1])
  {
    forall c | Chain(graph, profile, c) && |c| > 1
      ensures graph[c[|c| - 1]] in Flatten(w.depths[..w.max - 1])
    {
      ChainLaid(graph, profile, w, c);
      PushedOnPath(w, graph[c[|c| - 1]]);
    }
  }

  /** `getRequirementLayers(start, graph, profile)` from the ending node,
      with its default arguments: an empty layering, depth 0, nothing seen. */
  method LayEnding(graph: map<string, GNode>, profile: Profile) returns (r: Result<Walk>, ghost e: seq<string>)
    requires Ending in graph
    ensures r.Err? ==> r.message == UndefinedCompleted
    ensures QuestsKnown(graph, profile) ==> r.Ok?
    ensures r.Ok? ==> Laid(graph, profile, r.value) && LaidExactly(graph, profile, r.value, e)
  {
    r, e := Layers(graph[Ending], graph, profile, [], 0, {});
    if r.Ok? {
      LaidFrom(graph, profile, r.value);
      LaidExactlyFrom(graph, profile, r.value, e);
    }
  }

  /** `getRequirementPath` once the graph and the profile are at hand: no
      path without the ending requirement; otherwise its layers, lowest
      first, and the ending requirement alone in the last one. */
  method RequirementPath(graph: map<string, GNode>, profile: Profile) returns (r: Result<seq<GNode>>)
    ensures Ending !in graph ==> r == Ok([])
    ensures r.Ok? && Ending in graph ==> |r.value| > 0 && r.value[|r.value| - 1] == graph[Ending]
    ensures r.Err? ==> r.message == UndefinedCompleted
    ensures QuestsKnown(graph, profile) ==> r.Ok?
    ensures r.Ok? && Ending in graph ==>
              exists w, e :: Laid(graph, profile, w) && LaidExactly(graph, profile, w, e) && r.value == Flatten(w.depths)
    ensures r.Ok? && Ending in graph && OneKind(graph) ==>
              forall c :: Chain(graph, profile, c) && |c| > 1 ==> graph[c[|c| - 1]] in r.value[..|r.value| - 1]
  {
    if Ending !in graph {
      return Ok([]);
    }
    var layers;
    ghost var e;
    layers, e := LayEnding(graph, profile);
    if layers.Err? {
      return Err(layers.message);
    }
    ghost var w := layers.value;
    var reqs := Concat(layers.value.depths);
    r := Ok(reqs);
    assert Laid(graph, profile, w) && LaidExactly(graph, profile, w, e) && r.value == Flatten(w.depths);
    PathEnds(graph, profile, w);
    if OneKind(graph) {
      ChainsOnPath(graph, profile, w);
    }
  }

  /** The loop of `getRequirementPath` that pushes each layer's nodes in
      turn. */
  method Concat(depths: seq<seq<GNode>>) returns (reqs: seq<GNode>)
    ensures reqs == Flatten(depths)
    ensures forall m, p :: 0 <= m < |depths| && 0 <= p < |depths[m]| ==> depths[m][p] in reqs
  {
    reqs := [];
    for i := 0 to |depths|
      invariant reqs == Flatten(depths[..i])
    {
      assert depths[..i + 1][..i] == depths[..i];
      reqs := reqs + depths[i];
    }
    assert depths[..|depths|] == depths;
    forall m, p | 0 <= m < |depths| && 0 <= p < |depths[m]| ensures depths[m][p] in reqs {
      InFlatten(depths, m, p);
    }
  }

  /** The path of a laid graph ends with the ending node, after the rest. */
  lemma PathEnds(graph: map<string, GNode>, profile: Profile, w: Walk)
    requires Ending in graph && Laid(graph, profile, w)
    ensures 1 <= w.max == |w.depths| && w.depths[w.max - 1] == [graph[Ending]]
    ensures var path := Flatten(w.depths);
            |path| > 0 && path[|path| - 1] == graph[Ending] && path[..|path| - 1] == Flatten(w.depths[..w.max - 1])
  {
    var depths := w.depths;
    assert depths[..|depths| - 1] == depths[..w.max - 1];
  }
}
