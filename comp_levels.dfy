/**
 * `addMaxLevel`: the highest skill level a step needs, through its own
 * skills and, recursively, through the steps it leads to. The required
 * maximum follows required quests and achievements, the recommended one
 * all quests and achievements. A name already on the path is skipped, and
 * a step whose field is already set is read, not recomputed.
 */
module CompLevels {
  import opened Wrappers
  import opened Sets
  import opened CompSteps
  import CS = CompShortcut
  import R = ReqsById

  /** `Math.max(...xs)`: minus infinity for no values. */
  function MaxAll(xs: seq<R.ExtInt>): (m: R.ExtInt)
    ensures forall j :: 0 <= j < |xs| ==> R.AtLeast(m, xs[j])
    ensures xs == [] ==> m == R.NegInf
    ensures xs != [] ==> exists j :: 0 <= j < |xs| && m == xs[j]
  {
    if xs == [] then R.NegInf
    else
      var rest := MaxAll(xs[1..]);
      assert forall j :: 1 <= j < |xs| ==> xs[j] == xs[1..][j - 1];
      if R.AtLeast(xs[0], rest) then xs[0] else rest
  }

  /** If every value of `xs` is matched by one of `ys` at least as high, the
      maximum of `ys` is at least that of `xs`. */
  lemma MaxAllDominates(xs: seq<R.ExtInt>, ys: seq<R.ExtInt>)
    requires forall x :: x in xs ==> exists y :: y in ys && R.AtLeast(y, x)
    ensures R.AtLeast(MaxAll(ys), MaxAll(xs))
  {
    if xs != [] {
      var i :| 0 <= i < |xs| && MaxAll(xs) == xs[i];
      assert xs[i] in xs;
      var y :| y in ys && R.AtLeast(y, xs[i]);
      var j :| 0 <= j < |ys| && ys[j] == y;
      R.AtLeastTrans(MaxAll(ys), ys[j], xs[i]);
    }
  }

  /** `Object.values(req.skills).map(s => s.level)`. */
  function OwnLevels(refs: seq<SkillRef>): (r: seq<R.ExtInt>)
    ensures |r| == |refs| && forall j :: 0 <= j < |refs| ==> r[j] == R.Fin(refs[j].level)
  {
    seq(|refs|, j requires 0 <= j < |refs| => R.Fin(refs[j].level))
  }

  /** `[...req.quests, ...req.achievements]`, by name. */
  function AllNames(node: Node): seq<string>
  {
    seq(|node.quests|, j requires 0 <= j < |node.quests| => node.quests[j].name) + node.achievements
  }

  /** `[...req.quests.filter(q => q.required), ...req.achievements]`, by
      name. */
  function ReqNames(node: Node): (r: seq<string>)
    ensures forall n :: n in r ==> n in AllNames(node)
  {
    var r := CS.RequiredNames(node.quests) + node.achievements;
    forall n | n in r ensures n in AllNames(node) {
      if n !in node.achievements {
        var q :| q in node.quests && q.required && q.name == n;
        var j :| 0 <= j < |node.quests| && node.quests[j] == q;
        assert AllNames(node)[j] == n;
      }
    }
    r
  }

  /** The field a pass reads: the required maximum, or the recommended one. */
  function Field(s: Step, rec: bool): R.ExtInt
  {
    match (if rec then s.maxRec else s.maxReq)
    case Some(v) => v
    case None => R.NegInf
  }

  /** Every step the table leads to sits in the sequence under its name. */
  ghost predicate Table(st: seq<Step>, byName: map<string, nat>)
  {
    forall n :: n in byName ==> byName[n] < |st| && st[byName[n]].node.name == n
  }

  /** The values one pass reads, in order: the field of the step of each
      name that is off the path. */
  function Reads(st: seq<Step>, names: seq<string>, byName: map<string, nat>, path: set<string>, rec: bool): seq<R.ExtInt>
  {
    if names == [] then []
    else
      var n := names[|names| - 1];
      Reads(st, names[..|names| - 1], byName, path, rec) +
      (if n in path || n !in byName || byName[n] >= |st| then [] else [Field(st[byName[n]], rec)])
  }

  ghost predicate Done(s: Step)
  {
    s.maxReq.Some? && s.maxRec.Some?
  }

  /** The step of every name off the path has both fields. */
  ghost predicate AllDone(st: seq<Step>, names: seq<string>, byName: map<string, nat>, path: set<string>)
  {
    forall n :: n in names && n !in path && n in byName ==> byName[n] < |st| && Done(st[byName[n]])
  }

  /** Off the path, a step has both fields or neither: a step is only ever
      left half done while its own call is running. */
  ghost predicate Paired(st: seq<Step>, byName: map<string, nat>, seen: set<string>)
  {
    forall n :: n in byName && n !in seen && byName[n] < |st| ==> (st[byName[n]].maxReq.Some? <==> st[byName[n]].maxRec.Some?)
  }

  /** Step `k` is the step of a name off `seen`. */
  ghost predicate Writes(st: seq<Step>, byName: map<string, nat>, seen: set<string>, k: int)
    requires 0 <= k < |st|
  {
    var n := st[k].node.name;
    n !in seen && n in byName && byName[n] == k
  }

  /** Only the two fields change, only in the steps of the names off `seen`
      and in step `extra`, and a step with a recommended maximum is never
      touched again. */
  ghost predicate Frame(st: seq<Step>, st2: seq<Step>, byName: map<string, nat>, seen: set<string>, extra: int)
  {
    |st2| == |st| &&
    forall k :: 0 <= k < |st| ==>
      st2[k].node == st[k].node && st2[k].priority == st[k].priority && st2[k].order == st[k].order &&
      ((st[k].maxRec.Some? || (k != extra && !Writes(st, byName, seen, k))) ==> st2[k] == st[k])
  }

  /** The recommended maximum is never below the required one. */
  ghost predicate Sound(st: seq<Step>)
  {
    forall k :: 0 <= k < |st| && st[k].maxReq.Some? && st[k].maxRec.Some? ==> R.AtLeast(st[k].maxRec.value, st[k].maxReq.value)
  }

  /** Every name a step refers to can be looked up. */
  ghost predicate RefsIn(node: Node, byName: map<string, nat>)
  {
    forall n :: n in AllNames(node) ==> n in byName
  }

  ghost predicate Closed(st: seq<Step>, byName: map<string, nat>)
  {
    forall n :: n in byName && byName[n] < |st| ==> RefsIn(st[byName[n]].node, byName)
  }

  const NoName := "No requirment found for name: "

  /** The message names a reference the table does not hold. */
  predicate Missing(msg: string, byName: map<string, nat>)
  {
    |NoName| <= |msg| && msg[..|NoName|] == NoName && msg[|NoName|..] !in byName
  }

  lemma FrameTrans(a: seq<Step>, b: seq<Step>, c: seq<Step>, byName: map<string, nat>, seen: set<string>, extra: int)
    requires Frame(a, b, byName, seen, extra) && Frame(b, c, byName, seen, extra)
    ensures Frame(a, c, byName, seen, extra)
  {
  }

  /** A frame on a longer path, or with no extra step or an extra step
      already writable, is a frame on a shorter one. */
  lemma FrameWeaken(a: seq<Step>, b: seq<Step>, byName: map<string, nat>, seen: set<string>, extra: int, seen2: set<string>, extra2: int)
    requires Frame(a, b, byName, seen, extra) && seen2 <= seen
    requires extra == extra2 || extra < 0 || extra >= |a| || Writes(a, byName, seen2, extra)
    ensures Frame(a, b, byName, seen2, extra2)
  {
  }

  lemma FrameKeeps(st: seq<Step>, st2: seq<Step>, byName: map<string, nat>, seen: set<string>, extra: int)
    requires Frame(st, st2, byName, seen, extra)
    ensures Table(st, byName) ==> Table(st2, byName)
    ensures Closed(st, byName) ==> Closed(st2, byName)
  {
  }

  /** Reads and completeness only look at the steps of the names off the
      path. */
  lemma {:induction false} ReadsSame(st: seq<Step>, st2: seq<Step>, names: seq<string>, byName: map<string, nat>, path: set<string>, rec: bool)
    requires |st| == |st2|
    requires forall n :: n in names && n !in path && n in byName && byName[n] < |st| ==> st2[byName[n]] == st[byName[n]]
    ensures Reads(st2, names, byName, path, rec) == Reads(st, names, byName, path, rec)
    ensures AllDone(st, names, byName, path) ==> AllDone(st2, names, byName, path)
    decreases |names|
  {
    if names != [] {
      ReadsSame(st, st2, names[..|names| - 1], byName, path, rec);
    }
  }

  /** The steps that are done stay as they are within a frame. */
  lemma DoneStay(st: seq<Step>, st2: seq<Step>, seen: set<string>, extra: int, names: seq<string>, byName: map<string, nat>, path: set<string>, rec: bool)
    requires Frame(st, st2, byName, seen, extra) && AllDone(st, names, byName, path)
    ensures Reads(st2, names, byName, path, rec) == Reads(st, names, byName, path, rec)
    ensures AllDone(st2, names, byName, path)
  {
    ReadsSame(st, st2, names, byName, path, rec);
  }

  /** One more name: its field is read if it is off the path, and it must
      then be done. */
  lemma ReadsStep(st: seq<Step>, names: seq<string>, j: nat, byName: map<string, nat>, path: set<string>, rec: bool)
    requires j < |names|
    ensures var n := names[j];
            Reads(st, names[..j + 1], byName, path, rec) ==
            Reads(st, names[..j], byName, path, rec) +
            (if n in path || n !in byName || byName[n] >= |st| then [] else [Field(st[byName[n]], rec)])
    ensures var n := names[j];
            AllDone(st, names[..j], byName, path) && (n in path || n !in byName || (byName[n] < |st| && Done(st[byName[n]]))) ==>
            AllDone(st, names[..j + 1], byName, path)
  {
    assert names[..j + 1][..j] == names[..j];
    assert names[..j + 1] == names[..j] + [names[j]];
  }

  /** `addMaxLevel(req, requirementMap, seen)` on the step at `i`: the
      required maximum over its own skill levels and what the required
      pass reads, then the recommended maximum over its skill levels and
      what the recommended pass reads, both passes on the path `seen` plus
      its name. */
  method AddMaxLevel(st: seq<Step>, i: nat, byName: map<string, nat>, seen: set<string>) returns (r: Result<seq<Step>>)
    requires Table(st, byName) && i < |st| && st[i].node.name !in seen
    requires st[i].maxReq.None? && st[i].maxRec.None?
    requires Paired(st, byName, seen)
    ensures r.Ok? ==> Frame(st, r.value, byName, seen, i) && Paired(r.value, byName, seen) && Done(r.value[i])
    ensures r.Ok? ==>
              var node, path := st[i].node, seen + {st[i].node.name};
              r.value[i].maxReq == Some(MaxAll(OwnLevels(node.skills) + Reads(r.value, ReqNames(node), byName, path, false))) &&
              r.value[i].maxRec == Some(MaxAll(OwnLevels(node.skills) + Reads(r.value, AllNames(node), byName, path, true))) &&
              AllDone(r.value, AllNames(node), byName, path)
    ensures r.Ok? && Sound(st) ==> Sound(r.value)
    ensures r.Err? ==> Missing(r.message, byName)
    ensures Closed(st, byName) && RefsIn(st[i].node, byName) ==> r.Ok?
    ensures (exists n :: n in AllNames(st[i].node) && n !in seen + {st[i].node.name} && n !in byName) ==> r.Err?
    decreases |byName.Keys - (seen + {st[i].node.name})|, 3
  {
    var node := st[i].node;
    var path := seen + {node.name};
    var p1 := Require(st, i, byName, seen);
    if p1.Err? {
      return Err(p1.message);
    }
    var mid := p1.value;
    var reqMax := mid[i].maxReq.value;
    var p2 := Phase(mid, AllNames(node), byName, path, true);
    if p2.Err? {
      return Err(p2.message);
    }
    var st2 := p2.value.0;
    var recMax := MaxAll(OwnLevels(node.skills) + p2.value.1);
    var fin := st2[i := st2[i].(maxRec := Some(recMax))];
    FinishFrame(st, mid, st2, fin, i, byName, seen, recMax);
    FinishReads(mid, st2, fin, i, node, byName, path, recMax);
    assert st2[i] == mid[i];
    if Sound(st) {
      FinishSound(st2, fin, i, node, byName, path, reqMax, recMax);
    }
    return Ok(fin);
  }

  /** The first half of `addMaxLevel`: the required pass, then the step's
      required maximum. */
  method Require(st: seq<Step>, i: nat, byName: map<string, nat>, seen: set<string>) returns (r: Result<seq<Step>>)
    requires Table(st, byName) && i < |st| && st[i].node.name !in seen
    requires st[i].maxReq.None? && st[i].maxRec.None?
    requires Paired(st, byName, seen)
    ensures r.Ok? ==>
              var node, path := st[i].node, seen + {st[i].node.name};
              Frame(st, r.value, byName, path, i) && Table(r.value, byName) && Paired(r.value, byName, path) &&
              r.value[i].maxReq == Some(MaxAll(OwnLevels(node.skills) + Reads(r.value, ReqNames(node), byName, path, false))) &&
              r.value[i].maxRec.None? && AllDone(r.value, ReqNames(node), byName, path)
    ensures r.Ok? && Sound(st) ==> Sound(r.value)
    ensures r.Ok? && Closed(st, byName) ==> Closed(r.value, byName)
    ensures r.Err? ==> Missing(r.message, byName)
    ensures Closed(st, byName) && RefsIn(st[i].node, byName) ==> r.Ok?
    decreases |byName.Keys - (seen + {st[i].node.name})|, 2
  {
    var node := st[i].node;
    var path := seen + {node.name};
    var p1 := Phase(st, ReqNames(node), byName, path, false);
    if p1.Err? {
      return Err(p1.message);
    }
    var st1 := p1.value.0;
    var mid := st1[i := st1[i].(maxReq := Some(MaxAll(OwnLevels(node.skills) + p1.value.1)))];
    SetRequired(st, st1, mid, i, byName, path, MaxAll(OwnLevels(node.skills) + p1.value.1));
    ReadsSame(st1, mid, ReqNames(node), byName, path, false);
    return Ok(mid);
  }

  /** Setting the required maximum of a step on the path keeps the frame,
      the tables, the pairing off the path, soundness and closure. */
  lemma SetRequired(st: seq<Step>, st1: seq<Step>, mid: seq<Step>, i: nat, byName: map<string, nat>, path: set<string>, x: R.ExtInt)
    requires Table(st, byName) && i < |st| && st[i].node.name in path && st[i].maxRec.None?
    requires Frame(st, st1, byName, path, -1) && Paired(st1, byName, path)
    requires mid == st1[i := st1[i].(maxReq := Some(x))]
    ensures Frame(st, mid, byName, path, i) && Table(mid, byName) && Paired(mid, byName, path)
    ensures mid[i].maxRec.None?
    ensures Sound(st1) ==> Sound(mid)
    ensures Closed(st, byName) ==> Closed(mid, byName)
  {
    assert st1[i] == st[i];
    FrameWeaken(st, st1, byName, path, -1, path, i);
    FrameTrans(st, st1, mid, byName, path, i);
    FrameKeeps(st, mid, byName, path, i);
  }

  /** The second field completes the step: the whole call changes only
      the steps off `seen` and the step itself, and leaves them paired. */
  lemma FinishFrame(st: seq<Step>, mid: seq<Step>, st2: seq<Step>, fin: seq<Step>, i: nat, byName: map<string, nat>, seen: set<string>, recMax: R.ExtInt)
    requires Table(st, byName) && i < |st| && st[i].node.name !in seen && st[i].maxRec.None?
    requires Frame(st, mid, byName, seen + {st[i].node.name}, i) && mid[i].maxReq.Some? && mid[i].maxRec.None?
    requires Frame(mid, st2, byName, seen + {st[i].node.name}, -1)
    requires Paired(st, byName, seen) && Paired(st2, byName, seen + {st[i].node.name})
    requires fin == st2[i := st2[i].(maxRec := Some(recMax))]
    ensures Frame(st, fin, byName, seen, i) && Paired(fin, byName, seen)
    ensures Done(fin[i]) && fin[i].maxReq == mid[i].maxReq
  {
    var path := seen + {st[i].node.name};
    assert st2[i] == mid[i];
    FrameWeaken(mid, st2, byName, path, -1, path, i);
    FrameTrans(st, mid, st2, byName, path, i);
    FrameTrans(st, st2, fin, byName, path, i);
    FrameWeaken(st, fin, byName, path, i, seen, i);
    forall n | n in byName && n !in seen && byName[n] < |fin|
      ensures fin[byName[n]].maxReq.Some? <==> fin[byName[n]].maxRec.Some?
    {
      if n == st[i].node.name && byName[n] != i {
        assert !Writes(st, byName, path, byName[n]);
      }
    }
  }

  /** Completing the step changes none of what the two passes read. */
  lemma FinishReads(mid: seq<Step>, st2: seq<Step>, fin: seq<Step>, i: nat, node: Node, byName: map<string, nat>, path: set<string>, recMax: R.ExtInt)
    requires Table(st2, byName) && i < |st2| && st2[i].node == node && node.name in path
    requires Frame(mid, st2, byName, path, -1) && AllDone(mid, ReqNames(node), byName, path)
    requires AllDone(st2, AllNames(node), byName, path)
    requires fin == st2[i := st2[i].(maxRec := Some(recMax))]
    ensures Reads(fin, ReqNames(node), byName, path, false) == Reads(mid, ReqNames(node), byName, path, false)
    ensures Reads(st2, ReqNames(node), byName, path, false) == Reads(mid, ReqNames(node), byName, path, false)
    ensures Reads(fin, AllNames(node), byName, path, true) == Reads(st2, AllNames(node), byName, path, true)
    ensures AllDone(fin, AllNames(node), byName, path)
  {
    DoneStay(mid, st2, path, -1, ReqNames(node), byName, path, false);
    ReadsSame(st2, fin, ReqNames(node), byName, path, false);
    ReadsSame(st2, fin, AllNames(node), byName, path, true);
  }

  /** The step's recommended maximum is at least its required one: every
      required name is also a recommended one, and each step read is
      sound. */
  lemma FinishSound(st2: seq<Step>, fin: seq<Step>, i: nat, node: Node, byName: map<string, nat>, path: set<string>, reqMax: R.ExtInt, recMax: R.ExtInt)
    requires Table(st2, byName) && i < |st2| && node.name in path && st2[i].node == node
    requires Sound(st2) && AllDone(st2, AllNames(node), byName, path)
    requires reqMax == MaxAll(OwnLevels(node.skills) + Reads(st2, ReqNames(node), byName, path, false))
    requires recMax == MaxAll(OwnLevels(node.skills) + Reads(st2, AllNames(node), byName, path, true))
    requires st2[i].maxReq == Some(reqMax)
    requires fin == st2[i := st2[i].(maxRec := Some(recMax))]
    ensures Sound(fin)
  {
    var own := OwnLevels(node.skills);
    var reads1 := Reads(st2, ReqNames(node), byName, path, false);
    var reads2 := Reads(st2, AllNames(node), byName, path, true);
    ReadsDominate(st2, ReqNames(node), AllNames(node), byName, path);
    AppendDominates(own, reads1, reads2);
    MaxAllDominates(own + reads1, own + reads2);
  }

  /** Every value of `own + r1` is matched, at least as high, by one of
      `own + r2` when every value of `r1` is matched in `r2`. */
  lemma AppendDominates(own: seq<R.ExtInt>, r1: seq<R.ExtInt>, r2: seq<R.ExtInt>)
    requires forall x :: x in r1 ==> exists y :: y in r2 && R.AtLeast(y, x)
    ensures forall x :: x in own + r1 ==> exists y :: y in own + r2 && R.AtLeast(y, x)
  {
    forall x | x in own + r1 ensures exists y :: y in own + r2 && R.AtLeast(y, x) {
      if x in own {
        assert x in own + r2 && R.AtLeast(x, x);
      } else {
        var y :| y in r2 && R.AtLeast(y, x);
        assert y in own + r2;
      }
    }
  }

  /** Each value the required pass reads is matched by one the recommended
      pass reads that is at least as high. */
  lemma {:induction false} ReadsDominate(st: seq<Step>, reqNames: seq<string>, allNames: seq<string>, byName: map<string, nat>, path: set<string>)
    requires Sound(st) && AllDone(st, allNames, byName, path)
    requires forall n :: n in reqNames ==> n in allNames
    ensures forall x :: x in Reads(st, reqNames, byName, path, false) ==>
              exists y :: y in Reads(st, allNames, byName, path, true) && R.AtLeast(y, x)
    decreases |reqNames|
  {
    if reqNames != [] {
      var init := reqNames[..|reqNames| - 1];
      var n := reqNames[|reqNames| - 1];
      ReadsDominate(st, init, allNames, byName, path);
      if n !in path && n in byName && byName[n] < |st| {
        ReadsHas(st, allNames, byName, path, n);
      }
    }
  }

  /** The recommended pass reads the field of every name off the path. */
  lemma {:induction false} ReadsHas(st: seq<Step>, names: seq<string>, byName: map<string, nat>, path: set<string>, n: string)
    requires n in names && n !in path && n in byName && byName[n] < |st|
    ensures Field(st[byName[n]], true) in Reads(st, names, byName, path, true)
    decreases |names|
  {
    if names[|names| - 1] != n {
      assert n in names[..|names| - 1] by {
        var j :| 0 <= j < |names| && names[j] == n;
        assert names[..|names| - 1][j] == n;
      }
      ReadsHas(st, names[..|names| - 1], byName, path, n);
    }
  }

  /** One pass (`.filter(r => !seen.has(r.name)).map(...)`): for each name
      off the path, an unknown one is an error; otherwise its step is
      computed first if this pass's field is still unset, and the field is
      read. */
  method Phase(st: seq<Step>, names: seq<string>, byName: map<string, nat>, path: set<string>, rec: bool) returns (r: Result<(seq<Step>, seq<R.ExtInt>)>)
    requires Table(st, byName) && Paired(st, byName, path)
    ensures r.Ok? ==> Frame(st, r.value.0, byName, path, -1) && Paired(r.value.0, byName, path)
    ensures r.Ok? ==> AllDone(r.value.0, names, byName, path) && r.value.1 == Reads(r.value.0, names, byName, path, rec)
    ensures r.Ok? && Sound(st) ==> Sound(r.value.0)
    ensures r.Err? ==> Missing(r.message, byName)
    ensures Closed(st, byName) && (forall n :: n in names ==> n in byName) ==> r.Ok?
    ensures (exists n :: n in names && n !in path && n !in byName) ==> r.Err?
    decreases |byName.Keys - path|, 1
  {
    var cur := st;
    var vals: seq<R.ExtInt> := [];
    for j := 0 to |names|
      invariant Table(cur, byName) && Frame(st, cur, byName, path, -1) && Paired(cur, byName, path)
      invariant AllDone(cur, names[..j], byName, path) && vals == Reads(cur, names[..j], byName, path, rec)
      invariant Sound(st) ==> Sound(cur)
      invariant Closed(st, byName) ==> Closed(cur, byName)
      invariant forall m :: m in names[..j] && m !in path ==> m in byName
    {
      var n := names[j];
      assert names[..j + 1] == names[..j] + [n];
      if n in path {
        ReadsStep(cur, names, j, byName, path, rec);
        continue;
      }
      if n !in byName {
        assert (NoName + n)[|NoName|..] == n;
        return Err(NoName + n);
      }
      var k := byName[n];
      if (if rec then cur[k].maxRec.None? else cur[k].maxReq.None?) {
        RemainderShrinks(byName.Keys, path, n);
        var sub := AddMaxLevel(cur, k, byName, path);
        if sub.Err? {
          return Err(sub.message);
        }
        FrameWeaken(cur, sub.value, byName, path, k, path, -1);
        DoneStay(cur, sub.value, path, -1, names[..j], byName, path, rec);
        FrameTrans(st, cur, sub.value, byName, path, -1);
        FrameKeeps(cur, sub.value, byName, path, -1);
        cur := sub.value;
      }
      ReadsStep(cur, names, j, byName, path, rec);
      vals := vals + [Field(cur[k], rec)];
    }
    assert names[..|names|] == names;
    assert forall m :: m in names && m !in path ==> m in byName;
    return Ok((cur, vals));
  }
}
