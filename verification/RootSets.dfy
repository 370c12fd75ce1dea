/**
 The roots of the collector as a value: stack, locals, task results, parallel
 values, builder children and pinned handles, how a handle map moves them, and
 when the remapping passes succeed.
 */
module RootSets {
  import opened CText
  import opened Heap
  import opened Liveness
  import opened Compaction
  import opened Relocation

  datatype TaskRecord = TaskRecord(handle: int, result: Value)

  datatype Builder = Builder(active: bool, children: seq<int>)

  function Results(tasks: seq<TaskRecord>): (vs: seq<Value>)
    ensures |vs| == |tasks| && forall i :: 0 <= i < |tasks| ==> vs[i] == tasks[i].result
  {
    seq(|tasks|, i requires 0 <= i < |tasks| => tasks[i].result)
  }

  /** The task table with its results replaced, slot by slot. */
  function WithResults(tasks: seq<TaskRecord>, results: seq<Value>): (r: seq<TaskRecord>)
    requires |results| == |tasks|
    ensures |r| == |tasks| && Results(r) == results && forall i :: 0 <= i < |tasks| ==> r[i] == tasks[i].(result := results[i])
  {
    seq(|tasks|, i requires 0 <= i < |tasks| => tasks[i].(result := results[i]))
  }

  function BuilderHandles(builders: seq<Builder>): seq<int> {
    if builders == [] then []
    else BuilderHandles(builders[..|builders| - 1])
         + (if builders[|builders| - 1].active then builders[|builders| - 1].children else [])
  }

  function Positive(hs: seq<int>): seq<int> {
    if hs == [] then []
    else Positive(hs[..|hs| - 1]) + (if hs[|hs| - 1] > 0 then [hs[|hs| - 1]] else [])
  }

  lemma {:induction false} PositiveMembers(hs: seq<int>)
    ensures forall i :: 0 <= i < |Positive(hs)| ==> Positive(hs)[i] > 0 && Positive(hs)[i] in hs
    ensures forall i :: 0 <= i < |hs| && hs[i] > 0 ==> hs[i] in Positive(hs)
  {
    if hs != [] {
      PositiveMembers(hs[..|hs| - 1]);
    }
  }

  lemma {:induction false} BuilderHandleIn(builders: seq<Builder>, b: nat, k: nat)
    requires b < |builders| && builders[b].active && k < |builders[b].children|
    ensures builders[b].children[k] in BuilderHandles(builders)
  {
    if b < |builders| - 1 {
      BuilderHandleIn(builders[..|builders| - 1], b, k);
    }
  }

  // ----- remapped roots

  /** What the remapper accepts: a node that has a new handle, a pair in range, anything else. */
  ghost predicate Movable(nm: map<int, int>, pairCount: nat, v: Value) {
    (v.Node? ==> v.node in nm) && (v.Pair? ==> 1 <= v.pair <= pairCount)
  }

  ghost predicate AllMovable(nm: map<int, int>, pairCount: nat, vs: seq<Value>) {
    forall i :: 0 <= i < |vs| ==> Movable(nm, pairCount, vs[i])
  }

  lemma AllMovableParts(nm: map<int, int>, n: nat, a: seq<Value>, b: seq<Value>, c: seq<Value>, d: seq<Value>)
    ensures AllMovable(nm, n, a + b + c + d) <==> AllMovable(nm, n, a) && AllMovable(nm, n, b) && AllMovable(nm, n, c) && AllMovable(nm, n, d)
  {
    var all := a + b + c + d;
    var i, j, k := |a|, |a| + |b|, |a| + |b| + |c|;
    assert all[..i] == a && all[i..j] == b && all[j..k] == c && all[k..] == d;
  }

  function MoveTasks(nm: map<int, int>, ts: seq<TaskRecord>): (r: seq<TaskRecord>)
    ensures |r| == |ts| && forall i :: 0 <= i < |ts| ==> r[i] == ts[i].(result := MoveValue(nm, ts[i].result))
    ensures Results(r) == MoveValues(nm, Results(ts))
  {
    seq(|ts|, i requires 0 <= i < |ts| => ts[i].(result := MoveValue(nm, ts[i].result)))
  }

  function MoveBuilders(nm: map<int, int>, bs: seq<Builder>): (r: seq<Builder>)
    ensures |r| == |bs|
  {
    if bs == [] then []
    else
      var b := bs[|bs| - 1];
      MoveBuilders(nm, bs[..|bs| - 1]) + [if b.active then b.(children := MoveHandles(nm, b.children)) else b]
  }

  lemma {:induction false} MoveBuildersHandles(nm: map<int, int>, bs: seq<Builder>)
    ensures BuilderHandles(MoveBuilders(nm, bs)) == MoveHandles(nm, BuilderHandles(bs))
  {
    if bs != [] {
      var k := |bs| - 1;
      MoveBuildersHandles(nm, bs[..k]);
      var moved := MoveBuilders(nm, bs);
      assert moved[..k] == MoveBuilders(nm, bs[..k]);
      MoveHandlesConcat(nm, BuilderHandles(bs[..k]), if bs[k].active then bs[k].children else []);
    }
  }

  lemma {:induction false} MovePositive(nm: map<int, int>, hs: seq<int>)
    requires forall n :: n in nm ==> n >= 1 && nm[n] >= 1
    ensures Positive(MoveHandles(nm, hs)) == MoveHandles(nm, Positive(hs))
  {
    if hs != [] {
      var k := |hs| - 1;
      MovePositive(nm, hs[..k]);
      assert MoveHandles(nm, hs)[..k] == MoveHandles(nm, hs[..k]);
      MoveHandlesConcat(nm, Positive(hs[..k]), if hs[k] > 0 then [hs[k]] else []);
    }
  }

  // ----- the roots as a value

  datatype Roots = Roots(
    stack: seq<Value>, locals: seq<Value>, tasks: seq<TaskRecord>, parValues: seq<Value>,
    builders: seq<Builder>, pins: seq<int>)

  function ValuesOf(r: Roots): seq<Value> {
    r.stack + r.locals + Results(r.tasks) + r.parValues
  }

  /** Handles the collector treats as roots beside values, with the caller's extra handles. */
  function HandlesOf(r: Roots, extra: seq<int>): seq<int> {
    BuilderHandles(r.builders) + Positive(r.pins) + Positive(extra)
  }

  /** What no collection changes about the roots: how many values each list holds, the task handles, which builders are
      active and how many children each has, which pins are set. */
  datatype Shape = Shape(stack: nat, locals: nat, parValues: nat, tasks: seq<int>, builders: seq<Builder>, pins: seq<bool>)

  function ShapeOf(r: Roots): Shape {
    Shape(|r.stack|, |r.locals|, |r.parValues|, TaskHandles(r.tasks), BuilderShapes(r.builders), PinsSet(r.pins))
  }

  ghost predicate SameShape(r: Roots, r': Roots) {
    ShapeOf(r') == ShapeOf(r)
  }

  function TaskHandles(ts: seq<TaskRecord>): (hs: seq<int>)
    ensures |hs| == |ts| && forall i :: 0 <= i < |ts| ==> hs[i] == ts[i].handle
  {
    seq(|ts|, i requires 0 <= i < |ts| => ts[i].handle)
  }

  /** The children of an active builder are handles, which move; those of an inactive one are left alone. */
  function BuilderShape(b: Builder): (s: Builder)
    ensures s.active == b.active && |s.children| == |b.children|
  {
    if b.active then Builder(true, seq(|b.children|, _ => 0)) else b
  }

  function BuilderShapes(bs: seq<Builder>): (ss: seq<Builder>)
    ensures |ss| == |bs| && forall i :: 0 <= i < |bs| ==> ss[i] == BuilderShape(bs[i])
  {
    seq(|bs|, i requires 0 <= i < |bs| => BuilderShape(bs[i]))
  }

  function PinsSet(pins: seq<int>): (ps: seq<bool>)
    ensures |ps| == |pins| && forall i :: 0 <= i < |pins| ==> ps[i] == (pins[i] > 0)
  {
    seq(|pins|, i requires 0 <= i < |pins| => pins[i] > 0)
  }

  lemma {:induction false} MoveBuildersShape(nm: map<int, int>, bs: seq<Builder>)
    ensures BuilderShapes(MoveBuilders(nm, bs)) == BuilderShapes(bs)
  {
    if bs != [] {
      var k := |bs| - 1;
      MoveBuildersShape(nm, bs[..k]);
      var moved := MoveBuilders(nm, bs);
      assert moved[..k] == MoveBuilders(nm, bs[..k]);
      assert BuilderShape(moved[k]) == BuilderShape(bs[k]);
      forall i | 0 <= i < k ensures BuilderShape(moved[i]) == BuilderShape(bs[i]) {
        assert BuilderShapes(moved[..k])[i] == BuilderShapes(bs[..k])[i];
      }
    }
  }

  lemma MoveRootsShape(nm: map<int, int>, r: Roots)
    requires forall n :: n in nm ==> n >= 1 && nm[n] >= 1
    ensures SameShape(r, MoveRoots(nm, r))
  {
    MoveBuildersShape(nm, r.builders);
    assert TaskHandles(MoveTasks(nm, r.tasks)) == TaskHandles(r.tasks);
    assert PinsSet(MoveHandles(nm, r.pins)) == PinsSet(r.pins);
  }

  function MoveRoots(nm: map<int, int>, r: Roots): Roots {
    Roots(MoveValues(nm, r.stack), MoveValues(nm, r.locals), MoveTasks(nm, r.tasks), MoveValues(nm, r.parValues),
          MoveBuilders(nm, r.builders), MoveHandles(nm, r.pins))
  }

  lemma MoveRootsParts(nm: map<int, int>, r: Roots, extra: seq<int>)
    requires forall n :: n in nm ==> n >= 1 && nm[n] >= 1
    ensures ValuesOf(MoveRoots(nm, r)) == MoveValues(nm, ValuesOf(r))
    ensures HandlesOf(MoveRoots(nm, r), MoveHandles(nm, extra)) == MoveHandles(nm, HandlesOf(r, extra))
  {
    MoveBuildersHandles(nm, r.builders);
    MovePositive(nm, r.pins);
    MovePositive(nm, extra);
    MoveHandlesConcat(nm, BuilderHandles(r.builders) + Positive(r.pins), Positive(extra));
    MoveHandlesConcat(nm, BuilderHandles(r.builders), Positive(r.pins));
    MoveValuesConcat(nm, r.stack + r.locals + Results(r.tasks), r.parValues);
    MoveValuesConcat(nm, r.stack + r.locals, Results(r.tasks));
    MoveValuesConcat(nm, r.stack, r.locals);
  }

  ghost predicate MarkedMovable(nm: map<int, int>, pairs: seq<ScratchPair>, live: seq<bool>)
    requires |live| == |pairs|
  {
    forall i :: 0 <= i < |pairs| && live[i] ==> Movable(nm, |pairs|, pairs[i].first) && Movable(nm, |pairs|, pairs[i].second)
  }

  ghost predicate MarkedMoved(nm: map<int, int>, pairs: seq<ScratchPair>, live: seq<bool>, pairs': seq<ScratchPair>)
    requires |live| == |pairs|
  {
    |pairs'| == |pairs| && forall i :: 0 <= i < |pairs| ==> pairs'[i] == if live[i] then MovePair(nm, pairs[i]) else pairs[i]
  }

  ghost predicate MarksPairs(h: Heap, vs: seq<Value>, live: seq<bool>) {
    |live| == |h.pairs| && forall p :: 1 <= p <= |live| ==> (live[p - 1] <==> LivePair(h, vs, p))
  }

  ghost predicate MarksNodes(h: Heap, vs: seq<Value>, hs: seq<int>, live: seq<bool>) {
    |live| >= |h.nodes| && forall n :: IsNode(h, n) ==> (live[n - 1] <==> LiveNode(h, vs, hs, n))
  }

  lemma MarkedIffLive(h: Heap, vs: seq<Value>, live: seq<bool>, nm: map<int, int>)
    requires MarksPairs(h, vs, live)
    ensures MarkedMovable(nm, h.pairs, live) <==> PairsMovable(h, vs, nm)
  {
    if MarkedMovable(nm, h.pairs, live) {
      forall p | p in LivePairs(h, vs)
        ensures Movable(nm, |h.pairs|, h.pairs[p - 1].first) && Movable(nm, |h.pairs|, h.pairs[p - 1].second)
      {
        assert live[p - 1];
      }
    } else {
      var i :| 0 <= i < |h.pairs| && live[i] && !(Movable(nm, |h.pairs|, h.pairs[i].first) && Movable(nm, |h.pairs|, h.pairs[i].second));
      assert i + 1 in LivePairs(h, vs);
    }
  }

  lemma CompactedFrom(h: Heap, vs: seq<Value>, hs: seq<int>, copied: Heap, live: seq<bool>, pairs': seq<ScratchPair>)
    requires MarksPairs(h, vs, live) && MarkedMoved(RankMap(LiveNodes(h, vs, hs)), h.pairs, live, pairs')
    requires copied.pairs == h.pairs && copied.strings == h.strings && copied.bytes == h.bytes
    requires |copied.nodes| == |LiveNodes(h, vs, hs)|
    requires AllCopied(h, copied, LiveNodes(h, vs, hs))
    ensures CompactedHeap(h, vs, hs, copied.(pairs := pairs'))
  {
    var h' := copied.(pairs := pairs');
    forall n | n in LiveNodes(h, vs, hs) ensures Copied(h, h', RankMap(LiveNodes(h, vs, hs)), n) {
      CopiedStays(h, copied, h', RankMap(LiveNodes(h, vs, hs)), n);
    }
  }

  ghost predicate PairsMovable(h: Heap, vs: seq<Value>, nm: map<int, int>) {
    forall p :: p in LivePairs(h, vs) ==>
      Movable(nm, |h.pairs|, h.pairs[p - 1].first) && Movable(nm, |h.pairs|, h.pairs[p - 1].second)
  }

  ghost predicate PinsMovable(nm: map<int, int>, pins: seq<int>) {
    forall k :: 0 <= k < |pins| && pins[k] > 0 ==> pins[k] in nm
  }

  /** The remapping passes succeed exactly when every live handle is in range. */
  lemma SoundIffMovable(h: Heap, r: Roots, extra: seq<int>)
    requires PairsPass(h, ValuesOf(r)) && forall i :: 0 <= i < |extra| ==> extra[i] <= |h.nodes|
    ensures var vs, hs := ValuesOf(r), HandlesOf(r, extra);
            var nm := RankMap(LiveNodes(h, vs, hs));
            RootsSound(h, vs, hs) <==>
              AllMovable(nm, |h.pairs|, vs) && PairsMovable(h, vs, nm) && AllIn(nm, BuilderHandles(r.builders)) && PinsMovable(nm, r.pins)
  {
    var vs, hs := ValuesOf(r), HandlesOf(r, extra);
    var nm := RankMap(LiveNodes(h, vs, hs));
    var b, p := |BuilderHandles(r.builders)|, |Positive(r.pins)|;
    assert hs[..b] == BuilderHandles(r.builders) && hs[b..b + p] == Positive(r.pins) && hs[b + p..] == Positive(extra);
    PositiveMembers(r.pins);
    PositiveMembers(extra);
    if RootsSound(h, vs, hs) {
      forall i | 0 <= i < |vs| ensures Movable(nm, |h.pairs|, vs[i]) { RootKept(h, vs, hs, i); }
      forall q | q in LivePairs(h, vs)
        ensures Movable(nm, |h.pairs|, h.pairs[q - 1].first) && Movable(nm, |h.pairs|, h.pairs[q - 1].second)
      {
        PairKept(h, vs, hs, q);
      }
      forall i | 0 <= i < |hs| ensures hs[i] in nm { HandleKept(h, vs, hs, i); }
      forall k | 0 <= k < |r.pins| && r.pins[k] > 0 ensures r.pins[k] in nm {
        assert r.pins[k] in hs[b..b + p];
      }
    } else if AllMovable(nm, |h.pairs|, vs) && PairsMovable(h, vs, nm) && AllIn(nm, BuilderHandles(r.builders)) && PinsMovable(nm, r.pins) {
      MovableSound(h, r, extra);
    }
  }

  /** The remapper refuses a pair handle out of range even where marking let it pass. */
  lemma MovablePairs(h: Heap, vs: seq<Value>, nm: map<int, int>)
    requires PairsPass(h, vs) && AllMovable(nm, |h.pairs|, vs)
    ensures PairsSound(h, vs)
  {
    if |h.pairs| == 0 {
      var none: set<int> := {};
      forall i | 0 <= i < |vs| ensures !vs[i].Pair? { assert Movable(nm, |h.pairs|, vs[i]); }
      assert PairsClosed(h, vs, none);
    }
  }

  lemma MovableSound(h: Heap, r: Roots, extra: seq<int>)
    requires PairsPass(h, ValuesOf(r)) && forall i :: 0 <= i < |extra| ==> extra[i] <= |h.nodes|
    requires var vs, hs := ValuesOf(r), HandlesOf(r, extra);
             var nm := RankMap(LiveNodes(h, vs, hs));
             AllMovable(nm, |h.pairs|, vs) && PairsMovable(h, vs, nm) && AllIn(nm, BuilderHandles(r.builders)) && PinsMovable(nm, r.pins)
    ensures RootsSound(h, ValuesOf(r), HandlesOf(r, extra))
  {
    var vs, hs := ValuesOf(r), HandlesOf(r, extra);
    MovablePairs(h, vs, RankMap(LiveNodes(h, vs, hs)));
    var b, p := |BuilderHandles(r.builders)|, |Positive(r.pins)|;
    PositiveMembers(r.pins);
    PositiveMembers(extra);
    forall i | 0 <= i < |vs| && vs[i].Node? ensures IsNode(h, vs[i].node) {
      assert Movable(RankMap(LiveNodes(h, vs, hs)), |h.pairs|, vs[i]);
    }
    forall i | 0 <= i < |hs| ensures IsNode(h, hs[i]) {
      if i < b {
        assert hs[i] == BuilderHandles(r.builders)[i];
      } else if i < b + p {
        assert hs[i] == Positive(r.pins)[i - b];
      } else {
        assert hs[i] == Positive(extra)[i - b - p];
      }
    }
    forall q | IsPair(h, q) && LivePair(h, vs, q) ensures NodesInRange(h, h.pairs[q - 1]) {
      assert q in LivePairs(h, vs);
    }
  }

  ghost predicate RemapOk(nm: map<int, int>, pairs: seq<ScratchPair>, live: seq<bool>, r: Roots)
    requires |live| == |pairs|
  {
    AllMovable(nm, |pairs|, ValuesOf(r)) && MarkedMovable(nm, pairs, live) && AllIn(nm, BuilderHandles(r.builders)) && PinsMovable(nm, r.pins)
  }

  lemma RemapOkIffSound(h: Heap, r: Roots, extra: seq<int>, live: seq<bool>)
    requires PairsPass(h, ValuesOf(r)) && forall i :: 0 <= i < |extra| ==> extra[i] <= |h.nodes|
    requires MarksPairs(h, ValuesOf(r), live)
    ensures RemapOk(RankMap(LiveNodes(h, ValuesOf(r), HandlesOf(r, extra))), h.pairs, live, r) <==> RootsSound(h, ValuesOf(r), HandlesOf(r, extra))
  {
    SoundIffMovable(h, r, extra);
    MarkedIffLive(h, ValuesOf(r), live, RankMap(LiveNodes(h, ValuesOf(r), HandlesOf(r, extra))));
  }

  /** What marking, numbering and copying hand to the second half of a compaction. */
  ghost predicate Prepared(h: Heap, r: Roots, extra: seq<int>, live: seq<bool>, handleMap: seq<int>, copied: Heap) {
    var keep := LiveNodes(h, ValuesOf(r), HandlesOf(r, extra));
    && PairsPass(h, ValuesOf(r)) && (forall i :: 0 <= i < |extra| ==> extra[i] <= |h.nodes|)
    && MarksPairs(h, ValuesOf(r), live)
    && Encodes(handleMap, RankMap(keep))
    && copied.pairs == h.pairs && copied.strings == h.strings && copied.bytes == h.bytes
    && WellFormed(copied) && |copied.nodes| == |keep|
    && AllCopied(h, copied, keep)
    && |copied.nodes| <= |h.nodes| && |copied.attrs| <= |h.attrs| && |copied.children| <= |h.children|
  }

  lemma CompactionResult(h: Heap, r: Roots, extra: seq<int>, live: seq<bool>, handleMap: seq<int>, copied: Heap, ok: bool, pairs': seq<ScratchPair>)
    requires Prepared(h, r, extra, live, handleMap, copied)
    requires var nm := RankMap(LiveNodes(h, ValuesOf(r), HandlesOf(r, extra)));
             (ok <==> RemapOk(nm, h.pairs, live, r)) && (ok ==> MarkedMoved(nm, h.pairs, live, pairs'))
    ensures ok <==> RootsSound(h, ValuesOf(r), HandlesOf(r, extra))
    ensures ok ==> CompactedHeap(h, ValuesOf(r), HandlesOf(r, extra), copied.(pairs := pairs'))
    ensures WellFormed(copied.(pairs := pairs'))
  {
    RemapOkIffSound(h, r, extra, live);
    if ok {
      CompactedFrom(h, ValuesOf(r), HandlesOf(r, extra), copied, live, pairs');
    }
  }

  // ----- renamed pairs

  ghost predicate PairIn(pm: map<int, int>, v: Value) {
    v.Pair? ==> v.pair in pm
  }

  ghost predicate PairsIn(pm: map<int, int>, vs: seq<Value>) {
    forall i :: 0 <= i < |vs| ==> PairIn(pm, vs[i])
  }

  function RenameTasks(pm: map<int, int>, ts: seq<TaskRecord>): (r: seq<TaskRecord>)
    ensures |r| == |ts| && forall i :: 0 <= i < |ts| ==> r[i] == ts[i].(result := RenamePair(pm, ts[i].result))
    ensures Results(r) == RenamePairs(pm, Results(ts))
  {
    seq(|ts|, i requires 0 <= i < |ts| => ts[i].(result := RenamePair(pm, ts[i].result)))
  }

  function RenameRoots(pm: map<int, int>, r: Roots): Roots {
    r.(stack := RenamePairs(pm, r.stack), locals := RenamePairs(pm, r.locals), tasks := RenameTasks(pm, r.tasks), parValues := RenamePairs(pm, r.parValues))
  }

  lemma RenameRootsParts(pm: map<int, int>, r: Roots)
    ensures ValuesOf(RenameRoots(pm, r)) == RenamePairs(pm, ValuesOf(r)) && SameShape(r, RenameRoots(pm, r))
  {
    assert TaskHandles(RenameTasks(pm, r.tasks)) == TaskHandles(r.tasks);
  }

  lemma PairRootsIn(h: Heap, r: Roots)
    requires PairsSound(h, ValuesOf(r))
    ensures var pm := RankMap(LivePairs(h, ValuesOf(r)));
            PairsIn(pm, r.stack) && PairsIn(pm, r.locals) && PairsIn(pm, Results(r.tasks)) && PairsIn(pm, r.parValues)
  {
    var vs := ValuesOf(r);
    var pm := RankMap(LivePairs(h, vs));
    forall i | 0 <= i < |vs| ensures PairIn(pm, vs[i]) {
      if vs[i].Pair? { LivePairRoot(h, vs, i); }
    }
    assert PairsIn(pm, vs);
    var i, j, k := |r.stack|, |r.stack| + |r.locals|, |r.stack| + |r.locals| + |r.tasks|;
    assert vs[..i] == r.stack && vs[i..j] == r.locals && vs[j..k] == Results(r.tasks) && vs[k..] == r.parValues;
  }

  lemma JoinRelocated(a: Arena, b: seq<Byte>, vs: seq<Value>, w: seq<Value>, x: seq<Value>, y: seq<Value>, z: seq<Value>)
    requires |vs| == |w| + |x| + |y| + |z|
    requires ValuesRelocated(a, b, vs[..|w|], w) && ValuesRelocated(a, b, vs[|w|..|w| + |x|], x)
    requires ValuesRelocated(a, b, vs[|w| + |x|..|w| + |x| + |y|], y) && ValuesRelocated(a, b, vs[|w| + |x| + |y|..], z)
    ensures ValuesRelocated(a, b, vs, w + x + y + z)
  {
    var all := w + x + y + z;
    forall i | 0 <= i < |vs| ensures ValueRelocated(a, b, vs[i], all[i]) {
      var j, k, l := |w|, |w| + |x|, |w| + |x| + |y|;
      if i < j {
        assert ValueRelocated(a, b, vs[..j][i], w[i]);
      } else if i < k {
        assert ValueRelocated(a, b, vs[j..k][i - j], x[i - j]);
      } else if i < l {
        assert ValueRelocated(a, b, vs[k..l][i - k], y[i - k]);
      } else {
        assert ValueRelocated(a, b, vs[l..][i - l], z[i - l]);
      }
    }
  }

  lemma NodeOkRecord(h: Heap, n: int)
    requires WellFormed(h) && IsNode(h, n) && NodeOk(h, n)
    ensures RecordOk(h.strings, h.nodes[n - 1], h.attrs)
  {
    WellFormedSlices(h, n);
    var r := h.nodes[n - 1];
    forall k | r.attrStart <= k < r.attrStart + r.attrCount && k < |h.attrs| ensures AttrOk(h.strings, h.attrs[k]) {
      assert AttrsOf(h, n)[k - r.attrStart] == h.attrs[k];
    }
  }

  lemma RelocatedFrom(h: Heap, vs: seq<Value>, hs: seq<int>, livePairs: seq<bool>, live: seq<bool>, b1: seq<Byte>, b: seq<Byte>,
                      pairs': seq<ScratchPair>, nodes': seq<Record>, attrs': seq<Attr>)
    requires MarksPairs(h, vs, livePairs) && MarksNodes(h, vs, hs, live) && Extends(b1, b)
    requires |pairs'| == |h.pairs|
    requires forall i :: 0 <= i < |h.pairs| ==>
               if livePairs[i] then PairMoved(h.strings, b1, h.pairs[i], pairs'[i]) else pairs'[i] == h.pairs[i]
    requires NodesMoved(h.strings, b, h.nodes, h.attrs, nodes', attrs', live, |h.nodes|)
    ensures RelocatedHeap(h, vs, hs, b, Heap(nodes', attrs', h.children, pairs', Arena(h.strings.epoch + 1, b), h.bytes))
  {
    var h' := Heap(nodes', attrs', h.children, pairs', Arena(h.strings.epoch + 1, b), h.bytes);
    forall n | n in LiveNodes(h, vs, hs) ensures NodeRelocated(h, b, h', n) {
      assert live[n - 1];
      assert NodeMoved(h.strings, b, h.nodes, h.attrs, nodes', attrs', n - 1);
    }
    forall p | IsPair(h, p)
      ensures if p in LivePairs(h, vs) then PairRelocated(h, b, h', p) else h'.pairs[p - 1] == h.pairs[p - 1]
    {
      if p in LivePairs(h, vs) {
        assert livePairs[p - 1];
        PairMovedStays(h.strings, b1, b, h.pairs[p - 1], pairs'[p - 1]);
      }
    }
  }

  lemma PairMovedStays(a: Arena, b: seq<Byte>, b': seq<Byte>, q: ScratchPair, q': ScratchPair)
    requires PairMoved(a, b, q, q') && Extends(b, b')
    ensures PairMoved(a, b', q, q')
  {
    if q.first.Str? { RelocatedStays(a, b, b', q.first.str, q'.first.str); }
    if q.second.Str? { RelocatedStays(a, b, b', q.second.str, q'.second.str); }
  }

  // ----- live texts

  ghost predicate ValuePoints(a: Arena, v: Value, o: nat) {
    v.Str? && InArena(a, v.str) && v.str.offset == o
  }

  ghost predicate RefPoints(a: Arena, r: StrRef, o: nat) {
    InArena(a, r) && r.offset == o
  }

  ghost predicate AttrPoints(a: Arena, t: Attr, o: nat) {
    RefPoints(a, t.key, o) || ((t.value.Identifier? || t.value.StringAttr?) && RefPoints(a, t.value.s, o))
  }

  ghost predicate NodePoints(h: Heap, n: int, o: nat)
    requires IsNode(h, n)
  {
    || RefPoints(h.strings, h.nodes[n - 1].kind, o) || RefPoints(h.strings, h.nodes[n - 1].id, o)
    || exists k :: 0 <= k < |AttrsOf(h, n)| && AttrPoints(h.strings, AttrsOf(h, n)[k], o)
  }

  ghost predicate PairPoints(h: Heap, p: int, o: nat)
    requires IsPair(h, p)
  {
    ValuePoints(h.strings, h.pairs[p - 1].first, o) || ValuePoints(h.strings, h.pairs[p - 1].second, o)
  }

  /** A root value, a live pair or a live node points at the segment at `o`. */
  ghost predicate LiveText(h: Heap, vs: seq<Value>, hs: seq<int>, o: nat) {
    || (exists i :: 0 <= i < |vs| && ValuePoints(h.strings, vs[i], o))
    || (exists p :: p in LivePairs(h, vs) && PairPoints(h, p, o))
    || (exists n :: n in LiveNodes(h, vs, hs) && NodePoints(h, n, o))
  }

  ghost function LiveTexts(h: Heap, vs: seq<Value>, hs: seq<int>): set<nat> {
    set o: nat | o < |h.strings.bytes| && LiveText(h, vs, hs, o)
  }

  /** Everything string compaction visits points at live texts. */
  lemma VisitedWanted(h: Heap, vs: seq<Value>, hs: seq<int>)
    ensures var keep := LiveTexts(h, vs, hs);
            && (forall i :: 0 <= i < |vs| ==> ValueWanted(h.strings, keep, vs[i]))
            && (forall p :: p in LivePairs(h, vs) ==> ValueWanted(h.strings, keep, h.pairs[p - 1].first) && ValueWanted(h.strings, keep, h.pairs[p - 1].second))
  {
    var a, keep := h.strings, LiveTexts(h, vs, hs);
    forall i | 0 <= i < |vs| ensures ValueWanted(a, keep, vs[i]) {
      if vs[i].Str? && InArena(a, vs[i].str) { assert ValuePoints(a, vs[i], vs[i].str.offset); }
    }
    forall p | p in LivePairs(h, vs) ensures ValueWanted(a, keep, h.pairs[p - 1].first) && ValueWanted(a, keep, h.pairs[p - 1].second) {
      var q := h.pairs[p - 1];
      if q.first.Str? && InArena(a, q.first.str) { assert PairPoints(h, p, q.first.str.offset); }
      if q.second.Str? && InArena(a, q.second.str) { assert PairPoints(h, p, q.second.str.offset); }
    }
  }

  lemma NodeWanted(h: Heap, vs: seq<Value>, hs: seq<int>, n: int)
    requires WellFormed(h) && n in LiveNodes(h, vs, hs)
    ensures RecordWanted(h.strings, LiveTexts(h, vs, hs), h.nodes[n - 1], h.attrs)
  {
    var a, keep, r := h.strings, LiveTexts(h, vs, hs), h.nodes[n - 1];
    WellFormedSlices(h, n);
    if InArena(a, r.kind) { assert NodePoints(h, n, r.kind.offset); }
    if InArena(a, r.id) { assert NodePoints(h, n, r.id.offset); }
    forall k | r.attrStart <= k < r.attrStart + r.attrCount && k < |h.attrs| ensures AttrWanted(a, keep, h.attrs[k]) {
      var t := h.attrs[k];
      assert AttrsOf(h, n)[k - r.attrStart] == t;
      if InArena(a, t.key) { assert AttrPoints(a, t, t.key.offset) && NodePoints(h, n, t.key.offset); }
      if (t.value.Identifier? || t.value.StringAttr?) && InArena(a, t.value.s) { assert AttrPoints(a, t, t.value.s.offset) && NodePoints(h, n, t.value.s.offset); }
    }
  }

  /** The heap and roots after string compaction. */
  ghost predicate StringsCompacted(h: Heap, r: Roots, h': Heap, r': Roots) {
    && RelocatedHeap(h, ValuesOf(r), HandlesOf(r, []), h'.strings.bytes, h')
    && ValuesRelocated(h.strings, h'.strings.bytes, ValuesOf(r), ValuesOf(r'))
    && r'.builders == r.builders && r'.pins == r.pins && SameShape(r, r')
    && Terminated(h'.strings.bytes) && DuplicateFree(h'.strings.bytes) && |h'.strings.bytes| <= |h.strings.bytes|
  }

  /** A well-formed heap whose live handles are in range and whose live strings read. */
  ghost predicate Ready(h: Heap, r: Roots, extra: seq<int>) {
    WellFormed(h) && RootsSound(h, ValuesOf(r), HandlesOf(r, extra)) && StringsSound(h, ValuesOf(r), HandlesOf(r, extra))
  }

  lemma StringsCompactedSound(h: Heap, r: Roots, h': Heap, r': Roots)
    requires Ready(h, r, []) && StringsCompacted(h, r, h', r')
    ensures Ready(h', r', [])
  {
    StringCompactionSound(h, ValuesOf(r), HandlesOf(r, []), h'.strings.bytes, h', ValuesOf(r'));
  }

  /** String compaction keeps what every root value and root handle denotes. */
  lemma StringsCompactedMeaning(h: Heap, r: Roots, h': Heap, r': Roots)
    requires Ready(h, r, []) && StringsCompacted(h, r, h', r')
    ensures SameMeaning(h, ValuesOf(r), h', ValuesOf(r'))
    ensures SameMeaning(h, NodeValues(HandlesOf(r, [])), h', NodeValues(HandlesOf(r', [])))
  {
    StringCompactionKeepsMeaning(h, ValuesOf(r), HandlesOf(r, []), h'.strings.bytes, h', ValuesOf(r'));
  }

  /** Everything stored is still pointed at by something live. */
  ghost predicate NoDeadText(h: Heap, r: Roots) {
    forall o: nat :: SegmentStart(h.strings.bytes, o) ==> LiveText(h, ValuesOf(r), HandlesOf(r, []), o)
  }

  lemma RefPointsOn(a: Arena, b: seq<Byte>, r: StrRef, r': StrRef, s: nat, o: nat)
    requires DuplicateFree(b) && Relocated(a, b, r, r') && RefPoints(a, r, s) && SegmentStart(b, o) && TextAt(b, o) == TextAt(a.bytes, s)
    ensures RefPoints(Arena(a.epoch + 1, b), r', o)
  {}

  lemma NodePointsOn(h: Heap, b: seq<Byte>, h': Heap, n: int, s: nat, o: nat)
    requires IsNode(h, n) && |h'.nodes| == |h.nodes| && NodeRelocated(h, b, h', n) && h'.strings == Arena(h.strings.epoch + 1, b) && DuplicateFree(b)
    requires NodePoints(h, n, s) && s < |h.strings.bytes| && SegmentStart(b, o) && TextAt(b, o) == TextAt(h.strings.bytes, s)
    ensures NodePoints(h', n, o)
  {
    var a, r, r' := h.strings, h.nodes[n - 1], h'.nodes[n - 1];
    if RefPoints(a, r.kind, s) {
      RefPointsOn(a, b, r.kind, r'.kind, s, o);
    } else if RefPoints(a, r.id, s) {
      RefPointsOn(a, b, r.id, r'.id, s, o);
    } else {
      var k :| 0 <= k < |AttrsOf(h, n)| && AttrPoints(a, AttrsOf(h, n)[k], s);
      var t, t' := AttrsOf(h, n)[k], AttrsOf(h', n)[k];
      assert AttrRelocated(a, b, t, t');
      if RefPoints(a, t.key, s) { RefPointsOn(a, b, t.key, t'.key, s, o); } else { RefPointsOn(a, b, t.value.s, t'.value.s, s, o); }
      assert AttrPoints(h'.strings, t', o);
    }
  }

  /** String compaction leaves no text that nothing live points at. */
  lemma CompactedNoDeadText(h: Heap, r: Roots, h': Heap, r': Roots)
    requires Ready(h, r, []) && StringsCompacted(h, r, h', r')
    requires FromKept(h.strings.bytes, h'.strings.bytes, LiveTexts(h, ValuesOf(r), HandlesOf(r, [])))
    ensures NoDeadText(h', r')
  {
    var vs, vs', hs, b := ValuesOf(r), ValuesOf(r'), HandlesOf(r, []), h'.strings.bytes;
    RelocatedShapes(h, vs, hs, b, h', vs');
    SameLivePairs(h, vs, h', vs');
    SameLiveNodes(h, vs, hs, h', vs');
    forall o: nat | SegmentStart(b, o) ensures LiveText(h', vs', hs, o) {
      assert KeptText(h.strings.bytes, LiveTexts(h, vs, hs), TextAt(b, o));
      var s: nat :| s in LiveTexts(h, vs, hs) && SegmentStart(h.strings.bytes, s) && TextAt(h.strings.bytes, s) == TextAt(b, o);
      PointsOn(h, vs, hs, h', vs', s, o);
    }
  }

  lemma PointsOn(h: Heap, vs: seq<Value>, hs: seq<int>, h': Heap, vs': seq<Value>, s: nat, o: nat)
    requires RelocatedHeap(h, vs, hs, h'.strings.bytes, h') && ValuesRelocated(h.strings, h'.strings.bytes, vs, vs') && DuplicateFree(h'.strings.bytes)
    requires LivePairs(h', vs') == LivePairs(h, vs) && LiveNodes(h', vs', hs) == LiveNodes(h, vs, hs)
    requires s < |h.strings.bytes| && LiveText(h, vs, hs, s) && SegmentStart(h'.strings.bytes, o) && TextAt(h'.strings.bytes, o) == TextAt(h.strings.bytes, s)
    ensures LiveText(h', vs', hs, o)
  {
    var a, b := h.strings, h'.strings.bytes;
    if i :| 0 <= i < |vs| && ValuePoints(a, vs[i], s) {
      RefPointsOn(a, b, vs[i].str, vs'[i].str, s, o);
      assert ValuePoints(h'.strings, vs'[i], o);
    } else if p :| p in LivePairs(h, vs) && PairPoints(h, p, s) {
      var q, q' := h.pairs[p - 1], h'.pairs[p - 1];
      assert PairRelocated(h, b, h', p);
      if ValuePoints(a, q.first, s) { RefPointsOn(a, b, q.first.str, q'.first.str, s, o); } else { RefPointsOn(a, b, q.second.str, q'.second.str, s, o); }
      assert PairPoints(h', p, o);
    } else {
      var n :| n in LiveNodes(h, vs, hs) && NodePoints(h, n, s);
      assert NodeRelocated(h, b, h', n);
      NodePointsOn(h, b, h', n, s, o);
    }
  }

  lemma UnsoundExtra(h: Heap, r: Roots, extra: seq<int>)
    requires !PairsSound(h, ValuesOf(r)) || exists i :: 0 <= i < |extra| && extra[i] > |h.nodes|
    ensures !RootsSound(h, ValuesOf(r), HandlesOf(r, extra))
  {
    PositiveMembers(extra);
    var hs := HandlesOf(r, extra);
    if i :| 0 <= i < |extra| && extra[i] > |h.nodes| {
      assert extra[i] in Positive(extra);
      assert extra[i] in hs;
    }
  }

  // ----- what each compaction did to heap and roots

  /** The heap and roots after node compaction, and the handle map it hands back. */
  ghost predicate NodesCompacted(h: Heap, r: Roots, extra: seq<int>, h': Heap, r': Roots, handleMap: seq<int>) {
    var nm := RankMap(LiveNodes(h, ValuesOf(r), HandlesOf(r, extra)));
    CompactedHeap(h, ValuesOf(r), HandlesOf(r, extra), h') && r' == MoveRoots(nm, r) && Encodes(handleMap, nm)
  }

  /** The heap and roots after scratch-pair compaction. */
  ghost predicate PairsCompacted(h: Heap, r: Roots, h': Heap, r': Roots) {
    && h' == h.(pairs := h'.pairs) && CompactedPairs(h, ValuesOf(r), h'.pairs)
    && r' == RenameRoots(RankMap(LivePairs(h, ValuesOf(r))), r)
  }

  /** Copying one more string to the end of the arena keeps the heap ready. */
  lemma GrownReady(h: Heap, r: Roots, extra: seq<int>, t: Text)
    requires Ready(h, r, extra) && NulFree(t)
    ensures Ready(Grown(h, t), r, extra)
  {
    GrownExtended(h, t);
    ExtendedSound(h, Grown(h, t), ValuesOf(r), HandlesOf(r, extra));
  }
}
