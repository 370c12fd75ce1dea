/**
 The passes of the collectors: numbering and copying the live nodes and pairs,
 rewriting the roots, and relocating strings into a fresh arena.
 */
module Collector {
  import opened CText
  import opened Heap
  import opened Liveness
  import opened Compaction
  import opened Relocation
  import opened RootSets
  import opened Marking

  // ----- numbering and copying

  /** Numbers the live handles in order, as both collectors do; handles beyond `n` stay 0. */
  method NumberLive(live: seq<bool>, n: nat, size: nat, ghost keep: set<int>) returns (handleMap: seq<int>)
    requires n <= |live| && n <= size
    requires forall k :: k in keep <==> 1 <= k <= n && live[k - 1]
    ensures |handleMap| == size + 1 && Encodes(handleMap, RankMap(keep))
  {
    var a := new int[size + 1](_ => 0);
    var count := 0;
    RankMapBijection(keep, n);
    for i := 0 to n
      invariant count == Rank(keep, i)
      invariant forall k :: 0 <= k <= i ==> a[k] == if k in keep then Rank(keep, k) else 0
      invariant forall k :: i < k < a.Length ==> a[k] == 0
    {
      if live[i] {
        assert i + 1 in keep;
        a[i + 1] := count + 1;
        count := count + 1;
      }
    }
    handleMap := a[..];
  }

  /** aivm_vm_remap_child_handles_for_compaction. */
  method RemapHandles(list: seq<int>, handleMap: seq<int>, ghost nm: map<int, int>) returns (ok: bool, list': seq<int>)
    requires Encodes(handleMap, nm)
    ensures ok <==> AllIn(nm, list)
    ensures ok ==> list' == MoveHandles(nm, list)
  {
    list' := [];
    for i := 0 to |list|
      invariant AllIn(nm, list[..i])
      invariant list' == MoveHandles(nm, list[..i])
    {
      var n := list[i];
      if n <= 0 || n >= |handleMap| || handleMap[n] <= 0 {
        return false, list';
      }
      list' := list' + [handleMap[n]];
      assert list[..i + 1] == list[..i] + [n];
    }
    assert list[..|list|] == list;
    ok := true;
  }

  /** Copies every live record, its attributes and its renamed children into fresh packed arenas. */
  method CopyLiveNodes(h: Heap, live: seq<bool>, handleMap: seq<int>, ghost keep: set<int>) returns (copied: Heap)
    requires |h.nodes| <= |live| && WellFormed(h)
    requires forall n :: n in keep <==> IsNode(h, n) && live[n - 1]
    requires Encodes(handleMap, RankMap(keep)) && ChildrenClosed(h, keep)
    ensures copied.pairs == h.pairs && copied.strings == h.strings && copied.bytes == h.bytes
    ensures WellFormed(copied) && |copied.nodes| == |keep| && AllCopied(h, copied, keep)
    ensures |copied.nodes| <= |h.nodes| && |copied.attrs| <= |h.attrs| && |copied.children| <= |h.children|
  {
    copied := h.(nodes := [], attrs := [], children := []);
    for i := 0 to |h.nodes|
      invariant CopyInv(h, copied, keep, i)
    {
      if live[i] {
        var r := h.nodes[i];
        WellFormedSlices(h, i + 1);
        var kids := Slice(h.children, r.childStart, r.childCount);
        assert kids == ChildrenOf(h, i + 1) && i + 1 in keep;
        var ok, moved := RemapHandles(kids, handleMap, RankMap(keep));
        assert ok;  // no child of a live node is dangling
        CopyNext(h, copied, keep, i);
        copied := AppendNode(copied, r.kind, r.id, Slice(h.attrs, r.attrStart, r.attrCount), moved);
      } else {
        CopySkip(h, copied, keep, i);
      }
    }
    CopyDone(h, copied, keep);
  }

  /** The first half of a node compaction: mark, number and copy, changing nothing. */
  method MarkAndCopy(h: Heap, r: Roots, extra: seq<int>, capacity: nat)
    returns (ok: bool, livePairs: seq<bool>, handleMap: seq<int>, copied: Heap)
    requires |h.nodes| <= capacity && WellFormed(h)
    ensures ok <==> PairsPass(h, ValuesOf(r)) && forall i :: 0 <= i < |extra| ==> extra[i] <= |h.nodes|
    ensures ok ==> Prepared(h, r, extra, livePairs, handleMap, copied)
  {
    ghost var vs, hs := ValuesOf(r), HandlesOf(r, extra);
    livePairs, handleMap, copied := [], [], h;
    var live;
    ok, live := MarkNodes(h, r, extra, capacity);
    if !ok { return; }
    ok, livePairs := MarkPairs(h, r);
    ghost var keep := LiveNodes(h, vs, hs);
    handleMap := NumberLive(live, |h.nodes|, capacity, keep);
    forall n | n in keep && IsNode(h, n) ensures AllIn(RankMap(keep), ChildrenOf(h, n)) { ChildrenKept(h, vs, hs, n); }
    copied := CopyLiveNodes(h, live, handleMap, keep);
  }

  // ----- rewriting the roots of a node compaction

  /** remap_value_node_handle over a list of values. */
  method RemapList(list: seq<Value>, pairCount: nat, handleMap: seq<int>, ghost nm: map<int, int>) returns (ok: bool, list': seq<Value>)
    requires Encodes(handleMap, nm)
    ensures ok <==> AllMovable(nm, pairCount, list)
    ensures ok ==> list' == MoveValues(nm, list)
  {
    list' := list;
    for i := 0 to |list|
      invariant |list'| == |list|
      invariant AllMovable(nm, pairCount, list[..i])
      invariant forall k :: 0 <= k < i ==> list'[k] == MoveValue(nm, list[k])
      invariant forall k :: i <= k < |list| ==> list'[k] == list[k]
    {
      var v := list[i];
      if v.Pair? {
        if !(0 < v.pair <= pairCount) { return false, list'; }
      } else if v.Node? {
        if v.node <= 0 || v.node >= |handleMap| || handleMap[v.node] <= 0 { return false, list'; }
        list' := list'[i := Node(handleMap[v.node])];
      }
      assert list[..i + 1] == list[..i] + [v];
    }
    assert list[..|list|] == list;
    ok := true;
  }

  method RemapPairs(pairs: seq<ScratchPair>, live: seq<bool>, handleMap: seq<int>, ghost nm: map<int, int>) returns (ok: bool, pairs': seq<ScratchPair>)
    requires |live| == |pairs| && Encodes(handleMap, nm)
    ensures ok <==> MarkedMovable(nm, pairs, live)
    ensures ok ==> MarkedMoved(nm, pairs, live, pairs')
  {
    pairs' := pairs;
    for i := 0 to |pairs|
      invariant |pairs'| == |pairs|
      invariant forall k :: 0 <= k < i && live[k] ==> Movable(nm, |pairs|, pairs[k].first) && Movable(nm, |pairs|, pairs[k].second)
      invariant forall k :: 0 <= k < |pairs| ==> pairs'[k] == if k < i && live[k] then MovePair(nm, pairs[k]) else pairs[k]
    {
      if live[i] {
        var both := [pairs[i].first, pairs[i].second];
        var moved;
        ok, moved := RemapList(both, |pairs|, handleMap, nm);
        assert both[0] == pairs[i].first && both[1] == pairs[i].second;
        if !ok { return; }
        assert Movable(nm, |pairs|, both[0]) && Movable(nm, |pairs|, both[1]);
        pairs' := pairs'[i := ScratchPair(moved[0], moved[1])];
      }
    }
    ok := true;
  }

  /** Rewrites the children of the active builders in place. */
  method RemapBuilders(was: seq<Builder>, handleMap: seq<int>, ghost nm: map<int, int>) returns (ok: bool, builders: seq<Builder>)
    requires Encodes(handleMap, nm)
    ensures ok <==> AllIn(nm, BuilderHandles(was))
    ensures ok ==> builders == MoveBuilders(nm, was)
  {
    builders := was;
    for b := 0 to |was|
      invariant |builders| == |was|
      invariant builders[..b] == MoveBuilders(nm, was[..b]) && builders[b..] == was[b..]
      invariant AllIn(nm, BuilderHandles(was[..b]))
    {
      assert was[..b + 1][..b] == was[..b] && builders[b] == was[b];
      if builders[b].active {
        var kids;
        ok, kids := RemapHandles(builders[b].children, handleMap, nm);
        if !ok {
          ghost var k :| 0 <= k < |was[b].children| && was[b].children[k] !in nm;
          BuilderHandleIn(was, b, k);
          return;
        }
        builders := builders[b := builders[b].(children := kids)];
      }
    }
    assert was[..|was|] == was && builders[..|was|] == builders;
    ok := true;
  }

  /** Pinned handles: one that is not positive is not set and stays. */
  method RemapPins(pins: seq<int>, handleMap: seq<int>, ghost nm: map<int, int>) returns (ok: bool, pins': seq<int>)
    requires Encodes(handleMap, nm)
    ensures ok <==> PinsMovable(nm, pins)
    ensures ok ==> pins' == MoveHandles(nm, pins)
  {
    pins' := [];
    for i := 0 to |pins|
      invariant forall k :: 0 <= k < i && pins[k] > 0 ==> pins[k] in nm
      invariant |pins'| == i && forall k :: 0 <= k < i ==> pins'[k] == MoveHandle(nm, pins[k])
    {
      var n := pins[i];
      if n <= 0 {
        pins' := pins' + [n];
      } else if n >= |handleMap| || handleMap[n] <= 0 {
        return false, pins';
      } else {
        pins' := pins' + [handleMap[n]];
      }
    }
    ok := true;
  }

  method RemapTasks(tasks: seq<TaskRecord>, pairCount: nat, handleMap: seq<int>, ghost nm: map<int, int>) returns (ok: bool, tasks': seq<TaskRecord>)
    requires Encodes(handleMap, nm)
    ensures ok <==> AllMovable(nm, pairCount, Results(tasks))
    ensures ok ==> tasks' == MoveTasks(nm, tasks)
  {
    var results;
    ok, results := RemapList(Results(tasks), pairCount, handleMap, nm);
    tasks' := if ok then WithResults(tasks, results) else tasks;
  }

  /** All rewriting passes of a node compaction, in the order the collector runs them; the first failure stops it. */
  method RemapRoots(pairs: seq<ScratchPair>, livePairs: seq<bool>, handleMap: seq<int>, r: Roots, ghost nm: map<int, int>)
    returns (ok: bool, pairs': seq<ScratchPair>, r': Roots)
    requires |livePairs| == |pairs| && Encodes(handleMap, nm)
    ensures ok <==> RemapOk(nm, pairs, livePairs, r)
    ensures ok ==> MarkedMoved(nm, pairs, livePairs, pairs') && r' == MoveRoots(nm, r)
  {
    AllMovableParts(nm, |pairs|, r.stack, r.locals, Results(r.tasks), r.parValues);
    pairs', r' := pairs, r;
    var stack, locals, tasks, parValues, builders, pins;
    ok, stack := RemapList(r.stack, |pairs|, handleMap, nm);
    if !ok { return; }
    ok, locals := RemapList(r.locals, |pairs|, handleMap, nm);
    if !ok { return; }
    ok, tasks := RemapTasks(r.tasks, |pairs|, handleMap, nm);
    if !ok { return; }
    ok, parValues := RemapList(r.parValues, |pairs|, handleMap, nm);
    if !ok { return; }
    ok, pairs' := RemapPairs(pairs, livePairs, handleMap, nm);
    if !ok { return; }
    ok, builders := RemapBuilders(r.builders, handleMap, nm);
    if !ok { return; }
    ok, pins := RemapPins(r.pins, handleMap, nm);
    if !ok { return; }
    r' := Roots(stack, locals, tasks, parValues, builders, pins);
  }

  // ----- scratch pairs

  method RenameRootValues(r: Roots, pairMap: seq<int>, ghost pm: map<int, int>) returns (r': Roots)
    requires Encodes(pairMap, pm)
    requires PairsIn(pm, r.stack) && PairsIn(pm, r.locals) && PairsIn(pm, Results(r.tasks)) && PairsIn(pm, r.parValues)
    ensures r' == RenameRoots(pm, r)
  {
    var stack := RenameList(r.stack, pairMap, pm);
    var locals := RenameList(r.locals, pairMap, pm);
    var results := RenameList(Results(r.tasks), pairMap, pm);
    var parValues := RenameList(r.parValues, pairMap, pm);
    r' := r.(stack := stack, locals := locals, tasks := WithResults(r.tasks, results), parValues := parValues);
    assert r'.tasks == RenameTasks(pm, r.tasks);
  }

  method RenameList(list: seq<Value>, pairMap: seq<int>, ghost pm: map<int, int>) returns (list': seq<Value>)
    requires Encodes(pairMap, pm) && PairsIn(pm, list)
    ensures list' == RenamePairs(pm, list)
  {
    list' := list;
    for i := 0 to |list|
      invariant |list'| == |list|
      invariant forall k :: 0 <= k < i ==> list'[k] == RenamePair(pm, list[k])
      invariant forall k :: i <= k < |list| ==> list'[k] == list[k]
    {
      var v := list[i];
      if v.Pair? {
        // in range and mapped: the failure branch is unreachable once marking succeeded
        list' := list'[i := Pair(pairMap[v.pair])];
      }
    }
  }

  /** Copies the live pairs to their new places and renames the references among them. */
  method CopyLivePairs(h: Heap, live: seq<bool>, pairMap: seq<int>, ghost keep: set<int>) returns (copied: seq<ScratchPair>)
    requires |live| == |h.pairs| && Encodes(pairMap, RankMap(keep))
    requires forall k :: k in keep <==> 1 <= k <= |h.pairs| && live[k - 1]
    requires forall p :: p in keep ==> PairIn(RankMap(keep), h.pairs[p - 1].first) && PairIn(RankMap(keep), h.pairs[p - 1].second)
    ensures |copied| == |keep| && PairsCopied(h, copied, keep, |h.pairs|)
  {
    ghost var pm := RankMap(keep);
    copied := [];
    RankTotal(keep, |h.pairs|);
    for i := 0 to |h.pairs|
      invariant |copied| == Rank(keep, i)
      invariant PairsCopied(h, copied, keep, i)
    {
      if live[i] {
        var both := [h.pairs[i].first, h.pairs[i].second];
        assert i + 1 in keep && PairIn(pm, both[0]) && PairIn(pm, both[1]);
        var renamed := RenameList(both, pairMap, pm);
        PairsCopiedNext(h, copied, keep, i, ScratchPair(renamed[0], renamed[1]));
        copied := copied + [ScratchPair(renamed[0], renamed[1])];
      }
    }
  }

  method MarkAndCopyPairs(h: Heap, r: Roots) returns (ok: bool, pairMap: seq<int>, copied: seq<ScratchPair>)
    ensures ok <==> PairsPass(h, ValuesOf(r))
    ensures ok ==> Encodes(pairMap, RankMap(LivePairs(h, ValuesOf(r)))) && CompactedPairs(h, ValuesOf(r), copied)
  {
    ghost var vs := ValuesOf(r);
    copied, pairMap := [], [];
    var live;
    ok, live := MarkPairs(h, r);
    if !ok { return; }
    ghost var keep := LivePairs(h, vs);
    pairMap := NumberLive(live, |h.pairs|, |h.pairs|, keep);
    forall p | p in keep ensures PairIn(RankMap(keep), h.pairs[p - 1].first) && PairIn(RankMap(keep), h.pairs[p - 1].second) {
      LivePairComponent(h, vs, p);
    }
    copied := CopyLivePairs(h, live, pairMap, keep);
    AllPairsCopied(h, vs, copied);
  }

  // ----- strings

  /** The string pointers of stack, locals, task results and parallel values, in that order. */
  method RelocateRootValues(a: Arena, r: Roots, b: seq<Byte>, ghost used: set<nat>, ghost keep: set<nat>, capacity: nat) returns (r': Roots, b': seq<Byte>, ghost used': set<nat>)
    requires Terminated(a.bytes) && |a.bytes| <= capacity && Room(a.bytes, b, used, keep)
    requires forall i :: 0 <= i < |ValuesOf(r)| ==> ValueOk(a, ValuesOf(r)[i]) && ValueWanted(a, keep, ValuesOf(r)[i])
    ensures ValuesRelocated(a, b', ValuesOf(r), ValuesOf(r')) && r'.builders == r.builders && r'.pins == r.pins && SameShape(r, r')
    ensures Extends(b, b') && Room(a.bytes, b', used', keep)
  {
    ghost var vs := ValuesOf(r);
    ghost var s, l, t := |r.stack|, |r.stack| + |r.locals|, |r.stack| + |r.locals| + |r.tasks|;
    assert vs[..s] == r.stack && vs[s..l] == r.locals && vs[l..t] == Results(r.tasks) && vs[t..] == r.parValues;
    var stack, locals, results, parValues;
    stack, b', used' := RelocateList(a, r.stack, b, used, keep, capacity);
    ghost var b1 := b';
    locals, b', used' := RelocateList(a, r.locals, b', used', keep, capacity);
    ghost var b2 := b';
    results, b', used' := RelocateList(a, Results(r.tasks), b', used', keep, capacity);
    ghost var b3 := b';
    parValues, b', used' := RelocateList(a, r.parValues, b', used', keep, capacity);
    ValuesRelocatedStay(a, b1, b', vs[..s], stack);
    ValuesRelocatedStay(a, b2, b', vs[s..l], locals);
    ValuesRelocatedStay(a, b3, b', vs[l..t], results);
    JoinRelocated(a, b', vs, stack, locals, results, parValues);
    r' := Roots(stack, locals, WithResults(r.tasks, results), parValues, r.builders, r.pins);
  }

  /** Strings held by live pairs and live nodes, after those of the root values. */
  method RelocatePairsAndNodes(h: Heap, livePairs: seq<bool>, live: seq<bool>, ghost vs: seq<Value>, ghost hs: seq<int>, b: seq<Byte>, ghost used: set<nat>, ghost keep: set<nat>, capacity: nat)
    returns (h': Heap, ghost used': set<nat>)
    requires Terminated(h.strings.bytes) && |h.strings.bytes| <= capacity && Room(h.strings.bytes, b, used, keep)
    requires MarksPairs(h, vs, livePairs) && MarksNodes(h, vs, hs, live)
    requires WellFormed(h) && StringsSound(h, vs, hs) && keep == LiveTexts(h, vs, hs)
    ensures RelocatedHeap(h, vs, hs, h'.strings.bytes, h')
    ensures Extends(b, h'.strings.bytes) && Room(h.strings.bytes, h'.strings.bytes, used', keep)
  {
    VisitedWanted(h, vs, hs);
    forall i | 0 <= i < |h.pairs| && livePairs[i]
      ensures ValueOk(h.strings, h.pairs[i].first) && ValueOk(h.strings, h.pairs[i].second)
      ensures ValueWanted(h.strings, keep, h.pairs[i].first) && ValueWanted(h.strings, keep, h.pairs[i].second)
    {
      assert i + 1 in LivePairs(h, vs);
    }
    forall i | 0 <= i < |h.nodes| && live[i] ensures RecordOk(h.strings, h.nodes[i], h.attrs) && RecordWanted(h.strings, keep, h.nodes[i], h.attrs) {
      assert IsNode(h, i + 1) && i + 1 in LiveNodes(h, vs, hs);
      NodeOkRecord(h, i + 1);
      NodeWanted(h, vs, hs, i + 1);
    }
    var newPairs, newNodes, newAttrs, b';
    newPairs, b', used' := RelocatePairs(h.strings, h.pairs, livePairs, b, used, keep, capacity);
    ghost var b1 := b';
    newNodes, newAttrs, b', used' := RelocateNodes(h.strings, h.nodes, h.attrs, |h.children|, live, b', used', keep, capacity);
    RelocatedFrom(h, vs, hs, livePairs, live, b1, b', newPairs, newNodes, newAttrs);
    h' := Heap(newNodes, newAttrs, h.children, newPairs, Arena(h.strings.epoch + 1, b'), h.bytes);
  }

  /** Everything string compaction writes: the relocated roots and the heap over the fresh arena. */
  method RelocateAll(h: Heap, r: Roots, nodeCapacity: nat, stringCapacity: nat) returns (h': Heap, r': Roots)
    requires Ready(h, r, []) && |h.nodes| <= nodeCapacity && |h.strings.bytes| <= stringCapacity
    ensures StringsCompacted(h, r, h', r') && NoDeadText(h', r')
  {
    ghost var vs, hs := ValuesOf(r), HandlesOf(r, []);
    var ok, live := MarkNodes(h, r, [], nodeCapacity);
    var livePairs;
    ok, livePairs := MarkPairs(h, r);
    ghost var used: set<nat>, keep := {}, LiveTexts(h, vs, hs);
    VisitedWanted(h, vs, hs);
    var b: seq<Byte> := [];
    assert Room(h.strings.bytes, b, used, keep);
    r', b, used := RelocateRootValues(h.strings, r, b, used, keep, stringCapacity);
    h', used := RelocatePairsAndNodes(h, livePairs, live, vs, hs, b, used, keep, stringCapacity);
    ValuesRelocatedStay(h.strings, b, h'.strings.bytes, vs, ValuesOf(r'));
    RoomBound(h.strings.bytes, h'.strings.bytes, used, keep);
    CompactedNoDeadText(h, r, h', r');
  }
}
