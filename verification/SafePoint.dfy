/**
 What one collection at a safe point keeps, step by step: nodes, scratch pairs,
 strings, then bytes. The VM is sane between the steps.
 */
module SafePoint {
  import opened CText
  import opened Heap
  import opened Liveness
  import opened Compaction
  import opened Relocation
  import opened RootSets
  import opened BytesViews
  import opened Allocation
  import opened NodeCreation
  import opened BytesCompaction

  const EmptyHeap := Heap([], [], [], [], Arena(0, []), Arena(0, []))

  lemma EmptyReady()
    ensures Ready(EmptyHeap, NoRoots, [])
  {
    var h, none: set<int> := EmptyHeap, {};
    assert ValuesOf(NoRoots) == [] && HandlesOf(NoRoots, []) == [];
    assert PairsClosed(h, [], none);
    assert NodesClosed(h, [], [], none);
    assert PairsSound(h, []);
    assert StringsSound(h, [], []);
  }

  lemma EmptySane(c: Capacities, limit: nat)
    requires limit <= c.strings
    ensures Sane(EmptyHeap, NoRoots, c, limit, Index([], 0, true), {})
  {
    EmptyReady();
    assert NodesFit(EmptyHeap, c);
    assert InternIndex.Table([], 0) && InternIndex.IndexOk([], [], 0, true, {});
    assert ValuesOf(NoRoots) == [];
    assert BytesFit(EmptyHeap.bytes, [], [], c.bytes);
  }

  /** As many nodes are left as were live, and the same pairs are live. */
  ghost predicate OnlyLiveNodes(h: Heap, r: Roots, h': Heap, r': Roots) {
    |h'.nodes| == |LiveNodes(h, ValuesOf(r), HandlesOf(r, []))| && LivePairs(h', ValuesOf(r')) == LivePairs(h, ValuesOf(r))
  }

  /** Nothing but live nodes, live pairs and live texts is left, and no text is stored twice. */
  ghost predicate Collected(h: Heap, r: Roots, h': Heap, r': Roots) {
    && |h'.nodes| == |LiveNodes(h, ValuesOf(r), HandlesOf(r, []))| && |h'.pairs| == |LivePairs(h, ValuesOf(r))|
    && DuplicateFree(h'.strings.bytes) && NoDeadText(h', r')
  }

  /** The bytes left are those of the live views, each once. */
  ghost predicate OnlyLiveBytes(h: Heap, r: Roots, h': Heap) {
    forall views :: LiveViews(h, ValuesOf(r), views) ==> |h'.bytes.bytes| == TotalOf(views)
  }

  lemma CompactedOnlyLiveBytes(h: Heap, r: Roots, table: seq<Move>, h': Heap, vs': seq<Value>)
    requires BytesCompacted(h, ValuesOf(r), table, h', vs')
    ensures OnlyLiveBytes(h, r, h')
  {
    forall views: set<Span> | LiveViews(h, ValuesOf(r), views) ensures |h'.bytes.bytes| == TotalOf(views) {
      LiveViewsUnique(h, ValuesOf(r), views, Spans(table));
    }
  }

  /** An empty arena holds no view but empty ones. */
  lemma EmptyBytesLive(h: Heap, r: Roots, c: Capacities)
    requires h.bytes.bytes == [] && BytesFit(h.bytes, h.pairs, ValuesOf(r), c.bytes)
    ensures OnlyLiveBytes(h, r, h)
  {
    forall views: set<Span> | LiveViews(h, ValuesOf(r), views) ensures TotalOf(views) == 0 { LiveViewsFit(h, ValuesOf(r), views, c.bytes); }
  }

  lemma NoNodes(h: Heap, r: Roots)
    requires |h.nodes| == 0
    ensures OnlyLiveNodes(h, r, h, r) && RootsPreserved(h, r, h, r)
  {
    SameHeapPreserved(h, r, []);
    assert forall n :: n !in LiveNodes(h, ValuesOf(r), HandlesOf(r, []));
  }

  lemma NoPairs(h: Heap, r: Roots)
    requires |h.pairs| == 0
    ensures LivePairs(h, ValuesOf(r)) == {} && RootsPreserved(h, r, h, r)
  {
    SameHeapPreserved(h, r, []);
    assert forall p :: p !in LivePairs(h, ValuesOf(r));
  }

  // ----- nodes

  lemma NodeStep(h: Heap, r: Roots, h': Heap, r': Roots, handleMap: seq<int>, c: Capacities, limit: nat, index: Index, copied: set<Text>)
    requires Sane(h, r, c, limit, index, copied) && NodesCompacted(h, r, [], h', r', handleMap) && NodesFit(h', c)
    ensures Sane(h', r', c, limit, index, copied) && RootsPreserved(h, r, h', r') && OnlyLiveNodes(h, r, h', r')
  {
    MovedParts(h, r, []);
    CompactedPairShapes(h, ValuesOf(r), HandlesOf(r, []), h');
    CompactionKeepsSane(h, r, [], h', r', handleMap, c, limit, index, copied);
    assert MoveHandles(RankMap(LiveNodes(h, ValuesOf(r), HandlesOf(r, []))), []) == [];
  }

  // ----- pairs

  lemma PairsKeepLive(h: Heap, vs: seq<Value>, hs: seq<int>, pairs': seq<ScratchPair>)
    requires WellFormed(h) && RootsSound(h, vs, hs) && CompactedPairs(h, vs, pairs')
    ensures LiveNodes(h.(pairs := pairs'), RenamePairs(RankMap(LivePairs(h, vs)), vs), hs) <= LiveNodes(h, vs, hs)
  {
    var h', vs' := h.(pairs := pairs'), RenamePairs(RankMap(LivePairs(h, vs)), vs);
    var all := LiveNodes(h, vs, hs);
    forall i | 0 <= i < |vs'| ensures ValueIn(h', vs'[i], all) { RootKept(h, vs, hs, i); }
    forall i | 0 <= i < |hs| ensures hs[i] in all { HandleKept(h, vs, hs, i); }
    forall p | IsPair(h', p) ensures ValueIn(h', h'.pairs[p - 1].first, all) && ValueIn(h', h'.pairs[p - 1].second, all) {
      var q := PairFrom(h, vs, pairs', p);
      PairKept(h, vs, hs, q);
    }
    forall n | n in all && IsNode(h', n) ensures KidsIn(h', n, all) { ChildrenKept(h, vs, hs, n); }
    assert NodesClosed(h', vs', hs, all);
  }

  lemma PairsKeepStrings(h: Heap, vs: seq<Value>, hs: seq<int>, pairs': seq<ScratchPair>)
    requires WellFormed(h) && RootsSound(h, vs, hs) && StringsSound(h, vs, hs) && CompactedPairs(h, vs, pairs')
    ensures StringsSound(h.(pairs := pairs'), RenamePairs(RankMap(LivePairs(h, vs)), vs), hs)
  {
    var h', vs' := h.(pairs := pairs'), RenamePairs(RankMap(LivePairs(h, vs)), vs);
    PairsKeepLive(h, vs, hs, pairs');
    forall p | p in LivePairs(h', vs') ensures ValueOk(h'.strings, h'.pairs[p - 1].first) && ValueOk(h'.strings, h'.pairs[p - 1].second) {
      var q := PairFrom(h, vs, pairs', p);
    }
    forall n | n in LiveNodes(h', vs', hs) ensures NodeOk(h', n) {
      assert NodeOk(h, n) && AttrsOf(h', n) == AttrsOf(h, n);
    }
  }

  lemma PairStep(h: Heap, r: Roots, h': Heap, r': Roots, c: Capacities, limit: nat, index: Index, copied: set<Text>)
    requires Sane(h, r, c, limit, index, copied) && PairsCompacted(h, r, h', r')
    ensures Sane(h', r', c, limit, index, copied) && RootsPreserved(h, r, h', r') && |h'.pairs| == |LivePairs(h, ValuesOf(r))| && h'.nodes == h.nodes
  {
    var vs, hs := ValuesOf(r), HandlesOf(r, []);
    RenameRootsParts(RankMap(LivePairs(h, vs)), r);
    PairCompactionSound(h, vs, hs, h'.pairs);
    PairsKeepStrings(h, vs, hs, h'.pairs);
    PairCompactionKeepsMeaning(h, vs, hs, h'.pairs);
    PairsKeepViews(h, r, h', r', c.bytes);
  }

  // ----- strings and bytes

  lemma SettledKeeps(h: Heap, r: Roots, h': Heap, r': Roots)
    requires Ready(h, r, []) && Settled(h, r, h', r')
    ensures RootsPreserved(h, r, h', r') && |h'.nodes| == |h.nodes| && |h'.pairs| == |h.pairs|
  {
    if StringsCompacted(h, r, h', r') {
      StringsCompactedMeaning(h, r, h', r');
    } else {
      SameHeapPreserved(h, r, []);
    }
  }

  lemma BytesStep(h: Heap, r: Roots, table: seq<Move>, h': Heap, r': Roots, c: Capacities, limit: nat, index: Index, copied: set<Text>)
    requires Sane(h, r, c, limit, index, copied) && BytesCompacted(h, ValuesOf(r), table, h', ValuesOf(r'))
    requires r'.builders == r.builders && r'.pins == r.pins && SameShape(r, r')
    ensures Sane(h', r', c, limit, index, copied) && RootsPreserved(h, r, h', r') && |h'.bytes.bytes| <= |h.bytes.bytes|
  {
    BytesCompactionSound(h, r, table, h', r', c.bytes);
    BytesCompactionKeepsMeaning(h, ValuesOf(r), HandlesOf(r, []), table, h', ValuesOf(r'), c.bytes);
  }

  /** The live views always fit a fresh arena: no overlap, so no capacity failure midway. */
  lemma ViewsFit(h: Heap, r: Roots, c: Capacities)
    requires BytesFit(h.bytes, h.pairs, ValuesOf(r), c.bytes)
    ensures forall views :: LiveViews(h, ValuesOf(r), views) ==> TotalOf(views) <= c.bytes
  {
    forall views: set<Span> | LiveViews(h, ValuesOf(r), views) ensures TotalOf(views) <= c.bytes {
      LiveViewsFit(h, ValuesOf(r), views, c.bytes);
    }
  }
}
