/**
 What node creation keeps while it collects mid-call: a heap that stays ready
 for the roots and the half-built node's children, and what all of them denote.
 */
module NodeCreation {
  import opened CText
  import opened Heap
  import opened Liveness
  import opened Compaction
  import opened Relocation
  import opened RootSets
  import opened BytesViews
  import opened Allocation

  ghost predicate InRange(h: Heap, kids: seq<int>) {
    forall i :: 0 <= i < |kids| ==> IsNode(h, kids[i])
  }

  /** The roots, and the children of the node being built, denote the same things in both heaps. */
  ghost predicate Preserved(h: Heap, r: Roots, kids: seq<int>, h': Heap, r': Roots, kids': seq<int>) {
    RootsPreserved(h, r, h', r') && SameMeaning(h, NodeValues(kids), h', NodeValues(kids'))
  }

  /** The same root lists, each entry of which denotes what it did. */
  ghost predicate RootsPreserved(h: Heap, r: Roots, h': Heap, r': Roots) {
    && SameShape(r, r') && SameMeaning(h, ValuesOf(r), h', ValuesOf(r'))
    && SameMeaning(h, NodeValues(HandlesOf(r, [])), h', NodeValues(HandlesOf(r', [])))
  }

  lemma SameMeaningTwice(h: Heap, vs: seq<Value>, h1: Heap, vs1: seq<Value>, h2: Heap, vs2: seq<Value>)
    requires SameMeaning(h, vs, h1, vs1) && SameMeaning(h1, vs1, h2, vs2)
    ensures SameMeaning(h, vs, h2, vs2)
  {
    forall i | 0 <= i < |vs| ensures SameValue(h, vs[i], h2, vs2[i]) {
      assert SameValue(h, vs[i], h1, vs1[i]) && SameValue(h1, vs1[i], h2, vs2[i]);
      forall depth: nat ensures MeaningOf(h, vs[i], depth) == MeaningOf(h2, vs2[i], depth) {
        assert MeaningOf(h, vs[i], depth) == MeaningOf(h1, vs1[i], depth);
      }
    }
  }

  lemma RootsPreservedTwice(h: Heap, r: Roots, h1: Heap, r1: Roots, h2: Heap, r2: Roots)
    requires RootsPreserved(h, r, h1, r1) && RootsPreserved(h1, r1, h2, r2)
    ensures RootsPreserved(h, r, h2, r2)
  {
    SameMeaningTwice(h, ValuesOf(r), h1, ValuesOf(r1), h2, ValuesOf(r2));
    SameMeaningTwice(h, NodeValues(HandlesOf(r, [])), h1, NodeValues(HandlesOf(r1, [])), h2, NodeValues(HandlesOf(r2, [])));
  }

  lemma SameMeaningParts(h: Heap, xs: seq<Value>, ys: seq<Value>, h': Heap, xs': seq<Value>, ys': seq<Value>)
    requires SameMeaning(h, xs + ys, h', xs' + ys') && |xs| == |xs'|
    ensures SameMeaning(h, xs, h', xs') && SameMeaning(h, ys, h', ys')
  {
    forall i | 0 <= i < |xs| ensures SameValue(h, xs[i], h', xs'[i]) {
      assert SameValue(h, (xs + ys)[i], h', (xs' + ys')[i]);
    }
    forall i | 0 <= i < |ys| ensures SameValue(h, ys[i], h', ys'[i]) {
      assert SameValue(h, (xs + ys)[|xs| + i], h', (xs' + ys')[|xs| + i]);
    }
  }

  /** List by list: what stood on the stack, in a local, in a task's result or among the parallel values stands there
      still, and each task keeps its handle. */
  lemma ListByList(h: Heap, r: Roots, h': Heap, r': Roots)
    requires RootsPreserved(h, r, h', r')
    ensures SameMeaning(h, r.stack, h', r'.stack) && SameMeaning(h, r.locals, h', r'.locals)
    ensures SameMeaning(h, Results(r.tasks), h', Results(r'.tasks)) && SameMeaning(h, r.parValues, h', r'.parValues)
    ensures TaskHandles(r'.tasks) == TaskHandles(r.tasks)
  {
    assert |r.tasks| == |TaskHandles(r.tasks)| == |r'.tasks|;
    SameMeaningParts(h, r.stack + r.locals + Results(r.tasks), r.parValues, h', r'.stack + r'.locals + Results(r'.tasks), r'.parValues);
    SameMeaningParts(h, r.stack + r.locals, Results(r.tasks), h', r'.stack + r'.locals, Results(r'.tasks));
    SameMeaningParts(h, r.stack, r.locals, h', r'.stack, r'.locals);
  }

  /** Builder by builder: the children of an active builder denote what they did. */
  lemma {:induction false} BuilderByBuilder(h: Heap, bs: seq<Builder>, h': Heap, bs': seq<Builder>, b: nat)
    requires BuilderShapes(bs') == BuilderShapes(bs) && SameMeaning(h, NodeValues(BuilderHandles(bs)), h', NodeValues(BuilderHandles(bs')))
    requires b < |bs| && bs[b].active
    ensures |bs'| == |bs| && bs'[b].active && SameMeaning(h, NodeValues(bs[b].children), h', NodeValues(bs'[b].children))
    decreases |bs|
  {
    LastBuilder(h, bs, h', bs');
    if b < |bs| - 1 { BuilderByBuilder(h, bs[..|bs| - 1], h', bs'[..|bs| - 1], b); }
  }

  lemma LastBuilder(h: Heap, bs: seq<Builder>, h': Heap, bs': seq<Builder>)
    requires bs != [] && BuilderShapes(bs') == BuilderShapes(bs) && SameMeaning(h, NodeValues(BuilderHandles(bs)), h', NodeValues(BuilderHandles(bs')))
    ensures var k := |bs| - 1;
            && |bs'| == |bs| && BuilderShapes(bs'[..k]) == BuilderShapes(bs[..k]) && bs'[k].active == bs[k].active
            && SameMeaning(h, NodeValues(BuilderHandles(bs[..k])), h', NodeValues(BuilderHandles(bs'[..k])))
            && (bs[k].active ==> SameMeaning(h, NodeValues(bs[k].children), h', NodeValues(bs'[k].children)))
  {
    LastShape(bs, bs');
    var k := |bs| - 1;
    var a, a', c, c' := BuilderHandles(bs[..k]), BuilderHandles(bs'[..k]), if bs[k].active then bs[k].children else [], if bs'[k].active then bs'[k].children else [];
    SameHandleCount(bs[..k], bs'[..k]);
    assert BuilderHandles(bs) == a + c && BuilderHandles(bs') == a' + c';
    SameMeaningSplit(h, a, c, h', a', c');
  }

  lemma {:induction false} SameHandleCount(bs: seq<Builder>, bs': seq<Builder>)
    requires BuilderShapes(bs') == BuilderShapes(bs)
    ensures |BuilderHandles(bs)| == |BuilderHandles(bs')|
  {
    assert |bs| == |BuilderShapes(bs)| == |bs'|;
    if bs != [] {
      LastShape(bs, bs');
      SameHandleCount(bs[..|bs| - 1], bs'[..|bs| - 1]);
    }
  }

  lemma LastShape(bs: seq<Builder>, bs': seq<Builder>)
    requires BuilderShapes(bs') == BuilderShapes(bs) && bs != []
    ensures var k := |bs| - 1;
            && |bs'| == |bs| && BuilderShapes(bs'[..k]) == BuilderShapes(bs[..k])
            && bs'[k].active == bs[k].active && |bs'[k].children| == |bs[k].children|
  {
    assert |bs| == |BuilderShapes(bs)| == |bs'|;
    var k := |bs| - 1;
    assert BuilderShapes(bs)[k] == BuilderShapes(bs')[k];
    assert BuilderShape(bs[k]) == BuilderShape(bs'[k]);
    assert BuilderShapes(bs[..k]) == BuilderShapes(bs)[..k] && BuilderShapes(bs'[..k]) == BuilderShapes(bs')[..k];
  }

  lemma PreservedTwice(h: Heap, r: Roots, kids: seq<int>, h1: Heap, r1: Roots, kids1: seq<int>, h2: Heap, r2: Roots, kids2: seq<int>)
    requires Preserved(h, r, kids, h1, r1, kids1) && Preserved(h1, r1, kids1, h2, r2, kids2)
    ensures Preserved(h, r, kids, h2, r2, kids2)
  {
    RootsPreservedTwice(h, r, h1, r1, h2, r2);
    SameMeaningTwice(h, NodeValues(kids), h1, NodeValues(kids1), h2, NodeValues(kids2));
  }

  lemma SameMeaningSplit(h: Heap, a: seq<int>, b: seq<int>, h': Heap, a': seq<int>, b': seq<int>)
    requires SameMeaning(h, NodeValues(a + b), h', NodeValues(a' + b')) && |a| == |a'|
    ensures SameMeaning(h, NodeValues(a), h', NodeValues(a')) && SameMeaning(h, NodeValues(b), h', NodeValues(b'))
  {
    assert NodeValues(a + b) == NodeValues(a) + NodeValues(b) && NodeValues(a' + b') == NodeValues(a') + NodeValues(b');
    SameMeaningParts(h, NodeValues(a), NodeValues(b), h', NodeValues(a'), NodeValues(b'));
  }

  lemma {:induction false} PositiveAll(kids: seq<int>)
    requires forall i :: 0 <= i < |kids| ==> kids[i] > 0
    ensures Positive(kids) == kids
  {
    if kids != [] { PositiveAll(kids[..|kids| - 1]); }
  }

  lemma ExtraLast(h: Heap, r: Roots, kids: seq<int>)
    requires InRange(h, kids)
    ensures HandlesOf(r, kids) == HandlesOf(r, []) + kids
  {
    PositiveAll(kids);
  }

  lemma MoreLive(h: Heap, vs: seq<Value>, hs: seq<int>, more: seq<int>)
    ensures LiveNodes(h, vs, hs) <= LiveNodes(h, vs, hs + more)
  {
    forall ns: set<int> | NodesClosed(h, vs, hs + more, ns) ensures NodesClosed(h, vs, hs, ns) {
      forall i | 0 <= i < |hs| && IsNode(h, hs[i]) ensures hs[i] in ns { assert (hs + more)[i] == hs[i]; }
    }
  }

  /** A heap ready with extra handles is ready without them. */
  lemma FewerExtra(h: Heap, r: Roots, kids: seq<int>)
    requires Ready(h, r, kids) && InRange(h, kids)
    ensures Ready(h, r, [])
  {
    ExtraLast(h, r, kids);
    var vs, hs := ValuesOf(r), HandlesOf(r, []);
    MoreLive(h, vs, hs, kids);
    forall i | 0 <= i < |hs| ensures IsNode(h, hs[i]) { assert (hs + kids)[i] == hs[i]; }
  }

  // ----- node compaction

  lemma CompactedNodeOk(h: Heap, vs: seq<Value>, hs: seq<int>, h': Heap, m: int)
    requires StringsSound(h, vs, hs) && CompactedHeap(h, vs, hs, h') && IsNode(h', m)
    ensures NodeOk(h', m)
  {
    var keep := LiveNodes(h, vs, hs);
    RankMapBijection(keep, |h.nodes|);
    var nm := RankMap(keep);
    assert m in nm.Values;
    var n :| n in nm && nm[n] == m;
    assert Copied(h, h', nm, n) && NodeOk(h, n);
  }

  lemma CompactedStringsSound(h: Heap, vs: seq<Value>, hs: seq<int>, h': Heap)
    requires RootsSound(h, vs, hs) && StringsSound(h, vs, hs) && CompactedHeap(h, vs, hs, h')
    ensures var nm := RankMap(LiveNodes(h, vs, hs)); StringsSound(h', MoveValues(nm, vs), MoveHandles(nm, hs))
  {
    var nm := RankMap(LiveNodes(h, vs, hs));
    var vs' := MoveValues(nm, vs);
    CompactedPairShapes(h, vs, hs, h');
    forall n | n in LiveNodes(h', vs', MoveHandles(nm, hs)) ensures NodeOk(h', n) {
      CompactedNodeOk(h, vs, hs, h', n);
    }
  }

  lemma ChildrenMoved(h: Heap, r: Roots, kids: seq<int>)
    requires RootsSound(h, ValuesOf(r), HandlesOf(r, kids)) && InRange(h, kids)
    ensures var keep := LiveNodes(h, ValuesOf(r), HandlesOf(r, kids));
            && AllIn(RankMap(keep), kids)
            && forall i :: 0 <= i < |kids| ==> 1 <= MoveHandles(RankMap(keep), kids)[i] <= |keep|
  {
    var vs, hs := ValuesOf(r), HandlesOf(r, kids);
    RankMapBijection(LiveNodes(h, vs, hs), |h.nodes|);
    ExtraLast(h, r, kids);
    forall i | 0 <= i < |kids| ensures kids[i] in LiveNodes(h, vs, hs) {
      assert hs[|HandlesOf(r, [])| + i] == kids[i];
      HandleKept(h, vs, hs, |HandlesOf(r, [])| + i);
    }
  }

  lemma MovedParts(h: Heap, r: Roots, kids: seq<int>)
    ensures var nm := RankMap(LiveNodes(h, ValuesOf(r), HandlesOf(r, kids)));
            var r' := MoveRoots(nm, r);
            && ValuesOf(r') == MoveValues(nm, ValuesOf(r)) && HandlesOf(r', []) == MoveHandles(nm, HandlesOf(r, []))
            && HandlesOf(r', MoveHandles(nm, kids)) == MoveHandles(nm, HandlesOf(r, kids)) && SameShape(r, r')
  {
    var nm := RankMap(LiveNodes(h, ValuesOf(r), HandlesOf(r, kids)));
    RankMapBijection(LiveNodes(h, ValuesOf(r), HandlesOf(r, kids)), |h.nodes|);
    MoveRootsParts(nm, r, kids);
    MoveRootsParts(nm, r, []);
    MoveRootsShape(nm, r);
    assert MoveHandles(nm, []) == [];
  }

  lemma CompactionKeepsReady(h: Heap, r: Roots, kids: seq<int>, h': Heap)
    requires Ready(h, r, kids) && CompactedHeap(h, ValuesOf(r), HandlesOf(r, kids), h') && WellFormed(h')
    ensures var nm := RankMap(LiveNodes(h, ValuesOf(r), HandlesOf(r, kids)));
            Ready(h', MoveRoots(nm, r), MoveHandles(nm, kids))
  {
    MovedParts(h, r, kids);
    CompactedSound(h, ValuesOf(r), HandlesOf(r, kids), h');
    CompactedStringsSound(h, ValuesOf(r), HandlesOf(r, kids), h');
  }

  /** After a compaction that named the children as extra roots, the moved children stand where the old ones stood. */
  lemma CompactionKeepsChildren(h: Heap, r: Roots, kids: seq<int>, h': Heap)
    requires RootsSound(h, ValuesOf(r), HandlesOf(r, kids)) && InRange(h, kids) && CompactedHeap(h, ValuesOf(r), HandlesOf(r, kids), h')
    ensures var nm := RankMap(LiveNodes(h, ValuesOf(r), HandlesOf(r, kids)));
            var kids' := MoveHandles(nm, kids);
            AllIn(nm, kids) && InRange(h', kids') && Preserved(h, r, kids, h', MoveRoots(nm, r), kids')
  {
    var nm := RankMap(LiveNodes(h, ValuesOf(r), HandlesOf(r, kids)));
    var r', kids' := MoveRoots(nm, r), MoveHandles(nm, kids);
    ChildrenMoved(h, r, kids);
    MovedParts(h, r, kids);
    NodeCompactionKeepsMeaning(h, ValuesOf(r), HandlesOf(r, kids), h');
    ExtraLast(h, r, kids);
    ExtraLast(h', r', kids');
    SameMeaningSplit(h, HandlesOf(r, []), kids, h', HandlesOf(r', []), kids');
  }

  /** Every node is reachable from the roots or the children: nothing is left to collect. */
  ghost predicate NoGarbage(h: Heap, r: Roots, kids: seq<int>) {
    forall n :: IsNode(h, n) ==> LiveNode(h, ValuesOf(r), HandlesOf(r, kids), n)
  }

  lemma PullBackClosed(h: Heap, vs: seq<Value>, hs: seq<int>, h': Heap, ns: set<int>, back: set<int>)
    requires RootsSound(h, vs, hs) && CompactedHeap(h, vs, hs, h')
    requires var nm := RankMap(LiveNodes(h, vs, hs)); NodesClosed(h', MoveValues(nm, vs), MoveHandles(nm, hs), ns)
    requires forall n :: n in back <==> n in LiveNodes(h, vs, hs) && RankMap(LiveNodes(h, vs, hs))[n] in ns
    ensures NodesClosed(h, vs, hs, back)
  {
    var keep := LiveNodes(h, vs, hs);
    var nm := RankMap(keep);
    var vs', hs' := MoveValues(nm, vs), MoveHandles(nm, hs);
    RankMapBijection(keep, |h.nodes|);
    CompactedPairShapes(h, vs, hs, h');
    forall i | 0 <= i < |vs| ensures ValueIn(h, vs[i], back) {
      RootKept(h, vs, hs, i);
      assert ValueIn(h', vs'[i], ns);
    }
    forall i | 0 <= i < |hs| ensures hs[i] in back {
      HandleKept(h, vs, hs, i);
      assert IsNode(h', hs'[i]);
    }
    forall p | IsPair(h, p) && LivePair(h, vs, p) ensures ValueIn(h, h.pairs[p - 1].first, back) && ValueIn(h, h.pairs[p - 1].second, back) {
      PairKept(h, vs, hs, p);
      assert LivePair(h', vs', p);
      assert ValueIn(h', h'.pairs[p - 1].first, ns) && ValueIn(h', h'.pairs[p - 1].second, ns);
    }
    forall n | n in back && IsNode(h, n) ensures KidsIn(h, n, back) {
      assert Copied(h, h', nm, n);
      assert KidsIn(h', nm[n], ns);
      forall k | 0 <= k < |ChildrenOf(h, n)| ensures ChildrenOf(h, n)[k] in back {
        assert ChildrenOf(h', nm[n])[k] == nm[ChildrenOf(h, n)[k]];
      }
    }
  }

  lemma CompactedPairShapes(h: Heap, vs: seq<Value>, hs: seq<int>, h': Heap)
    requires CompactedHeap(h, vs, hs, h')
    ensures var vs' := MoveValues(RankMap(LiveNodes(h, vs, hs)), vs);
            (forall p :: LivePair(h, vs, p) <==> LivePair(h', vs', p)) && LivePairs(h, vs) == LivePairs(h', vs')
  {
    var vs' := MoveValues(RankMap(LiveNodes(h, vs, hs)), vs);
    forall p | 0 <= p < |h.pairs|
      ensures SamePairShape(h.pairs[p].first, h'.pairs[p].first) && SamePairShape(h.pairs[p].second, h'.pairs[p].second)
    {
      assert IsPair(h, p + 1);
    }
    assert SamePairShapes(h, vs, h', vs');
    SameLivePairs(h, vs, h', vs');
  }

  /** A compaction leaves no garbage behind: every node it kept is reachable again. */
  lemma CompactedNoGarbage(h: Heap, r: Roots, kids: seq<int>, h': Heap)
    requires RootsSound(h, ValuesOf(r), HandlesOf(r, kids)) && CompactedHeap(h, ValuesOf(r), HandlesOf(r, kids), h')
    ensures var nm := RankMap(LiveNodes(h, ValuesOf(r), HandlesOf(r, kids))); NoGarbage(h', MoveRoots(nm, r), MoveHandles(nm, kids))
  {
    var vs, hs := ValuesOf(r), HandlesOf(r, kids);
    var keep := LiveNodes(h, vs, hs);
    var nm := RankMap(keep);
    MovedParts(h, r, kids);
    RankMapBijection(keep, |h.nodes|);
    forall m, ns: set<int> | IsNode(h', m) && NodesClosed(h', MoveValues(nm, vs), MoveHandles(nm, hs), ns) ensures m in ns {
      var back := set n | n in keep && nm[n] in ns;
      PullBackClosed(h, vs, hs, h', ns, back);
      assert m in nm.Values;
      var n :| n in nm && nm[n] == m;
      assert LiveNode(h, vs, hs, n);
    }
  }

  lemma CompactionKeepsSane(h: Heap, r: Roots, kids: seq<int>, h': Heap, r': Roots, handleMap: seq<int>, c: Capacities, limit: nat, index: Index, copied: set<Text>)
    requires Sane(h, r, c, limit, index, copied) && Ready(h, r, kids) && InRange(h, kids)
    requires NodesCompacted(h, r, kids, h', r', handleMap) && NodesFit(h', c)
    ensures Sane(h', r', c, limit, index, copied) && h'.strings == h.strings
    ensures var nm := RankMap(LiveNodes(h, ValuesOf(r), HandlesOf(r, kids)));
            var kids' := MoveHandles(nm, kids);
            && AllIn(nm, kids) && InRange(h', kids') && Ready(h', r', kids') && Preserved(h, r, kids, h', r', kids')
            && NoGarbage(h', r', kids')
  {
    CompactionKeepsChildren(h, r, kids, h');
    CompactedNoGarbage(h, r, kids, h');
    CompactionKeepsReady(h, r, kids, h');
    MovedParts(h, r, kids);
    NodesKeepViews(h, r, kids, h', r', handleMap, c.bytes);
    FewerExtra(h', r', MoveHandles(RankMap(LiveNodes(h, ValuesOf(r), HandlesOf(r, kids))), kids));
  }

  // ----- string compaction

  lemma CompactedStringsReady(h: Heap, r: Roots, kids: seq<int>, h': Heap, r': Roots)
    requires Ready(h, r, kids) && InRange(h, kids) && StringsCompacted(h, r, h', r')
    ensures Ready(h', r', kids) && InRange(h', kids)
  {
    FewerExtra(h, r, kids);
    StringsCompactedSound(h, r, h', r');
    var vs, vs', hs, b := ValuesOf(r), ValuesOf(r'), HandlesOf(r, kids), h'.strings.bytes;
    ExtraLast(h, r, kids);
    ExtraLast(h', r', kids);
    RelocatedShapes(h, vs, HandlesOf(r, []), b, h', vs');
    SameLivePairs(h, vs, h', vs');
    SameLiveNodes(h, vs, hs, h', vs');
    assert HandlesOf(r', kids) == hs;
    forall n | n in LiveNodes(h', vs', hs) ensures NodeOk(h', n) {
      assert n in LiveNodes(h, vs, hs) && NodeOk(h, n);
      RelocatedOrLeft(h, r, h', n);
    }
  }

  lemma RelocatedOrLeft(h: Heap, r: Roots, h': Heap, n: int)
    requires StringsSound(h, ValuesOf(r), HandlesOf(r, [])) && RelocatedHeap(h, ValuesOf(r), HandlesOf(r, []), h'.strings.bytes, h')
    requires IsNode(h, n) && NodeOk(h, n)
    ensures IsNode(h', n) && NodeOk(h', n)
  {
    if n in LiveNodes(h, ValuesOf(r), HandlesOf(r, [])) {
      RelocatedNodeOk(h, ValuesOf(r), HandlesOf(r, []), h'.strings.bytes, h', n);
    } else {
      LeftBehind(h, h', n);
    }
  }

  /** A node the compaction did not reach keeps its pointers, which now read nothing. */
  lemma LeftBehind(h: Heap, h': Heap, n: int)
    requires IsNode(h, n) && IsNode(h', n) && NodeOk(h, n)
    requires h'.nodes[n - 1] == h.nodes[n - 1] && AttrsOf(h', n) == AttrsOf(h, n) && h'.strings.epoch == h.strings.epoch + 1
    ensures NodeOk(h', n)
  {
    forall k | 0 <= k < |AttrsOf(h', n)| ensures AttrOk(h'.strings, AttrsOf(h', n)[k]) {
      assert AttrOk(h.strings, AttrsOf(h, n)[k]);
    }
  }

  ghost predicate AllLive(h: Heap, r: Roots, kids: seq<int>) {
    forall i :: 0 <= i < |kids| ==> kids[i] in LiveNodes(h, ValuesOf(r), HandlesOf(r, []))
  }

  ghost predicate KindsStored(h: Heap, kids: seq<int>) {
    InRange(h, kids) && forall i :: 0 <= i < |kids| ==> InArena(h.strings, h.nodes[kids[i] - 1].kind)
  }

  /** A string compaction keeps the children that some root reaches. */
  lemma LiveChildrenKept(h: Heap, r: Roots, kids: seq<int>, h': Heap, r': Roots)
    requires Ready(h, r, []) && AllLive(h, r, kids) && StringsCompacted(h, r, h', r')
    ensures SameMeaning(h, NodeValues(kids), h', NodeValues(kids))
  {
    var vs, hs := ValuesOf(r), HandlesOf(r, []);
    StringCompactionCarries(h, vs, hs, h'.strings.bytes, h');
    CarriedList(h, h', Identity(LiveNodes(h, vs, hs)), Identity(LivePairs(h, vs)), NodeValues(kids), NodeValues(kids));
  }

  /** String compaction names no extra roots, so it keeps the children exactly when every one is reachable from the roots. */
  lemma StringCompactionKeepsChildrenIff(h: Heap, r: Roots, kids: seq<int>, h': Heap, r': Roots)
    requires Ready(h, r, kids) && KindsStored(h, kids) && StringsCompacted(h, r, h', r')
    ensures SameMeaning(h, NodeValues(kids), h', NodeValues(kids)) <==> AllLive(h, r, kids)
  {
    FewerExtra(h, r, kids);
    var vs, hs := ValuesOf(r), HandlesOf(r, []);
    if AllLive(h, r, kids) {
      LiveChildrenKept(h, r, kids, h', r');
    } else {
      var i :| 0 <= i < |kids| && kids[i] !in LiveNodes(h, vs, hs);
      LostChild(h, r, kids, h', r', i);
    }
  }

  lemma LostChild(h: Heap, r: Roots, kids: seq<int>, h': Heap, r': Roots, i: nat)
    requires KindsStored(h, kids) && RelocatedHeap(h, ValuesOf(r), HandlesOf(r, []), h'.strings.bytes, h')
    requires i < |kids| && kids[i] !in LiveNodes(h, ValuesOf(r), HandlesOf(r, []))
    ensures !SameMeaning(h, NodeValues(kids), h', NodeValues(kids))
  {
    assert InArena(h.strings, h.nodes[kids[i] - 1].kind);
    KindLost(h, h', kids[i]);
    assert NodeValues(kids)[i] == Node(kids[i]);
    assert !SameValue(h, NodeValues(kids)[i], h', NodeValues(kids)[i]) by { assert MeaningOf(h, Node(kids[i]), 1) != MeaningOf(h', Node(kids[i]), 1); }
  }

  lemma KindLost(h: Heap, h': Heap, n: int)
    requires IsNode(h, n) && IsNode(h', n) && h'.nodes[n - 1] == h.nodes[n - 1] && h'.strings.epoch == h.strings.epoch + 1
    requires InArena(h.strings, h.nodes[n - 1].kind)
    ensures MeaningOf(h, Node(n), 1) != MeaningOf(h', Node(n), 1)
  {
    assert MeaningOf(h, Node(n), 1).kind.Some?;
    assert MeaningOf(h', Node(n), 1).kind.None?;
  }

  // ----- adding strings

  lemma ExtendedKeepsChildren(h: Heap, r: Roots, kids: seq<int>, h': Heap)
    requires Extended(h, h') && Ready(h, r, kids) && InRange(h, kids)
    ensures Ready(h', r, kids) && InRange(h', kids) && Preserved(h, r, kids, h', r, kids)
  {
    ExtraLast(h, r, kids);
    ExtendedSound(h, h', ValuesOf(r), HandlesOf(r, kids));
    ExtendedKeepsMeaning(h, h', ValuesOf(r), HandlesOf(r, kids));
    SameMeaningSplit(h, HandlesOf(r, []), kids, h', HandlesOf(r, []), kids);
  }

  // ----- the commit

  lemma AppendedNodeSame(h: Heap, kind: StrRef, id: StrRef, attrs: seq<Attr>, kids: seq<int>, n: int)
    requires WellFormed(h) && IsNode(h, n)
    ensures var h' := AppendNode(h, kind, id, attrs, kids);
            h'.nodes[n - 1] == h.nodes[n - 1] && AttrsOf(h', n) == AttrsOf(h, n) && ChildrenOf(h', n) == ChildrenOf(h, n)
  {
    WellFormedSlices(h, n);
  }

  lemma AppendedNodeNew(h: Heap, kind: StrRef, id: StrRef, attrs: seq<Attr>, kids: seq<int>)
    ensures var h' := AppendNode(h, kind, id, attrs, kids);
            var n := |h'.nodes|;
            n == |h.nodes| + 1 && h'.nodes[n - 1].kind == kind && h'.nodes[n - 1].id == id && AttrsOf(h', n) == attrs && ChildrenOf(h', n) == kids
  {}

  lemma AppendedCarries(h: Heap, r: Roots, kind: StrRef, id: StrRef, attrs: seq<Attr>, kids: seq<int>)
    requires Ready(h, r, kids) && InRange(h, kids)
    ensures var vs, hs := ValuesOf(r), HandlesOf(r, kids);
            Carries(h, AppendNode(h, kind, id, attrs, kids), Identity(LiveNodes(h, vs, hs)), Identity(LivePairs(h, vs)))
  {
    var h' := AppendNode(h, kind, id, attrs, kids);
    var vs, hs := ValuesOf(r), HandlesOf(r, kids);
    var nm, pm := Identity(LiveNodes(h, vs, hs)), Identity(LivePairs(h, vs));
    forall n | n in nm ensures CarriesNode(h, h', nm, n) {
      AppendedNodeSame(h, kind, id, attrs, kids, n);
      ChildrenKept(h, vs, hs, n);
    }
    forall p | p in pm ensures CarriesPair(h, h', nm, pm, p) {
      PairKept(h, vs, hs, p);
    }
  }

  /** The new node denotes its kind, id and attributes and what its children denoted; everything else is kept. */
  lemma AppendedMeaning(h: Heap, r: Roots, kind: StrRef, id: StrRef, attrs: seq<Attr>, kids: seq<int>)
    requires Ready(h, r, kids) && InRange(h, kids)
    ensures var h' := AppendNode(h, kind, id, attrs, kids);
            && Preserved(h, r, kids, h', r, kids)
            && (forall d: nat :: MeaningOf(h', Node(|h'.nodes|), d + 1)
                  == NodeValue(ReadStr(h.strings, kind), ReadStr(h.strings, id), MeaningOfAttrs(h.strings, attrs), KidsOf(h, kids, d)))
  {
    var h' := AppendNode(h, kind, id, attrs, kids);
    var vs, hs := ValuesOf(r), HandlesOf(r, kids);
    var nm, pm := Identity(LiveNodes(h, vs, hs)), Identity(LivePairs(h, vs));
    AppendedCarries(h, r, kind, id, attrs, kids);
    ExtraLast(h, r, kids);
    forall i | 0 <= i < |vs| ensures Corresponds(h, h', nm, pm, vs[i], vs[i]) { RootKept(h, vs, hs, i); }
    CarriedList(h, h', nm, pm, vs, vs);
    forall i | 0 <= i < |hs| ensures hs[i] in nm { HandleKept(h, vs, hs, i); }
    CarriedList(h, h', nm, pm, NodeValues(hs), NodeValues(hs));
    SameMeaningSplit(h, HandlesOf(r, []), kids, h', HandlesOf(r, []), kids);
    AppendedNodeNew(h, kind, id, attrs, kids);
    forall d: nat
      ensures MeaningOf(h', Node(|h'.nodes|), d + 1)
           == NodeValue(ReadStr(h.strings, kind), ReadStr(h.strings, id), MeaningOfAttrs(h.strings, attrs), KidsOf(h, kids, d))
    {
      SameKids(h, h', kids, d);
    }
  }

  lemma SameKids(h: Heap, h': Heap, kids: seq<int>, d: nat)
    requires SameMeaning(h, NodeValues(kids), h', NodeValues(kids))
    ensures KidsOf(h, kids, d) == KidsOf(h', kids, d)
  {
    KidsEqual(h, kids, h', kids, d);
  }

  lemma KidsEqual(h: Heap, kids: seq<int>, h': Heap, kids': seq<int>, d: nat)
    requires SameMeaning(h, NodeValues(kids), h', NodeValues(kids'))
    ensures KidsOf(h, kids, d) == KidsOf(h', kids', d)
  {
    forall i | 0 <= i < |kids| ensures KidsOf(h, kids, d)[i] == KidsOf(h', kids', d)[i] {
      KidAt(h, kids, d, i);
      KidAt(h', kids', d, i);
      assert SameValue(h, NodeValues(kids)[i], h', NodeValues(kids')[i]);
      assert MeaningOf(h, NodeValues(kids)[i], d) == MeaningOf(h', NodeValues(kids')[i], d);
    }
  }

  lemma AppendedKids(h: Heap, r: Roots, kind: StrRef, id: StrRef, attrs: seq<Attr>, kids: seq<int>, m: int)
    requires Ready(h, r, kids) && InRange(h, kids)
    requires m in LiveNodes(h, ValuesOf(r), HandlesOf(r, kids)) || m == |h.nodes| + 1
    ensures var h' := AppendNode(h, kind, id, attrs, kids);
            KidsIn(h', m, LiveNodes(h, ValuesOf(r), HandlesOf(r, kids)) + {|h'.nodes|})
  {
    var h' := AppendNode(h, kind, id, attrs, kids);
    var vs, hs := ValuesOf(r), HandlesOf(r, kids);
    if m == |h'.nodes| {
      AppendedNodeNew(h, kind, id, attrs, kids);
      ExtraLast(h, r, kids);
      forall k | 0 <= k < |kids| ensures kids[k] in LiveNodes(h, vs, hs) {
        assert hs[|HandlesOf(r, [])| + k] == kids[k];
        HandleKept(h, vs, hs, |HandlesOf(r, [])| + k);
      }
    } else {
      AppendedNodeSame(h, kind, id, attrs, kids, m);
      ChildrenKept(h, vs, hs, m);
    }
  }

  lemma AppendedHandle(h: Heap, r: Roots, kids: seq<int>, n: int, i: nat)
    requires Ready(h, r, kids) && InRange(h, kids) && n > 0 && i < |HandlesOf(r, [n])|
    ensures HandlesOf(r, [n])[i] == n || HandlesOf(r, [n])[i] in LiveNodes(h, ValuesOf(r), HandlesOf(r, kids))
  {
    var hs := HandlesOf(r, kids);
    ExtraLast(h, r, kids);
    PositiveAll([n]);
    assert HandlesOf(r, [n]) == HandlesOf(r, []) + [n];
    if i < |HandlesOf(r, [])| {
      assert hs[i] == HandlesOf(r, [])[i];
      HandleKept(h, ValuesOf(r), hs, i);
    }
  }

  /** The live nodes afterwards, the new node among them, are those before and the new one. */
  lemma AppendedLive(h: Heap, r: Roots, kind: StrRef, id: StrRef, attrs: seq<Attr>, kids: seq<int>)
    requires Ready(h, r, kids) && InRange(h, kids)
    ensures var h' := AppendNode(h, kind, id, attrs, kids);
            var n := |h'.nodes|;
            LiveNodes(h', ValuesOf(r), HandlesOf(r, [n])) <= LiveNodes(h, ValuesOf(r), HandlesOf(r, kids)) + {n}
  {
    var h' := AppendNode(h, kind, id, attrs, kids);
    var n := |h'.nodes|;
    var vs, hs := ValuesOf(r), HandlesOf(r, kids);
    var all := LiveNodes(h, vs, hs) + {n};
    assert SamePairShapes(h, vs, h', vs);
    SameLivePairs(h, vs, h', vs);
    forall i | 0 <= i < |vs| ensures ValueIn(h', vs[i], all) { RootKept(h, vs, hs, i); }
    forall i | 0 <= i < |HandlesOf(r, [n])| ensures HandlesOf(r, [n])[i] in all { AppendedHandle(h, r, kids, n, i); }
    forall p | IsPair(h', p) && LivePair(h', vs, p) ensures ValueIn(h', h'.pairs[p - 1].first, all) && ValueIn(h', h'.pairs[p - 1].second, all) {
      PairKept(h, vs, hs, p);
    }
    forall m | m in all && IsNode(h', m) ensures KidsIn(h', m, all) { AppendedKids(h, r, kind, id, attrs, kids, m); }
    assert NodesClosed(h', vs, HandlesOf(r, [n]), all);
  }

  /** The heap after the commit is ready with the new handle as a root. */
  lemma AppendedReady(h: Heap, r: Roots, kind: StrRef, id: StrRef, attrs: seq<Attr>, kids: seq<int>)
    requires Ready(h, r, kids) && InRange(h, kids) && StrOk(h.strings, kind) && StrOk(h.strings, id)
    requires forall k :: 0 <= k < |attrs| ==> AttrOk(h.strings, attrs[k])
    ensures var h' := AppendNode(h, kind, id, attrs, kids);
            Ready(h', r, [|h'.nodes|]) && Ready(h', r, [])
  {
    var h' := AppendNode(h, kind, id, attrs, kids);
    var n := |h'.nodes|;
    var vs, hs := ValuesOf(r), HandlesOf(r, kids);
    AppendKeepsPacked(h, kind, id, attrs, kids);
    AppendedLive(h, r, kind, id, attrs, kids);
    AppendedNodeNew(h, kind, id, attrs, kids);
    ExtraLast(h, r, kids);
    ExtraLast(h', r, [n]);
    assert SamePairShapes(h, vs, h', vs);
    SameLivePairs(h, vs, h', vs);
    forall p | IsPair(h', p) && LivePair(h', vs, p) ensures NodesInRange(h', h'.pairs[p - 1]) { assert NodesInRange(h, h.pairs[p - 1]); }
    forall i | 0 <= i < |HandlesOf(r, [n])| ensures IsNode(h', HandlesOf(r, [n])[i]) {
      if i < |HandlesOf(r, [])| { assert hs[i] == HandlesOf(r, [])[i]; }
    }
    forall m | m in LiveNodes(h', vs, HandlesOf(r, [n])) ensures NodeOk(h', m) {
      if m != n {
        assert NodeOk(h, m);
        AppendedNodeSame(h, kind, id, attrs, kids, m);
      }
    }
    FewerExtra(h', r, [n]);
  }

  // ----- the strings a node is given

  /** What the snapshot of an input string reads; NULL stands for the empty string. */
  function TextOf(strings: Arena, r: StrRef): Text {
    match ReadStr(strings, r)
    case None => []
    case Some(t) => t
  }

  /** An attribute whose texts no longer depend on the arena. */
  function Snapshot(strings: Arena, a: Attr): Attr {
    Attr(HostStr(TextOf(strings, a.key)),
         match a.value
         case Identifier(s) => Identifier(HostStr(TextOf(strings, s)))
         case StringAttr(s) => StringAttr(HostStr(TextOf(strings, s)))
         case _ => a.value)
  }

  function Snapshots(strings: Arena, attrs: seq<Attr>): (r: seq<Attr>)
    ensures |r| == |attrs| && forall i :: 0 <= i < |attrs| ==> r[i] == Snapshot(strings, attrs[i])
  {
    seq(|attrs|, i requires 0 <= i < |attrs| => Snapshot(strings, attrs[i]))
  }

  /** Host texts only, none with a NUL inside. */
  ghost predicate Stable(a: Attr) {
    && a.key.HostStr? && NulFree(a.key.text)
    && (a.value.Identifier? || a.value.StringAttr? ==> a.value.s.HostStr? && NulFree(a.value.s.text))
  }

  ghost predicate AllStable(attrs: seq<Attr>) {
    forall i :: 0 <= i < |attrs| ==> Stable(attrs[i])
  }

  function TextBytes(r: StrRef): nat {
    if r.HostStr? then |r.text| + 1 else 1
  }

  function AttrBytes(a: Attr): nat {
    TextBytes(a.key) + if a.value.Identifier? || a.value.StringAttr? then TextBytes(a.value.s) else 0
  }

  function AttrsBytes(attrs: seq<Attr>): nat {
    if attrs == [] then 0 else AttrsBytes(attrs[..|attrs| - 1]) + AttrBytes(attrs[|attrs| - 1])
  }

  lemma {:induction false} AttrsBytesGrow(attrs: seq<Attr>, i: nat)
    requires i <= |attrs|
    ensures AttrsBytes(attrs[..i]) <= AttrsBytes(attrs)
    ensures i < |attrs| ==> AttrsBytes(attrs[..i]) + AttrBytes(attrs[i]) == AttrsBytes(attrs[..i + 1]) <= AttrsBytes(attrs)
    decreases |attrs| - i
  {
    if i < |attrs| {
      assert attrs[..i + 1][..i] == attrs[..i];
      AttrsBytesGrow(attrs, i + 1);
    } else {
      assert attrs[..i] == attrs;
    }
  }

  /** Host texts mean the same whatever the arena. */
  lemma StableMeaning(s: Arena, s': Arena, attrs: seq<Attr>)
    requires AllStable(attrs)
    ensures MeaningOfAttrs(s, attrs) == MeaningOfAttrs(s', attrs)
  {
    forall i | 0 <= i < |attrs| ensures MeaningOfAttr(s, attrs[i]) == MeaningOfAttr(s', attrs[i]) { assert Stable(attrs[i]); }
  }

  lemma SnapshotStable(strings: Arena, attrs: seq<Attr>)
    requires forall i :: 0 <= i < |attrs| ==> InputOk(attrs[i])
    ensures AllStable(Snapshots(strings, attrs))
  {
    forall i | 0 <= i < |attrs| ensures Stable(Snapshot(strings, attrs[i])) { assert InputOk(attrs[i]); }
  }

  ghost predicate TextOk(r: StrRef) {
    r.HostStr? ==> NulFree(r.text)
  }

  /** C strings from outside the arena hold no NUL. */
  ghost predicate InputOk(a: Attr) {
    TextOk(a.key) && (a.value.Identifier? || a.value.StringAttr? ==> TextOk(a.value.s))
  }

  lemma ExtendedTwice(h: Heap, h1: Heap, h2: Heap)
    requires Extended(h, h1) && Extended(h1, h2)
    ensures Extended(h, h2)
  {}

  lemma ExtendedSelf(h: Heap)
    requires Terminated(h.strings.bytes)
    ensures Extended(h, h)
  {}

  lemma SameHeapPreserved(h: Heap, r: Roots, kids: seq<int>)
    ensures Preserved(h, r, kids, h, r, kids)
  {}

  /** The arenas have space for one more record with so many attributes and children. */
  predicate RoomFor(h: Heap, c: Capacities, attrCount: nat, childCount: nat) {
    |h.nodes| + 1 <= c.nodes && |h.attrs| + attrCount <= c.attrs && |h.children| + childCount <= c.children
  }

  const GC_INTERVAL: nat := 64

  /** One more record would bring an arena to its capacity. */
  predicate Tight(h: Heap, c: Capacities, attrCount: nat, childCount: nat) {
    |h.nodes| >= c.nodes || |h.attrs| + attrCount >= c.attrs || |h.children| + childCount >= c.children
  }

  /** When node creation collects on a VM whose arenas do not grow. */
  predicate NeedsCollection(h: Heap, c: Capacities, attrCount: nat, childCount: nat, sinceLast: nat) {
    !RoomFor(h, c, attrCount, childCount) || (sinceLast >= 64 && Tight(h, c, attrCount, childCount))
  }

  lemma WiderSane(h: Heap, r: Roots, c: Capacities, c': Capacities, limit: nat, index: Index, copied: set<Text>)
    requires Sane(h, r, c, limit, index, copied)
    requires c.nodes <= c'.nodes && c.attrs <= c'.attrs && c.children <= c'.children && c'.strings == c.strings && c'.bytes == c.bytes
    ensures Sane(h, r, c', limit, index, copied)
  {}

  ghost function Doubled(n: nat, times: nat): nat {
    if times == 0 then n else 2 * Doubled(n, times - 1)
  }

  /** next_capacity: doubled from the current one, or from 1, as often as it takes to hold what is needed. */
  method NextCapacity(current: nat, needed: nat) returns (next: nat, ghost times: nat)
    ensures next >= current && next >= needed
    ensures needed <= current && current > 0 ==> next == current
    ensures next == Doubled(if current == 0 then 1 else current, times)
    ensures times > 0 ==> Doubled(if current == 0 then 1 else current, times - 1) < needed
  {
    next, times := if current == 0 then 1 else current, 0;
    while next < needed
      invariant next >= current && next > 0 && next == Doubled(if current == 0 then 1 else current, times)
      invariant times > 0 ==> Doubled(if current == 0 then 1 else current, times - 1) < needed
      invariant needed <= current && current > 0 ==> next == current
      decreases needed - next
    {
      next, times := next * 2, times + 1;
    }
  }

  /** An array grown for what is needed, and not much further: it was large enough, or now has less than twice that. */
  predicate Enough(current: nat, needed: nat, next: nat) {
    next == current || next == 1 || (current < needed <= next && next < 2 * needed)
  }

  lemma {:induction false} DoubledEnough(current: nat, needed: nat, next: nat, times: nat)
    requires next == Doubled(if current == 0 then 1 else current, times) && needed <= next
    requires times > 0 ==> Doubled(if current == 0 then 1 else current, times - 1) < needed
    ensures Enough(current, needed, next)
  {
    if times > 0 { DoubledGrows(if current == 0 then 1 else current, times - 1); }
  }

  lemma {:induction false} DoubledGrows(n: nat, times: nat)
    ensures Doubled(n, times) >= n
  {
    if times > 0 { DoubledGrows(n, times - 1); }
  }

  /** The host lets the node arrays grow, all of them. */
  predicate AllGranted(host: nat -> bool) {
    host(0) && host(1) && host(2) && host(3)
  }

  /** What growing leaves: each array as it was or grown for what is needed, one after the other as far as the host allows. */
  ghost predicate ArraysGrown(c: Capacities, nodes: nat, attrs: nat, children: nat, host: nat -> bool, c': Capacities) {
    && c'.strings == c.strings && c'.bytes == c.bytes
    && c'.nodes >= c.nodes && c'.attrs >= c.attrs && c'.children >= c.children
    && Enough(c.nodes, nodes, c'.nodes) && Enough(c.attrs, attrs, c'.attrs) && Enough(c.children, children, c'.children)
    && (!host(0) || !host(1) ==> c' == c) && (!host(2) ==> c'.attrs == c.attrs) && (!host(2) || !host(3) ==> c'.children == c.children)
    && (AllGranted(host) ==> nodes <= c'.nodes && attrs <= c'.attrs && children <= c'.children)
  }

  /** The growth itself: each array is reallocated in turn, and what has grown stays so. */
  method GrowArrays(c: Capacities, nodes: nat, attrs: nat, children: nat, host: nat -> bool) returns (ok: bool, c': Capacities)
    ensures ok <==> AllGranted(host)
    ensures ArraysGrown(c, nodes, attrs, children, host, c')
  {
    ok, c' := false, c;
    if !host(0) {
      return;
    }
    ghost var times;
    var n, a, k;
    n, times := NextCapacity(c.nodes, nodes);
    DoubledEnough(c.nodes, nodes, n, times);
    a, times := NextCapacity(c.attrs, attrs);
    DoubledEnough(c.attrs, attrs, a, times);
    k, times := NextCapacity(c.children, children);
    DoubledEnough(c.children, children, k, times);
    if host(1) {
      c' := c'.(nodes := n);
      if host(2) {
        c' := c'.(attrs := a);
        if host(3) {
          ok, c' := true, c'.(children := k);
        }
      }
    }
  }

  /** A limit one step further, within its capacity. */
  function NextLimit(limit: nat, capacity: nat): nat {
    if limit + 16384 > capacity then capacity else limit + 16384
  }

  /** No room for `needed`: the limit has reached the capacity, or the host, where it is asked, refuses the next step. */
  predicate Exhausted(needed: nat, limit: nat, capacity: nat, asked: bool, host: nat -> bool) {
    needed > limit && (limit >= capacity || (asked && !host(NextLimit(limit, capacity))))
  }

  // ----- the whole call

  /** What a node handle denotes once the call is over: the texts and attributes given, over children `kids` of heap `h`. */
  ghost predicate DenotesNode(h': Heap, n: int, kind: Text, id: Text, attrs: seq<Attr>, h: Heap, kids: seq<int>) {
    forall d: nat {:trigger DenotesTo(h', n, kind, id, attrs, h, kids, d)} :: DenotesTo(h', n, kind, id, attrs, h, kids, d)
  }

  ghost predicate DenotesTo(h': Heap, n: int, kind: Text, id: Text, attrs: seq<Attr>, h: Heap, kids: seq<int>, d: nat) {
    MeaningOf(h', Node(n), d + 1) == NodeValue(Some(kind), Some(id), MeaningOfAttrs(h'.strings, attrs), KidsOf(h, kids, d))
  }

  lemma DenotesChildren(h': Heap, n: int, kind: Text, id: Text, attrs: seq<Attr>, h1: Heap, kids1: seq<int>, h0: Heap, kids0: seq<int>)
    requires DenotesNode(h', n, kind, id, attrs, h1, kids1) && |kids1| == |kids0|
    ensures DenotesNode(h', n, kind, id, attrs, h0, kids0) <==> SameMeaning(h0, NodeValues(kids0), h1, NodeValues(kids1))
  {
    if DenotesNode(h', n, kind, id, attrs, h0, kids0) {
      forall i | 0 <= i < |kids0| ensures SameValue(h0, NodeValues(kids0)[i], h1, NodeValues(kids1)[i]) {
        forall d: nat ensures MeaningOf(h0, NodeValues(kids0)[i], d) == MeaningOf(h1, NodeValues(kids1)[i], d) {
          assert DenotesTo(h', n, kind, id, attrs, h1, kids1, d) && DenotesTo(h', n, kind, id, attrs, h0, kids0, d);
          KidAt(h0, kids0, d, i);
          KidAt(h1, kids1, d, i);
        }
      }
    }
    if SameMeaning(h0, NodeValues(kids0), h1, NodeValues(kids1)) {
      forall d: nat ensures DenotesTo(h', n, kind, id, attrs, h0, kids0, d) {
        assert DenotesTo(h', n, kind, id, attrs, h1, kids1, d);
        KidsEqual(h0, kids0, h1, kids1, d);
      }
    }
  }

  /** One more node at the end: it denotes what it was given, and everything else denotes what it did. */
  ghost predicate NodeStored(h: Heap, r: Roots, kids: seq<int>, kind: Text, id: Text, attrs: seq<Attr>, h': Heap) {
    var n := |h'.nodes|;
    && n == |h.nodes| + 1 && RootsPreserved(h, r, h', r) && Ready(h', r, [n])
    && ChildrenOf(h', n) == kids && DenotesNode(h', n, kind, id, attrs, h, kids) && RecordHolds(h', n, kind, id, attrs)
  }

  /** The record has the texts and attributes it was given, in the arena. */
  ghost predicate RecordHolds(h: Heap, n: int, kind: Text, id: Text, attrs: seq<Attr>) {
    && RecordInArena(h, n) && ReadStr(h.strings, h.nodes[n - 1].kind) == Some(kind) && ReadStr(h.strings, h.nodes[n - 1].id) == Some(id)
    && MeaningOfAttrs(h.strings, AttrsOf(h, n)) == MeaningOfAttrs(h.strings, attrs)
  }

  /** `r'` reads in arena `s'` what `r` reads in `s`, the empty text where that is nothing. */
  ghost predicate Given(s: Arena, r: StrRef, s': Arena, r': StrRef) {
    ReadStr(s', r') == if ReadStr(s, r).Some? then ReadStr(s, r) else Some([])
  }

  ghost predicate AttrGiven(s: Arena, a: Attr, s': Arena, a': Attr) {
    && Given(s, a.key, s', a'.key)
    && match a.value
       case Identifier(x) => a'.value.Identifier? && Given(s, x, s', a'.value.s)
       case StringAttr(x) => a'.value.StringAttr? && Given(s, x, s', a'.value.s)
       case _ => a'.value == a.value
  }

  /** The record of node `n` says what the inputs said in the arena before the call. */
  ghost predicate AsGiven(s: Arena, kind: StrRef, id: StrRef, attrs: seq<Attr>, h': Heap, n: int) {
    && IsNode(h', n) && Given(s, kind, h'.strings, h'.nodes[n - 1].kind) && Given(s, id, h'.strings, h'.nodes[n - 1].id)
    && |AttrsOf(h', n)| == |attrs|
    && forall i {:trigger AttrGiven(s, attrs[i], h'.strings, AttrsOf(h', n)[i])} :: 0 <= i < |attrs| ==> AttrGiven(s, attrs[i], h'.strings, AttrsOf(h', n)[i])
  }

  lemma HeldAsGiven(s: Arena, kind: StrRef, id: StrRef, attrs: seq<Attr>, h': Heap, n: int)
    requires RecordHolds(h', n, TextOf(s, kind), TextOf(s, id), Snapshots(s, attrs))
    ensures AsGiven(s, kind, id, attrs, h', n)
  {
    var given, held := Snapshots(s, attrs), AttrsOf(h', n);
    assert |MeaningOfAttrs(h'.strings, held)| == |held| && |MeaningOfAttrs(h'.strings, given)| == |given|;
    forall i | 0 <= i < |attrs| ensures AttrGiven(s, attrs[i], h'.strings, held[i]) {
      assert MeaningOfAttrs(h'.strings, held)[i] == MeaningOfAttr(h'.strings, held[i]);
      assert MeaningOfAttrs(h'.strings, given)[i] == MeaningOfAttr(h'.strings, given[i]);
      assert given[i] == Snapshot(s, attrs[i]);
    }
  }

  /** A record that depends on no text outside the arena: kind, id, keys and text values are in it. */
  ghost predicate RecordInArena(h: Heap, n: int) {
    && IsNode(h, n) && InArena(h.strings, h.nodes[n - 1].kind) && InArena(h.strings, h.nodes[n - 1].id)
    && forall k {:trigger AttrInArena(h.strings, AttrsOf(h, n)[k])} :: 0 <= k < |AttrsOf(h, n)| ==> AttrInArena(h.strings, AttrsOf(h, n)[k])
  }

  lemma StoredFromCopies(h: Heap, r: Roots, kids: seq<int>, h1: Heap, kind: Text, id: Text, attrs: seq<Attr>, kindRef: StrRef, idRef: StrRef, attrRefs: seq<Attr>)
    requires Ready(h, r, kids) && InRange(h, kids) && Extended(h, h1)
    requires StrOk(h1.strings, kindRef) && ReadStr(h1.strings, kindRef) == Some(kind) && InArena(h1.strings, kindRef)
    requires StrOk(h1.strings, idRef) && ReadStr(h1.strings, idRef) == Some(id) && InArena(h1.strings, idRef)
    requires AttrsCopied(h1.strings, attrs, attrRefs)
    ensures var h' := AppendNode(h1, kindRef, idRef, attrRefs, kids);
            NodeStored(h, r, kids, kind, id, attrs, h') && Ready(h', r, [])
  {
    var h' := AppendNode(h1, kindRef, idRef, attrRefs, kids);
    ExtendedKeepsChildren(h, r, kids, h1);
    AppendedReady(h1, r, kindRef, idRef, attrRefs, kids);
    AppendedMeaning(h1, r, kindRef, idRef, attrRefs, kids);
    AppendedNodeNew(h1, kindRef, idRef, attrRefs, kids);
    RootsPreservedTwice(h, r, h1, r, h', r);
    forall d: nat ensures DenotesTo(h', |h'.nodes|, kind, id, attrs, h1, kids, d) {}
    assert DenotesNode(h', |h'.nodes|, kind, id, attrs, h1, kids);
    DenotesChildren(h', |h'.nodes|, kind, id, attrs, h1, kids, h, kids);
  }

  /** What the string reservation leaves: the roots as they were, and the children too exactly when it did not
      compact or every child is reachable from the roots. */
  lemma ReservationKeeps(h0: Heap, r0: Roots, kids: seq<int>, h1: Heap, r1: Roots, compacted: bool)
    requires Ready(h0, r0, kids) && KindsStored(h0, kids)
    requires if compacted then StringsCompacted(h0, r0, h1, r1) else h1 == h0 && r1 == r0
    ensures RootsPreserved(h0, r0, h1, r1) && Ready(h1, r1, kids) && InRange(h1, kids)
    ensures SameMeaning(h0, NodeValues(kids), h1, NodeValues(kids)) <==> !compacted || AllLive(h0, r0, kids)
  {
    if compacted {
      FewerExtra(h0, r0, kids);
      StringsCompactedMeaning(h0, r0, h1, r1);
      CompactedStringsReady(h0, r0, kids, h1, r1);
      StringCompactionKeepsChildrenIff(h0, r0, kids, h1, r1);
    }
  }

  lemma CommitGood(h: Heap, r: Roots, c: Capacities, limit: nat, index: Index, copied: set<Text>, interned: bool, bytesLimit: nat, h': Heap,
                   kind: StrRef, id: StrRef, attrs: seq<Attr>, kids: seq<int>)
    requires Good(h, r, c, limit, index, copied, interned, bytesLimit) && RoomFor(h, c, |attrs|, |kids|)
    requires h' == AppendNode(h, kind, id, attrs, kids) && Ready(h', r, [])
    ensures Good(h', r, c, limit, index, copied, interned, bytesLimit)
  {}

  /** The texts of an attribute lie in the arena. */
  ghost predicate AttrInArena(strings: Arena, a: Attr) {
    InArena(strings, a.key) && (a.value.Identifier? || a.value.StringAttr? ==> InArena(strings, a.value.s))
  }

  ghost predicate AttrsCopied(strings: Arena, attrs: seq<Attr>, attrs': seq<Attr>) {
    && |attrs'| == |attrs| && (forall k :: 0 <= k < |attrs'| ==> AttrOk(strings, attrs'[k]) && AttrInArena(strings, attrs'[k]))
    && MeaningOfAttrs(strings, attrs') == MeaningOfAttrs(strings, attrs)
  }

  lemma AttrsCopiedNext(s: Arena, s': Arena, attrs: seq<Attr>, i: nat, attrs': seq<Attr>, a: Attr)
    requires i < |attrs| && AllStable(attrs) && ArenaExtended(s, s') && AttrsCopied(s, attrs[..i], attrs')
    requires AttrOk(s', a) && AttrInArena(s', a) && MeaningOfAttr(s', a) == MeaningOfAttr(s', attrs[i])
    ensures AttrsCopied(s', attrs[..i + 1], attrs' + [a])
  {
    ExtendedAttrs(s, s', attrs');
    StableMeaning(s, s', attrs[..i]);
    assert MeaningOfAttrs(s', attrs' + [a]) == MeaningOfAttrs(s', attrs') + [MeaningOfAttr(s', a)];
    assert MeaningOfAttrs(s', attrs[..i + 1]) == MeaningOfAttrs(s', attrs[..i]) + [MeaningOfAttr(s', attrs[i])];
  }

  function StableBytes(kind: Text, id: Text, attrs: seq<Attr>): nat {
    |kind| + 1 + |id| + 1 + AttrsBytes(attrs)
  }

  /** The bytes a node's strings take in the arena when none is stored yet. */
  function NodeBytes(strings: Arena, kind: StrRef, id: StrRef, attrs: seq<Attr>): nat {
    StableBytes(TextOf(strings, kind), TextOf(strings, id), Snapshots(strings, attrs))
  }

  // ----- an input on which the call loses a child

  const NoRoots := Roots([], [], [], [], [], [])

  /** A heap of one node of kind "k", which no root reaches. */
  function Orphan(): Heap {
    Heap([Record(ArenaStr(0, 0), ArenaStr(0, 0), 0, 0, 0, 0)], [], [], [], Arena(0, [107, 0]), Arena(0, []))
  }

  lemma OrphanDead()
    ensures ValuesOf(NoRoots) == [] && HandlesOf(NoRoots, []) == [] && HandlesOf(NoRoots, [1]) == [1]
    ensures LiveNodes(Orphan(), [], []) == {} && LivePairs(Orphan(), []) == {} && forall p :: !LivePair(Orphan(), [], p)
  {
    var none: set<int> := {};
    assert Positive([1]) == [1];
    assert PairsClosed(Orphan(), [], none);
    assert NodesClosed(Orphan(), [], [], none);
  }

  lemma OrphanTexts()
    ensures Terminated(Orphan().strings.bytes) && NodeOk(Orphan(), 1) && InArena(Orphan().strings, Orphan().nodes[0].kind)
    ensures WellFormed(Orphan())
  {
    var h := Orphan();
    assert SegmentStart(h.strings.bytes, 0);
    assert AttrsOf(h, 1) == [];
    assert StartsAtEnd(h.nodes, 0);
  }

  lemma OrphanSound()
    ensures PairsSound(Orphan(), []) && RootsSound(Orphan(), [], [1])
  {
    OrphanDead();
  }

  lemma OrphanStrings()
    ensures StringsSound(Orphan(), [], [1])
  {
    OrphanDead();
    OrphanTexts();
    forall n | n in LiveNodes(Orphan(), [], [1]) ensures NodeOk(Orphan(), n) { assert n == 1; }
  }

  lemma OrphanReady()
    ensures Ready(Orphan(), NoRoots, [1]) && KindsStored(Orphan(), [1])
  {
    OrphanTexts();
    OrphanSound();
    OrphanStrings();
    assert Positive([1]) == [1];
  }

  /** The arena replaced by an empty one, as nothing in it is live. */
  lemma OrphanRelocated()
    ensures RelocatedHeap(Orphan(), [], [], [], Orphan().(strings := Arena(1, [])))
  {
    var h, h' := Orphan(), Orphan().(strings := Arena(1, []));
    OrphanDead();
    assert h'.strings == Arena(h.strings.epoch + 1, []);
    NothingLive(h, h');
  }

  /** When nothing is live, a string compaction leaves everything but the arena as it was. */
  lemma NothingLive(h: Heap, h': Heap)
    requires LiveNodes(h, [], []) == {} && LivePairs(h, []) == {} && h' == h.(strings := Arena(h.strings.epoch + 1, []))
    ensures RelocatedHeap(h, [], [], [], h')
  {
    forall n | IsNode(h, n) ensures AttrsOf(h', n) == AttrsOf(h, n) {}
  }

  lemma OrphanCompacted()
    ensures StringsCompacted(Orphan(), NoRoots, Orphan().(strings := Arena(1, [])), NoRoots)
  {
    OrphanDead();
    OrphanRelocated();
    assert ValuesRelocated(Orphan().strings, [], [], []);
    assert DuplicateFree([]) && Terminated([]);
  }

  /** One node that no root reaches, passed as a child: a string compaction forgets its kind. */
  lemma UnrootedChildLosesStrings()
    ensures var h' := Orphan().(strings := Arena(1, []));
            && Ready(Orphan(), NoRoots, [1]) && KindsStored(Orphan(), [1]) && StringsCompacted(Orphan(), NoRoots, h', NoRoots)
            && !SameMeaning(Orphan(), NodeValues([1]), h', NodeValues([1]))
  {
    var h, h' := Orphan(), Orphan().(strings := Arena(1, []));
    OrphanDead();
    OrphanReady();
    OrphanCompacted();
    LostChild(h, NoRoots, [1], h', NoRoots, 0);
  }
}
