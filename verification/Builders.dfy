/**
 The children a node is created with while the collector runs, when they may be
 a builder's own array: finishing a builder passes that array to node creation,
 and the collector rewrites it before node creation remaps it.
 */
module Builders {
  import opened CText
  import opened Heap
  import opened Liveness
  import opened Compaction
  import opened Relocation
  import opened RootSets
  import opened Allocation
  import opened Collector
  import opened NodeCreation

  /** The children are an array of their own, or the array of the active builder named. */
  ghost predicate Owned(r: Roots, kids: seq<int>, builder: Option<nat>) {
    builder.Some? ==> builder.value < |r.builders| && r.builders[builder.value] == Builder(true, kids)
  }

  ghost function Live(h: Heap, r: Roots, kids: seq<int>): set<int> {
    LiveNodes(h, ValuesOf(r), HandlesOf(r, kids))
  }

  /** The children's numbers among the live nodes: the handles a collection gives them. */
  ghost function Ranks(h: Heap, r: Roots, kids: seq<int>): seq<int> {
    MoveHandles(RankMap(Live(h, r, kids)), kids)
  }

  /** The nodes of `h` that the new node gets as children. After a collection, the entries of a builder's array are
      the new handles already, and the remap reads them as old ones. */
  ghost function Taken(h: Heap, r: Roots, kids: seq<int>, builder: Option<nat>, collected: bool): seq<int> {
    if builder.Some? && collected then Ranks(h, r, kids) else kids
  }

  /** Every handle up to one of the children is live. */
  ghost predicate LiveBelow(keep: set<int>, kids: seq<int>) {
    forall i, k :: 0 <= i < |kids| && 1 <= k <= kids[i] ==> k in keep
  }

  /** A second move of handles already moved is right exactly when no dead handle lies below one of them. */
  lemma RemappedTwiceIff(keep: set<int>, top: nat, kids: seq<int>)
    requires (forall k :: k in keep ==> 1 <= k <= top) && AllIn(RankMap(keep), kids)
    ensures var nm := RankMap(keep);
            var moved := MoveHandles(nm, kids);
            (AllIn(nm, moved) && MoveHandles(nm, moved) == moved) <==> LiveBelow(keep, kids)
  {
    var nm := RankMap(keep);
    var moved := MoveHandles(nm, kids);
    forall i | 0 <= i < |kids|
      ensures (moved[i] in nm && nm[moved[i]] == moved[i]) <==> forall k :: 1 <= k <= kids[i] ==> k in keep
    {
      assert kids[i] in keep;
      RankMapTwice(keep, top, kids[i]);
    }
    if AllIn(nm, moved) && MoveHandles(nm, moved) == moved {
      forall i | 0 <= i < |kids| ensures moved[i] in nm && nm[moved[i]] == moved[i] { assert MoveHandles(nm, moved)[i] == moved[i]; }
    }
  }

  /** The children are named by their own numbers exactly when no dead handle lies below one. */
  lemma RanksSameIff(keep: set<int>, top: nat, kids: seq<int>)
    requires (forall k :: k in keep ==> 1 <= k <= top) && AllIn(RankMap(keep), kids)
    ensures MoveHandles(RankMap(keep), kids) == kids <==> LiveBelow(keep, kids)
  {
    var moved := MoveHandles(RankMap(keep), kids);
    forall i | 0 <= i < |kids| ensures moved[i] == kids[i] <==> forall k :: 1 <= k <= kids[i] ==> k in keep {
      assert kids[i] in keep;
      RankBound(keep, kids[i]);
    }
  }

  ghost predicate BuildersMoved(nm: map<int, int>, bs: seq<Builder>, bs': seq<Builder>) {
    |bs'| == |bs| && forall b :: 0 <= b < |bs| && bs[b].active ==> bs'[b] == Builder(true, MoveHandles(nm, bs[b].children))
  }

  lemma {:induction false} AllBuildersMoved(nm: map<int, int>, bs: seq<Builder>)
    ensures BuildersMoved(nm, bs, MoveBuilders(nm, bs))
  {
    if bs != [] { AllBuildersMoved(nm, bs[..|bs| - 1]); }
  }

  /** The remap that follows a collection: it reads a builder's array as the collection left it. */
  method RemapChildren(kids: seq<int>, builder: Option<nat>, ghost h: Heap, ghost r: Roots, r': Roots, handleMap: seq<int>)
    returns (ok: bool, kids': seq<int>)
    requires Ready(h, r, kids) && InRange(h, kids) && Owned(r, kids, builder)
    requires Encodes(handleMap, RankMap(Live(h, r, kids))) && r' == MoveRoots(RankMap(Live(h, r, kids)), r)
    ensures Remapped(h, r, kids, builder, ok, kids')
  {
    ghost var nm := RankMap(Live(h, r, kids));
    var source := if builder.Some? then r'.builders[builder.value].children else kids;
    AllBuildersMoved(nm, r.builders);
    ChildrenMoved(h, r, kids);
    ok, kids' := RemapHandles(source, handleMap, nm);
  }

  /** Where the remap takes the children, and when it fails. */
  ghost predicate Remapped(h: Heap, r: Roots, kids: seq<int>, builder: Option<nat>, ok: bool, kids': seq<int>) {
    var nm, moved := RankMap(Live(h, r, kids)), Ranks(h, r, kids);
    && AllIn(nm, kids)
    && (if builder.None? then ok && kids' == moved else (ok <==> AllIn(nm, moved)) && (ok ==> kids' == MoveHandles(nm, moved)))
  }

  // ----- one collection

  /** Children that denote what `taken` denoted before, in a heap with nothing left to collect. */
  ghost predicate Usable(h: Heap, taken: seq<int>, h': Heap, r': Roots, kids': seq<int>) {
    Ready(h', r', kids') && InRange(h', kids') && NoGarbage(h', r', kids') && SameMeaning(h, NodeValues(taken), h', NodeValues(kids'))
  }

  ghost predicate Shrunk(h: Heap, r: Roots, kids: seq<int>, h': Heap) {
    |h'.nodes| == |Live(h, r, kids)| <= |h.nodes| && |h'.attrs| <= |h.attrs| && |h'.children| <= |h.children|
  }

  /** What a collection and the remap after it leave: children in an array of their own are moved once, a builder's
      array twice, the second time only if every entry of it is a live handle again. */
  ghost predicate CollectedFor(h: Heap, r: Roots, kids: seq<int>, builder: Option<nat>, h': Heap, r': Roots, ok: bool, kids': seq<int>) {
    match builder
    case None =>
      && Swept(h, r, kids, h', r') && ok
      && Usable(h, kids, h', r', kids') && kids' == Ranks(h, r, kids)
    case Some(_) =>
      && Swept(h, r, kids, h', r') && (ok <==> AllIn(RankMap(Live(h, r, kids)), Ranks(h, r, kids)))
      && (ok ==> Usable(h, Ranks(h, r, kids), h', r', kids') && kids' == MoveHandles(RankMap(Live(h, r, kids)), Ranks(h, r, kids)))
  }

  /** What a collection leaves of the roots and the arenas. */
  ghost predicate Swept(h: Heap, r: Roots, kids: seq<int>, h': Heap, r': Roots) {
    && RootsPreserved(h, r, h', r') && Shrunk(h, r, kids, h')
    && AllIn(RankMap(Live(h, r, kids)), kids) && BuildersMoved(RankMap(Live(h, r, kids)), r.builders, r'.builders)
  }

  /** Where there is no garbage, any handles in range may be added to the roots. */
  lemma NoGarbageReady(h: Heap, r: Roots, kids: seq<int>, more: seq<int>)
    requires Ready(h, r, kids) && InRange(h, kids) && NoGarbage(h, r, kids) && InRange(h, more)
    ensures Ready(h, r, more)
  {
    FewerExtra(h, r, kids);
    ExtraLast(h, r, more);
    forall n | n in LiveNodes(h, ValuesOf(r), HandlesOf(r, more)) ensures NodeOk(h, n) {
      assert IsNode(h, n) && n in LiveNodes(h, ValuesOf(r), HandlesOf(r, kids));
    }
  }

  lemma {:induction false} ChildOfBuilder(r: Roots, kids: seq<int>, b: nat, k: nat)
    requires Owned(r, kids, Some(b)) && k < |kids|
    ensures kids[k] in HandlesOf(r, [])
  {
    BuilderHandleIn(r.builders, b, k);
  }

  /** A builder's children are roots already, so naming them again reaches nothing more. */
  lemma OwnedLive(h: Heap, r: Roots, kids: seq<int>, b: nat)
    requires InRange(h, kids) && Owned(r, kids, Some(b))
    ensures Live(h, r, kids) == Live(h, r, []) && AllLive(h, r, kids)
  {
    var vs, hs, all := ValuesOf(r), HandlesOf(r, []), HandlesOf(r, kids);
    ExtraLast(h, r, kids);
    MoreLive(h, vs, hs, kids);
    forall k | 0 <= k < |kids| ensures kids[k] in hs { ChildOfBuilder(r, kids, b, k); }
    forall ns: set<int> | NodesClosed(h, vs, hs, ns) ensures NodesClosed(h, vs, all, ns) {
      forall i | 0 <= i < |all| && IsNode(h, all[i]) ensures all[i] in ns {
        assert all[i] in hs;
        var j :| 0 <= j < |hs| && hs[j] == all[i];
      }
    }
    forall n | n in Live(h, r, kids) ensures n in Live(h, r, []) { assert LiveNode(h, vs, hs, n); }
    forall k | 0 <= k < |kids| ensures kids[k] in Live(h, r, []) {
      assert all[|hs| + k] == kids[k];
      LiveNodeHandle(h, vs, all, |hs| + k);
    }
  }

  /** So a heap ready for its roots is ready for a builder's children. */
  lemma OwnedReady(h: Heap, r: Roots, kids: seq<int>, b: nat)
    requires Ready(h, r, []) && Owned(r, kids, Some(b))
    ensures Ready(h, r, kids) && InRange(h, kids)
  {
    forall k | 0 <= k < |kids| ensures IsNode(h, kids[k]) {
      ChildOfBuilder(r, kids, b, k);
      var i :| 0 <= i < |HandlesOf(r, [])| && HandlesOf(r, [])[i] == kids[k];
    }
    ExtraLast(h, r, kids);
    OwnedLive(h, r, kids, b);
  }

  lemma NoGarbageWithout(h: Heap, r: Roots, kids: seq<int>, more: seq<int>, b: nat)
    requires NoGarbage(h, r, kids) && InRange(h, kids) && Owned(r, kids, Some(b)) && InRange(h, more)
    ensures NoGarbage(h, r, more)
  {
    OwnedLive(h, r, kids, b);
    ExtraLast(h, r, more);
    MoreLive(h, ValuesOf(r), HandlesOf(r, []), more);
    forall n | IsNode(h, n) ensures LiveNode(h, ValuesOf(r), HandlesOf(r, more), n) {
      assert n in Live(h, r, kids) && n in Live(h, r, more);
    }
  }

  /** Live handles moved once denote what they denoted. */
  lemma MovedOnceKeeps(h: Heap, r: Roots, kids: seq<int>, h': Heap, live: seq<int>)
    requires RootsSound(h, ValuesOf(r), HandlesOf(r, kids)) && CompactedHeap(h, ValuesOf(r), HandlesOf(r, kids), h')
    requires AllIn(RankMap(Live(h, r, kids)), live)
    ensures var moved := MoveHandles(RankMap(Live(h, r, kids)), live);
            InRange(h', moved) && SameMeaning(h, NodeValues(live), h', NodeValues(moved))
  {
    var nm, pm := RankMap(Live(h, r, kids)), Identity(LivePairs(h, ValuesOf(r)));
    var moved := MoveHandles(nm, live);
    RankMapBijection(Live(h, r, kids), |h.nodes|);
    CompactedCarries(h, ValuesOf(r), HandlesOf(r, kids), h');
    forall i | 0 <= i < |live| ensures Corresponds(h, h', nm, pm, NodeValues(live)[i], NodeValues(moved)[i]) {
      assert live[i] in nm;
    }
    CarriedList(h, h', nm, pm, NodeValues(live), NodeValues(moved));
  }

  lemma LiveCount(h: Heap, r: Roots, kids: seq<int>)
    ensures |Live(h, r, kids)| <= |h.nodes|
    ensures NoGarbage(h, r, kids) ==> |Live(h, r, kids)| == |h.nodes|
  {
    var keep := Live(h, r, kids);
    RankTotal(keep, |h.nodes|);
    RankBound(keep, |h.nodes|);
    if NoGarbage(h, r, kids) {
      forall n | 1 <= n <= |h.nodes| ensures n in keep { assert IsNode(h, n); }
    }
  }

  lemma CollectionDone(h: Heap, r: Roots, kids: seq<int>, builder: Option<nat>, h': Heap, r': Roots, handleMap: seq<int>, ok: bool, kids': seq<int>)
    requires Ready(h, r, kids) && InRange(h, kids) && Owned(r, kids, builder) && NodesCompacted(h, r, kids, h', r', handleMap) && WellFormed(h')
    requires |h'.attrs| <= |h.attrs| && |h'.children| <= |h.children| && Remapped(h, r, kids, builder, ok, kids')
    requires var moved := Ranks(h, r, kids); Ready(h', r', moved) && InRange(h', moved) && NoGarbage(h', r', moved) && RootsPreserved(h, r, h', r')
    ensures CollectedFor(h, r, kids, builder, h', r', ok, kids')
  {
    var nm, moved, taken := RankMap(Live(h, r, kids)), Ranks(h, r, kids), Taken(h, r, kids, builder, true);
    AllBuildersMoved(nm, r.builders);
    LiveCount(h, r, kids);
    if ok {
      MovedOnceKeeps(h, r, kids, h', taken);
      if builder.Some? {
        NoGarbageReady(h', r', moved, kids');
        assert Owned(r', moved, builder);
        NoGarbageWithout(h', r', moved, kids', builder.value);
      }
    }
  }

  lemma CollectionKeeps(h: Heap, r: Roots, kids: seq<int>, builder: Option<nat>, h': Heap, r': Roots, handleMap: seq<int>, ok: bool, kids': seq<int>,
                        c: Capacities, limit: nat, index: Index, copied: set<Text>, interned: bool, bytesLimit: nat)
    requires Good(h, r, c, limit, index, copied, interned, bytesLimit) && Ready(h, r, kids) && InRange(h, kids) && Owned(r, kids, builder)
    requires NodesCompacted(h, r, kids, h', r', handleMap) && NodesFit(h', c) && Remapped(h, r, kids, builder, ok, kids')
    requires |h'.attrs| <= |h.attrs| && |h'.children| <= |h.children|
    ensures Good(h', r', c, limit, index, copied, interned, bytesLimit) && h'.strings == h.strings && CollectedFor(h, r, kids, builder, h', r', ok, kids')
  {
    CompactionKeepsSane(h, r, kids, h', r', handleMap, c, limit, index, copied);
    CollectionDone(h, r, kids, builder, h', r', handleMap, ok, kids');
  }

  lemma NothingToCollect(h: Heap, r: Roots, kids: seq<int>, builder: Option<nat>)
    requires Ready(h, r, kids) && InRange(h, kids) && |h.nodes| == 0
    ensures kids == [] && CollectedFor(h, r, kids, builder, h, r, true, [])
  {
    assert kids == [];
    assert Live(h, r, kids) == {} by { assert forall n :: n !in Live(h, r, kids); }
    SameHeapPreserved(h, r, kids);
    forall b | 0 <= b < |r.builders| && r.builders[b].active
      ensures r.builders[b] == Builder(true, MoveHandles(RankMap(Live(h, r, kids)), r.builders[b].children))
    {
      var c := r.builders[b].children;
      BuilderArrayLive(h, r, kids, b);
      assert forall k :: 0 <= k < |c| ==> c[k] in Live(h, r, kids);
      assert MoveHandles(RankMap(Live(h, r, kids)), c) == c;
    }
  }

  // ----- all collections of one call

  /** What the collections of one call leave: the children denote `Taken`, and stand where the builder's own array
      says exactly when no collection ran or no dead handle lay below a child. */
  ghost predicate RoomMade(h: Heap, r: Roots, kids: seq<int>, builder: Option<nat>, collected: bool, h': Heap, r': Roots, kids': seq<int>) {
    && Ready(h', r', kids') && InRange(h', kids')
    && Preserved(h, r, Taken(h, r, kids, builder, collected), h', r', kids')
    && (if collected then Shrunk(h, r, kids, h') && NoGarbage(h', r', kids') else h' == h && r' == r && kids' == kids)
    && (builder.Some? ==> AllIn(RankMap(Live(h, r, kids)), Taken(h, r, kids, builder, collected)))
    && (builder.Some? ==> AllIn(RankMap(Live(h, r, kids)), kids) && builder.value < |r'.builders| && r'.builders[builder.value].active)
    && (builder.Some? ==> (kids' == r'.builders[builder.value].children <==> !collected || LiveBelow(Live(h, r, kids), kids)))
  }

  lemma NothingCollected(h: Heap, r: Roots, kids: seq<int>, builder: Option<nat>)
    requires Ready(h, r, kids) && InRange(h, kids) && Owned(r, kids, builder)
    ensures RoomMade(h, r, kids, builder, false, h, r, kids)
  {
    SameHeapPreserved(h, r, kids);
    ChildrenMoved(h, r, kids);
  }

  lemma CollectedOnce(h: Heap, r: Roots, kids: seq<int>, builder: Option<nat>, h': Heap, r': Roots, kids': seq<int>)
    requires Owned(r, kids, builder) && CollectedFor(h, r, kids, builder, h', r', true, kids')
    ensures RoomMade(h, r, kids, builder, true, h', r', kids')
  {
    if builder.Some? { RemappedTwiceIff(Live(h, r, kids), |h.nodes|, kids); }
  }

  lemma MoveInjective(keep: set<int>, top: nat, a: seq<int>, b: seq<int>)
    requires (forall k :: k in keep ==> 1 <= k <= top) && AllIn(RankMap(keep), a) && AllIn(RankMap(keep), b)
    ensures MoveHandles(RankMap(keep), a) == MoveHandles(RankMap(keep), b) <==> a == b
  {
    var nm := RankMap(keep);
    RankMapBijection(keep, top);
    if MoveHandles(nm, a) == MoveHandles(nm, b) {
      forall i | 0 <= i < |a| ensures a[i] == b[i] {
        assert MoveHandles(nm, a)[i] == MoveHandles(nm, b)[i];
        assert a[i] in keep && b[i] in keep;
      }
    }
  }

  /** A second collection in the same call works on an array of its own, and moves both arrays alike. */
  lemma CollectedTwice(h: Heap, r: Roots, kids: seq<int>, builder: Option<nat>, h1: Heap, r1: Roots, kids1: seq<int>, h2: Heap, r2: Roots, kids2: seq<int>)
    requires RoomMade(h, r, kids, builder, true, h1, r1, kids1) && CollectedFor(h1, r1, kids1, None, h2, r2, true, kids2)
    ensures RoomMade(h, r, kids, builder, true, h2, r2, kids2)
  {
    var taken := Taken(h, r, kids, builder, true);
    PreservedTwice(h, r, taken, h1, r1, kids1, h2, r2, kids2);
    LiveCount(h1, r1, kids1);
    if builder.Some? {
      var c := r1.builders[builder.value].children;
      BuilderArrayLive(h1, r1, kids1, builder.value);
      MoveInjective(Live(h1, r1, kids1), |h1.nodes|, kids1, c);
    }
  }

  /** The collection when space has run out, alone or after one ahead of need. */
  lemma AfterCollection(h: Heap, r: Roots, kids: seq<int>, builder: Option<nat>, moved: bool, h1: Heap, r1: Roots, kids1: seq<int>,
                        h2: Heap, r2: Roots, ok: bool, kids2: seq<int>)
    requires RoomMade(h, r, kids, builder, moved, h1, r1, kids1) && Owned(r, kids, builder)
    requires CollectedFor(h1, r1, kids1, if moved then None else builder, h2, r2, ok, kids2)
    ensures RootsPreserved(h, r, h2, r2)
    ensures if ok then RoomMade(h, r, kids, builder, true, h2, r2, kids2) else Displaced(h, r, kids, builder)
  {
    if moved {
      CollectedTwice(h, r, kids, builder, h1, r1, kids1, h2, r2, kids2);
    } else if ok {
      CollectedOnce(h, r, kids, builder, h2, r2, kids2);
    }
  }

  lemma BuilderArrayLive(h: Heap, r: Roots, kids: seq<int>, b: nat)
    requires Ready(h, r, kids) && InRange(h, kids) && b < |r.builders| && r.builders[b].active
    ensures AllIn(RankMap(Live(h, r, kids)), r.builders[b].children)
  {
    var c := r.builders[b].children;
    ExtraLast(h, r, kids);
    forall k | 0 <= k < |c| ensures c[k] in Live(h, r, kids) {
      ChildOfBuilder(r, c, b, k);
      var i :| 0 <= i < |HandlesOf(r, [])| && HandlesOf(r, [])[i] == c[k];
      assert HandlesOf(r, kids)[i] == c[k];
      HandleKept(h, ValuesOf(r), HandlesOf(r, kids), i);
    }
  }

  /** The remap finds no new handle for an entry of the builder's array: no node is made. */
  ghost predicate Displaced(h: Heap, r: Roots, kids: seq<int>, builder: Option<nat>) {
    builder.Some? && !AllIn(RankMap(Live(h, r, kids)), Ranks(h, r, kids))
  }

  /** The new node's children are those in builder `b`'s own array exactly when no collection ran or no dead handle lay
      below a child. */
  ghost predicate RightChildrenIff(h: Heap, r: Roots, kids: seq<int>, b: nat, collected: bool, r': Roots, kids': seq<int>) {
    && b < |r'.builders| && r'.builders[b].active
    && (kids' == r'.builders[b].children <==> !collected || LiveBelow(Live(h, r, kids), kids))
  }

  // ----- the node that is made, or why none is

  /** The node made once its strings are reserved. */
  ghost predicate NodeBuilt(h: Heap, r: Roots, kids: seq<int>, builder: Option<nat>, kind: Text, id: Text, attrs: seq<Attr>, collected: bool,
                            h': Heap, r': Roots, handle: int, kids': seq<int>) {
    && handle == |h'.nodes| > 0 && Ready(h', r', [handle]) && ChildrenOf(h', handle) == kids' && RecordHolds(h', handle, kind, id, attrs)
    && DenotesNode(h', handle, kind, id, attrs, h, Taken(h, r, kids, builder, collected))
    && (builder.Some? ==> RightChildrenIff(h, r, kids, builder.value, collected, r', kids'))
    && (collected ==> !Displaced(h, r, kids, builder))
  }

  /** A collection ran, and either the builder's array could not be remapped or the arenas are full of live nodes. */
  ghost predicate NodeRefused(h: Heap, r: Roots, kids: seq<int>, builder: Option<nat>, attrCount: nat, c: Capacities, h': Heap, r': Roots, kids': seq<int>) {
    Displaced(h, r, kids, builder) || (!RoomFor(h', c, attrCount, |kids|) && RoomMade(h, r, kids, builder, true, h', r', kids'))
  }

  lemma BuiltFromStored(h1: Heap, r1: Roots, kids: seq<int>, builder: Option<nat>, collected: bool, h2: Heap, r2: Roots, kids2: seq<int>,
                        kind: Text, id: Text, attrs: seq<Attr>, h': Heap, handle: int)
    requires RoomMade(h1, r1, kids, builder, collected, h2, r2, kids2) && NodeStored(h2, r2, kids2, kind, id, attrs, h') && handle == |h'.nodes|
    ensures RootsPreserved(h1, r1, h', r2) && NodeBuilt(h1, r1, kids, builder, kind, id, attrs, collected, h', r2, handle, kids2)
  {
    RootsPreservedTwice(h1, r1, h2, r2, h', r2);
    DenotesChildren(h', handle, kind, id, attrs, h2, kids2, h1, Taken(h1, r1, kids, builder, collected));
  }

  /** What the whole call makes: the node denotes what it was given, over `Taken`, exactly when the string reservation
      did not compact or every child was reachable from the roots. */
  ghost predicate NodeCreated(h: Heap, r: Roots, kids: seq<int>, builder: Option<nat>, kind: Text, id: Text, attrs: seq<Attr>, compacted: bool, collected: bool,
                              h': Heap, r': Roots, handle: int, kids': seq<int>) {
    && handle == |h'.nodes| > 0 && Ready(h', r', [handle]) && ChildrenOf(h', handle) == kids' && RecordHolds(h', handle, kind, id, attrs)
    && (DenotesNode(h', handle, kind, id, attrs, h, Taken(h, r, kids, builder, collected)) <==> !compacted || AllLive(h, r, kids))
    && (builder.Some? ==> AllLive(h, r, kids) && RightChildrenIff(h, r, kids, builder.value, collected, r', kids'))
  }

  /** Why the call made no node although its strings were reserved. */
  ghost predicate CreationRefused(h: Heap, r: Roots, kids: seq<int>, builder: Option<nat>, attrCount: nat, compacted: bool, c: Capacities,
                                  h': Heap, r': Roots, kids': seq<int>) {
    || Displaced(h, r, kids, builder)
    || (&& !RoomFor(h', c, attrCount, |kids|) && Shrunk(h, r, kids, h') && NoGarbage(h', r', kids')
        && (!compacted || AllLive(h, r, kids) ==> Preserved(h, r, Taken(h, r, kids, builder, true), h', r', kids')))
  }

  lemma CreatedFromBuilt(h0: Heap, r0: Roots, kids: seq<int>, builder: Option<nat>, h1: Heap, r1: Roots, compacted: bool,
                         kind: Text, id: Text, attrs: seq<Attr>, collected: bool, h': Heap, r': Roots, handle: int, kids': seq<int>)
    requires Ready(h0, r0, kids) && KindsStored(h0, kids) && Owned(r0, kids, builder)
    requires if compacted then StringsCompacted(h0, r0, h1, r1) else h1 == h0 && r1 == r0
    requires NodeBuilt(h1, r1, kids, builder, kind, id, attrs, collected, h', r', handle, kids')
    ensures NodeCreated(h0, r0, kids, builder, kind, id, attrs, compacted, collected, h', r', handle, kids')
  {
    ReservationKeepsTaken(h0, r0, kids, builder, h1, r1, compacted, collected);
    var taken := Taken(h0, r0, kids, builder, collected);
    DenotesChildren(h', handle, kind, id, attrs, h1, taken, h0, taken);
  }

  lemma RefusedAfterReservation(h0: Heap, r0: Roots, kids: seq<int>, builder: Option<nat>, h1: Heap, r1: Roots, compacted: bool,
                                attrCount: nat, c: Capacities, h': Heap, r': Roots, kids': seq<int>)
    requires Ready(h0, r0, kids) && KindsStored(h0, kids) && Owned(r0, kids, builder) && RootsPreserved(h0, r0, h', r')
    requires if compacted then StringsCompacted(h0, r0, h1, r1) else h1 == h0 && r1 == r0
    requires NodeRefused(h1, r1, kids, builder, attrCount, c, h', r', kids')
    ensures CreationRefused(h0, r0, kids, builder, attrCount, compacted, c, h', r', kids')
  {
    ReservationKeepsTaken(h0, r0, kids, builder, h1, r1, compacted, true);
    var taken := Taken(h0, r0, kids, builder, true);
    if !Displaced(h0, r0, kids, builder) && (!compacted || AllLive(h0, r0, kids)) {
      SameMeaningTwice(h0, NodeValues(taken), h1, NodeValues(taken), h', NodeValues(kids'));
    }
  }

  lemma AfterReservation(h0: Heap, r0: Roots, kids: seq<int>, builder: Option<nat>, h1: Heap, r1: Roots, compacted: bool, kind: Text, id: Text,
                         attrs: seq<Attr>, collected: bool, c: Capacities, h': Heap, r': Roots, handle: int, kids': seq<int>)
    requires Ready(h0, r0, kids) && KindsStored(h0, kids) && Owned(r0, kids, builder)
    requires if compacted then StringsCompacted(h0, r0, h1, r1) else h1 == h0 && r1 == r0
    requires RootsPreserved(h0, r0, h1, r1) && RootsPreserved(h1, r1, h', r')
    requires if handle != 0 then NodeBuilt(h1, r1, kids, builder, kind, id, attrs, collected, h', r', handle, kids')
             else NodeRefused(h1, r1, kids, builder, |attrs|, c, h', r', kids')
    ensures RootsPreserved(h0, r0, h', r')
    ensures if handle != 0 then NodeCreated(h0, r0, kids, builder, kind, id, attrs, compacted, collected, h', r', handle, kids')
            else CreationRefused(h0, r0, kids, builder, |attrs|, compacted, c, h', r', kids')
  {
    RootsPreservedTwice(h0, r0, h1, r1, h', r');
    if handle != 0 {
      CreatedFromBuilt(h0, r0, kids, builder, h1, r1, compacted, kind, id, attrs, collected, h', r', handle, kids');
    } else {
      RefusedAfterReservation(h0, r0, kids, builder, h1, r1, compacted, |attrs|, c, h', r', kids');
    }
  }

  // ----- the reservation before the collections

  lemma SameLiveAfterReservation(h: Heap, r: Roots, kids: seq<int>, h': Heap, r': Roots)
    requires Ready(h, r, kids) && InRange(h, kids) && StringsCompacted(h, r, h', r')
    ensures Live(h', r', kids) == Live(h, r, kids) && Live(h', r', []) == Live(h, r, [])
  {
    var vs, vs' := ValuesOf(r), ValuesOf(r');
    FewerExtra(h, r, kids);
    RelocatedShapes(h, vs, HandlesOf(r, []), h'.strings.bytes, h', vs');
    SameLivePairs(h, vs, h', vs');
    SameLiveNodes(h, vs, HandlesOf(r, kids), h', vs');
    SameLiveNodes(h, vs, HandlesOf(r, []), h', vs');
  }

  /** A reservation changes neither which nodes the children are nor where a collection takes them. */
  lemma ReservationKeepsTaken(h: Heap, r: Roots, kids: seq<int>, builder: Option<nat>, h': Heap, r': Roots, compacted: bool, collected: bool)
    requires Ready(h, r, kids) && KindsStored(h, kids) && Owned(r, kids, builder)
    requires if compacted then StringsCompacted(h, r, h', r') else h' == h && r' == r
    ensures Live(h', r', kids) == Live(h, r, kids) && Owned(r', kids, builder) && |h'.nodes| == |h.nodes| && |h'.attrs| == |h.attrs| && |h'.children| == |h.children|
    ensures builder.Some? ==> AllLive(h, r, kids)
    ensures !collected || !Displaced(h, r, kids, builder) ==>
              var taken := Taken(h, r, kids, builder, collected);
              SameMeaning(h, NodeValues(taken), h', NodeValues(taken)) <==> !compacted || AllLive(h, r, kids)
  {
    if builder.Some? { OwnedLive(h, r, kids, builder.value); }
    if compacted {
      SameLiveAfterReservation(h, r, kids, h', r');
      StringCompactionKeepsChildrenIff(h, r, kids, h', r');
      if builder.Some? && collected && !Displaced(h, r, kids, builder) {
        FewerExtra(h, r, kids);
        LiveChildrenKept(h, r, Ranks(h, r, kids), h', r');
      }
    }
  }

  ghost predicate ReservedFor(h: Heap, r: Roots, kids: seq<int>, builder: Option<nat>, attrCount: nat, c: Capacities, since: nat, h': Heap, r': Roots, compacted: bool) {
    && (if compacted then StringsCompacted(h, r, h', r') else h' == h && r' == r)
    && RootsPreserved(h, r, h', r') && Ready(h', r', kids) && InRange(h', kids) && Owned(r', kids, builder)
    && (Displaced(h', r', kids, builder) <==> Displaced(h, r, kids, builder))
    && (RoomFor(h', c, attrCount, |kids|) <==> RoomFor(h, c, attrCount, |kids|))
    && (NeedsCollection(h', c, attrCount, |kids|, since) <==> NeedsCollection(h, c, attrCount, |kids|, since))
  }

  lemma ReservationDone(h: Heap, r: Roots, kids: seq<int>, builder: Option<nat>, attrCount: nat, c: Capacities, since: nat, h': Heap, r': Roots, compacted: bool)
    requires Ready(h, r, kids) && KindsStored(h, kids) && Owned(r, kids, builder)
    requires if compacted then StringsCompacted(h, r, h', r') else h' == h && r' == r
    ensures ReservedFor(h, r, kids, builder, attrCount, c, since, h', r', compacted)
  {
    ReservationKeeps(h, r, kids, h', r', compacted);
    ReservationKeepsTaken(h, r, kids, builder, h', r', compacted, true);
  }

  // ----- letting a builder go

  /** dispose_builder. */
  function Disposed(r: Roots, b: nat): Roots
    requires b < |r.builders|
  {
    r.(builders := r.builders[b := Builder(false, [])])
  }

  lemma {:induction false} DisposedHandles(bs: seq<Builder>, b: nat, n: int)
    requires b < |bs| && n in BuilderHandles(bs[b := Builder(false, [])])
    ensures n in BuilderHandles(bs)
  {
    var k, bs' := |bs| - 1, bs[b := Builder(false, [])];
    assert BuilderHandles(bs') == BuilderHandles(bs'[..k]) + if bs'[k].active then bs'[k].children else [];
    if b < k {
      assert bs'[..k] == bs[..k][b := Builder(false, [])];
      if n in BuilderHandles(bs'[..k]) { DisposedHandles(bs[..k], b, n); }
    } else {
      assert bs'[..k] == bs[..k];
    }
  }

  lemma FewerHandles(h: Heap, vs: seq<Value>, hs: seq<int>, hs': seq<int>)
    requires forall i :: 0 <= i < |hs'| ==> hs'[i] in hs
    ensures LiveNodes(h, vs, hs') <= LiveNodes(h, vs, hs)
  {
    forall ns: set<int> | NodesClosed(h, vs, hs, ns) ensures NodesClosed(h, vs, hs', ns) {
      forall i | 0 <= i < |hs'| && IsNode(h, hs'[i]) ensures hs'[i] in ns {
        var k :| 0 <= k < |hs| && hs[k] == hs'[i];
      }
    }
  }

  lemma DisposedReady(h: Heap, r: Roots, b: nat, extra: seq<int>)
    requires Ready(h, r, extra) && b < |r.builders|
    ensures Ready(h, Disposed(r, b), extra)
  {
    var hs, hs' := HandlesOf(r, extra), HandlesOf(Disposed(r, b), extra);
    forall i | 0 <= i < |hs'| ensures hs'[i] in hs {
      var c' := BuilderHandles(Disposed(r, b).builders);
      if i < |c'| {
        DisposedHandles(r.builders, b, c'[i]);
      } else {
        assert hs'[i] == hs[i - |c'| + |BuilderHandles(r.builders)|];
      }
    }
    FewerHandles(h, ValuesOf(r), hs, hs');
    forall i | 0 <= i < |hs'| ensures IsNode(h, hs'[i]) {
      var k :| 0 <= k < |hs| && hs[k] == hs'[i];
    }
  }

  lemma DisposedSane(h: Heap, r: Roots, b: nat, handle: int, c: Capacities, limit: nat, index: Index, copied: set<Text>)
    requires Sane(h, r, c, limit, index, copied) && Ready(h, r, [handle]) && b < |r.builders|
    ensures Sane(h, Disposed(r, b), c, limit, index, copied) && Ready(h, Disposed(r, b), [handle])
  {
    DisposedReady(h, r, b, []);
    DisposedReady(h, r, b, [handle]);
  }
}
