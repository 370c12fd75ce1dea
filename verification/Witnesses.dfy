/**
 Runs of the VM on which node creation and string copying do not give what
 their callers expect.
 */
module Witnesses {
  import opened CText
  import opened Heap
  import opened Liveness
  import opened Compaction
  import opened Relocation
  import opened RootSets
  import opened BytesViews
  import opened Allocation
  import opened NodeCreation
  import opened Builders
  import opened VmState

  // ----- a finished builder that gets another node's child

  /** Three nodes of kinds "a", "b" and "c" without attributes or children. */
  const Three := Heap([Record(ArenaStr(0, 0), ArenaStr(0, 0), 0, 0, 0, 0), Record(ArenaStr(0, 2), ArenaStr(0, 2), 0, 0, 0, 0),
                       Record(ArenaStr(0, 4), ArenaStr(0, 4), 0, 0, 0, 0)], [], [], [], Arena(0, [97, 0, 98, 0, 99, 0]), Arena(0, []))

  /** Node 2 is on the stack, node 3 is the only child of a builder, and node 1 is garbage. */
  const ThreeRoots := Roots([Node(2)], [], [], [], [Builder(true, [3])], [])

  lemma ThreeHandles()
    ensures ValuesOf(ThreeRoots) == [Node(2)] && HandlesOf(ThreeRoots, []) == [3] && HandlesOf(ThreeRoots, [3]) == [3, 3]
  {
    assert Results([]) == [];
    assert BuilderHandles([Builder(true, [3])]) == [3];
    assert Positive([3]) == [3];
  }

  lemma NoChildren(n: int)
    requires IsNode(Three, n)
    ensures ChildrenOf(Three, n) == [] && AttrsOf(Three, n) == []
  {}

  lemma ThreeReach(hs: seq<int>)
    requires hs == [3] || hs == [3, 3]
    ensures LiveNodes(Three, [Node(2)], hs) == {2, 3} && LivePairs(Three, [Node(2)]) == {} && forall p :: !LivePair(Three, [Node(2)], p)
  {
    var vs, both, none: set<int> := [Node(2)], {2, 3}, {};
    assert PairsClosed(Three, vs, none);
    forall n | n in both && IsNode(Three, n) ensures KidsIn(Three, n, both) { NoChildren(n); }
    assert NodesClosed(Three, vs, hs, both);
    LiveNodeRoot(Three, vs, hs, 0);
    LiveNodeHandle(Three, vs, hs, 0);
  }

  lemma ThreeTexts()
    ensures Terminated(Three.strings.bytes)
    ensures forall n :: IsNode(Three, n) ==> NodeOk(Three, n) && InArena(Three.strings, Three.nodes[n - 1].kind)
    ensures ReadStr(Three.strings, ArenaStr(0, 2)) == Some([98]) && ReadStr(Three.strings, ArenaStr(0, 4)) == Some([99])
  {
    var a := Three.strings.bytes;
    assert SegmentStart(a, 0) && SegmentStart(a, 2) && SegmentStart(a, 4);
    TextAtUnique(a, 2, [98]);
    TextAtUnique(a, 4, [99]);
    forall n | IsNode(Three, n) ensures NodeOk(Three, n) && InArena(Three.strings, Three.nodes[n - 1].kind) { NoChildren(n); }
  }

  lemma ThreeWellFormed()
    ensures WellFormed(Three)
  {
    forall i | 0 <= i < 3 ensures StartsAtEnd(Three.nodes, i) {}
  }

  lemma ThreeReady(kids: seq<int>)
    requires kids == [] || kids == [3]
    ensures Ready(Three, ThreeRoots, kids) && Live(Three, ThreeRoots, kids) == {2, 3}
  {
    ThreeHandles();
    ThreeReach(HandlesOf(ThreeRoots, kids));
    ThreeTexts();
    ThreeWellFormed();
  }

  const ThreeCapacities := Capacities(3, 0, 1, 64, 0)

  lemma ThreeSane()
    ensures Sane(Three, ThreeRoots, ThreeCapacities, 64, Index([], 0, false), {})
  {
    ThreeReady([]);
    ThreeWellFormed();
    ThreeHandles();
    assert InternIndex.IndexOk(Three.strings.bytes, [], 0, false, {});
    assert BytesFit(Three.bytes, [], [Node(2)], 0);
  }

  /** The child's number among the live nodes is 2: after a collection, node 3 is read as node 2. */
  lemma ThreeRanks()
    ensures Ranks(Three, ThreeRoots, [3]) == [2] && !Displaced(Three, ThreeRoots, [3], Some(0))
  {
    ThreeReady([3]);
    var keep: set<int> := {2, 3};
    assert Rank(keep, 0) == 0 && Rank(keep, 1) == 0 && Rank(keep, 2) == 1 && Rank(keep, 3) == 2;
    assert MoveHandles(RankMap(keep), [3]) == [2];
  }

  lemma OldNodesDiffer(h: Heap, n: int, kind: Text, id: Text)
    requires DenotesNode(h, n, kind, id, [], Three, [2])
    ensures !DenotesNode(h, n, kind, id, [], Three, [3])
  {
    ThreeTexts();
    KidAt(Three, [2], 1, 0);
    KidAt(Three, [3], 1, 0);
    assert MeaningOf(Three, Node(2), 1).kind == Some([98]) && MeaningOf(Three, Node(3), 1).kind == Some([99]);
    assert KidsOf(Three, [2], 1)[0] != KidsOf(Three, [3], 1)[0];
    assert DenotesTo(h, n, kind, id, [], Three, [2], 1);
    assert !DenotesTo(h, n, kind, id, [], Three, [3], 1);
  }

  /** On a VM with room for three nodes the call collects, and then there is room. */
  lemma ThreeCollects(h: Heap, r: Roots, kids: seq<int>)
    ensures forall since: nat :: NeedsCollection(Three, ThreeCapacities, 0, 1, since)
    ensures !CreationRefused(Three, ThreeRoots, [3], Some(0), 0, false, ThreeCapacities, h, r, kids)
  {
    ThreeRanks();
    ThreeReady([3]);
    assert |Live(Three, ThreeRoots, [3])| == 2;
  }

  lemma ThreeDenotes(h: Heap, r: Roots, kind: Text, attrs: seq<Attr>, compacted: bool, collected: bool, handle: int, kids: seq<int>)
    requires attrs == [] && !compacted && collected
    requires NodeCreated(Three, ThreeRoots, ThreeRoots.builders[0].children, Some(0), kind, kind, attrs, compacted, collected, h, r, handle, kids)
    ensures handle == |h.nodes| > 0 && DenotesNode(h, handle, kind, kind, [], Three, [2]) && !DenotesNode(h, handle, kind, kind, [], Three, [3])
  {
    ThreeRanks();
    OldNodesDiffer(h, handle, kind, kind);
  }

  /** Finishing the builder on a VM with room for three nodes: the new node's child is what node 2 was, not node 3. */
  method FinishedWithOtherChild() returns (vm: Vm, handle: int)
    ensures fresh(vm) && handle == |vm.heap.nodes| > 0
    ensures DenotesNode(vm.heap, handle, [100], [100], [], Three, [2]) && !DenotesNode(vm.heap, handle, [100], [100], [], Three, [3])
  {
    ThreeSane();
    ThreeReady([3]);
    ThreeTexts();
    vm := new Vm.At(Three, ThreeRoots, ThreeCapacities, 64, Index([], 0, false), 8);
    ghost var compacted, collected, kids', mid;
    handle, compacted, collected, kids', mid := vm.FinishBuilder(0, HostStr([100]), HostStr([100]), []);
    ThreeCollects(vm.heap, mid, kids');
    ghost var attrs := Snapshots(Three.strings, []);
    assert attrs == [] && handle != 0 && !compacted && collected;
    ThreeDenotes(vm.heap, mid, [100], attrs, compacted, collected, handle, kids');
  }

  // ----- a text stored twice

  const OneText := Arena(0, [104, 0])

  /** "h" stands in the arena, and an empty index that calls itself complete does not know it. */
  lemma OneTextUnknown()
    ensures NulFree([104]) && Appended([], [104]) == OneText.bytes && Appended(OneText.bytes, [104]) == [104, 0, 104, 0]
    ensures Stored(OneText.bytes, [104]) && !Known(OneText, Index([], 0, true), [104])
  {
    var a: seq<Byte>, t: Text := OneText.bytes, [104];
    assert a[0..1] == t && a[1] == 0;
    TextAtUnique(a, 0, t);
    assert SegmentStart(a, 0);
    assert InternIndex.Absent(a, [], t);
  }

  /** push_string_bytes_copy on an empty VM. */
  method StoredUnseen() returns (vm: Vm)
    ensures fresh(vm) && Unseen(vm)
  {
    vm := new Vm(Capacities(0, 0, 0, 64, 0), 64, 0, 8, false);
    OneTextUnknown();
    ghost var mid, midRoots;
    var ok, r;
    ok, r, mid, midRoots := vm.PushStringBytes([104]);
  }

  /** Such a VM: "h" is stored, the index is complete and does not know it. */
  ghost predicate Unseen(vm: Vm)
    reads vm
  {
    vm.HeapOk() && !vm.tooling && vm.stringLimit >= 64 && vm.heap.strings == OneText && vm.index == Index([], 0, true)
  }

  /** Splicing finds the text in the arena and tells the index nothing. */
  method SplicedUnseen(vm: Vm) returns (r: StrRef)
    requires Unseen(vm)
    modifies vm
    ensures Unseen(vm) && r.ArenaStr? && r.offset < 2
  {
    OneTextUnknown();
    ghost var mid;
    r, mid := vm.CopySplice(HostStr([104]), 1, HostStr([]), 0);
  }

  /** A text stored without being indexed: splicing finds it in the arena, copying does not and stores it again. */
  method StoredTwice() returns (vm: Vm, spliced: StrRef, copy: StrRef)
    ensures fresh(vm) && vm.heap.strings.bytes == [104, 0, 104, 0]
    ensures spliced.ArenaStr? && spliced.offset < 2 && copy == ArenaStr(0, 2)
  {
    vm := StoredUnseen();
    spliced := SplicedUnseen(vm);
    OneTextUnknown();
    ghost var mid;
    copy, mid := vm.CopyText([104]);
  }
}
