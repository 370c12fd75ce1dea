/**
 The VM object the collectors and allocators update in place: compaction of
 nodes, scratch pairs, strings and bytes, the string allocator with its intern
 index, the bytes allocator, node creation and builders.
 */
module VmState {
  import opened CText
  import opened Heap
  import opened Liveness
  import opened Compaction
  import opened Relocation
  import opened RootSets
  import opened Collector
  import opened Allocation
  import opened NodeCreation
  import opened Builders
  import opened BytesCompaction
  import opened SafePoint
  import opened StackValues

  const STRING_GROWTH_STEP: nat := 16384
  const BYTES_GROWTH_STEP: nat := 16384

  class Vm {
    var roots: Roots
    var heap: Heap
    var capacities: Capacities
    var allocationsSinceGc: nat
    var stringLimit: nat
    var index: Index
    var bytesLimit: nat
    ghost var copied: set<Text>  // texts copied by the copy functions since the last compaction or reset
    ghost var interned: bool     // no text was ever written without being indexed
    const stackCapacity: nat
    const tooling: bool
    // what the host answers, until it answers otherwise; no method changes it
    var stringHost: nat -> bool  // may the string limit become this large?
    var bytesHost: nat -> bool   // and the bytes limit?
    var indexMemory: bool        // is there memory for a larger intern index?
    var arraysHost: nat -> bool  // do the steps of growing the node arrays go through: admission, nodes, attributes, children?

    /** A VM with nothing in it. */
    constructor (capacities: Capacities, limit: nat, bytesLimit: nat, stackCapacity: nat, tooling: bool)
      requires limit <= capacities.strings && bytesLimit <= capacities.bytes
      ensures HeapOk() && interned && this.tooling == tooling && this.stackCapacity == stackCapacity && this.capacities == capacities && stringLimit == limit
      ensures heap == Heap([], [], [], [], Arena(0, []), Arena(0, [])) && roots == NoRoots && index == Index([], 0, true) && allocationsSinceGc == 0 && this.bytesLimit == bytesLimit
    {
      roots, heap := NoRoots, EmptyHeap;
      this.capacities, stringLimit, this.bytesLimit, this.stackCapacity, this.tooling := capacities, limit, bytesLimit, stackCapacity, tooling;
      index, copied, interned, allocationsSinceGc := Index([], 0, true), {}, true, 0;
      stringHost, bytesHost, indexMemory, arraysHost := _ => true, _ => true, true, _ => true;
      new;
      EmptySane(capacities, limit);
    }

    /** A VM in a given state. */
    constructor At(heap: Heap, roots: Roots, capacities: Capacities, limit: nat, index: Index, stackCapacity: nat)
      requires Sane(heap, roots, capacities, limit, index, {}) && InternIndex.Covered(heap.strings.bytes, index.entries, index.complete)
      ensures HeapOk() && !tooling && this.heap == heap && this.roots == roots && this.capacities == capacities && stringLimit == limit && this.index == index
      ensures this.stackCapacity == stackCapacity && allocationsSinceGc == 0 && bytesLimit == capacities.bytes
    {
      this.heap, this.roots, this.capacities, stringLimit, this.index := heap, roots, capacities, limit, index;
      bytesLimit, this.stackCapacity, tooling, copied, interned, allocationsSinceGc := capacities.bytes, stackCapacity, false, {}, true, 0;
      stringHost, bytesHost, indexMemory, arraysHost := _ => true, _ => true, true, _ => true;
    }

    ghost predicate NodesOk()
      reads this
    {
      NodesFit(heap, capacities)
    }

    ghost predicate HeapOk()
      reads this
    {
      Good(heap, roots, capacities, stringLimit, index, copied, interned, bytesLimit)
    }

    /** aivm_vm_compact_node_arenas_with_map: keeps exactly the live nodes, renumbered in order, and rewrites every root. */
    method CompactNodes(extra: seq<int>) returns (ok: bool, handleMap: seq<int>)
      requires NodesOk()
      modifies this`roots, this`heap
      ensures ok <==> |old(heap).nodes| == 0 || RootsSound(old(heap), ValuesOf(old(roots)), HandlesOf(old(roots), extra))
      ensures ok && |old(heap).nodes| == 0 ==> heap == old(heap) && roots == old(roots) && handleMap == seq(capacities.nodes + 1, _ => 0)
      ensures ok && |old(heap).nodes| > 0 ==> NodesCompacted(old(heap), old(roots), extra, heap, roots, handleMap)
      ensures ok ==> NodesOk() && |heap.nodes| <= |old(heap).nodes| && |heap.attrs| <= |old(heap).attrs| && |heap.children| <= |old(heap).children|
    {
      var h, r := heap, roots;
      handleMap := seq(capacities.nodes + 1, _ => 0);
      if |h.nodes| == 0 {
        return true, handleMap;
      }
      var livePairs, newMap, copy;
      ok, livePairs, newMap, copy := MarkAndCopy(h, r, extra, capacities.nodes);
      if !ok {
        UnsoundExtra(h, r, extra);
        return;
      }
      ghost var nm := RankMap(LiveNodes(h, ValuesOf(r), HandlesOf(r, extra)));
      var pairs', r';
      ok, pairs', r' := RemapRoots(h.pairs, livePairs, newMap, r, nm);
      CompactionResult(h, r, extra, livePairs, newMap, copy, ok, pairs');
      // the arenas are replaced before the roots are rewritten, and stay replaced on failure
      heap := copy.(pairs := pairs');
      roots := r';
      handleMap := newMap;
    }

    /** aivm_vm_compact_scratch_pairs: all or nothing. */
    method CompactPairs() returns (ok: bool)
      modifies this`roots, this`heap
      ensures ok <==> |old(heap).pairs| == 0 || PairsSound(old(heap), ValuesOf(old(roots)))
      ensures !ok || |old(heap).pairs| == 0 ==> heap == old(heap) && roots == old(roots)
      ensures ok && |old(heap).pairs| > 0 ==> PairsCompacted(old(heap), old(roots), heap, roots)
    {
      if |heap.pairs| == 0 {
        return true;
      }
      var h, r := heap, roots;
      var pairMap, copy;
      ok, pairMap, copy := MarkAndCopyPairs(h, r);
      if !ok { return; }
      ghost var pm := RankMap(LivePairs(h, ValuesOf(r)));
      PairRootsIn(h, r);
      roots := RenameRootValues(r, pairMap, pm);
      heap := h.(pairs := copy);
    }

    /** aivm_compact_string_arena: never fails midway, never grows, and leaves no text stored twice and none that nothing
        live points at. */
    method CompactStrings() returns (ok: bool)
      requires HeapOk()
      modifies this`roots, this`heap, this`index, this`copied
      ensures ok && HeapOk()
      ensures NoDeadText(heap, roots)
      ensures |old(heap).strings.bytes| == 0 ==> heap == old(heap) && roots == old(roots) && copied == old(copied) && index == old(index)
      ensures |old(heap).strings.bytes| > 0 ==> StringsCompacted(old(heap), old(roots), heap, roots) && Covered(heap.strings, index, true)
      ensures |old(heap).strings.bytes| > 0 ==> copied == {} && (index.complete <==> heap.strings.bytes == [] || indexMemory)
    {
      ok := true;
      var h, r := heap, roots;
      if |h.strings.bytes| == 0 {
        return;
      }
      var h', r' := RelocateAll(h, r, capacities.nodes, capacities.strings);
      index := Reindex(h, r, h', r', capacities, stringLimit, index, copied, indexMemory);
      heap, roots, copied := h', r', {};
    }

    // ----- the string allocator

    /** ensure_string_arena_capacity: grows the limit step by step; a tooling host may refuse any step. */
    method EnsureStringCapacity(needed: nat) returns (ok: bool)
      requires stringLimit <= capacities.strings
      modifies this`stringLimit
      ensures old(stringLimit) <= stringLimit <= capacities.strings
      ensures ok <==> needed <= stringLimit
      ensures !tooling ==> (ok <==> needed <= capacities.strings)
      ensures stringLimit > old(stringLimit) ==> stringLimit < needed + 16384
      ensures stringLimit == capacities.strings || (stringLimit - old(stringLimit)) % 16384 == 0
      ensures !ok ==> Exhausted(needed, stringLimit, capacities.strings, tooling, stringHost)
    {
      while needed > stringLimit && stringLimit < capacities.strings
        invariant old(stringLimit) <= stringLimit <= capacities.strings
        invariant stringLimit > old(stringLimit) ==> stringLimit < needed + 16384
        invariant stringLimit == capacities.strings || (stringLimit - old(stringLimit)) % 16384 == 0
        decreases capacities.strings - stringLimit
      {
        var next := if stringLimit + STRING_GROWTH_STEP > capacities.strings then capacities.strings else stringLimit + STRING_GROWTH_STEP;
        if tooling && !stringHost(next) {
          return false;
        }
        stringLimit := next;
      }
      ok := needed <= stringLimit;
    }

    /** aivm_string_arena_reserve: makes room for `size` bytes, compacting at most once. */
    method Reserve(size: nat) returns (ok: bool, ghost compacted: bool)
      requires HeapOk()
      modifies this`roots, this`heap, this`index, this`copied, this`stringLimit
      ensures HeapOk()
      ensures ok <==> |heap.strings.bytes| + size <= stringLimit
      ensures !compacted ==> heap == old(heap) && roots == old(roots) && copied == old(copied) && index == old(index)
      ensures compacted ==> StringsCompacted(old(heap), old(roots), heap, roots)
      ensures |old(heap).strings.bytes| + size <= old(stringLimit) ==> ok && !compacted
      ensures old(stringLimit) <= stringLimit && (compacted ==> heap.strings.epoch == old(heap).strings.epoch + 1)
      ensures !tooling ==> (compacted <==> |old(heap).strings.bytes| + size > capacities.strings && old(heap).strings.bytes != [])
      ensures !tooling ==> (ok <==> |heap.strings.bytes| + size <= capacities.strings)
      ensures !ok ==> Exhausted(|heap.strings.bytes| + size, stringLimit, capacities.strings, tooling, stringHost)
    {
      compacted := false;
      var used := |heap.strings.bytes|;
      if used + size > stringLimit {
        ok := EnsureStringCapacity(used + size);
        if !ok {
          compacted := used > 0;
          ok := CompactStrings();
        }
      }
      used := |heap.strings.bytes|;
      ok := used + size <= stringLimit;
      if !ok {
        ok := EnsureStringCapacity(used + size);
      }
    }

    /** Writes the text into the reserved room at the end of the arena; remember_string_in_index. */
    method StoreText(t: Text) returns (r: StrRef)
      requires HeapOk() && NulFree(t) && |heap.strings.bytes| + |t| + 1 <= stringLimit
      modifies this`heap, this`index, this`copied
      ensures HeapOk() && heap == Grown(old(heap), t) && copied == old(copied) + {t}
      ensures index.complete <==> old(index).complete && (indexMemory || InternIndex.HasSlot(|old(index).entries|, old(index).count))
      ensures r == ArenaStr(old(heap).strings.epoch, |old(heap).strings.bytes|)
    {
      r := ArenaStr(heap.strings.epoch, |heap.strings.bytes|);
      var h, entries := Store(heap, roots, capacities, stringLimit, index, copied, interned, bytesLimit, t, indexMemory);
      heap, index, copied := h, entries, copied + {t};
    }

    /** aivm_string_arena_alloc and the write that follows it. */
    method AppendText(t: Text) returns (r: StrRef, ghost mid: Heap)
      requires HeapOk() && NulFree(t)
      modifies this`roots, this`heap, this`index, this`copied, this`stringLimit
      ensures HeapOk()
      ensures Settled(old(heap), old(roots), mid, roots) && (mid == old(heap) ==> old(copied) <= copied)
      ensures if r == NullStr then heap == mid else heap == Grown(mid, t) && r == ArenaStr(mid.strings.epoch, |mid.strings.bytes|) && t in copied
      ensures |old(heap).strings.bytes| + |t| + 1 <= old(stringLimit) ==> r != NullStr && mid == old(heap) && roots == old(roots)
      ensures !tooling ==> (r == NullStr <==> |mid.strings.bytes| + |t| + 1 > capacities.strings)
      ensures r == NullStr ==> Exhausted(|mid.strings.bytes| + |t| + 1, stringLimit, capacities.strings, tooling, stringHost)
      ensures stringLimit >= old(stringLimit)
    {
      var ok, compacted := Reserve(|t| + 1);
      mid := heap;
      r := NullStr;
      if ok {
        r := StoreText(t);
      }
    }

    /** The common part of the copy functions: a known text is found again, any other is appended. */
    method CopyText(t: Text) returns (r: StrRef, ghost mid: Heap)
      requires HeapOk() && NulFree(t)
      modifies this`roots, this`heap, this`index, this`copied, this`stringLimit
      ensures HeapOk()
      ensures Settled(old(heap), old(roots), mid, roots) && (mid == old(heap) ==> old(copied) <= copied)
      ensures r != NullStr ==> StrOk(heap.strings, r) && r.ArenaStr? && ReadStr(heap.strings, r) == Some(t) && t in copied
      ensures old(Known(heap.strings, index, t)) ==> r != NullStr && heap == mid == old(heap) && roots == old(roots)
      ensures !old(Known(heap.strings, index, t)) && r != NullStr ==> heap == Grown(mid, t) && r == ArenaStr(mid.strings.epoch, |mid.strings.bytes|)
      ensures !old(Known(heap.strings, index, t)) && r == NullStr ==> heap == mid
      ensures t in old(copied) ==> r != NullStr && heap == mid == old(heap) && roots == old(roots)
      ensures old(interned) && Stored(old(heap).strings.bytes, t) ==> old(Known(heap.strings, index, t))
      ensures |old(heap).strings.bytes| + |t| + 1 <= old(stringLimit) ==> r != NullStr && mid == old(heap) && roots == old(roots)
      ensures !tooling ==> (r == NullStr <==> !old(Known(heap.strings, index, t)) && |mid.strings.bytes| + |t| + 1 > capacities.strings)
      ensures stringLimit >= old(stringLimit)
    {
      mid := heap;
      if interned { KnownIffStored(heap, roots, capacities, stringLimit, index, copied, t); }
      r := Find(heap, index, t, stringLimit, capacities, copied);
      if r != NullStr {
        copied := copied + {t};
        return;
      }
      r, mid := AppendText(t);
      Stores(mid, t);
    }

    /** aivm_vm_copy_string_to_arena: a pointer into the arena is its own copy. */
    method CopyString(input: StrRef) returns (r: StrRef, ghost mid: Heap)
      requires HeapOk() && StrOk(heap.strings, input) && (input.HostStr? ==> NulFree(input.text))
      modifies this`roots, this`heap, this`index, this`copied, this`stringLimit
      ensures HeapOk()
      ensures Settled(old(heap), old(roots), mid, roots) && (heap == mid || exists t :: heap == Grown(mid, t))
      ensures input == NullStr ==> r == NullStr
      ensures r != NullStr ==> StrOk(heap.strings, r) && r.ArenaStr? && ReadStr(heap.strings, r) == ReadStr(old(heap).strings, input)
      ensures input.ArenaStr? ==> r == input && heap == old(heap) && roots == old(roots)
      ensures input.HostStr? && input.text in old(copied) ==> r != NullStr && heap == old(heap) && roots == old(roots)
      ensures input.HostStr? && !tooling ==> (r == NullStr <==> !old(Known(heap.strings, index, input.text)) && |mid.strings.bytes| + |input.text| + 1 > capacities.strings)
    {
      mid := heap;
      if input.HostStr? {
        r, mid := CopyText(input.text);
      } else {
        r := input;
      }
    }

    /** aivm_vm_copy_string_range_to_arena: the first `length` bytes of `input`, which may point inside a segment. */
    method CopyRange(input: StrRef, length: nat) returns (r: StrRef, ghost mid: Heap)
      requires HeapOk() && ReadStr(heap.strings, input).Some? && length <= |ReadStr(heap.strings, input).value|
      requires NulFree(ReadStr(heap.strings, input).value)
      modifies this`roots, this`heap, this`index, this`copied, this`stringLimit
      ensures HeapOk()
      ensures Settled(old(heap), old(roots), mid, roots)
      ensures r != NullStr ==> StrOk(heap.strings, r) && ReadStr(heap.strings, r) == Some(ReadStr(old(heap).strings, input).value[..length])
      ensures ReadStr(old(heap).strings, input).value[..length] in old(copied) ==> r != NullStr && heap == old(heap) && roots == old(roots)
      ensures heap == mid || heap == Grown(mid, ReadStr(old(heap).strings, input).value[..length])
      ensures !tooling ==> (r == NullStr <==> !old(Known(heap.strings, index, ReadStr(heap.strings, input).value[..length])) && |mid.strings.bytes| + length + 1 > capacities.strings)
    {
      // the text is read, and snapshot when it lies in the arena, before the allocation can move it
      var t := ReadStr(heap.strings, input).value[..length];
      r, mid := CopyText(t);
    }

    /** aivm_vm_copy_string_splice_to_arena: always scans the segments, and reads both operands before it allocates. */
    method CopySplice(prefix: StrRef, prefixLength: nat, suffix: StrRef, suffixLength: nat) returns (r: StrRef, ghost mid: Heap)
      requires HeapOk() && ReadStr(heap.strings, prefix).Some? && ReadStr(heap.strings, suffix).Some?
      requires prefixLength <= |ReadStr(heap.strings, prefix).value| && suffixLength <= |ReadStr(heap.strings, suffix).value|
      requires NulFree(ReadStr(heap.strings, prefix).value) && NulFree(ReadStr(heap.strings, suffix).value)
      modifies this`roots, this`heap, this`index, this`copied, this`stringLimit
      ensures HeapOk() && Settled(old(heap), old(roots), mid, roots) && stringLimit >= old(stringLimit)
      ensures var t := ReadStr(old(heap).strings, prefix).value[..prefixLength] + ReadStr(old(heap).strings, suffix).value[..suffixLength];
              && (r != NullStr ==> StrOk(heap.strings, r) && r.ArenaStr? && ReadStr(heap.strings, r) == Some(t))
              && (if Stored(old(heap).strings.bytes, t) then r != NullStr && heap == mid == old(heap) && roots == old(roots) && copied == old(copied) && index == old(index)
                  else heap == (if r == NullStr then mid else Grown(mid, t))
                       && (!tooling ==> (r == NullStr <==> |mid.strings.bytes| + |t| + 1 > capacities.strings)))
    {
      var p, s := ReadStr(heap.strings, prefix).value[..prefixLength], ReadStr(heap.strings, suffix).value[..suffixLength];
      mid := heap;
      var found, o := FindText(heap.strings.bytes, p + s);
      if found {
        return ArenaStr(heap.strings.epoch, o), mid;
      }
      r, mid := AppendText(p + s);
      Stores(mid, p + s);
    }

    // ----- values pushed onto the stack

    /** push_string_bytes_copy: a text stored without asking or telling the index. */
    method PushStringBytes(t: Text) returns (ok: bool, r: StrRef, ghost mid: Heap, ghost midRoots: Roots)
      requires HeapOk() && NulFree(t)
      modifies this`roots, this`heap, this`index, this`copied, this`stringLimit, this`interned
      ensures HeapOk() && Settled(old(heap), old(roots), mid, midRoots) && stringLimit >= old(stringLimit)
      ensures if r == NullStr then !ok && heap == mid && roots == midRoots
              else heap == Grown(mid, t) && r == ArenaStr(mid.strings.epoch, |mid.strings.bytes|) && StrOk(heap.strings, r) && ReadStr(heap.strings, r) == Some(t)
      ensures r == NullStr ==> Exhausted(|mid.strings.bytes| + |t| + 1, stringLimit, capacities.strings, tooling, stringHost)
      ensures r != NullStr ==> (ok <==> |midRoots.stack| < stackCapacity) && roots == if ok then midRoots.(stack := midRoots.stack + [Str(r)]) else midRoots
      ensures |old(heap).strings.bytes| + |t| + 1 <= old(stringLimit) ==> r != NullStr && mid == old(heap) && midRoots == old(roots) && index == old(index)
    {
      var reserved, compacted := Reserve(|t| + 1);
      mid, midRoots, ok, r := heap, roots, reserved, NullStr;
      if ok {
        ok, r := StoreAndPush(t);
      }
    }

    /** The write and the push, once there is room for the text. */
    method StoreAndPush(t: Text) returns (ok: bool, r: StrRef)
      requires HeapOk() && NulFree(t) && |heap.strings.bytes| + |t| + 1 <= stringLimit
      modifies this`roots, this`heap, this`interned
      ensures HeapOk() && heap == Grown(old(heap), t) && r == ArenaStr(old(heap).strings.epoch, |old(heap).strings.bytes|)
      ensures StrOk(heap.strings, r) && ReadStr(heap.strings, r) == Some(t)
      ensures (ok <==> |old(roots).stack| < stackCapacity) && roots == if ok then old(roots).(stack := old(roots).stack + [Str(r)]) else old(roots)
    {
      r := StoreUnindexed(t);
      ok := PushString(r);
    }

    /** Writes the text into reserved room at the end of the arena, and nothing else. */
    method StoreUnindexed(t: Text) returns (r: StrRef)
      requires HeapOk() && NulFree(t) && |heap.strings.bytes| + |t| + 1 <= stringLimit
      modifies this`heap, this`interned
      ensures HeapOk() && heap == Grown(old(heap), t) && r == ArenaStr(old(heap).strings.epoch, |old(heap).strings.bytes|)
      ensures StrOk(heap.strings, r) && ReadStr(heap.strings, r) == Some(t)
    {
      UnindexedSane(heap, roots, capacities, stringLimit, index, copied, t);
      Stores(heap, t);
      r := ArenaStr(heap.strings.epoch, |heap.strings.bytes|);
      heap, interned := Grown(heap, t), false;
    }

    /** aivm_stack_push of a string value. */
    method PushString(s: StrRef) returns (ok: bool)
      requires HeapOk() && StrOk(heap.strings, s)
      modifies this`roots
      ensures HeapOk() && (ok <==> |old(roots).stack| < stackCapacity)
      ensures roots == if ok then old(roots).(stack := old(roots).stack + [Str(s)]) else old(roots)
    {
      ok := |roots.stack| < stackCapacity;
      if ok {
        PushedSane(heap, roots, capacities, stringLimit, index, copied, s);
        roots := Pushed(roots, Str(s));
      }
    }

    /** ensure_bytes_arena_capacity: any step of growth may be refused. */
    method EnsureBytesCapacity(needed: nat) returns (ok: bool)
      requires bytesLimit <= capacities.bytes
      modifies this`bytesLimit
      ensures old(bytesLimit) <= bytesLimit <= capacities.bytes
      ensures ok <==> needed <= bytesLimit
      ensures bytesLimit > old(bytesLimit) ==> bytesLimit < needed + 16384
      ensures bytesLimit == capacities.bytes || (bytesLimit - old(bytesLimit)) % 16384 == 0
      ensures !ok ==> Exhausted(needed, bytesLimit, capacities.bytes, true, bytesHost)
    {
      while needed > bytesLimit && bytesLimit < capacities.bytes
        invariant old(bytesLimit) <= bytesLimit <= capacities.bytes
        invariant bytesLimit > old(bytesLimit) ==> bytesLimit < needed + 16384
        invariant bytesLimit == capacities.bytes || (bytesLimit - old(bytesLimit)) % 16384 == 0
        decreases capacities.bytes - bytesLimit
      {
        var next := if bytesLimit + BYTES_GROWTH_STEP > capacities.bytes then capacities.bytes else bytesLimit + BYTES_GROWTH_STEP;
        if !bytesHost(next) {
          return false;
        }
        bytesLimit := next;
      }
      ok := needed <= bytesLimit;
    }

    /** push_bytes_copy over aivm_bytes_arena_alloc: the bytes get a span of their own at the end of the arena, nothing
        moves, and the view of that span is pushed. An empty value is pushed even when nothing was allocated. */
    method PushBytes(data: seq<Byte>) returns (ok: bool, ghost stored: bool)
      requires HeapOk()
      modifies this`roots, this`heap, this`bytesLimit
      ensures HeapOk() && RootsPreserved(old(heap), old(roots), heap, old(roots))
      ensures heap == if stored then WithBytes(old(heap), data) else old(heap)
      ensures stored <==> |old(heap).bytes.bytes| + |data| <= bytesLimit
      ensures !stored ==> Exhausted(|old(heap).bytes.bytes| + |data|, bytesLimit, capacities.bytes, true, bytesHost)
      ensures ok <==> (stored || data == []) && |old(roots).stack| < stackCapacity
      ensures if ok then exists v :: roots == old(roots).(stack := old(roots).stack + [Bytes(v)]) && ReadBytes(heap.bytes, v) == Some(data) else roots == old(roots)
    {
      ghost var h, r := heap, roots;
      var needed := |heap.bytes.bytes| + |data|;
      var v := HostBytes([]);
      ok := needed <= bytesLimit;
      if !ok {
        ok := EnsureBytesCapacity(needed);
      }
      stored := ok;
      SameHeapPreserved(h, r, []);
      if ok {
        AllocatedSane(h, r, capacities, stringLimit, index, copied, data);
        v := ArenaBytes(heap.bytes.epoch, |heap.bytes.bytes|, |data|);
        heap := WithBytes(heap, data);
      } else {
        HostPushedSane(h, r, capacities, stringLimit, index, copied);
      }
      ok := (ok || data == []) && |roots.stack| < stackCapacity;
      if ok {
        roots := Pushed(roots, Bytes(v));
        assert ReadBytes(heap.bytes, v) == Some(data);
      }
    }

    /** BYTES_SLICE: start and end are clamped to the operand, and the slice is a copy. */
    method SliceBytes(data: seq<Byte>, start: int, length: int) returns (ok: bool, ghost stored: bool)
      requires HeapOk()
      modifies this`roots, this`heap, this`bytesLimit
      ensures HeapOk() && RootsPreserved(old(heap), old(roots), heap, old(roots))
      ensures heap == if stored then WithBytes(old(heap), ClampedSlice(data, start, length)) else old(heap)
      ensures stored <==> |old(heap).bytes.bytes| + |ClampedSlice(data, start, length)| <= bytesLimit
      ensures !stored ==> Exhausted(|old(heap).bytes.bytes| + |ClampedSlice(data, start, length)|, bytesLimit, capacities.bytes, true, bytesHost)
      ensures ok <==> (stored || ClampedSlice(data, start, length) == []) && |old(roots).stack| < stackCapacity
      ensures ok ==> exists v :: roots == old(roots).(stack := old(roots).stack + [Bytes(v)]) && ReadBytes(heap.bytes, v) == Some(ClampedSlice(data, start, length))
      ensures !ok ==> roots == old(roots)
    {
      var from := if start <= 0 then 0 else if start >= |data| then |data| else start;
      var end := from + if length <= 0 then 0 else length;
      if end > |data| {
        end := |data|;
      }
      var slice := if from >= end then [] else data[from..end];
      assert slice == ClampedSlice(data, start, length);
      ok, stored := PushBytes(slice);
    }

    // ----- node creation

    /** One collection inside node creation: compact with the children as extra roots, then remap the children.
        `builder` names the builder whose own array the children are, if any. */
    method CompactForChildren(kids: seq<int>, builder: Option<nat>) returns (ok: bool, kids': seq<int>)
      requires HeapOk() && Ready(heap, roots, kids) && InRange(heap, kids) && Owned(roots, kids, builder)
      modifies this`roots, this`heap, this`allocationsSinceGc
      ensures HeapOk() && heap.strings == old(heap).strings
      ensures CollectedFor(old(heap), old(roots), kids, builder, heap, roots, ok, kids')
      ensures allocationsSinceGc == if ok then 0 else old(allocationsSinceGc)
    {
      if |heap.nodes| == 0 {
        NothingToCollect(heap, roots, kids, builder);
        ok, kids' := true, [];
      } else {
        ok, kids' := CompactAndRemap(kids, builder);
      }
      if ok {
        allocationsSinceGc := 0;
      }
    }

    method CompactAndRemap(kids: seq<int>, builder: Option<nat>) returns (ok: bool, kids': seq<int>)
      requires HeapOk() && |heap.nodes| > 0 && Ready(heap, roots, kids) && InRange(heap, kids) && Owned(roots, kids, builder)
      modifies this`roots, this`heap
      ensures HeapOk() && heap.strings == old(heap).strings
      ensures CollectedFor(old(heap), old(roots), kids, builder, heap, roots, ok, kids')
    {
      ghost var h, r := heap, roots;
      var handleMap;
      ok, handleMap := CompactNodes(kids);
      ok, kids' := RemapChildren(kids, builder, h, r, roots, handleMap);
      CollectionKeeps(h, r, kids, builder, heap, roots, handleMap, ok, kids', capacities, stringLimit, index, copied, interned, bytesLimit);
    }

    /** aivm_vm_try_grow_node_arenas: only the tooling profile grows, and its host may refuse, even part way. */
    method TryGrow(nodes: nat, attrs: nat, children: nat) returns (ok: bool)
      requires HeapOk()
      modifies this`capacities
      ensures HeapOk() && (ok <==> tooling && AllGranted(arraysHost))
      ensures if tooling then ArraysGrown(old(capacities), nodes, attrs, children, arraysHost, capacities) else capacities == old(capacities)
    {
      ok := false;
      if tooling {
        var c;
        ok, c := GrowArrays(capacities, nodes, attrs, children, arraysHost);
        WiderSane(heap, roots, capacities, c, stringLimit, index, copied);
        capacities := c;
      }
    }

    /** Many nodes were made since the last collection and one more would fill an arena: grow, or collect ahead of need. */
    method GrowAhead(attrCount: nat, childCount: nat) returns (collect: bool)
      requires HeapOk()
      modifies this`capacities
      ensures HeapOk() && (RoomFor(heap, old(capacities), attrCount, childCount) ==> RoomFor(heap, capacities, attrCount, childCount))
      ensures collect <==> allocationsSinceGc >= 64 && Tight(heap, old(capacities), attrCount, childCount) && !(tooling && AllGranted(arraysHost))
      ensures if tooling && allocationsSinceGc >= 64 && Tight(heap, old(capacities), attrCount, childCount)
              then ArraysGrown(old(capacities), |heap.nodes| + 1, |heap.attrs| + attrCount, |heap.children| + childCount, arraysHost, capacities)
              else capacities == old(capacities)
    {
      collect := allocationsSinceGc >= GC_INTERVAL && Tight(heap, capacities, attrCount, childCount);
      if collect {
        var grown := TryGrow(|heap.nodes| + 1, |heap.attrs| + attrCount, |heap.children| + childCount);
        collect := !grown;
      }
    }

    method CollectAhead(ahead: bool, kids: seq<int>, builder: Option<nat>) returns (ok: bool, kids': seq<int>)
      requires HeapOk() && Ready(heap, roots, kids) && InRange(heap, kids) && Owned(roots, kids, builder)
      modifies this`roots, this`heap, this`allocationsSinceGc
      ensures HeapOk() && heap.strings == old(heap).strings && RootsPreserved(old(heap), old(roots), heap, roots)
      ensures if ok then RoomMade(old(heap), old(roots), kids, builder, ahead, heap, roots, kids') else ahead && Displaced(old(heap), old(roots), kids, builder)
      ensures allocationsSinceGc == if ahead && ok then 0 else old(allocationsSinceGc)
    {
      ghost var h, r := heap, roots;
      ok, kids' := true, kids;
      NothingCollected(h, r, kids, builder);
      if ahead {
        ok, kids' := CompactForChildren(kids, builder);
        if ok { CollectedOnce(h, r, kids, builder, heap, roots, kids'); }
      }
    }

    /** The collections inside node creation: one ahead of need if asked for, one when space has run out. */
    method MakeRoom(ahead: bool, attrCount: nat, kids: seq<int>, builder: Option<nat>) returns (ok: bool, kids': seq<int>, ghost collected: bool)
      requires HeapOk() && Ready(heap, roots, kids) && InRange(heap, kids) && Owned(roots, kids, builder)
      modifies this`roots, this`heap, this`allocationsSinceGc
      ensures HeapOk() && heap.strings == old(heap).strings && RootsPreserved(old(heap), old(roots), heap, roots)
      ensures collected <==> ahead || !RoomFor(old(heap), capacities, attrCount, |kids|)
      ensures ok ==> RoomMade(old(heap), old(roots), kids, builder, collected, heap, roots, kids') && RoomFor(heap, capacities, attrCount, |kids|)
      ensures ok ==> allocationsSinceGc == if collected then 0 else old(allocationsSinceGc)
      ensures !ok ==> NodeRefused(old(heap), old(roots), kids, builder, attrCount, capacities, heap, roots, kids')
      ensures RoomFor(old(heap), capacities, attrCount, |kids|) ==> ok || Displaced(old(heap), old(roots), kids, builder)
    {
      ghost var h, r := heap, roots;
      collected := ahead;
      ok, kids' := CollectAhead(ahead, kids, builder);
      if !ok || RoomFor(heap, capacities, attrCount, |kids|) {
        return;
      }
      collected := true;
      ok, kids' := CollectWhenFull(kids', builder, ahead, h, r, kids);
      ok := ok && RoomFor(heap, capacities, attrCount, |kids|);
    }

    /** The collection when space has run out. Once `moved` by one ahead of need, the children are in an array of their
        own; `h`, `r` and `was` are what the call began with. */
    method CollectWhenFull(kids: seq<int>, builder: Option<nat>, moved: bool, ghost h: Heap, ghost r: Roots, ghost was: seq<int>) returns (ok: bool, kids': seq<int>)
      requires HeapOk() && Owned(r, was, builder) && RoomMade(h, r, was, builder, moved, heap, roots, kids)
      modifies this`roots, this`heap, this`allocationsSinceGc
      ensures HeapOk() && heap.strings == old(heap).strings && RootsPreserved(h, r, heap, roots)
      ensures if ok then RoomMade(h, r, was, builder, true, heap, roots, kids') && allocationsSinceGc == 0 else Displaced(h, r, was, builder)
    {
      ghost var h1, r1 := heap, roots;
      ok, kids' := CompactForChildren(kids, if moved then None else builder);
      AfterCollection(h, r, was, builder, moved, h1, r1, kids, heap, roots, ok, kids');
    }

    // ----- copying the node's strings into reserved room

    /** A copy for which room was reserved: it cannot fail and cannot move the arena. */
    method CopyReserved(t: Text) returns (r: StrRef)
      requires HeapOk() && NulFree(t) && |heap.strings.bytes| + |t| + 1 <= stringLimit
      modifies this`roots, this`heap, this`index, this`copied, this`stringLimit
      ensures HeapOk() && roots == old(roots) && stringLimit >= old(stringLimit)
      ensures Extended(old(heap), heap) && |heap.strings.bytes| <= |old(heap).strings.bytes| + |t| + 1
      ensures InArena(heap.strings, r) && StrOk(heap.strings, r) && ReadStr(heap.strings, r) == Some(t)
    {
      ghost var h := heap;
      GrownExtended(h, t);
      ExtendedSelf(h);
      ghost var mid;
      r, mid := CopyText(t);
    }

    method CopyAttr(a: Attr) returns (a': Attr)
      requires HeapOk() && Stable(a) && |heap.strings.bytes| + AttrBytes(a) <= stringLimit
      modifies this`roots, this`heap, this`index, this`copied, this`stringLimit
      ensures HeapOk() && roots == old(roots) && stringLimit >= old(stringLimit)
      ensures Extended(old(heap), heap) && |heap.strings.bytes| <= |old(heap).strings.bytes| + AttrBytes(a)
      ensures AttrOk(heap.strings, a') && AttrInArena(heap.strings, a') && MeaningOfAttr(heap.strings, a') == MeaningOfAttr(heap.strings, a)
    {
      ghost var h := heap;
      var key := CopyReserved(a.key.text);
      a' := Attr(key, a.value);
      if a.value.Identifier? || a.value.StringAttr? {
        ghost var h1 := heap;
        var v := CopyReserved(a.value.s.text);
        ExtendedStrOk(h1.strings, heap.strings, key);
        ExtendedTwice(h, h1, heap);
        a' := Attr(key, a.value.(s := v));
      }
    }

    method CopyAttrs(attrs: seq<Attr>) returns (attrs': seq<Attr>)
      requires HeapOk() && AllStable(attrs) && |heap.strings.bytes| + AttrsBytes(attrs) <= stringLimit
      modifies this`roots, this`heap, this`index, this`copied, this`stringLimit
      ensures HeapOk() && roots == old(roots) && Extended(old(heap), heap)
      ensures AttrsCopied(heap.strings, attrs, attrs')
    {
      attrs' := [];
      ExtendedSelf(heap);
      for i := 0 to |attrs|
        invariant HeapOk() && roots == old(roots) && Extended(old(heap), heap)
        invariant |heap.strings.bytes| <= |old(heap).strings.bytes| + AttrsBytes(attrs[..i]) && stringLimit >= old(stringLimit)
        invariant AttrsCopied(heap.strings, attrs[..i], attrs')
      {
        AttrsBytesGrow(attrs, i);
        ghost var h := heap;
        var a := CopyAttr(attrs[i]);
        ExtendedTwice(old(heap), h, heap);
        AttrsCopiedNext(h.strings, heap.strings, attrs, i, attrs', a);
        attrs' := attrs' + [a];
      }
      assert attrs[..|attrs|] == attrs;
    }

    /** aivm_vm_create_node_record: handle 0 is failure. `builder` names the builder whose own array the children are,
        if any; `collected` says that a collection ran and `compacted` that the string reservation compacted. */
    method CreateNode(kind: StrRef, id: StrRef, attrs: seq<Attr>, kids: seq<int>, builder: Option<nat>)
      returns (handle: int, ghost compacted: bool, ghost collected: bool, ghost kids': seq<int>)
      requires HeapOk() && Ready(heap, roots, kids) && KindsStored(heap, kids) && Owned(roots, kids, builder)
      requires TextOk(kind) && TextOk(id) && forall i :: 0 <= i < |attrs| ==> InputOk(attrs[i])
      modifies this`roots, this`heap, this`capacities, this`allocationsSinceGc, this`index, this`copied, this`stringLimit
      ensures HeapOk() && RootsPreserved(old(heap), old(roots), heap, roots)
      ensures kind == NullStr || id == NullStr ==> handle == 0 && heap == old(heap) && roots == old(roots)
      ensures handle != 0 ==>
                NodeCreated(old(heap), old(roots), kids, builder, TextOf(old(heap).strings, kind), TextOf(old(heap).strings, id),
                            Snapshots(old(heap).strings, attrs), compacted, collected, heap, roots, handle, kids')
      ensures handle != 0 ==> AsGiven(old(heap).strings, kind, id, attrs, heap, handle)
      ensures kind != NullStr && id != NullStr && !tooling ==>
                (compacted <==> |old(heap).strings.bytes| + NodeBytes(old(heap).strings, kind, id, attrs) > old(capacities).strings && old(heap).strings.bytes != [])
      ensures handle != 0 ==> allocationsSinceGc == 1 + if collected then 0 else old(allocationsSinceGc)
      ensures handle != 0 && !tooling ==> (collected <==> NeedsCollection(old(heap), old(capacities), |attrs|, |kids|, old(allocationsSinceGc)))
      ensures !tooling ==> capacities == old(capacities)
      ensures kind != NullStr && id != NullStr && |old(heap).strings.bytes| + NodeBytes(old(heap).strings, kind, id, attrs) <= old(stringLimit) ==>
                && !compacted && (handle == 0 ==> CreationRefused(old(heap), old(roots), kids, builder, |attrs|, compacted, capacities, heap, roots, kids'))
                && (RoomFor(old(heap), old(capacities), |attrs|, |kids|) && !Displaced(old(heap), old(roots), kids, builder) ==> handle != 0)
      ensures kind != NullStr && id != NullStr && handle == 0 ==>
                || |heap.strings.bytes| + NodeBytes(old(heap).strings, kind, id, attrs) > stringLimit
                || CreationRefused(old(heap), old(roots), kids, builder, |attrs|, compacted, capacities, heap, roots, kids')
    {
      ghost var h0, r0 := heap, roots;
      handle, compacted, collected, kids' := 0, false, false, kids;
      if kind == NullStr || id == NullStr {
        SameHeapPreserved(h0, r0, kids);
        return;
      }
      // every input text is snapshot before anything can move
      var kindText, idText, stable := TextOf(heap.strings, kind), TextOf(heap.strings, id), Snapshots(heap.strings, attrs);
      SnapshotStable(heap.strings, attrs);
      handle, compacted, collected, kids' := CreateStable(kindText, idText, stable, kids, builder);
      if handle != 0 { HeldAsGiven(h0.strings, kind, id, attrs, heap, handle); }
    }

    /** Node creation from texts that no longer depend on the arena: the reservation, then the node. */
    method CreateStable(kind: Text, id: Text, attrs: seq<Attr>, kids: seq<int>, builder: Option<nat>)
      returns (handle: int, ghost compacted: bool, ghost collected: bool, ghost kids': seq<int>)
      requires HeapOk() && Ready(heap, roots, kids) && KindsStored(heap, kids) && Owned(roots, kids, builder)
      requires NulFree(kind) && NulFree(id) && AllStable(attrs)
      modifies this`roots, this`heap, this`capacities, this`allocationsSinceGc, this`index, this`copied, this`stringLimit
      ensures HeapOk() && RootsPreserved(old(heap), old(roots), heap, roots)
      ensures handle != 0 ==> NodeCreated(old(heap), old(roots), kids, builder, kind, id, attrs, compacted, collected, heap, roots, handle, kids')
      ensures !tooling ==> (compacted <==> |old(heap).strings.bytes| + StableBytes(kind, id, attrs) > old(capacities).strings && old(heap).strings.bytes != [])
      ensures handle != 0 ==> allocationsSinceGc == 1 + if collected then 0 else old(allocationsSinceGc)
      ensures handle != 0 && !tooling ==> (collected <==> NeedsCollection(old(heap), old(capacities), |attrs|, |kids|, old(allocationsSinceGc)))
      ensures !tooling ==> capacities == old(capacities)
      ensures |old(heap).strings.bytes| + StableBytes(kind, id, attrs) <= old(stringLimit) ==>
                && !compacted && (handle == 0 ==> CreationRefused(old(heap), old(roots), kids, builder, |attrs|, compacted, capacities, heap, roots, kids'))
                && (RoomFor(old(heap), old(capacities), |attrs|, |kids|) && !Displaced(old(heap), old(roots), kids, builder) ==> handle != 0)
      ensures handle == 0 ==>
                || |heap.strings.bytes| + StableBytes(kind, id, attrs) > stringLimit
                || CreationRefused(old(heap), old(roots), kids, builder, |attrs|, compacted, capacities, heap, roots, kids')
    {
      ghost var h0, r0 := heap, roots;
      var ok;
      handle, collected, kids' := 0, false, kids;
      ok, compacted := ReserveFor(StableBytes(kind, id, attrs), |attrs|, kids, builder);
      if !ok {
        return;
      }
      ghost var h1, r1 := heap, roots;
      handle, collected, kids' := BuildNode(kind, id, attrs, kids, builder);
      AfterReservation(h0, r0, kids, builder, h1, r1, compacted, kind, id, attrs, collected, capacities, heap, roots, handle, kids');
    }

    /** The string reservation of node creation: it names no extra roots, and changes nothing that decides about a collection. */
    method ReserveFor(size: nat, ghost attrCount: nat, ghost kids: seq<int>, ghost builder: Option<nat>) returns (ok: bool, ghost compacted: bool)
      requires HeapOk() && Ready(heap, roots, kids) && KindsStored(heap, kids) && Owned(roots, kids, builder)
      modifies this`roots, this`heap, this`index, this`copied, this`stringLimit
      ensures HeapOk() && ReservedFor(old(heap), old(roots), kids, builder, attrCount, capacities, allocationsSinceGc, heap, roots, compacted)
      ensures ok <==> |heap.strings.bytes| + size <= stringLimit
      ensures |old(heap).strings.bytes| + size <= old(stringLimit) ==> ok && !compacted
      ensures !tooling ==> (compacted <==> |old(heap).strings.bytes| + size > capacities.strings && old(heap).strings.bytes != [])
    {
      ghost var h, r := heap, roots;
      ok, compacted := Reserve(size);
      ReservationDone(h, r, kids, builder, attrCount, capacities, allocationsSinceGc, heap, roots, compacted);
    }

    /** The rest of node creation once its strings are reserved. */
    method BuildNode(kind: Text, id: Text, attrs: seq<Attr>, kids: seq<int>, builder: Option<nat>)
      returns (handle: int, ghost collected: bool, ghost kids': seq<int>)
      requires HeapOk() && Ready(heap, roots, kids) && InRange(heap, kids) && Owned(roots, kids, builder)
      requires NulFree(kind) && NulFree(id) && AllStable(attrs) && |heap.strings.bytes| + StableBytes(kind, id, attrs) <= stringLimit
      modifies this`roots, this`heap, this`capacities, this`allocationsSinceGc, this`index, this`copied, this`stringLimit
      ensures HeapOk() && RootsPreserved(old(heap), old(roots), heap, roots)
      ensures handle != 0 ==> NodeBuilt(old(heap), old(roots), kids, builder, kind, id, attrs, collected, heap, roots, handle, kids')
      ensures handle == 0 ==> NodeRefused(old(heap), old(roots), kids, builder, |attrs|, capacities, heap, roots, kids')
      ensures handle != 0 ==> allocationsSinceGc == 1 + if collected then 0 else old(allocationsSinceGc)
      ensures !tooling ==> (collected <==> NeedsCollection(old(heap), old(capacities), |attrs|, |kids|, old(allocationsSinceGc)))
      ensures RoomFor(old(heap), old(capacities), |attrs|, |kids|) ==> handle != 0 || Displaced(old(heap), old(roots), kids, builder)
      ensures !tooling ==> capacities == old(capacities)
    {
      var ahead := GrowAhead(|attrs|, |kids|);
      handle, collected, kids' := FillNode(ahead, kind, id, attrs, kids, builder);
    }

    /** Room, then the node. */
    method FillNode(ahead: bool, kind: Text, id: Text, attrs: seq<Attr>, kids: seq<int>, builder: Option<nat>)
      returns (handle: int, ghost collected: bool, ghost kids': seq<int>)
      requires HeapOk() && Ready(heap, roots, kids) && InRange(heap, kids) && Owned(roots, kids, builder)
      requires NulFree(kind) && NulFree(id) && AllStable(attrs) && |heap.strings.bytes| + StableBytes(kind, id, attrs) <= stringLimit
      modifies this`roots, this`heap, this`allocationsSinceGc, this`index, this`copied, this`stringLimit
      ensures HeapOk() && RootsPreserved(old(heap), old(roots), heap, roots)
      ensures collected <==> ahead || !RoomFor(old(heap), capacities, |attrs|, |kids|)
      ensures if handle != 0 then NodeBuilt(old(heap), old(roots), kids, builder, kind, id, attrs, collected, heap, roots, handle, kids')
              else NodeRefused(old(heap), old(roots), kids, builder, |attrs|, capacities, heap, roots, kids')
      ensures handle != 0 ==> allocationsSinceGc == 1 + if collected then 0 else old(allocationsSinceGc)
      ensures RoomFor(old(heap), capacities, |attrs|, |kids|) ==> handle != 0 || Displaced(old(heap), old(roots), kids, builder)
    {
      ghost var h1, r1 := heap, roots;
      var ok, children;
      ok, children, collected := MakeRoom(ahead, |attrs|, kids, builder);
      kids' := children;
      handle := 0;
      if ok {
        handle := StoreBuilt(kind, id, attrs, children, h1, r1, kids, builder, collected);
      }
    }

    /** The commit after the collections; `h`, `r` and `was` are what the call began with. */
    method StoreBuilt(kind: Text, id: Text, attrs: seq<Attr>, kids: seq<int>, ghost h: Heap, ghost r: Roots, ghost was: seq<int>, ghost builder: Option<nat>, ghost collected: bool)
      returns (handle: int)
      requires HeapOk() && RoomMade(h, r, was, builder, collected, heap, roots, kids) && RoomFor(heap, capacities, |attrs|, |kids|)
      requires NulFree(kind) && NulFree(id) && AllStable(attrs) && |heap.strings.bytes| + StableBytes(kind, id, attrs) <= stringLimit
      modifies this`roots, this`heap, this`index, this`copied, this`stringLimit, this`allocationsSinceGc
      ensures HeapOk() && RootsPreserved(h, r, heap, roots) && handle != 0 && NodeBuilt(h, r, was, builder, kind, id, attrs, collected, heap, roots, handle, kids)
      ensures allocationsSinceGc == old(allocationsSinceGc) + 1
    {
      allocationsSinceGc := allocationsSinceGc + 1;
      ghost var h2, r2 := heap, roots;
      handle := StoreNode(kind, id, attrs, kids);
      BuiltFromStored(h, r, was, builder, collected, h2, r2, kids, kind, id, attrs, heap, handle);
    }

    /** The commit: the strings are copied into reserved room, and a record is added at the end of the arenas. */
    method StoreNode(kind: Text, id: Text, attrs: seq<Attr>, kids: seq<int>) returns (handle: int)
      requires HeapOk() && Ready(heap, roots, kids) && InRange(heap, kids) && RoomFor(heap, capacities, |attrs|, |kids|)
      requires NulFree(kind) && NulFree(id) && AllStable(attrs) && |heap.strings.bytes| + StableBytes(kind, id, attrs) <= stringLimit
      modifies this`roots, this`heap, this`index, this`copied, this`stringLimit
      ensures HeapOk() && roots == old(roots) && handle == |heap.nodes| && NodeStored(old(heap), roots, kids, kind, id, attrs, heap)
    {
      ghost var h := heap;
      var attrs', kindRef, idRef;
      kindRef, idRef, attrs' := CopyNodeStrings(kind, id, attrs);
      StoredFromCopies(h, roots, kids, heap, kind, id, attrs, kindRef, idRef, attrs');
      handle := CommitNode(kindRef, idRef, attrs', kids);
    }

    /** The record itself, at the ends of the node, attribute and child arenas. */
    method CommitNode(kind: StrRef, id: StrRef, attrs: seq<Attr>, kids: seq<int>) returns (handle: int)
      requires HeapOk() && RoomFor(heap, capacities, |attrs|, |kids|) && Ready(AppendNode(heap, kind, id, attrs, kids), roots, [])
      modifies this`heap
      ensures HeapOk() && heap == AppendNode(old(heap), kind, id, attrs, kids) && handle == |heap.nodes|
    {
      var h := AppendNode(heap, kind, id, attrs, kids);
      CommitGood(heap, roots, capacities, stringLimit, index, copied, interned, bytesLimit, h, kind, id, attrs, kids);
      heap, handle := h, |h.nodes|;
    }

    method CopyNodeStrings(kind: Text, id: Text, attrs: seq<Attr>) returns (kindRef: StrRef, idRef: StrRef, attrs': seq<Attr>)
      requires HeapOk() && NulFree(kind) && NulFree(id) && AllStable(attrs)
      requires |heap.strings.bytes| + StableBytes(kind, id, attrs) <= stringLimit
      modifies this`roots, this`heap, this`index, this`copied, this`stringLimit
      ensures HeapOk() && roots == old(roots) && Extended(old(heap), heap)
      ensures StrOk(heap.strings, kindRef) && ReadStr(heap.strings, kindRef) == Some(kind) && InArena(heap.strings, kindRef)
      ensures StrOk(heap.strings, idRef) && ReadStr(heap.strings, idRef) == Some(id) && InArena(heap.strings, idRef)
      ensures AttrsCopied(heap.strings, attrs, attrs')
    {
      ghost var h0 := heap;
      kindRef := CopyReserved(kind);
      ghost var h1 := heap;
      idRef := CopyReserved(id);
      ghost var h2 := heap;
      ExtendedTwice(h0, h1, h2);
      attrs' := CopyAttrs(attrs);
      ExtendedTwice(h0, h2, heap);
      ExtendedStrOk(h1.strings, h2.strings, kindRef);
      ExtendedStrOk(h2.strings, heap.strings, kindRef);
      ExtendedStrOk(h2.strings, heap.strings, idRef);
    }

    /** aivm_vm_node_builder_finish: node creation over the builder's own array, then the builder is let go. The new
        node's children are the builder's exactly when no collection ran or no dead handle lay below a child. */
    method FinishBuilder(b: nat, kind: StrRef, id: StrRef, attrs: seq<Attr>)
      returns (handle: int, ghost compacted: bool, ghost collected: bool, ghost kids': seq<int>, ghost mid: Roots)
      requires HeapOk() && (b < |roots.builders| && roots.builders[b].active ==> KindsStored(heap, roots.builders[b].children))
      requires TextOk(kind) && TextOk(id) && forall i :: 0 <= i < |attrs| ==> InputOk(attrs[i])
      modifies this`roots, this`heap, this`capacities, this`allocationsSinceGc, this`index, this`copied, this`stringLimit
      ensures HeapOk() && RootsPreserved(old(heap), old(roots), heap, mid)
      ensures handle == 0 ==> roots == mid
      ensures b >= |old(roots).builders| || !old(roots).builders[b].active || kind == NullStr || id == NullStr ==> handle == 0 && heap == old(heap) && mid == old(roots)
      ensures handle != 0 ==> b < |mid.builders| && roots == Disposed(mid, b) && Ready(heap, roots, [handle])
      ensures handle != 0 ==> |roots.builders| == |mid.builders| && !roots.builders[b].active && roots == mid.(builders := roots.builders)
      ensures handle != 0 ==> forall i :: 0 <= i < |mid.builders| && i != b ==> roots.builders[i] == mid.builders[i]
      ensures handle != 0 ==>
                NodeCreated(old(heap), old(roots), old(roots).builders[b].children, Some(b), TextOf(old(heap).strings, kind), TextOf(old(heap).strings, id),
                            Snapshots(old(heap).strings, attrs), compacted, collected, heap, mid, handle, kids')
      ensures handle != 0 ==> AsGiven(old(heap).strings, kind, id, attrs, heap, handle)
      ensures handle != 0 && !tooling ==>
                (collected <==> NeedsCollection(old(heap), old(capacities), |attrs|, |old(roots).builders[b].children|, old(allocationsSinceGc)))
      ensures !tooling ==> capacities == old(capacities)
      ensures b < |old(roots).builders| && old(roots).builders[b].active && kind != NullStr && id != NullStr &&
              |old(heap).strings.bytes| + NodeBytes(old(heap).strings, kind, id, attrs) <= old(stringLimit) ==>
                !compacted && (handle == 0 ==>
                  CreationRefused(old(heap), old(roots), old(roots).builders[b].children, Some(b), |attrs|, compacted, capacities, heap, mid, kids'))
      ensures b < |old(roots).builders| && old(roots).builders[b].active && kind != NullStr && id != NullStr && handle == 0 ==>
                || |heap.strings.bytes| + NodeBytes(old(heap).strings, kind, id, attrs) > stringLimit
                || CreationRefused(old(heap), old(roots), old(roots).builders[b].children, Some(b), |attrs|, compacted, capacities, heap, mid, kids')
    {
      handle, compacted, collected, kids', mid := 0, false, false, [], roots;
      if b >= |roots.builders| || !roots.builders[b].active {
        SameHeapPreserved(heap, roots, []);
        return;
      }
      OwnedReady(heap, roots, roots.builders[b].children, b);
      handle, compacted, collected, kids' := CreateNode(kind, id, attrs, roots.builders[b].children, Some(b));
      mid := roots;
      if handle != 0 {
        DisposedSane(heap, roots, b, handle, capacities, stringLimit, index, copied);
        roots := Disposed(roots, b);
      }
    }

    // ----- bytes and safe points

    /** aivm_compact_bytes_arena: never fails midway and never grows. */
    method CompactBytes() returns (ok: bool, ghost table: seq<Move>)
      requires HeapOk()
      modifies this`roots, this`heap
      ensures ok && HeapOk() && RootsPreserved(old(heap), old(roots), heap, roots) && |heap.bytes.bytes| <= |old(heap).bytes.bytes|
      ensures |old(heap).bytes.bytes| > 0 ==> BytesCompacted(old(heap), ValuesOf(old(roots)), table, heap, ValuesOf(roots))
    {
      ghost var h, r := heap, roots;
      table := [];
      if |heap.bytes.bytes| == 0 {
        SameHeapPreserved(h, r, []);
        return true, [];
      }
      ViewsFit(h, r, capacities);
      var h', r';
      ok, h', r', table := RelocateBytes(heap, roots, capacities.bytes);
      BytesStep(h, r, table, h', r', capacities, stringLimit, index, copied);
      heap, roots := h', r';
    }

    /** The node collection of a safe point. */
    method SweepNodes() returns (ok: bool)
      requires HeapOk()
      modifies this`roots, this`heap, this`allocationsSinceGc
      ensures ok && HeapOk() && RootsPreserved(old(heap), old(roots), heap, roots) && OnlyLiveNodes(old(heap), old(roots), heap, roots)
      ensures allocationsSinceGc == if |old(heap).nodes| > 0 then 0 else old(allocationsSinceGc)
    {
      ghost var h, r := heap, roots;
      if |heap.nodes| == 0 {
        NoNodes(h, r);
        return true;
      }
      var handleMap;
      ok, handleMap := CompactNodes([]);
      NodeStep(h, r, heap, roots, handleMap, capacities, stringLimit, index, copied);
      allocationsSinceGc := 0;
    }

    /** The scratch-pair collection of a safe point. */
    method SweepPairs() returns (ok: bool)
      requires HeapOk()
      modifies this`roots, this`heap
      ensures ok && HeapOk() && RootsPreserved(old(heap), old(roots), heap, roots)
      ensures |heap.pairs| == |LivePairs(old(heap), ValuesOf(old(roots)))| && heap.nodes == old(heap).nodes
    {
      ghost var h, r := heap, roots;
      if |heap.pairs| == 0 {
        NoPairs(h, r);
        return true;
      }
      ok := CompactPairs();
      PairStep(h, r, heap, roots, capacities, stringLimit, index, copied);
    }

    /** The collections before bytes at a safe point; none can fail. */
    method CollectNodes() returns (ok: bool)
      requires HeapOk()
      modifies this`roots, this`heap, this`index, this`copied, this`allocationsSinceGc
      ensures ok && HeapOk() && RootsPreserved(old(heap), old(roots), heap, roots)
      ensures Collected(old(heap), old(roots), heap, roots) && (|old(heap).nodes| > 0 ==> allocationsSinceGc == 0)
    {
      ghost var h0, r0 := heap, roots;
      ok := SweepNodes();
      ghost var h1, r1 := heap, roots;
      ok := SweepPairs();
      ghost var h2, r2 := heap, roots;
      RootsPreservedTwice(h0, r0, h1, r1, h2, r2);
      ok := CompactStrings();
      SettledKeeps(h2, r2, heap, roots);
      RootsPreservedTwice(h0, r0, h2, r2, heap, roots);
    }

    /** collect_safe_point_internal: no part of it can fail, every root denotes the same thing afterwards, and only what is
        live is left. `mid` is the state between the first three collections and the bytes. */
    method CollectSafePoint(nodes: bool, bytes: bool) returns (ok: bool, ghost mid: Heap, ghost midRoots: Roots)
      requires HeapOk()
      modifies this`roots, this`heap, this`index, this`copied, this`allocationsSinceGc
      ensures ok && HeapOk() && RootsPreserved(old(heap), old(roots), heap, roots)
      ensures if nodes then Collected(old(heap), old(roots), mid, midRoots) else mid == old(heap) && midRoots == old(roots)
      ensures nodes && |old(heap).nodes| > 0 ==> allocationsSinceGc == 0
      ensures heap.nodes == mid.nodes && heap.strings == mid.strings && |heap.pairs| == |mid.pairs|
      ensures if bytes then OnlyLiveBytes(mid, midRoots, heap) else heap == mid && roots == midRoots
    {
      ghost var h0, r0 := heap, roots;
      SameHeapPreserved(h0, r0, []);
      if nodes {
        ok := CollectNodes();
      }
      mid, midRoots := heap, roots;
      ok := true;
      if bytes {
        ok := SweepBytes();
        RootsPreservedTwice(h0, r0, mid, midRoots, heap, roots);
      }
    }

    /** The bytes collection of a safe point. */
    method SweepBytes() returns (ok: bool)
      requires HeapOk()
      modifies this`roots, this`heap
      ensures ok && HeapOk() && RootsPreserved(old(heap), old(roots), heap, roots) && OnlyLiveBytes(old(heap), old(roots), heap)
      ensures heap.nodes == old(heap).nodes && heap.strings == old(heap).strings && |heap.pairs| == |old(heap).pairs|
    {
      ghost var h, r := heap, roots;
      if |heap.bytes.bytes| == 0 {
        EmptyBytesLive(h, r, capacities);
        SameHeapPreserved(h, r, []);
        return true;
      }
      ghost var table;
      ok, table := CompactBytes();
      CompactedOnlyLiveBytes(h, r, table, heap, ValuesOf(roots));
    }
  }
}
