/**
 Views into the bytes arena: every arena-backed bytes value is one allocated
 span, so the views that roots and scratch pairs hold are pairwise equal or
 apart. What the other collections do to values keeps this.
 */
module BytesViews {
  import opened CText
  import opened Heap
  import opened Liveness
  import opened Compaction
  import opened Relocation
  import opened RootSets

  datatype Span = Span(offset: nat, length: nat)

  /** pointer_in_bytes_arena. */
  predicate InBytes(a: Arena, r: BytesRef) {
    r.ArenaBytes? && r.epoch == a.epoch && r.offset + r.length <= |a.bytes|
  }

  function SpanOf(r: BytesRef): Span
    requires r.ArenaBytes?
  {
    Span(r.offset, r.length)
  }

  ghost predicate Apart(x: Span, y: Span) {
    x.offset + x.length <= y.offset || y.offset + y.length <= x.offset
  }

  /** A view of the current arena lies inside it, and none points into an arena that does not exist yet. */
  ghost predicate Current(a: Arena, v: Value) {
    v.Bytes? && v.bytes.ArenaBytes? ==> v.bytes.epoch <= a.epoch && (v.bytes.epoch == a.epoch ==> InBytes(a, v.bytes))
  }

  ghost predicate Views(a: Arena, v: Value, x: Span) {
    v.Bytes? && InBytes(a, v.bytes) && SpanOf(v.bytes) == x
  }

  /** Some root value or some pair, live or not, holds the view. */
  ghost predicate Held(a: Arena, pairs: seq<ScratchPair>, vs: seq<Value>, x: Span) {
    || (exists i :: 0 <= i < |vs| && Views(a, vs[i], x))
    || (exists p :: 0 <= p < |pairs| && (Views(a, pairs[p].first, x) || Views(a, pairs[p].second, x)))
  }

  /** What the allocator provides: an arena within its capacity whose views are current and never overlap. */
  ghost predicate BytesFit(a: Arena, pairs: seq<ScratchPair>, vs: seq<Value>, capacity: nat) {
    && |a.bytes| <= capacity
    && (forall i :: 0 <= i < |vs| ==> Current(a, vs[i]))
    && (forall p :: 0 <= p < |pairs| ==> Current(a, pairs[p].first) && Current(a, pairs[p].second))
    && (forall x, y :: Held(a, pairs, vs, x) && Held(a, pairs, vs, y) && x != y ==> Apart(x, y))
  }

  /** A view, if the value is one, is among those held. */
  ghost predicate From(pairs: seq<ScratchPair>, vs: seq<Value>, v: Value) {
    v.Bytes? && v.bytes.ArenaBytes? ==> (exists i :: 0 <= i < |vs| && vs[i] == v) || exists p :: 0 <= p < |pairs| && (pairs[p].first == v || pairs[p].second == v)
  }

  ghost predicate AllFrom(pairs: seq<ScratchPair>, vs: seq<Value>, pairs': seq<ScratchPair>, vs': seq<Value>) {
    && (forall i :: 0 <= i < |vs'| ==> From(pairs, vs, vs'[i]))
    && (forall p :: 0 <= p < |pairs'| ==> From(pairs, vs, pairs'[p].first) && From(pairs, vs, pairs'[p].second))
  }

  lemma FromHeld(a: Arena, pairs: seq<ScratchPair>, vs: seq<Value>, capacity: nat, v: Value)
    requires BytesFit(a, pairs, vs, capacity) && From(pairs, vs, v)
    ensures Current(a, v) && forall x :: Views(a, v, x) ==> Held(a, pairs, vs, x)
  {}

  /** Roots and pairs that hold no new bytes value keep the views apart. */
  lemma FitStays(a: Arena, pairs: seq<ScratchPair>, vs: seq<Value>, pairs': seq<ScratchPair>, vs': seq<Value>, capacity: nat)
    requires BytesFit(a, pairs, vs, capacity) && AllFrom(pairs, vs, pairs', vs')
    ensures BytesFit(a, pairs', vs', capacity)
  {
    forall i | 0 <= i < |vs'| ensures Current(a, vs'[i]) { FromHeld(a, pairs, vs, capacity, vs'[i]); }
    forall p | 0 <= p < |pairs'| ensures Current(a, pairs'[p].first) && Current(a, pairs'[p].second) {
      FromHeld(a, pairs, vs, capacity, pairs'[p].first);
      FromHeld(a, pairs, vs, capacity, pairs'[p].second);
    }
    forall x | Held(a, pairs', vs', x) ensures Held(a, pairs, vs, x) {
      if i :| 0 <= i < |vs'| && Views(a, vs'[i], x) {
        FromHeld(a, pairs, vs, capacity, vs'[i]);
      } else {
        var p :| 0 <= p < |pairs'| && (Views(a, pairs'[p].first, x) || Views(a, pairs'[p].second, x));
        FromHeld(a, pairs, vs, capacity, pairs'[p].first);
        FromHeld(a, pairs, vs, capacity, pairs'[p].second);
      }
    }
  }

  // ----- what the other collections keep

  lemma FromPairs(pairs: seq<ScratchPair>, vs: seq<Value>, q: nat, v: Value, w: Value)
    requires q < |pairs| && (v.Bytes? ==> pairs[q].first == v) && (w.Bytes? ==> pairs[q].second == w)
    ensures From(pairs, vs, v) && From(pairs, vs, w)
  {}

  lemma NodesKeepViews(h: Heap, r: Roots, kids: seq<int>, h': Heap, r': Roots, handleMap: seq<int>, capacity: nat)
    requires NodesCompacted(h, r, kids, h', r', handleMap) && BytesFit(h.bytes, h.pairs, ValuesOf(r), capacity)
    requires ValuesOf(r') == MoveValues(RankMap(LiveNodes(h, ValuesOf(r), HandlesOf(r, kids))), ValuesOf(r))
    ensures BytesFit(h'.bytes, h'.pairs, ValuesOf(r'), capacity)
  {
    var vs, vs' := ValuesOf(r), ValuesOf(r');
    forall i | 0 <= i < |vs'| ensures From(h.pairs, vs, vs'[i]) { assert vs'[i].Bytes? ==> vs[i] == vs'[i]; }
    forall p | 0 <= p < |h'.pairs| ensures From(h.pairs, vs, h'.pairs[p].first) && From(h.pairs, vs, h'.pairs[p].second) {
      assert IsPair(h, p + 1);
      FromPairs(h.pairs, vs, p, h'.pairs[p].first, h'.pairs[p].second);
    }
    FitStays(h.bytes, h.pairs, vs, h'.pairs, vs', capacity);
  }

  lemma StringsKeepViews(h: Heap, r: Roots, h': Heap, r': Roots, capacity: nat)
    requires StringsCompacted(h, r, h', r') && BytesFit(h.bytes, h.pairs, ValuesOf(r), capacity)
    ensures BytesFit(h'.bytes, h'.pairs, ValuesOf(r'), capacity)
  {
    var vs, vs' := ValuesOf(r), ValuesOf(r');
    forall i | 0 <= i < |vs'| ensures From(h.pairs, vs, vs'[i]) {
      assert ValueRelocated(h.strings, h'.strings.bytes, vs[i], vs'[i]);
      assert vs'[i].Bytes? ==> vs[i] == vs'[i];
    }
    forall p | 0 <= p < |h'.pairs| ensures From(h.pairs, vs, h'.pairs[p].first) && From(h.pairs, vs, h'.pairs[p].second) {
      assert IsPair(h, p + 1);
      assert PairRelocated(h, h'.strings.bytes, h', p + 1) || h'.pairs[p + 1 - 1] == h.pairs[p + 1 - 1];
      FromPairs(h.pairs, vs, p, h'.pairs[p].first, h'.pairs[p].second);
    }
    FitStays(h.bytes, h.pairs, vs, h'.pairs, vs', capacity);
  }

  lemma PairsKeepViews(h: Heap, r: Roots, h': Heap, r': Roots, capacity: nat)
    requires PairsCompacted(h, r, h', r') && BytesFit(h.bytes, h.pairs, ValuesOf(r), capacity)
    ensures BytesFit(h'.bytes, h'.pairs, ValuesOf(r'), capacity)
  {
    var vs, vs' := ValuesOf(r), ValuesOf(r');
    RenameRootsParts(RankMap(LivePairs(h, vs)), r);
    forall i | 0 <= i < |vs'| ensures From(h.pairs, vs, vs'[i]) { assert vs'[i].Bytes? ==> vs[i] == vs'[i]; }
    forall p | 0 <= p < |h'.pairs| ensures From(h.pairs, vs, h'.pairs[p].first) && From(h.pairs, vs, h'.pairs[p].second) {
      var q := PairFrom(h, vs, h'.pairs, p + 1);
      FromPairs(h.pairs, vs, q - 1, h'.pairs[p].first, h'.pairs[p].second);
    }
    FitStays(h.bytes, h.pairs, vs, h'.pairs, vs', capacity);
  }

  // ----- one more span

  /** aivm_bytes_arena_alloc and the write that follows it: a span at the end of the arena. */
  function WithSpan(a: Arena, data: seq<Byte>): Arena {
    a.(bytes := a.bytes + data)
  }

  function NewView(a: Arena, data: seq<Byte>): Value {
    Bytes(ArenaBytes(a.epoch, |a.bytes|, |data|))
  }

  lemma ViewStays(a: Arena, data: seq<Byte>, v: Value)
    requires Current(a, v)
    ensures Current(WithSpan(a, data), v)
    ensures forall x :: Views(WithSpan(a, data), v, x) <==> Views(a, v, x)
    ensures v.Bytes? ==> ReadBytes(WithSpan(a, data), v.bytes) == ReadBytes(a, v.bytes)
  {
    if v.Bytes? && InBytes(a, v.bytes) {
      var o, n := v.bytes.offset, v.bytes.length;
      assert (a.bytes + data)[o..o + n] == a.bytes[o..o + n];
    }
  }

  /** A new span overlaps no view held before, wherever its view is stored. */
  lemma SpanFits(a: Arena, pairs: seq<ScratchPair>, vs: seq<Value>, capacity: nat, data: seq<Byte>, vs': seq<Value>)
    requires BytesFit(a, pairs, vs, capacity) && |a.bytes| + |data| <= capacity
    requires forall i :: 0 <= i < |vs'| ==> vs'[i] == NewView(a, data) || From(pairs, vs, vs'[i])
    ensures BytesFit(WithSpan(a, data), pairs, vs', capacity)
    ensures ReadBytes(WithSpan(a, data), NewView(a, data).bytes) == Some(data)
  {
    var a', fresh' := WithSpan(a, data), Span(|a.bytes|, |data|);
    assert (a.bytes + data)[|a.bytes|..|a.bytes| + |data|] == data;
    forall i | 0 <= i < |vs'| ensures Current(a', vs'[i]) && forall x :: Views(a', vs'[i], x) ==> x == fresh' || Held(a, pairs, vs, x) {
      if vs'[i] != NewView(a, data) {
        FromHeld(a, pairs, vs, capacity, vs'[i]);
        ViewStays(a, data, vs'[i]);
      }
    }
    forall p | 0 <= p < |pairs|
      ensures Current(a', pairs[p].first) && Current(a', pairs[p].second)
      ensures forall x :: Views(a', pairs[p].first, x) || Views(a', pairs[p].second, x) ==> Held(a, pairs, vs, x)
    {
      ViewStays(a, data, pairs[p].first);
      ViewStays(a, data, pairs[p].second);
    }
    forall x | Held(a, pairs, vs, x) ensures Apart(x, fresh') { assert x.offset + x.length <= |a.bytes|; }
    forall x, y | Held(a', pairs, vs', x) && Held(a', pairs, vs', y) && x != y ensures Apart(x, y) {
      assert x == fresh' || Held(a, pairs, vs, x);
      assert y == fresh' || Held(a, pairs, vs, y);
    }
  }
}
