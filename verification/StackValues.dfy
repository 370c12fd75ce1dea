/**
 A value pushed onto the operand stack: what a new root that holds no handle
 keeps, and what one more span of the bytes arena keeps.
 */
module StackValues {
  import opened CText
  import opened Heap
  import opened Liveness
  import opened Compaction
  import opened Relocation
  import opened RootSets
  import opened BytesViews
  import opened Allocation
  import opened NodeCreation

  function Pushed(r: Roots, v: Value): Roots {
    r.(stack := r.stack + [v])
  }

  /** The root values before and after a push: the same ones, and `v` above the stack. */
  lemma PushedValues(r: Roots, v: Value)
    ensures ValuesOf(Pushed(r, v)) == r.stack + [v] + (r.locals + Results(r.tasks) + r.parValues)
    ensures ValuesOf(r) == r.stack + (r.locals + Results(r.tasks) + r.parValues)
    ensures HandlesOf(Pushed(r, v), []) == HandlesOf(r, [])
  {}

  lemma OneMore(xs: seq<Value>, v: Value, ys: seq<Value>)
    ensures forall i :: 0 <= i < |xs + ys| ==> (xs + ys)[i] in xs + [v] + ys
    ensures forall i :: 0 <= i < |xs + [v] + ys| ==> (xs + [v] + ys)[i] == v || (xs + [v] + ys)[i] in xs + ys
  {
    var all, old' := xs + [v] + ys, xs + ys;
    forall i | 0 <= i < |old'| ensures old'[i] in all { assert old'[i] == all[if i < |xs| then i else i + 1]; }
    forall i | 0 <= i < |all| ensures all[i] == v || all[i] in old' {
      if i != |xs| { assert all[i] == old'[if i < |xs| then i else i - 1]; }
    }
  }

  /** Lists with the same members, up to values without handles, reach the same. */
  lemma SameReach(h: Heap, vs: seq<Value>, hs: seq<int>, vs': seq<Value>)
    requires forall i :: 0 <= i < |vs| ==> vs[i] in vs'
    requires forall i :: 0 <= i < |vs'| ==> (!vs'[i].Node? && !vs'[i].Pair?) || vs'[i] in vs
    ensures forall p :: LivePair(h, vs', p) <==> LivePair(h, vs, p)
    ensures forall n :: LiveNode(h, vs', hs, n) <==> LiveNode(h, vs, hs, n)
    ensures LivePairs(h, vs') == LivePairs(h, vs) && LiveNodes(h, vs', hs) == LiveNodes(h, vs, hs)
  {
    forall ps: set<int> ensures PairsClosed(h, vs', ps) <==> PairsClosed(h, vs, ps) {}
    forall p ensures LivePair(h, vs', p) <==> LivePair(h, vs, p) {}
    forall ns: set<int> ensures NodesClosed(h, vs', hs, ns) <==> NodesClosed(h, vs, hs, ns) {
      assert (forall i :: 0 <= i < |vs'| ==> ValueIn(h, vs'[i], ns)) <==> (forall i :: 0 <= i < |vs| ==> ValueIn(h, vs[i], ns));
    }
    forall n ensures LiveNode(h, vs', hs, n) <==> LiveNode(h, vs, hs, n) {}
  }

  lemma PushedReady(h: Heap, r: Roots, v: Value)
    requires Ready(h, r, []) && !v.Node? && !v.Pair? && ValueOk(h.strings, v)
    ensures Ready(h, Pushed(r, v), [])
  {
    PushedValues(r, v);
    var rest := r.locals + Results(r.tasks) + r.parValues;
    OneMore(r.stack, v, rest);
    var vs, vs', hs := ValuesOf(r), ValuesOf(Pushed(r, v)), HandlesOf(r, []);
    SameReach(h, vs, hs, vs');
    forall i | 0 <= i < |vs'| ensures ValueOk(h.strings, vs'[i]) && (vs'[i].Node? ==> IsNode(h, vs'[i].node)) {
      if vs'[i] != v {
        var k :| 0 <= k < |vs| && vs[k] == vs'[i];
      }
    }
  }

  lemma PushedFrom(pairs: seq<ScratchPair>, r: Roots, v: Value)
    ensures var vs' := ValuesOf(Pushed(r, v)); forall i :: 0 <= i < |vs'| ==> vs'[i] == v || From(pairs, ValuesOf(r), vs'[i])
  {
    PushedValues(r, v);
    OneMore(r.stack, v, r.locals + Results(r.tasks) + r.parValues);
    var vs, vs' := ValuesOf(r), ValuesOf(Pushed(r, v));
    forall i | 0 <= i < |vs'| && vs'[i] != v ensures From(pairs, vs, vs'[i]) {
      var k :| 0 <= k < |vs| && vs[k] == vs'[i];
    }
  }

  /** A string value pushed keeps the VM sane. */
  lemma PushedSane(h: Heap, r: Roots, c: Capacities, limit: nat, index: Index, copied: set<Text>, s: StrRef)
    requires Sane(h, r, c, limit, index, copied) && StrOk(h.strings, s)
    ensures Sane(h, Pushed(r, Str(s)), c, limit, index, copied)
  {
    PushedReady(h, r, Str(s));
    PushedFrom(h.pairs, r, Str(s));
    FitStays(h.bytes, h.pairs, ValuesOf(r), h.pairs, ValuesOf(Pushed(r, Str(s))), c.bytes);
  }

  /** A text written without being indexed keeps the VM sane, and the index unaware of it. */
  lemma UnindexedSane(h: Heap, r: Roots, c: Capacities, limit: nat, index: Index, copied: set<Text>, t: Text)
    requires Sane(h, r, c, limit, index, copied) && NulFree(t) && |h.strings.bytes| + |t| + 1 <= limit
    ensures Sane(Grown(h, t), r, c, limit, index, copied)
  {
    GrownReady(h, r, [], t);
    AppendStores(h.strings.bytes, t);
    InternIndex.IndexStays(h.strings.bytes, t, index.entries, index.count, index.complete, copied);
  }

  /** A text stored without being indexed is found by a copy exactly when it was known before or the index is incomplete. */
  lemma UnindexedKnownIff(h: Heap, r: Roots, c: Capacities, limit: nat, index: Index, copied: set<Text>, t: Text)
    requires Sane(h, r, c, limit, index, copied) && NulFree(t)
    ensures Known(Grown(h, t).strings, index, t) <==> Known(h.strings, index, t) || !index.complete
  {
    var a, es := h.strings.bytes, index.entries;
    AppendStores(a, t);
    assert Stored(Appended(a, t), t);
    forall e | InternIndex.Indexed(es, e) ensures TextAt(Appended(a, t), e.offset) == TextAt(a, e.offset) {
      assert InternIndex.Indexes(a, e);
      AppendKeeps(a, t, e.offset);
    }
  }

  lemma HostPushedSane(h: Heap, r: Roots, c: Capacities, limit: nat, index: Index, copied: set<Text>)
    requires Sane(h, r, c, limit, index, copied)
    ensures Sane(h, Pushed(r, Bytes(HostBytes([]))), c, limit, index, copied)
  {
    var v := Bytes(HostBytes([]));
    PushedReady(h, r, v);
    PushedFrom(h.pairs, r, v);
    FitStays(h.bytes, h.pairs, ValuesOf(r), h.pairs, ValuesOf(Pushed(r, v)), c.bytes);
  }

  // ----- one more span of the bytes arena

  function Clamp(x: int, n: nat): (c: nat)
    ensures c <= n
  {
    if x < 0 then 0 else if x > n then n else x
  }

  /** What BYTES_SLICE takes of its operand. */
  function ClampedSlice(data: seq<Byte>, start: int, length: int): seq<Byte> {
    var from := Clamp(start, |data|);
    data[from..from + Clamp(length, |data| - from)]
  }

  function WithBytes(h: Heap, data: seq<Byte>): Heap {
    h.(bytes := WithSpan(h.bytes, data))
  }

  lemma WithBytesReady(h: Heap, r: Roots, data: seq<Byte>)
    requires Ready(h, r, [])
    ensures Ready(WithBytes(h, data), r, [])
  {
    var h', vs, hs := WithBytes(h, data), ValuesOf(r), HandlesOf(r, []);
    assert SamePairShapes(h, vs, h', vs) && SameNodeShapes(h, vs, h', vs);
    SameLivePairs(h, vs, h', vs);
    SameLiveNodes(h, vs, hs, h', vs);
    forall p | IsPair(h', p) && LivePair(h', vs, p) ensures NodesInRange(h', h'.pairs[p - 1]) { assert NodesInRange(h, h.pairs[p - 1]); }
    forall n | n in LiveNodes(h', vs, hs) ensures NodeOk(h', n) { assert NodeOk(h, n) && AttrsOf(h', n) == AttrsOf(h, n); }
  }

  lemma ViewKept(h: Heap, vs: seq<Value>, hs: seq<int>, data: seq<Byte>, v: Value)
    requires Current(h.bytes, v) && ValueKept(h, vs, hs, v)
    ensures Corresponds(h, WithBytes(h, data), Identity(LiveNodes(h, vs, hs)), Identity(LivePairs(h, vs)), v, v)
  {
    ViewStays(h.bytes, data, v);
  }

  /** Everything the roots reach reads the same beside a new span. */
  lemma WithBytesKeeps(h: Heap, r: Roots, data: seq<Byte>, capacity: nat)
    requires Ready(h, r, []) && BytesFit(h.bytes, h.pairs, ValuesOf(r), capacity)
    ensures RootsPreserved(h, r, WithBytes(h, data), r)
  {
    var h', vs, hs := WithBytes(h, data), ValuesOf(r), HandlesOf(r, []);
    var nm, pm := Identity(LiveNodes(h, vs, hs)), Identity(LivePairs(h, vs));
    forall n | n in nm ensures CarriesNode(h, h', nm, n) { NodesCarryThemselves(h, h', vs, hs, n); }
    forall p | p in pm ensures CarriesPair(h, h', nm, pm, p) {
      PairKept(h, vs, hs, p);
      var q := p - 1;
      assert Current(h.bytes, h.pairs[q].first) && Current(h.bytes, h.pairs[q].second);
      ViewKept(h, vs, hs, data, h.pairs[q].first);
      ViewKept(h, vs, hs, data, h.pairs[q].second);
    }
    forall i | 0 <= i < |vs| ensures Corresponds(h, h', nm, pm, vs[i], vs[i]) {
      RootKept(h, vs, hs, i);
      ViewKept(h, vs, hs, data, vs[i]);
    }
    CarriedList(h, h', nm, pm, vs, vs);
    forall i | 0 <= i < |hs| ensures Corresponds(h, h', nm, pm, NodeValues(hs)[i], NodeValues(hs)[i]) { HandleKept(h, vs, hs, i); }
    CarriedList(h, h', nm, pm, NodeValues(hs), NodeValues(hs));
  }

  /** A new span, with or without its view on the stack: the VM stays sane, so no view ever overlaps another. */
  lemma AllocatedSane(h: Heap, r: Roots, c: Capacities, limit: nat, index: Index, copied: set<Text>, data: seq<Byte>)
    requires Sane(h, r, c, limit, index, copied) && |h.bytes.bytes| + |data| <= c.bytes
    ensures Sane(WithBytes(h, data), r, c, limit, index, copied) && Sane(WithBytes(h, data), Pushed(r, NewView(h.bytes, data)), c, limit, index, copied)
    ensures RootsPreserved(h, r, WithBytes(h, data), r) && ReadBytes(WithBytes(h, data).bytes, NewView(h.bytes, data).bytes) == Some(data)
  {
    var h', v := WithBytes(h, data), NewView(h.bytes, data);
    WithBytesReady(h, r, data);
    PushedReady(h', r, v);
    WithBytesKeeps(h, r, data, c.bytes);
    SpanFits(h.bytes, h.pairs, ValuesOf(r), c.bytes, data, ValuesOf(r));
    PushedFrom(h.pairs, r, v);
    SpanFits(h.bytes, h.pairs, ValuesOf(r), c.bytes, data, ValuesOf(Pushed(r, v)));
  }
}
