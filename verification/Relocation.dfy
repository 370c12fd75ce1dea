/**
 String compaction: each live pointer into the arena is moved to the one copy
 of its text in a fresh arena. `Room` is the accounting that makes the fresh
 arena fit: every text copied comes from a segment of the old arena that no
 other copy came from.
 */
module Relocation {
  import opened CText
  import opened Heap
  import opened Liveness
  import opened Compaction

  predicate InArena(a: Arena, r: StrRef) {
    r.ArenaStr? && r.epoch == a.epoch && r.offset < |a.bytes|
  }

  /** A pointer compaction can take: NULL, host storage, the start of a segment of the current arena, or one
      left behind by an earlier compaction, which reads nothing. */
  ghost predicate StrOk(a: Arena, r: StrRef) {
    r.ArenaStr? ==> r.epoch <= a.epoch && (r.epoch == a.epoch ==> SegmentStart(a.bytes, r.offset))
  }

  /** `r'` in the arena `b` under construction is where `r` moved. */
  ghost predicate Relocated(a: Arena, b: seq<Byte>, r: StrRef, r': StrRef) {
    if InArena(a, r) then
      r'.ArenaStr? && r'.epoch == a.epoch + 1 && SegmentStart(b, r'.offset) && TextAt(b, r'.offset) == TextAt(a.bytes, r.offset)
    else r' == r
  }

  /** Growing the arena keeps every segment already there. */
  ghost predicate Extends(b: seq<Byte>, b': seq<Byte>) {
    forall o: nat :: SegmentStart(b, o) ==> SegmentStart(b', o) && TextAt(b', o) == TextAt(b, o)
  }

  lemma RelocatedStays(a: Arena, b: seq<Byte>, b': seq<Byte>, r: StrRef, r': StrRef)
    requires Relocated(a, b, r, r') && Extends(b, b')
    ensures Relocated(a, b', r, r')
  {}

  lemma RelocatedReads(a: Arena, b: seq<Byte>, r: StrRef, r': StrRef)
    requires Relocated(a, b, r, r') && StrOk(a, r)
    ensures ReadStr(a, r) == ReadStr(Arena(a.epoch + 1, b), r')
    ensures StrOk(Arena(a.epoch + 1, b), r')
  {}

  // ----- room in the fresh arena

  ghost predicate Within(k: nat, o: nat, n: nat) { o <= k < o + n }

  ghost function Range(o: nat, n: nat): (r: set<nat>)
    ensures forall k: nat :: k in r <==> Within(k, o, n)
  {
    set k: nat {:trigger Within(k, o, n)} | o <= k < o + n
  }

  lemma {:induction false} RangeSize(o: nat, n: nat)
    ensures |Range(o, n)| == n
  {
    if n == 0 {
      assert Range(o, n) == {};
    } else {
      RangeSize(o, n - 1);
      assert Range(o, n) == Range(o, n - 1) + {o + n - 1};
    }
  }

  /** Every text of the new arena is the text of one of the old segments `keep`. */
  ghost predicate FromKept(a: seq<Byte>, b: seq<Byte>, keep: set<nat>) {
    forall o: nat :: SegmentStart(b, o) ==> KeptText(a, keep, TextAt(b, o))
  }

  ghost predicate KeptText(a: seq<Byte>, keep: set<nat>, t: Text) {
    exists s: nat :: s in keep && SegmentStart(a, s) && TextAt(a, s) == t
  }

  /** `used` are the positions of the old arena whose segments have been copied: as many as the new arena has bytes.
      Only segments among `keep` are copied. */
  ghost predicate Room(a: seq<Byte>, b: seq<Byte>, used: set<nat>, keep: set<nat>) {
    && Terminated(b) && DuplicateFree(b) && FromKept(a, b, keep)
    && |used| == |b| && used <= Range(0, |a|)
    && forall s: nat :: SegmentStart(a, s) && !Stored(b, TextAt(a, s)) ==> used !! Range(s, |TextAt(a, s)| + 1)
  }

  lemma RoomBound(a: seq<Byte>, b: seq<Byte>, used: set<nat>, keep: set<nat>)
    requires Room(a, b, used, keep)
    ensures |b| <= |a|
  {
    RangeSize(0, |a|);
    assert Range(0, |a|) == used + (Range(0, |a|) - used);
  }

  lemma AppendExtends(b: seq<Byte>, t: Text)
    requires Terminated(b) && NulFree(t)
    ensures Extends(b, Appended(b, t)) && Stored(Appended(b, t), t)
  {
    AppendStores(b, t);
    forall o: nat | SegmentStart(b, o) ensures SegmentStart(Appended(b, t), o) && TextAt(Appended(b, t), o) == TextAt(b, o) {
      AppendSegments(b, t, o);
      AppendKeeps(b, t, o);
    }
  }

  lemma AppendFromKept(a: seq<Byte>, b: seq<Byte>, keep: set<nat>, s: nat)
    requires Terminated(b) && FromKept(a, b, keep) && SegmentStart(a, s) && s in keep && NulFree(TextAt(a, s))
    ensures FromKept(a, Appended(b, TextAt(a, s)), keep)
  {
    var t := TextAt(a, s);
    AppendStores(b, t);
    forall o: nat | SegmentStart(Appended(b, t), o) ensures KeptText(a, keep, TextAt(Appended(b, t), o)) {
      AppendSegments(b, t, o);
      if o < |b| { AppendKeeps(b, t, o); }
    }
  }

  lemma StoredStays(b: seq<Byte>, b': seq<Byte>, t: Text)
    requires Stored(b, t) && Extends(b, b')
    ensures Stored(b', t)
  {
    var o: nat :| SegmentStart(b, o) && TextAt(b, o) == t;
    assert SegmentStart(b', o);
  }

  lemma SegmentRangesDisjoint(a: seq<Byte>, s: nat, q: nat)
    requires Terminated(a) && SegmentStart(a, s) && SegmentStart(a, q) && s != q
    ensures Range(s, |TextAt(a, s)| + 1) !! Range(q, |TextAt(a, q)| + 1)
  {
    if q < s { SegmentsDisjoint(a, q, s); } else { SegmentsDisjoint(a, s, q); }
  }

  lemma RoomAppend(a: seq<Byte>, b: seq<Byte>, used: set<nat>, keep: set<nat>, s: nat)
    requires Terminated(a) && SegmentStart(a, s) && s in keep
    requires Room(a, b, used, keep) && !Stored(b, TextAt(a, s))
    ensures Room(a, Appended(b, TextAt(a, s)), used + Range(s, |TextAt(a, s)| + 1), keep)
  {
    var t := TextAt(a, s);
    var b', used' := Appended(b, t), used + Range(s, |t| + 1);
    AppendStores(b, t);
    AppendDuplicateFree(b, t);
    AppendExtends(b, t);
    AppendFromKept(a, b, keep, s);
    RangeSize(s, |t| + 1);
    TerminatedText(a, s);
    forall q: nat | SegmentStart(a, q) && !Stored(b', TextAt(a, q)) ensures used' !! Range(q, |TextAt(a, q)| + 1) {
      if Stored(b, TextAt(a, q)) { StoredStays(b, b', TextAt(a, q)); }
      SegmentRangesDisjoint(a, s, q);
    }
  }

  /** A pointer into the arena points at a segment to be kept. */
  ghost predicate Wanted(a: Arena, keep: set<nat>, r: StrRef) {
    InArena(a, r) ==> r.offset in keep
  }

  ghost predicate ValueWanted(a: Arena, keep: set<nat>, v: Value) {
    v.Str? ==> Wanted(a, keep, v.str)
  }

  ghost predicate AttrWanted(a: Arena, keep: set<nat>, t: Attr) {
    Wanted(a, keep, t.key) && (t.value.Identifier? || t.value.StringAttr? ==> Wanted(a, keep, t.value.s))
  }

  ghost predicate RecordWanted(a: Arena, keep: set<nat>, r: Record, attrs: seq<Attr>) {
    && Wanted(a, keep, r.kind) && Wanted(a, keep, r.id)
    && forall k :: r.attrStart <= k < r.attrStart + r.attrCount && k < |attrs| ==> AttrWanted(a, keep, attrs[k])
  }

  // ----- values, attributes and records

  ghost predicate ValueOk(a: Arena, v: Value) {
    v.Str? ==> StrOk(a, v.str)
  }

  ghost predicate ValueRelocated(a: Arena, b: seq<Byte>, v: Value, v': Value) {
    if v.Str? then v'.Str? && Relocated(a, b, v.str, v'.str) else v' == v
  }

  ghost predicate ValuesRelocated(a: Arena, b: seq<Byte>, vs: seq<Value>, vs': seq<Value>) {
    |vs'| == |vs| && forall i :: 0 <= i < |vs| ==> ValueRelocated(a, b, vs[i], vs'[i])
  }

  lemma ValuesRelocatedStay(a: Arena, b: seq<Byte>, b': seq<Byte>, vs: seq<Value>, vs': seq<Value>)
    requires ValuesRelocated(a, b, vs, vs') && Extends(b, b')
    ensures ValuesRelocated(a, b', vs, vs')
  {
    forall i | 0 <= i < |vs| && vs[i].Str? ensures Relocated(a, b', vs[i].str, vs'[i].str) {
      RelocatedStays(a, b, b', vs[i].str, vs'[i].str);
    }
  }

  ghost predicate AttrOk(a: Arena, t: Attr) {
    StrOk(a, t.key) && (t.value.Identifier? || t.value.StringAttr? ==> StrOk(a, t.value.s))
  }

  ghost predicate AttrRelocated(a: Arena, b: seq<Byte>, t: Attr, t': Attr) {
    && Relocated(a, b, t.key, t'.key)
    && match t.value
       case Identifier(s) => t'.value.Identifier? && Relocated(a, b, s, t'.value.s)
       case StringAttr(s) => t'.value.StringAttr? && Relocated(a, b, s, t'.value.s)
       case _ => t'.value == t.value
  }

  lemma AttrRelocatedStays(a: Arena, b: seq<Byte>, b': seq<Byte>, t: Attr, t': Attr)
    requires AttrRelocated(a, b, t, t') && Extends(b, b')
    ensures AttrRelocated(a, b', t, t')
  {
    RelocatedStays(a, b, b', t.key, t'.key);
    if t.value.Identifier? || t.value.StringAttr? {
      RelocatedStays(a, b, b', t.value.s, t'.value.s);
    }
  }

  lemma AttrRelocatedReads(a: Arena, b: seq<Byte>, t: Attr, t': Attr)
    requires AttrRelocated(a, b, t, t') && AttrOk(a, t)
    ensures MeaningOfAttr(a, t) == MeaningOfAttr(Arena(a.epoch + 1, b), t')
    ensures AttrOk(Arena(a.epoch + 1, b), t')
  {
    RelocatedReads(a, b, t.key, t'.key);
    if t.value.Identifier? || t.value.StringAttr? {
      RelocatedReads(a, b, t.value.s, t'.value.s);
    }
  }

  ghost predicate AttrsRelocated(a: Arena, b: seq<Byte>, ts: seq<Attr>, ts': seq<Attr>) {
    |ts'| == |ts| && forall i :: 0 <= i < |ts| ==> AttrRelocated(a, b, ts[i], ts'[i])
  }

  /** The record of a live node after relocation: same slices, moved texts. */
  ghost predicate RecordRelocated(a: Arena, b: seq<Byte>, r: Record, r': Record) {
    && Relocated(a, b, r.kind, r'.kind) && Relocated(a, b, r.id, r'.id)
    && r' == r.(kind := r'.kind, id := r'.id)
  }

  ghost predicate NodeOk(h: Heap, n: int)
    requires IsNode(h, n)
  {
    && StrOk(h.strings, h.nodes[n - 1].kind) && StrOk(h.strings, h.nodes[n - 1].id)
    && forall k :: 0 <= k < |AttrsOf(h, n)| ==> AttrOk(h.strings, AttrsOf(h, n)[k])
  }

  /** Every string a live value or node holds can be relocated. */
  ghost predicate StringsSound(h: Heap, vs: seq<Value>, hs: seq<int>) {
    && Terminated(h.strings.bytes)
    && (forall i :: 0 <= i < |vs| ==> ValueOk(h.strings, vs[i]))
    && (forall p :: p in LivePairs(h, vs) ==> ValueOk(h.strings, h.pairs[p - 1].first) && ValueOk(h.strings, h.pairs[p - 1].second))
    && (forall n :: n in LiveNodes(h, vs, hs) ==> NodeOk(h, n))
  }

  ghost predicate NodeRelocated(h: Heap, b: seq<Byte>, h': Heap, n: int)
    requires IsNode(h, n) && |h'.nodes| == |h.nodes|
  {
    && RecordRelocated(h.strings, b, h.nodes[n - 1], h'.nodes[n - 1])
    && AttrsRelocated(h.strings, b, AttrsOf(h, n), AttrsOf(h', n))
  }

  /** `h'` is `h` with its live strings moved into the arena `b`; nothing else changed. */
  ghost predicate RelocatedHeap(h: Heap, vs: seq<Value>, hs: seq<int>, b: seq<Byte>, h': Heap) {
    && h'.strings == Arena(h.strings.epoch + 1, b) && h'.bytes == h.bytes && h'.children == h.children
    && |h'.nodes| == |h.nodes| && |h'.pairs| == |h.pairs| && |h'.attrs| == |h.attrs|
    && (forall i :: 0 <= i < |h.nodes| ==> SameSlices(h.nodes[i], h'.nodes[i]))
    && (forall n {:trigger NodeRelocated(h, b, h', n)} :: n in LiveNodes(h, vs, hs) ==> NodeRelocated(h, b, h', n))
    && (forall n :: IsNode(h, n) && n !in LiveNodes(h, vs, hs) ==> h'.nodes[n - 1] == h.nodes[n - 1] && AttrsOf(h', n) == AttrsOf(h, n))
    && (forall p {:trigger PairRelocated(h, b, h', p)} :: IsPair(h, p) ==>
          if p in LivePairs(h, vs) then PairRelocated(h, b, h', p) else h'.pairs[p - 1] == h.pairs[p - 1])
  }

  ghost predicate SameSlices(r: Record, r': Record) {
    r'.attrStart == r.attrStart && r'.attrCount == r.attrCount && r'.childStart == r.childStart && r'.childCount == r.childCount
  }

  ghost predicate PairRelocated(h: Heap, b: seq<Byte>, h': Heap, p: int)
    requires IsPair(h, p) && |h'.pairs| == |h.pairs|
  {
    && ValueRelocated(h.strings, b, h.pairs[p - 1].first, h'.pairs[p - 1].first)
    && ValueRelocated(h.strings, b, h.pairs[p - 1].second, h'.pairs[p - 1].second)
  }

  lemma NodeRelocatedCarries(h: Heap, vs: seq<Value>, hs: seq<int>, b: seq<Byte>, h': Heap, n: int)
    requires WellFormed(h) && StringsSound(h, vs, hs) && RelocatedHeap(h, vs, hs, b, h') && n in LiveNodes(h, vs, hs)
    ensures CarriesNode(h, h', Identity(LiveNodes(h, vs, hs)), n)
  {
    assert NodeRelocated(h, b, h', n) && NodeOk(h, n);
    var r, r' := h.nodes[n - 1], h'.nodes[n - 1];
    RelocatedReads(h.strings, b, r.kind, r'.kind);
    RelocatedReads(h.strings, b, r.id, r'.id);
    var ts, ts' := AttrsOf(h, n), AttrsOf(h', n);
    forall k | 0 <= k < |ts| ensures MeaningOfAttr(h.strings, ts[k]) == MeaningOfAttr(h'.strings, ts'[k]) {
      AttrRelocatedReads(h.strings, b, ts[k], ts'[k]);
    }
    assert MeaningOfAttrs(h.strings, ts) == MeaningOfAttrs(h'.strings, ts');
    assert ChildrenOf(h', n) == ChildrenOf(h, n);
    ChildrenKept(h, vs, hs, n);
  }

  lemma ValueRelocatedCorresponds(h: Heap, vs: seq<Value>, hs: seq<int>, b: seq<Byte>, h': Heap, v: Value, v': Value)
    requires RelocatedHeap(h, vs, hs, b, h') && ValueRelocated(h.strings, b, v, v') && ValueOk(h.strings, v) && ValueKept(h, vs, hs, v)
    ensures Corresponds(h, h', Identity(LiveNodes(h, vs, hs)), Identity(LivePairs(h, vs)), v, v')
  {
    if v.Str? {
      RelocatedReads(h.strings, b, v.str, v'.str);
    }
  }

  lemma StringCompactionCarries(h: Heap, vs: seq<Value>, hs: seq<int>, b: seq<Byte>, h': Heap)
    requires WellFormed(h) && RootsSound(h, vs, hs) && StringsSound(h, vs, hs) && RelocatedHeap(h, vs, hs, b, h')
    ensures Carries(h, h', Identity(LiveNodes(h, vs, hs)), Identity(LivePairs(h, vs)))
  {
    var nm, pm := Identity(LiveNodes(h, vs, hs)), Identity(LivePairs(h, vs));
    forall n | n in nm ensures CarriesNode(h, h', nm, n) {
      NodeRelocatedCarries(h, vs, hs, b, h', n);
    }
    forall p | p in pm ensures CarriesPair(h, h', nm, pm, p) {
      PairKept(h, vs, hs, p);
      assert PairRelocated(h, b, h', p);
      ValueRelocatedCorresponds(h, vs, hs, b, h', h.pairs[p - 1].first, h'.pairs[p - 1].first);
      ValueRelocatedCorresponds(h, vs, hs, b, h', h.pairs[p - 1].second, h'.pairs[p - 1].second);
    }
  }

  /** Main theorem of string compaction: every root reads the same afterwards, at every depth. */
  lemma StringCompactionKeepsMeaning(h: Heap, vs: seq<Value>, hs: seq<int>, b: seq<Byte>, h': Heap, vs': seq<Value>)
    requires WellFormed(h) && RootsSound(h, vs, hs) && StringsSound(h, vs, hs)
    requires RelocatedHeap(h, vs, hs, b, h') && ValuesRelocated(h.strings, b, vs, vs')
    ensures SameMeaning(h, vs, h', vs') && SameMeaning(h, NodeValues(hs), h', NodeValues(hs))
  {
    var nm, pm := Identity(LiveNodes(h, vs, hs)), Identity(LivePairs(h, vs));
    StringCompactionCarries(h, vs, hs, b, h');
    forall i | 0 <= i < |vs| ensures Corresponds(h, h', nm, pm, vs[i], vs'[i]) {
      RootKept(h, vs, hs, i);
      ValueRelocatedCorresponds(h, vs, hs, b, h', vs[i], vs'[i]);
    }
    CarriedList(h, h', nm, pm, vs, vs');
    forall i | 0 <= i < |hs| ensures Corresponds(h, h', nm, pm, NodeValues(hs)[i], NodeValues(hs)[i]) {
      HandleKept(h, vs, hs, i);
    }
    CarriedList(h, h', nm, pm, NodeValues(hs), NodeValues(hs));
  }

  // ----- what stays live

  /** Nothing the markers follow changes when strings move, so the same handles stay live. */
  lemma SameLiveNodes(h: Heap, vs: seq<Value>, hs: seq<int>, h': Heap, vs': seq<Value>)
    requires SamePairShapes(h, vs, h', vs') && SameNodeShapes(h, vs, h', vs')
    ensures forall n :: LiveNode(h, vs, hs, n) <==> LiveNode(h', vs', hs, n)
  {
    assert SamePairShapes(h', vs', h, vs) && SameNodeShapes(h', vs', h, vs);
    SameLivePairs(h, vs, h', vs');
    forall ns: set<int> ensures NodesClosed(h, vs, hs, ns) <==> NodesClosed(h', vs', hs, ns) {
      if NodesClosed(h, vs, hs, ns) {
        SameNodesClosed(h, vs, hs, h', vs', ns);
      } else if NodesClosed(h', vs', hs, ns) {
        SameNodesClosed(h', vs', hs, h, vs, ns);
      }
    }
    forall n ensures LiveNode(h, vs, hs, n) <==> LiveNode(h', vs', hs, n) {}
  }

  ghost predicate SameNodeShape(v: Value, v': Value) {
    (v.Node? <==> v'.Node?) && (v.Node? ==> v == v')
  }

  ghost predicate SameNodeShapes(h: Heap, vs: seq<Value>, h': Heap, vs': seq<Value>) {
    && |h.nodes| == |h'.nodes| && |vs| == |vs'| && |h.pairs| == |h'.pairs|
    && (forall n {:trigger ChildrenOf(h, n)} {:trigger ChildrenOf(h', n)} :: IsNode(h, n) ==> ChildrenOf(h, n) == ChildrenOf(h', n))
    && (forall i :: 0 <= i < |vs| ==> SameNodeShape(vs[i], vs'[i]))
    && (forall p :: 0 <= p < |h.pairs| ==>
          SameNodeShape(h.pairs[p].first, h'.pairs[p].first) && SameNodeShape(h.pairs[p].second, h'.pairs[p].second))
  }

  lemma SameNodesClosed(h: Heap, vs: seq<Value>, hs: seq<int>, h': Heap, vs': seq<Value>, ns: set<int>)
    requires SamePairShapes(h, vs, h', vs') && SameNodeShapes(h, vs, h', vs') && NodesClosed(h, vs, hs, ns)
    requires forall p :: LivePair(h, vs, p) <==> LivePair(h', vs', p)
    ensures NodesClosed(h', vs', hs, ns)
  {
    forall i | 0 <= i < |vs'| ensures ValueIn(h', vs'[i], ns) {
      assert ValueIn(h, vs[i], ns) && SameNodeShape(vs[i], vs'[i]);
    }
    forall p | IsPair(h', p) && LivePair(h', vs', p)
      ensures ValueIn(h', h'.pairs[p - 1].first, ns) && ValueIn(h', h'.pairs[p - 1].second, ns)
    {
      assert LivePair(h, vs, p);
      assert SameNodeShape(h.pairs[p - 1].first, h'.pairs[p - 1].first);
    }
    forall n | n in ns && IsNode(h', n) ensures KidsIn(h', n, ns) {
      assert KidsIn(h, n, ns);
    }
  }

  lemma ValueShape(a: Arena, b: seq<Byte>, v: Value, v': Value)
    requires ValueRelocated(a, b, v, v') || v' == v
    ensures SamePairShape(v, v') && SameNodeShape(v, v')
  {}

  lemma RelocatedShapes(h: Heap, vs: seq<Value>, hs: seq<int>, b: seq<Byte>, h': Heap, vs': seq<Value>)
    requires RelocatedHeap(h, vs, hs, b, h') && ValuesRelocated(h.strings, b, vs, vs')
    ensures SamePairShapes(h, vs, h', vs') && SameNodeShapes(h, vs, h', vs')
  {
    forall p | 0 <= p < |h.pairs|
      ensures SamePairShape(h.pairs[p].first, h'.pairs[p].first) && SamePairShape(h.pairs[p].second, h'.pairs[p].second)
      ensures SameNodeShape(h.pairs[p].first, h'.pairs[p].first) && SameNodeShape(h.pairs[p].second, h'.pairs[p].second)
    {
      var q := p + 1;
      assert IsPair(h, q) && h.pairs[q - 1] == h.pairs[p] && h'.pairs[q - 1] == h'.pairs[p];
      assert PairRelocated(h, b, h', q) || h'.pairs[q - 1] == h.pairs[q - 1];
      ValueShape(h.strings, b, h.pairs[p].first, h'.pairs[p].first);
      ValueShape(h.strings, b, h.pairs[p].second, h'.pairs[p].second);
    }
    forall n | IsNode(h, n) ensures ChildrenOf(h, n) == ChildrenOf(h', n) {
      assert SameSlices(h.nodes[n - 1], h'.nodes[n - 1]);
    }
    forall i | 0 <= i < |vs| ensures SamePairShape(vs[i], vs'[i]) && SameNodeShape(vs[i], vs'[i]) {
      ValueShape(h.strings, b, vs[i], vs'[i]);
    }
  }

  lemma RelocatedNodeOk(h: Heap, vs: seq<Value>, hs: seq<int>, b: seq<Byte>, h': Heap, n: int)
    requires StringsSound(h, vs, hs) && RelocatedHeap(h, vs, hs, b, h') && n in LiveNodes(h, vs, hs)
    ensures NodeOk(h', n)
  {
    assert NodeRelocated(h, b, h', n) && NodeOk(h, n);
    RelocatedReads(h.strings, b, h.nodes[n - 1].kind, h'.nodes[n - 1].kind);
    RelocatedReads(h.strings, b, h.nodes[n - 1].id, h'.nodes[n - 1].id);
    forall k | 0 <= k < |AttrsOf(h', n)| ensures AttrOk(h'.strings, AttrsOf(h', n)[k]) {
      AttrRelocatedReads(h.strings, b, AttrsOf(h, n)[k], AttrsOf(h', n)[k]);
    }
  }

  lemma RelocatedValueOk(a: Arena, b: seq<Byte>, v: Value, v': Value)
    requires ValueOk(a, v) && ValueRelocated(a, b, v, v')
    ensures ValueOk(Arena(a.epoch + 1, b), v')
  {
    if v.Str? { RelocatedReads(a, b, v.str, v'.str); }
  }

  lemma SlicesKeepPacked(nodes: seq<Record>, nodes': seq<Record>, attrCount: nat, childCount: nat)
    requires Packed(nodes, attrCount, childCount) && |nodes'| == |nodes|
    requires forall i :: 0 <= i < |nodes| ==> SameSlices(nodes[i], nodes'[i])
    ensures Packed(nodes', attrCount, childCount)
  {
    forall i | 0 <= i < |nodes'| ensures StartsAtEnd(nodes', i) {
      assert StartsAtEnd(nodes, i);
      assert SameSlices(nodes[i], nodes'[i]);
      if i > 0 { assert SameSlices(nodes[i - 1], nodes'[i - 1]); }
    }
    if nodes != [] { assert SameSlices(nodes[|nodes| - 1], nodes'[|nodes| - 1]); }
  }

  /** After string compaction the heap is still well formed and its roots still sound. */
  lemma StringCompactionSound(h: Heap, vs: seq<Value>, hs: seq<int>, b: seq<Byte>, h': Heap, vs': seq<Value>)
    requires WellFormed(h) && RootsSound(h, vs, hs) && StringsSound(h, vs, hs) && Terminated(b)
    requires RelocatedHeap(h, vs, hs, b, h') && ValuesRelocated(h.strings, b, vs, vs')
    ensures WellFormed(h') && RootsSound(h', vs', hs) && StringsSound(h', vs', hs)
  {
    RelocatedShapes(h, vs, hs, b, h', vs');
    SameLivePairs(h, vs, h', vs');
    SameLiveNodes(h, vs, hs, h', vs');
    SlicesKeepPacked(h.nodes, h'.nodes, |h.attrs|, |h.children|);
    forall p | IsPair(h', p) && LivePair(h', vs', p) ensures NodesInRange(h', h'.pairs[p - 1]) {
      assert NodesInRange(h, h.pairs[p - 1]);
      assert SameNodeShape(h.pairs[p - 1].first, h'.pairs[p - 1].first);
    }
    forall i | 0 <= i < |vs'| ensures ValueOk(h'.strings, vs'[i]) && (vs'[i].Node? ==> IsNode(h', vs'[i].node)) {
      RelocatedValueOk(h.strings, b, vs[i], vs'[i]);
      assert SameNodeShape(vs[i], vs'[i]);
    }
    forall p | p in LivePairs(h', vs')
      ensures ValueOk(h'.strings, h'.pairs[p - 1].first) && ValueOk(h'.strings, h'.pairs[p - 1].second)
    {
      assert PairRelocated(h, b, h', p);
      RelocatedValueOk(h.strings, b, h.pairs[p - 1].first, h'.pairs[p - 1].first);
      RelocatedValueOk(h.strings, b, h.pairs[p - 1].second, h'.pairs[p - 1].second);
    }
    forall n | n in LiveNodes(h', vs', hs) ensures NodeOk(h', n) {
      RelocatedNodeOk(h, vs, hs, b, h', n);
    }
  }

  /** A text copied for the first time fits, and is found at the old end. */
  lemma CopyFits(a: seq<Byte>, b: seq<Byte>, used: set<nat>, keep: set<nat>, s: nat)
    requires Terminated(a) && SegmentStart(a, s) && s in keep && Room(a, b, used, keep) && !Stored(b, TextAt(a, s))
    ensures var b' := Appended(b, TextAt(a, s));
            && Room(a, b', used + Range(s, |TextAt(a, s)| + 1), keep) && Extends(b, b')
            && SegmentStart(b', |b|) && TextAt(b', |b|) == TextAt(a, s)
            && |b'| <= |a|
  {
    var t := TextAt(a, s);
    RoomAppend(a, b, used, keep, s);
    AppendExtends(b, t);
    AppendStores(b, t);
    RoomBound(a, Appended(b, t), used + Range(s, |t| + 1), keep);
  }

  /** Relocates one pointer into the arena under construction. The ghost `used` is the room accounting. */
  method RelocateRef(a: Arena, r: StrRef, b: seq<Byte>, ghost used: set<nat>, ghost keep: set<nat>, capacity: nat) returns (r': StrRef, b': seq<Byte>, ghost used': set<nat>)
    requires StrOk(a, r) && Wanted(a, keep, r) && Terminated(a.bytes) && |a.bytes| <= capacity && Room(a.bytes, b, used, keep)
    ensures Relocated(a, b', r, r') && Extends(b, b') && Room(a.bytes, b', used', keep)
  {
    r', b', used' := r, b, used;
    if !InArena(a, r) {
      return;
    }
    var t := TextAt(a.bytes, r.offset);
    var found, o := FindText(b, t);
    if !found {
      o := |b|;
      b', used' := Appended(b, t), used + Range(r.offset, |t| + 1);
      CopyFits(a.bytes, b, used, keep, r.offset);
      assert |b'| <= capacity;  // the capacity branch is unreachable
    }
    r' := ArenaStr(a.epoch + 1, o);
  }

  method RelocateList(a: Arena, list: seq<Value>, b: seq<Byte>, ghost used: set<nat>, ghost keep: set<nat>, capacity: nat)
    returns (list': seq<Value>, b': seq<Byte>, ghost used': set<nat>)
    requires Terminated(a.bytes) && |a.bytes| <= capacity && Room(a.bytes, b, used, keep)
    requires forall i :: 0 <= i < |list| ==> ValueOk(a, list[i]) && ValueWanted(a, keep, list[i])
    ensures ValuesRelocated(a, b', list, list') && Extends(b, b') && Room(a.bytes, b', used', keep)
  {
    list', b', used' := list, b, used;
    for i := 0 to |list|
      invariant |list'| == |list| && list'[i..] == list[i..]
      invariant ValuesRelocated(a, b', list[..i], list'[..i])
      invariant Extends(b, b') && Room(a.bytes, b', used', keep)
    {
      ghost var before, done := b', list'[..i];
      var v := list[i];
      assert list'[i] == v;
      if v.Str? {
        var r;
        r, b', used' := RelocateRef(a, v.str, b', used', keep, capacity);
        list' := list'[i := Str(r)];
        ValuesRelocatedStay(a, before, b', list[..i], done);
      }
      assert list'[..i] == done && list[..i + 1] == list[..i] + [v] && list'[..i + 1] == done + [list'[i]];
    }
    assert list[..|list|] == list && list'[..|list|] == list';
  }

  method RelocateAttr(a: Arena, t: Attr, b: seq<Byte>, ghost used: set<nat>, ghost keep: set<nat>, capacity: nat) returns (t': Attr, b': seq<Byte>, ghost used': set<nat>)
    requires Terminated(a.bytes) && |a.bytes| <= capacity && Room(a.bytes, b, used, keep) && AttrOk(a, t) && AttrWanted(a, keep, t)
    ensures AttrRelocated(a, b', t, t') && Extends(b, b') && Room(a.bytes, b', used', keep)
  {
    var key;
    key, b', used' := RelocateRef(a, t.key, b, used, keep, capacity);
    t' := t.(key := key);
    if t.value.Identifier? || t.value.StringAttr? {
      ghost var before := b';
      var s;
      s, b', used' := RelocateRef(a, t.value.s, b', used', keep, capacity);
      RelocatedStays(a, before, b', t.key, key);
      t' := Attr(key, t.value.(s := s));
    }
  }

  /** Relocates the attribute slots `from..to` of the attribute arena. */
  method RelocateAttrs(a: Arena, attrs: seq<Attr>, from: nat, to: nat, b: seq<Byte>, ghost used: set<nat>, ghost keep: set<nat>, capacity: nat)
    returns (attrs': seq<Attr>, b': seq<Byte>, ghost used': set<nat>)
    requires Terminated(a.bytes) && |a.bytes| <= capacity && Room(a.bytes, b, used, keep)
    requires from <= to <= |attrs| && forall k :: from <= k < to ==> AttrOk(a, attrs[k]) && AttrWanted(a, keep, attrs[k])
    ensures |attrs'| == |attrs| && attrs'[..from] == attrs[..from] && attrs'[to..] == attrs[to..]
    ensures AttrsRelocated(a, b', attrs[from..to], attrs'[from..to])
    ensures Extends(b, b') && Room(a.bytes, b', used', keep)
  {
    attrs', b', used' := attrs, b, used;
    for i := from to to
      invariant |attrs'| == |attrs|
      invariant forall k :: 0 <= k < from || i <= k < |attrs| ==> attrs'[k] == attrs[k]
      invariant forall k :: from <= k < i ==> AttrRelocated(a, b', attrs[k], attrs'[k])
      invariant Extends(b, b') && Room(a.bytes, b', used', keep)
    {
      ghost var before := b';
      var t;
      t, b', used' := RelocateAttr(a, attrs[i], b', used', keep, capacity);
      forall k | from <= k < i ensures AttrRelocated(a, b', attrs[k], attrs'[k]) {
        AttrRelocatedStays(a, before, b', attrs[k], attrs'[k]);
      }
      attrs' := attrs'[i := t];
    }
  }

  ghost predicate PairMoved(a: Arena, b: seq<Byte>, q: ScratchPair, q': ScratchPair) {
    ValueRelocated(a, b, q.first, q'.first) && ValueRelocated(a, b, q.second, q'.second)
  }

  method RelocatePairs(a: Arena, pairs: seq<ScratchPair>, live: seq<bool>, b: seq<Byte>, ghost used: set<nat>, ghost keep: set<nat>, capacity: nat)
    returns (pairs': seq<ScratchPair>, b': seq<Byte>, ghost used': set<nat>)
    requires Terminated(a.bytes) && |a.bytes| <= capacity && Room(a.bytes, b, used, keep) && |live| == |pairs|
    requires forall i :: 0 <= i < |pairs| && live[i] ==> ValueOk(a, pairs[i].first) && ValueOk(a, pairs[i].second)
    requires forall i :: 0 <= i < |pairs| && live[i] ==> ValueWanted(a, keep, pairs[i].first) && ValueWanted(a, keep, pairs[i].second)
    ensures |pairs'| == |pairs|
    ensures forall i :: 0 <= i < |pairs| ==> if live[i] then PairMoved(a, b', pairs[i], pairs'[i]) else pairs'[i] == pairs[i]
    ensures Extends(b, b') && Room(a.bytes, b', used', keep)
  {
    pairs', b', used' := pairs, b, used;
    for i := 0 to |pairs|
      invariant |pairs'| == |pairs|
      invariant forall k :: 0 <= k < i ==> if live[k] then PairMoved(a, b', pairs[k], pairs'[k]) else pairs'[k] == pairs[k]
      invariant forall k :: i <= k < |pairs| ==> pairs'[k] == pairs[k]
      invariant Extends(b, b') && Room(a.bytes, b', used', keep)
    {
      if live[i] {
        ghost var before := b';
        var both := [pairs[i].first, pairs[i].second];
        var moved;
        moved, b', used' := RelocateList(a, both, b', used', keep, capacity);
        forall k | 0 <= k < i && live[k] ensures PairMoved(a, b', pairs[k], pairs'[k]) {
          ValuesRelocatedStay(a, before, b', [pairs[k].first, pairs[k].second], [pairs'[k].first, pairs'[k].second]);
          assert ValueRelocated(a, b', [pairs[k].first, pairs[k].second][0], [pairs'[k].first, pairs'[k].second][0]);
          assert ValueRelocated(a, b', [pairs[k].first, pairs[k].second][1], [pairs'[k].first, pairs'[k].second][1]);
        }
        assert ValueRelocated(a, b', both[0], moved[0]) && ValueRelocated(a, b', both[1], moved[1]);
        pairs' := pairs'[i := ScratchPair(moved[0], moved[1])];
      }
    }
  }

  /** A node's record and attribute slots after relocation, over the arenas alone. */
  ghost predicate NodeMoved(a: Arena, b: seq<Byte>, nodes: seq<Record>, attrs: seq<Attr>, nodes': seq<Record>, attrs': seq<Attr>, i: nat) {
    && i < |nodes| == |nodes'| && |attrs| == |attrs'|
    && RecordRelocated(a, b, nodes[i], nodes'[i])
    && AttrsRelocated(a, b, Slice(attrs, nodes[i].attrStart, nodes[i].attrCount), Slice(attrs', nodes[i].attrStart, nodes[i].attrCount))
  }

  lemma NodeMovedStays(a: Arena, b: seq<Byte>, b': seq<Byte>, nodes: seq<Record>, attrs: seq<Attr>, nodes1: seq<Record>, attrs1: seq<Attr>,
                       nodes2: seq<Record>, attrs2: seq<Attr>, i: nat, end: nat)
    requires NodeMoved(a, b, nodes, attrs, nodes1, attrs1, i) && Extends(b, b')
    requires |nodes2| == |nodes1| && nodes2[i] == nodes1[i] && |attrs2| == |attrs1|
    requires nodes[i].attrStart + nodes[i].attrCount <= end <= |attrs1| && attrs2[..end] == attrs1[..end]
    ensures NodeMoved(a, b', nodes, attrs, nodes2, attrs2, i)
  {
    RelocatedStays(a, b, b', nodes[i].kind, nodes1[i].kind);
    RelocatedStays(a, b, b', nodes[i].id, nodes1[i].id);
    AttrSlotsStay(a, b, b', attrs, attrs1, attrs2, nodes[i].attrStart, nodes[i].attrCount, end);
  }

  lemma AttrSlotsStay(a: Arena, b: seq<Byte>, b': seq<Byte>, attrs: seq<Attr>, attrs1: seq<Attr>, attrs2: seq<Attr>, s: nat, n: nat, end: nat)
    requires |attrs2| == |attrs1| == |attrs| && s + n <= end <= |attrs1| && attrs2[..end] == attrs1[..end] && Extends(b, b')
    requires AttrsRelocated(a, b, Slice(attrs, s, n), Slice(attrs1, s, n))
    ensures AttrsRelocated(a, b', Slice(attrs, s, n), Slice(attrs2, s, n))
  {
    var t, t1, t2 := Slice(attrs, s, n), Slice(attrs1, s, n), Slice(attrs2, s, n);
    assert t2 == t1 by {
      forall k | 0 <= k < n ensures t2[k] == t1[k] { assert t2[k] == attrs2[..end][s + k] && t1[k] == attrs1[..end][s + k]; }
    }
    forall k | 0 <= k < n ensures AttrRelocated(a, b', t[k], t2[k]) { AttrRelocatedStays(a, b, b', t[k], t1[k]); }
  }

  /** One live node: its kind, its id, then each attribute slot. */
  method RelocateNode(a: Arena, r: Record, attrs: seq<Attr>, b: seq<Byte>, ghost used: set<nat>, ghost keep: set<nat>, capacity: nat)
    returns (r': Record, attrs': seq<Attr>, b': seq<Byte>, ghost used': set<nat>)
    requires Terminated(a.bytes) && |a.bytes| <= capacity && Room(a.bytes, b, used, keep)
    requires r.attrStart + r.attrCount <= |attrs| && StrOk(a, r.kind) && StrOk(a, r.id)
    requires Wanted(a, keep, r.kind) && Wanted(a, keep, r.id)
    requires forall k :: r.attrStart <= k < r.attrStart + r.attrCount ==> AttrOk(a, attrs[k]) && AttrWanted(a, keep, attrs[k])
    ensures RecordRelocated(a, b', r, r')
    ensures |attrs'| == |attrs| && attrs'[..r.attrStart] == attrs[..r.attrStart] && attrs'[r.attrStart + r.attrCount..] == attrs[r.attrStart + r.attrCount..]
    ensures AttrsRelocated(a, b', Slice(attrs, r.attrStart, r.attrCount), Slice(attrs', r.attrStart, r.attrCount))
    ensures Extends(b, b') && Room(a.bytes, b', used', keep)
  {
    var kind, id;
    kind, b', used' := RelocateRef(a, r.kind, b, used, keep, capacity);
    ghost var b1 := b';
    id, b', used' := RelocateRef(a, r.id, b', used', keep, capacity);
    ghost var b2 := b';
    attrs', b', used' := RelocateAttrs(a, attrs, r.attrStart, r.attrStart + r.attrCount, b', used', keep, capacity);
    RelocatedStays(a, b1, b2, r.kind, kind);
    RelocatedStays(a, b2, b', r.kind, kind);
    RelocatedStays(a, b2, b', r.id, id);
    r' := r.(kind := kind, id := id);
  }

  ghost predicate NodesMoved(a: Arena, b: seq<Byte>, nodes: seq<Record>, attrs: seq<Attr>, nodes': seq<Record>, attrs': seq<Attr>, live: seq<bool>, upTo: nat) {
    && |nodes'| == |nodes| <= |live| && |attrs'| == |attrs|
    && (forall i {:trigger NodeMoved(a, b, nodes, attrs, nodes', attrs', i)} :: 0 <= i < upTo && i < |nodes| && live[i] ==> NodeMoved(a, b, nodes, attrs, nodes', attrs', i))
    && (forall i :: 0 <= i < |nodes| ==> SameSlices(nodes[i], nodes'[i]))
    && (forall i :: 0 <= i < |nodes| && (upTo <= i || !live[i]) ==> nodes'[i] == nodes[i])
    && (forall i :: 0 <= i < upTo && i < |nodes| && !live[i] ==> SlotsLeft(attrs, attrs', nodes[i]))
  }

  /** A dead node's attribute slots are not written. */
  ghost predicate SlotsLeft(attrs: seq<Attr>, attrs': seq<Attr>, r: Record) {
    Slice(attrs', r.attrStart, r.attrCount) == Slice(attrs, r.attrStart, r.attrCount)
  }

  lemma SlotsLeftStay(attrs: seq<Attr>, attrs1: seq<Attr>, attrs2: seq<Attr>, r: Record, end: nat)
    requires |attrs2| == |attrs1| == |attrs| && r.attrStart + r.attrCount <= end <= |attrs1| && attrs2[..end] == attrs1[..end]
    requires SlotsLeft(attrs, attrs1, r)
    ensures SlotsLeft(attrs, attrs2, r)
  {
    var s, n := r.attrStart, r.attrCount;
    assert Slice(attrs2, s, n) == attrs2[..end][s..s + n] && Slice(attrs1, s, n) == attrs1[..end][s..s + n];
  }

  /** Relocating node `i` keeps the nodes relocated before it. */
  lemma NodesMovedNext(a: Arena, b1: seq<Byte>, b: seq<Byte>, nodes: seq<Record>, attrs: seq<Attr>, childCount: nat,
                       nodes1: seq<Record>, attrs1: seq<Attr>, nodes2: seq<Record>, attrs2: seq<Attr>, live: seq<bool>, i: nat)
    requires Packed(nodes, |attrs|, childCount) && i < |nodes| <= |live| && live[i]
    requires NodesMoved(a, b1, nodes, attrs, nodes1, attrs1, live, i) && Extends(b1, b)
    requires |nodes2| == |nodes1| && nodes2 == nodes1[i := nodes2[i]] && |attrs2| == |attrs1|
    requires nodes[i].attrStart <= |attrs| && attrs2[..nodes[i].attrStart] == attrs1[..nodes[i].attrStart]
    requires NodeMoved(a, b, nodes, attrs, nodes2, attrs2, i)
    ensures NodesMoved(a, b, nodes, attrs, nodes2, attrs2, live, i + 1)
  {
    assert StartsAtEnd(nodes, i);
    forall k | 0 <= k < i && live[k] ensures NodeMoved(a, b, nodes, attrs, nodes2, attrs2, k) {
      assert NodeMoved(a, b1, nodes, attrs, nodes1, attrs1, k);
      EndsBefore(nodes, |attrs|, childCount, k, i);
      NodeMovedStays(a, b1, b, nodes, attrs, nodes1, attrs1, nodes2, attrs2, k, nodes[i].attrStart);
    }
    forall k | 0 <= k < i && !live[k] ensures SlotsLeft(attrs, attrs2, nodes[k]) {
      EndsBefore(nodes, |attrs|, childCount, k, i);
      SlotsLeftStay(attrs, attrs1, attrs2, nodes[k], nodes[i].attrStart);
    }
  }

  /** Node `i`, after the nodes before it. */
  method RelocateNextNode(a: Arena, nodes: seq<Record>, attrs: seq<Attr>, ghost childCount: nat, live: seq<bool>, i: nat,
                          nodes1: seq<Record>, attrs1: seq<Attr>, b: seq<Byte>, ghost used: set<nat>, ghost keep: set<nat>, capacity: nat)
    returns (nodes': seq<Record>, attrs': seq<Attr>, b': seq<Byte>, ghost used': set<nat>)
    requires Terminated(a.bytes) && |a.bytes| <= capacity && Room(a.bytes, b, used, keep)
    requires Packed(nodes, |attrs|, childCount) && i < |nodes| <= |live| && live[i] && RecordOk(a, nodes[i], attrs) && RecordWanted(a, keep, nodes[i], attrs)
    requires NodesMoved(a, b, nodes, attrs, nodes1, attrs1, live, i) && SameFrom(attrs, attrs1, AttrEnd(nodes, i))
    ensures NodesMoved(a, b', nodes, attrs, nodes', attrs', live, i + 1) && SameFrom(attrs, attrs', AttrEnd(nodes, i + 1))
    ensures Extends(b, b') && Room(a.bytes, b', used', keep)
  {
    PackedWithin(nodes, |attrs|, childCount, i + 1);
    assert StartsAtEnd(nodes, i);
    var r := nodes[i];
    TailOk(a, keep, attrs, attrs1, r);
    var r';
    r', attrs', b', used' := RelocateNode(a, r, attrs1, b, used, keep, capacity);
    nodes' := nodes1[i := r'];
    TailStays(attrs, attrs1, attrs', r.attrStart, r.attrStart + r.attrCount);
    NodesMovedNext(a, b, b', nodes, attrs, childCount, nodes1, attrs1, nodes', attrs', live, i);
  }

  method RelocateNodes(a: Arena, nodes: seq<Record>, attrs: seq<Attr>, ghost childCount: nat, live: seq<bool>, b: seq<Byte>, ghost used: set<nat>, ghost keep: set<nat>, capacity: nat)
    returns (nodes': seq<Record>, attrs': seq<Attr>, b': seq<Byte>, ghost used': set<nat>)
    requires Terminated(a.bytes) && |a.bytes| <= capacity && Room(a.bytes, b, used, keep) && |nodes| <= |live|
    requires Packed(nodes, |attrs|, childCount)
    requires forall i :: 0 <= i < |nodes| && live[i] ==> RecordOk(a, nodes[i], attrs) && RecordWanted(a, keep, nodes[i], attrs)
    ensures NodesMoved(a, b', nodes, attrs, nodes', attrs', live, |nodes|)
    ensures Extends(b, b') && Room(a.bytes, b', used', keep)
  {
    nodes', attrs', b', used' := nodes, attrs, b, used;
    for i := 0 to |nodes|
      invariant NodesMoved(a, b', nodes, attrs, nodes', attrs', live, i)
      invariant SameFrom(attrs, attrs', AttrEnd(nodes, i))
      invariant Extends(b, b') && Room(a.bytes, b', used', keep)
    {
      if live[i] {
        nodes', attrs', b', used' := RelocateNextNode(a, nodes, attrs, childCount, live, i, nodes', attrs', b', used', keep, capacity);
      } else {
        NodesMovedSkip(a, b', nodes, attrs, childCount, nodes', attrs', live, i);
      }
    }
  }

  lemma NodesMovedSkip(a: Arena, b: seq<Byte>, nodes: seq<Record>, attrs: seq<Attr>, childCount: nat, nodes': seq<Record>, attrs': seq<Attr>, live: seq<bool>, i: nat)
    requires Packed(nodes, |attrs|, childCount) && i < |nodes| <= |live| && !live[i]
    requires NodesMoved(a, b, nodes, attrs, nodes', attrs', live, i) && SameFrom(attrs, attrs', AttrEnd(nodes, i))
    ensures NodesMoved(a, b, nodes, attrs, nodes', attrs', live, i + 1) && SameFrom(attrs, attrs', AttrEnd(nodes, i + 1))
  {
    assert StartsAtEnd(nodes, i);
    PackedWithin(nodes, |attrs|, childCount, i + 1);
    TailLeft(attrs, attrs', nodes[i]);
    forall k | 0 <= k < i + 1 && !live[k] ensures SlotsLeft(attrs, attrs', nodes[k]) {}
  }

  lemma TailLeft(attrs: seq<Attr>, attrs': seq<Attr>, r: Record)
    requires r.attrStart + r.attrCount <= |attrs| && SameFrom(attrs, attrs', r.attrStart)
    ensures SlotsLeft(attrs, attrs', r) && SameFrom(attrs, attrs', r.attrStart + r.attrCount)
  {}

  ghost predicate SameFrom(attrs: seq<Attr>, attrs': seq<Attr>, from: nat) {
    |attrs| == |attrs'| && forall k :: from <= k < |attrs| ==> attrs'[k] == attrs[k]
  }

  lemma TailOk(a: Arena, keep: set<nat>, attrs: seq<Attr>, attrs': seq<Attr>, r: Record)
    requires r.attrStart + r.attrCount <= |attrs| && SameFrom(attrs, attrs', r.attrStart) && RecordOk(a, r, attrs) && RecordWanted(a, keep, r, attrs)
    ensures forall k :: r.attrStart <= k < r.attrStart + r.attrCount ==> AttrOk(a, attrs'[k]) && AttrWanted(a, keep, attrs'[k])
    ensures Slice(attrs', r.attrStart, r.attrCount) == Slice(attrs, r.attrStart, r.attrCount)
  {}

  lemma TailStays(attrs: seq<Attr>, attrs1: seq<Attr>, attrs2: seq<Attr>, start: nat, end: nat)
    requires start <= end <= |attrs| && SameFrom(attrs, attrs1, start) && |attrs2| == |attrs1| && attrs2[end..] == attrs1[end..]
    ensures SameFrom(attrs, attrs2, end)
  {
    assert forall k :: end <= k < |attrs| ==> attrs2[k] == attrs2[end..][k - end] && attrs1[k] == attrs1[end..][k - end];
  }

  ghost predicate RecordOk(a: Arena, r: Record, attrs: seq<Attr>) {
    && StrOk(a, r.kind) && StrOk(a, r.id)
    && forall k :: r.attrStart <= k < r.attrStart + r.attrCount && k < |attrs| ==> AttrOk(a, attrs[k])
  }

  lemma {:induction false} EndsBefore(nodes: seq<Record>, attrCount: nat, childCount: nat, i: nat, j: nat)
    requires Packed(nodes, attrCount, childCount) && i < j <= |nodes|
    ensures nodes[i].attrStart + nodes[i].attrCount <= AttrEnd(nodes, j)
    decreases j
  {
    if i < j - 1 {
      assert StartsAtEnd(nodes, j - 1);
      EndsBefore(nodes, attrCount, childCount, i, j - 1);
    }
  }

  // ----- growing the arena at its end

  function Grown(h: Heap, t: Text): Heap {
    h.(strings := Arena(h.strings.epoch, Appended(h.strings.bytes, t)))
  }

  ghost predicate ArenaExtended(a: Arena, a': Arena) {
    a'.epoch == a.epoch && Terminated(a'.bytes) && Extends(a.bytes, a'.bytes)
  }

  /** `h'` is `h` with strings added at the end of its arena. */
  ghost predicate Extended(h: Heap, h': Heap) {
    h' == h.(strings := h'.strings) && ArenaExtended(h.strings, h'.strings)
  }

  lemma GrownExtended(h: Heap, t: Text)
    requires Terminated(h.strings.bytes) && NulFree(t)
    ensures Extended(h, Grown(h, t))
  {
    AppendExtends(h.strings.bytes, t);
  }

  lemma ExtendedStrOk(a: Arena, a': Arena, r: StrRef)
    requires ArenaExtended(a, a') && StrOk(a, r)
    ensures StrOk(a', r) && ReadStr(a', r) == ReadStr(a, r)
  {}

  lemma ExtendedAttrOk(a: Arena, a': Arena, x: Attr)
    requires ArenaExtended(a, a') && AttrOk(a, x)
    ensures AttrOk(a', x) && MeaningOfAttr(a', x) == MeaningOfAttr(a, x)
  {
    ExtendedStrOk(a, a', x.key);
    if x.value.Identifier? || x.value.StringAttr? { ExtendedStrOk(a, a', x.value.s); }
  }

  lemma ExtendedAttrs(a: Arena, a': Arena, xs: seq<Attr>)
    requires ArenaExtended(a, a') && forall k :: 0 <= k < |xs| ==> AttrOk(a, xs[k])
    ensures MeaningOfAttrs(a', xs) == MeaningOfAttrs(a, xs) && forall k :: 0 <= k < |xs| ==> AttrOk(a', xs[k])
  {
    forall k | 0 <= k < |xs| ensures AttrOk(a', xs[k]) && MeaningOfAttr(a', xs[k]) == MeaningOfAttr(a, xs[k]) {
      ExtendedAttrOk(a, a', xs[k]);
    }
  }

  lemma ExtendedNodeOk(h: Heap, h': Heap, n: int)
    requires Extended(h, h') && IsNode(h, n) && NodeOk(h, n)
    ensures NodeOk(h', n)
    ensures MeaningOfAttrs(h.strings, AttrsOf(h, n)) == MeaningOfAttrs(h'.strings, AttrsOf(h, n))
  {
    ExtendedStrOk(h.strings, h'.strings, h.nodes[n - 1].kind);
    ExtendedStrOk(h.strings, h'.strings, h.nodes[n - 1].id);
    ExtendedAttrs(h.strings, h'.strings, AttrsOf(h, n));
  }

  lemma ExtendedShapes(h: Heap, h': Heap, vs: seq<Value>, hs: seq<int>)
    requires Extended(h, h')
    ensures LivePairs(h', vs) == LivePairs(h, vs)
    ensures LiveNodes(h', vs, hs) == LiveNodes(h, vs, hs)
    ensures forall p :: LivePair(h', vs, p) <==> LivePair(h, vs, p)
  {
    assert SamePairShapes(h, vs, h', vs) && SameNodeShapes(h, vs, h', vs);
    SameLivePairs(h, vs, h', vs);
    SameLiveNodes(h, vs, hs, h', vs);
  }

  /** Adding strings leaves the heap sound. */
  lemma ExtendedSound(h: Heap, h': Heap, vs: seq<Value>, hs: seq<int>)
    requires Extended(h, h') && WellFormed(h) && RootsSound(h, vs, hs) && StringsSound(h, vs, hs)
    ensures WellFormed(h') && RootsSound(h', vs, hs) && StringsSound(h', vs, hs)
  {
    ExtendedShapes(h, h', vs, hs);
    forall p | IsPair(h', p) && LivePair(h', vs, p) ensures NodesInRange(h', h'.pairs[p - 1]) {
      assert NodesInRange(h, h.pairs[p - 1]);
    }
    forall i | 0 <= i < |vs| ensures ValueOk(h'.strings, vs[i]) {
      if vs[i].Str? { ExtendedStrOk(h.strings, h'.strings, vs[i].str); }
    }
    forall p | p in LivePairs(h', vs) ensures ValueOk(h'.strings, h'.pairs[p - 1].first) && ValueOk(h'.strings, h'.pairs[p - 1].second) {
      var q := h.pairs[p - 1];
      if q.first.Str? { ExtendedStrOk(h.strings, h'.strings, q.first.str); }
      if q.second.Str? { ExtendedStrOk(h.strings, h'.strings, q.second.str); }
    }
    forall n | n in LiveNodes(h', vs, hs) ensures NodeOk(h', n) {
      assert NodeOk(h, n);
      ExtendedNodeOk(h, h', n);
    }
  }

  /** Adding strings keeps what every root denotes. */
  lemma ExtendedKeepsMeaning(h: Heap, h': Heap, vs: seq<Value>, hs: seq<int>)
    requires Extended(h, h') && WellFormed(h) && RootsSound(h, vs, hs) && StringsSound(h, vs, hs)
    ensures SameMeaning(h, vs, h', vs) && SameMeaning(h, NodeValues(hs), h', NodeValues(hs))
  {
    var nm, pm := Identity(LiveNodes(h, vs, hs)), Identity(LivePairs(h, vs));
    forall n | n in nm ensures CarriesNode(h, h', nm, n) {
      assert NodeOk(h, n);
      ExtendedNodeOk(h, h', n);
      ExtendedStrOk(h.strings, h'.strings, h.nodes[n - 1].kind);
      ExtendedStrOk(h.strings, h'.strings, h.nodes[n - 1].id);
      ChildrenKept(h, vs, hs, n);
    }
    forall p | p in pm ensures CarriesPair(h, h', nm, pm, p) {
      PairKept(h, vs, hs, p);
      ExtendedCorresponds(h, h', vs, hs, h.pairs[p - 1].first);
      ExtendedCorresponds(h, h', vs, hs, h.pairs[p - 1].second);
    }
    forall i | 0 <= i < |vs| ensures Corresponds(h, h', nm, pm, vs[i], vs[i]) {
      RootKept(h, vs, hs, i);
      ExtendedCorresponds(h, h', vs, hs, vs[i]);
    }
    CarriedList(h, h', nm, pm, vs, vs);
    forall i | 0 <= i < |hs| ensures Corresponds(h, h', nm, pm, NodeValues(hs)[i], NodeValues(hs)[i]) {
      HandleKept(h, vs, hs, i);
    }
    CarriedList(h, h', nm, pm, NodeValues(hs), NodeValues(hs));
  }

  lemma ExtendedCorresponds(h: Heap, h': Heap, vs: seq<Value>, hs: seq<int>, v: Value)
    requires Extended(h, h') && ValueOk(h.strings, v) && ValueKept(h, vs, hs, v)
    ensures Corresponds(h, h', Identity(LiveNodes(h, vs, hs)), Identity(LivePairs(h, vs)), v, v)
  {
    if v.Str? { ExtendedStrOk(h.strings, h'.strings, v.str); }
  }
}
