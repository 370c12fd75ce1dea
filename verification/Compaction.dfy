/**
 The handle map of a node compaction, and what it means for a heap to be the
 compacted form of another.
 */
module Compaction {
  import opened Heap
  import opened Liveness

  /** How many members of `s` lie in 1..n. */
  ghost function Rank(s: set<int>, n: int): nat {
    if n <= 0 then 0 else Rank(s, n - 1) + (if n in s then 1 else 0)
  }

  /** A live handle moves to its rank among the live handles. */
  ghost function RankMap(s: set<int>): map<int, int> {
    map n | n in s :: Rank(s, n)
  }

  lemma {:induction false} RankGrows(s: set<int>, n: int, m: int)
    requires n <= m
    ensures Rank(s, n) <= Rank(s, m)
    ensures m in s && 0 < m && n < m ==> Rank(s, n) < Rank(s, m)
    decreases m - n
  {
    if n < m {
      RankGrows(s, n, m - 1);
    }
  }

  lemma {:induction false} RankBound(s: set<int>, n: nat)
    ensures Rank(s, n) <= n
    ensures Rank(s, n) == n <==> forall k :: 1 <= k <= n ==> k in s
  {
    if n > 0 {
      RankBound(s, n - 1);
    }
  }

  /** Over all of a set of handles in 1..top the rank is the size of the set. */
  lemma {:induction false} RankTotal(s: set<int>, top: nat)
    requires forall k :: k in s ==> 1 <= k <= top
    ensures Rank(s, top) == |s|
  {
    if top == 0 {
      assert forall k: int :: k !in s;
      assert s == {};
    } else {
      var rest := s - {top};
      RankTotal(rest, top - 1);
      RankSame(s, rest, top - 1);
      if top in s {
        assert s == rest + {top};
      } else {
        assert s == rest;
      }
    }
  }

  lemma {:induction false} RankSame(s: set<int>, t: set<int>, n: nat)
    requires forall k :: 1 <= k <= n ==> (k in s <==> k in t)
    ensures Rank(s, n) == Rank(t, n)
  {
    if n > 0 {
      RankSame(s, t, n - 1);
    }
  }

  lemma {:induction false} RankOnto(s: set<int>, top: nat, k: nat) returns (n: nat)
    requires 1 <= k <= Rank(s, top)
    ensures 1 <= n <= top && n in s && Rank(s, n) == k
  {
    if top in s && Rank(s, top) == k {
      n := top;
    } else {
      n := RankOnto(s, top - 1, k);
    }
  }

  /** The map is an order-preserving bijection from the live handles onto 1..|s|. */
  lemma RankMapBijection(s: set<int>, top: nat)
    requires forall k :: k in s ==> 1 <= k <= top
    ensures forall a, b :: a in s && b in s && a < b ==> RankMap(s)[a] < RankMap(s)[b]
    ensures forall a :: a in s ==> 1 <= RankMap(s)[a] <= |s|
    ensures forall k :: k in RankMap(s).Values <==> 1 <= k <= |s|
  {
    RankTotal(s, top);
    forall a, b | a in s && b in s && a < b ensures RankMap(s)[a] < RankMap(s)[b] {
      RankGrows(s, a, b);
    }
    forall a | a in s ensures 1 <= RankMap(s)[a] <= |s| {
      RankGrows(s, a, top);
    }
    forall k | 1 <= k <= |s| ensures k in RankMap(s).Values {
      var n := RankOnto(s, top, k);
      assert RankMap(s)[n] == k;
    }
  }

  /** Moving a handle twice is only harmless when the first move left it in place, which is
      when every handle up to it is live: what a second pass of the map over an already
      remapped array does. */
  lemma RankMapTwice(s: set<int>, top: nat, c: int)
    requires c in s && forall k :: k in s ==> 1 <= k <= top
    ensures (RankMap(s)[c] in s && RankMap(s)[RankMap(s)[c]] == RankMap(s)[c]) <==> forall k :: 1 <= k <= c ==> k in s
  {
    RankMapBijection(s, top);
    RankBound(s, c);
    if RankMap(s)[c] in s && RankMap(s)[RankMap(s)[c]] == RankMap(s)[c] {
      assert RankMap(s)[c] == c;
    }
  }

  // ----- applying the map

  /** The handle-map array of the collector: index by old handle, 0 for a dead one. */
  ghost predicate Encodes(m: seq<int>, nm: map<int, int>) {
    && (forall n :: n in nm ==> 1 <= n < |m| && nm[n] >= 1)
    && (forall n :: 0 <= n < |m| ==> m[n] == if n in nm then nm[n] else 0)
  }

  function MoveValue(nm: map<int, int>, v: Value): Value {
    if v.Node? && v.node in nm then Node(nm[v.node]) else v
  }

  function MoveValues(nm: map<int, int>, vs: seq<Value>): (r: seq<Value>)
    ensures |r| == |vs| && forall i :: 0 <= i < |vs| ==> r[i] == MoveValue(nm, vs[i])
  {
    seq(|vs|, i requires 0 <= i < |vs| => MoveValue(nm, vs[i]))
  }

  ghost predicate AllIn(nm: map<int, int>, hs: seq<int>) {
    forall i :: 0 <= i < |hs| ==> hs[i] in nm
  }

  function MoveHandle(nm: map<int, int>, n: int): int {
    if n in nm then nm[n] else n
  }

  function MoveHandles(nm: map<int, int>, hs: seq<int>): (r: seq<int>)
    ensures |r| == |hs| && forall i :: 0 <= i < |hs| ==> r[i] == MoveHandle(nm, hs[i])
  {
    seq(|hs|, i requires 0 <= i < |hs| => MoveHandle(nm, hs[i]))
  }

  lemma MoveValuesConcat(nm: map<int, int>, a: seq<Value>, b: seq<Value>)
    ensures MoveValues(nm, a + b) == MoveValues(nm, a) + MoveValues(nm, b)
  {}

  lemma MoveHandlesConcat(nm: map<int, int>, a: seq<int>, b: seq<int>)
    ensures MoveHandles(nm, a + b) == MoveHandles(nm, a) + MoveHandles(nm, b)
  {}

  function MovePair(nm: map<int, int>, q: ScratchPair): ScratchPair {
    ScratchPair(MoveValue(nm, q.first), MoveValue(nm, q.second))
  }

  ghost function Identity(s: set<int>): map<int, int> {
    map n | n in s :: n
  }

  // ----- copying the live nodes

  /** Record `n` of `h`, its attributes and its renamed children, stored at its new handle. */
  ghost predicate Copied(h: Heap, h': Heap, nm: map<int, int>, n: int) {
    && n in nm && IsNode(h, n) && IsNode(h', nm[n])
    && var r, r' := h.nodes[n - 1], h'.nodes[nm[n] - 1];
    && r'.kind == r.kind && r'.id == r.id && r'.attrCount == r.attrCount && r'.childCount == r.childCount
    && r'.attrStart + r'.attrCount <= |h'.attrs| && r'.childStart + r'.childCount <= |h'.children|
    && AllIn(nm, ChildrenOf(h, n))
    && AttrsOf(h', nm[n]) == AttrsOf(h, n)
    && ChildrenOf(h', nm[n]) == MoveHandles(nm, ChildrenOf(h, n))
  }

  ghost predicate AllCopied(h: Heap, h': Heap, keep: set<int>) {
    forall n {:trigger Copied(h, h', RankMap(keep), n)} :: n in keep ==> Copied(h, h', RankMap(keep), n)
  }

  ghost predicate ChildrenClosed(h: Heap, keep: set<int>) {
    forall n {:trigger AllIn(RankMap(keep), ChildrenOf(h, n))} :: n in keep && IsNode(h, n) ==> AllIn(RankMap(keep), ChildrenOf(h, n))
  }

  /** Appending records, attributes and children keeps what was copied. */
  lemma CopiedStays(h: Heap, h1: Heap, h2: Heap, nm: map<int, int>, n: int)
    requires Copied(h, h1, nm, n)
    requires h1.nodes <= h2.nodes && h1.attrs <= h2.attrs && h1.children <= h2.children
    ensures Copied(h, h2, nm, n)
  {
    var r' := h1.nodes[nm[n] - 1];
    assert AttrsOf(h2, nm[n]) == AttrsOf(h1, nm[n]);
    assert ChildrenOf(h2, nm[n]) == ChildrenOf(h1, nm[n]);
  }

  /** One more record, with its attributes and children, at the end of the packed arenas. */
  function AppendNode(h: Heap, kind: StrRef, id: StrRef, attrs: seq<Attr>, kids: seq<int>): Heap {
    h.(nodes := h.nodes + [Record(kind, id, |h.attrs|, |attrs|, |h.children|, |kids|)],
       attrs := h.attrs + attrs, children := h.children + kids)
  }

  lemma AppendKeepsPacked(h: Heap, kind: StrRef, id: StrRef, attrs: seq<Attr>, kids: seq<int>)
    requires Packed(h.nodes, |h.attrs|, |h.children|)
    ensures var h' := AppendNode(h, kind, id, attrs, kids); Packed(h'.nodes, |h'.attrs|, |h'.children|)
  {
    var h' := AppendNode(h, kind, id, attrs, kids);
    forall i | 0 <= i < |h'.nodes| ensures StartsAtEnd(h'.nodes, i) {
      if i < |h.nodes| {
        assert StartsAtEnd(h.nodes, i);
      }
    }
  }

  lemma AppendCopies(h: Heap, h1: Heap, nm: map<int, int>, n: int)
    requires IsNode(h, n) && n in nm && AllIn(nm, ChildrenOf(h, n)) && nm[n] == |h1.nodes| + 1
    requires |AttrsOf(h, n)| == h.nodes[n - 1].attrCount && |ChildrenOf(h, n)| == h.nodes[n - 1].childCount
    ensures Copied(h, AppendNode(h1, h.nodes[n - 1].kind, h.nodes[n - 1].id, AttrsOf(h, n), MoveHandles(nm, ChildrenOf(h, n))), nm, n)
  {}

  /** A heap into which every node of `nm` was copied carries those nodes. */
  lemma CopiedCarries(h: Heap, h': Heap, nm: map<int, int>, n: int)
    requires Copied(h, h', nm, n) && h'.strings == h.strings
    ensures CarriesNode(h, h', nm, n)
  {}

  /** The copy loop after `i` records: the live ones among them, packed, in order. */
  ghost predicate CopyInv(h: Heap, copied: Heap, keep: set<int>, i: nat)
    requires i <= |h.nodes|
  {
    && copied.pairs == h.pairs && copied.strings == h.strings && copied.bytes == h.bytes
    && |copied.nodes| == Rank(keep, i) <= i
    && |copied.attrs| <= AttrEnd(h.nodes, i) && |copied.children| <= ChildEnd(h.nodes, i)
    && Packed(copied.nodes, |copied.attrs|, |copied.children|)
    && (forall k :: 0 <= k < |copied.children| ==> 1 <= copied.children[k] <= |keep|)
    && (forall n {:trigger Copied(h, copied, RankMap(keep), n)} :: n in keep && n <= i ==> Copied(h, copied, RankMap(keep), n))
  }

  lemma CopyNext(h: Heap, copied: Heap, keep: set<int>, i: nat)
    requires WellFormed(h) && i < |h.nodes| && i + 1 in keep
    requires forall n :: n in keep ==> IsNode(h, n)
    requires CopyInv(h, copied, keep, i) && AllIn(RankMap(keep), ChildrenOf(h, i + 1))
    ensures CopyInv(h, AppendNode(copied, h.nodes[i].kind, h.nodes[i].id, AttrsOf(h, i + 1), MoveHandles(RankMap(keep), ChildrenOf(h, i + 1))), keep, i + 1)
  {
    var nm := RankMap(keep);
    var kids := MoveHandles(nm, ChildrenOf(h, i + 1));
    var next := AppendNode(copied, h.nodes[i].kind, h.nodes[i].id, AttrsOf(h, i + 1), kids);
    WellFormedSlices(h, i + 1);
    assert StartsAtEnd(h.nodes, i);
    AppendKeepsPacked(copied, h.nodes[i].kind, h.nodes[i].id, AttrsOf(h, i + 1), kids);
    AppendCopies(h, copied, nm, i + 1);
    RankMapBijection(keep, |h.nodes|);
    forall n | n in keep && n <= i ensures Copied(h, next, nm, n) {
      CopiedStays(h, copied, next, nm, n);
    }
  }

  lemma CopySkip(h: Heap, copied: Heap, keep: set<int>, i: nat)
    requires WellFormed(h) && i < |h.nodes| && i + 1 !in keep && CopyInv(h, copied, keep, i)
    ensures CopyInv(h, copied, keep, i + 1)
  {
    assert StartsAtEnd(h.nodes, i);
  }

  lemma CopyDone(h: Heap, copied: Heap, keep: set<int>)
    requires WellFormed(h) && CopyInv(h, copied, keep, |h.nodes|) && forall n :: n in keep ==> IsNode(h, n)
    ensures WellFormed(copied) && |copied.nodes| == |keep|
    ensures |copied.nodes| <= |h.nodes| && |copied.attrs| <= |h.attrs| && |copied.children| <= |h.children|
    ensures AllCopied(h, copied, keep)
  {
    RankTotal(keep, |h.nodes|);
    PackedWithin(h.nodes, |h.attrs|, |h.children|, |h.nodes|);
  }

  // ----- the compacted heap

  /** Two heaps whose pairs and root values refer to the same pairs have the same live pairs. */
  ghost predicate SamePairShape(v: Value, v': Value) {
    (v.Pair? <==> v'.Pair?) && (v.Pair? ==> v == v')
  }

  ghost predicate SamePairShapes(h: Heap, vs: seq<Value>, h': Heap, vs': seq<Value>) {
    && |vs| == |vs'| && |h.pairs| == |h'.pairs|
    && (forall i :: 0 <= i < |vs| ==> SamePairShape(vs[i], vs'[i]))
    && (forall p :: 0 <= p < |h.pairs| ==>
          SamePairShape(h.pairs[p].first, h'.pairs[p].first) && SamePairShape(h.pairs[p].second, h'.pairs[p].second))
  }

  lemma SameLivePairs(h: Heap, vs: seq<Value>, h': Heap, vs': seq<Value>)
    requires SamePairShapes(h, vs, h', vs')
    ensures forall p :: LivePair(h, vs, p) <==> LivePair(h', vs', p)
    ensures LivePairs(h, vs) == LivePairs(h', vs')
  {
    forall ps: set<int> ensures PairsClosed(h, vs, ps) <==> PairsClosed(h', vs', ps) {
      assert SamePairShapes(h', vs', h, vs);
      if PairsClosed(h, vs, ps) {
        SameClosed(h, vs, h', vs', ps);
      } else if PairsClosed(h', vs', ps) {
        SameClosed(h', vs', h, vs, ps);
      }
    }
    forall p ensures LivePair(h, vs, p) <==> LivePair(h', vs', p) {
    }
  }

  lemma SameClosed(h: Heap, vs: seq<Value>, h': Heap, vs': seq<Value>, ps: set<int>)
    requires SamePairShapes(h, vs, h', vs') && PairsClosed(h, vs, ps)
    ensures PairsClosed(h', vs', ps)
  {
    forall p | p in ps && IsPair(h', p) ensures ComponentsIn(h'.pairs[p - 1], ps) {
      assert ComponentsIn(h.pairs[p - 1], ps);
      assert SamePairShape(h.pairs[p - 1].first, h'.pairs[p - 1].first);
    }
  }

  /** `h'` is `h` with its live nodes copied under the rank map and its live pairs' node handles moved. */
  ghost predicate CompactedHeap(h: Heap, vs: seq<Value>, hs: seq<int>, h': Heap) {
    var keep := LiveNodes(h, vs, hs);
    && h'.strings == h.strings && h'.bytes == h.bytes
    && |h'.nodes| == |keep|
    && AllCopied(h, h', keep)
    && |h'.pairs| == |h.pairs|
    && (forall p :: IsPair(h, p) ==>
          h'.pairs[p - 1] == if p in LivePairs(h, vs) then MovePair(RankMap(keep), h.pairs[p - 1]) else h.pairs[p - 1])
  }

  /** In a well-formed heap with sound roots, a live value's handles are live. */
  ghost predicate ValueKept(h: Heap, vs: seq<Value>, hs: seq<int>, v: Value) {
    (v.Node? ==> v.node in LiveNodes(h, vs, hs)) && (v.Pair? ==> v.pair in LivePairs(h, vs))
  }

  lemma RootKept(h: Heap, vs: seq<Value>, hs: seq<int>, i: nat)
    requires RootsSound(h, vs, hs) && i < |vs|
    ensures ValueKept(h, vs, hs, vs[i])
  {
    if vs[i].Node? { LiveNodeRoot(h, vs, hs, i); }
    if vs[i].Pair? { LivePairRoot(h, vs, i); }
  }

  lemma HandleKept(h: Heap, vs: seq<Value>, hs: seq<int>, i: nat)
    requires RootsSound(h, vs, hs) && i < |hs|
    ensures hs[i] in LiveNodes(h, vs, hs)
  {
    LiveNodeHandle(h, vs, hs, i);
  }

  lemma PairKept(h: Heap, vs: seq<Value>, hs: seq<int>, p: int)
    requires RootsSound(h, vs, hs) && p in LivePairs(h, vs)
    ensures ValueKept(h, vs, hs, h.pairs[p - 1].first) && ValueKept(h, vs, hs, h.pairs[p - 1].second)
  {
    LivePairComponent(h, vs, p);
    var q := h.pairs[p - 1];
    assert NodesInRange(h, q);
    if q.first.Node? { LiveNodePair(h, vs, hs, p, q.first); }
    if q.second.Node? { LiveNodePair(h, vs, hs, p, q.second); }
  }

  lemma ChildrenKept(h: Heap, vs: seq<Value>, hs: seq<int>, n: int)
    requires WellFormed(h) && n in LiveNodes(h, vs, hs)
    ensures AllIn(RankMap(LiveNodes(h, vs, hs)), ChildrenOf(h, n))
  {
    WellFormedSlices(h, n);
    forall k | 0 <= k < |ChildrenOf(h, n)| ensures ChildrenOf(h, n)[k] in LiveNodes(h, vs, hs) {
      LiveNodeChild(h, vs, hs, n, k);
    }
  }

  lemma MovedCorresponds(h: Heap, vs: seq<Value>, hs: seq<int>, h': Heap, v: Value)
    requires CompactedHeap(h, vs, hs, h') && ValueKept(h, vs, hs, v)
    ensures Corresponds(h, h', RankMap(LiveNodes(h, vs, hs)), Identity(LivePairs(h, vs)), v, MoveValue(RankMap(LiveNodes(h, vs, hs)), v))
  {}

  /** Node compaction is a heap isomorphism on the live part. */
  lemma CompactedCarries(h: Heap, vs: seq<Value>, hs: seq<int>, h': Heap)
    requires RootsSound(h, vs, hs) && CompactedHeap(h, vs, hs, h')
    ensures Carries(h, h', RankMap(LiveNodes(h, vs, hs)), Identity(LivePairs(h, vs)))
    ensures CorrespondsAll(h, h', RankMap(LiveNodes(h, vs, hs)), Identity(LivePairs(h, vs)), vs, MoveValues(RankMap(LiveNodes(h, vs, hs)), vs))
  {
    var nm, pm := RankMap(LiveNodes(h, vs, hs)), Identity(LivePairs(h, vs));
    forall n | n in nm ensures CarriesNode(h, h', nm, n) {
      CopiedCarries(h, h', nm, n);
    }
    forall p | p in pm ensures CarriesPair(h, h', nm, pm, p) {
      PairKept(h, vs, hs, p);
      MovedCorresponds(h, vs, hs, h', h.pairs[p - 1].first);
      MovedCorresponds(h, vs, hs, h', h.pairs[p - 1].second);
    }
    forall i | 0 <= i < |vs| ensures Corresponds(h, h', nm, pm, vs[i], MoveValue(nm, vs[i])) {
      RootKept(h, vs, hs, i);
      MovedCorresponds(h, vs, hs, h', vs[i]);
    }
  }

  /** The moved roots are sound in the compacted heap. */
  lemma CompactedSound(h: Heap, vs: seq<Value>, hs: seq<int>, h': Heap)
    requires RootsSound(h, vs, hs) && CompactedHeap(h, vs, hs, h')
    ensures var nm := RankMap(LiveNodes(h, vs, hs)); RootsSound(h', MoveValues(nm, vs), MoveHandles(nm, hs))
  {
    var keep := LiveNodes(h, vs, hs);
    var nm := RankMap(keep);
    var vs', hs' := MoveValues(nm, vs), MoveHandles(nm, hs);
    RankMapBijection(keep, |h.nodes|);
    forall i | 0 <= i < |vs| ensures SamePairShape(vs[i], vs'[i]) && (vs'[i].Node? ==> IsNode(h', vs'[i].node)) {
      RootKept(h, vs, hs, i);
    }
    forall p | 0 <= p < |h.pairs|
      ensures SamePairShape(h.pairs[p].first, h'.pairs[p].first) && SamePairShape(h.pairs[p].second, h'.pairs[p].second)
    {
      assert IsPair(h, p + 1);
    }
    SameLivePairs(h, vs, h', vs');
    forall i | 0 <= i < |hs| ensures IsNode(h', hs'[i]) {
      HandleKept(h, vs, hs, i);
    }
    forall p | IsPair(h', p) && LivePair(h', vs', p) ensures NodesInRange(h', h'.pairs[p - 1]) {
      PairKept(h, vs, hs, p);
    }
  }

  /** Main theorem of node compaction: every root denotes the same graph afterwards, at every depth. */
  lemma NodeCompactionKeepsMeaning(h: Heap, vs: seq<Value>, hs: seq<int>, h': Heap)
    requires RootsSound(h, vs, hs) && CompactedHeap(h, vs, hs, h')
    ensures var nm := RankMap(LiveNodes(h, vs, hs));
            SameMeaning(h, vs, h', MoveValues(nm, vs)) && SameMeaning(h, NodeValues(hs), h', NodeValues(MoveHandles(nm, hs)))
  {
    var nm, pm := RankMap(LiveNodes(h, vs, hs)), Identity(LivePairs(h, vs));
    CompactedCarries(h, vs, hs, h');
    CarriedList(h, h', nm, pm, vs, MoveValues(nm, vs));
    forall i | 0 <= i < |hs| ensures Corresponds(h, h', nm, pm, NodeValues(hs)[i], NodeValues(MoveHandles(nm, hs))[i]) {
      HandleKept(h, vs, hs, i);
    }
    CarriedList(h, h', nm, pm, NodeValues(hs), NodeValues(MoveHandles(nm, hs)));
  }

  // ----- scratch-pair compaction

  function RenamePair(pm: map<int, int>, v: Value): Value {
    if v.Pair? && v.pair in pm then Pair(pm[v.pair]) else v
  }

  function RenamePairs(pm: map<int, int>, vs: seq<Value>): (r: seq<Value>)
    ensures |r| == |vs| && forall i :: 0 <= i < |vs| ==> r[i] == RenamePair(pm, vs[i])
  {
    seq(|vs|, i requires 0 <= i < |vs| => RenamePair(pm, vs[i]))
  }

  ghost predicate PairCopied(h: Heap, pairs': seq<ScratchPair>, pm: map<int, int>, p: int) {
    && p in pm && IsPair(h, p) && 1 <= pm[p] <= |pairs'|
    && pairs'[pm[p] - 1] == ScratchPair(RenamePair(pm, h.pairs[p - 1].first), RenamePair(pm, h.pairs[p - 1].second))
  }

  /** The live pairs, renumbered in order, with their own pair references renamed. */
  ghost predicate CompactedPairs(h: Heap, vs: seq<Value>, pairs': seq<ScratchPair>) {
    && |pairs'| == |LivePairs(h, vs)|
    && forall p {:trigger PairCopied(h, pairs', RankMap(LivePairs(h, vs)), p)} ::
         p in LivePairs(h, vs) ==> PairCopied(h, pairs', RankMap(LivePairs(h, vs)), p)
  }

  ghost predicate PairsCopied(h: Heap, pairs': seq<ScratchPair>, keep: set<int>, upTo: nat) {
    forall p {:trigger PairCopied(h, pairs', RankMap(keep), p)} :: p in keep && p <= upTo ==> PairCopied(h, pairs', RankMap(keep), p)
  }

  lemma PairsCopiedNext(h: Heap, copied: seq<ScratchPair>, keep: set<int>, i: nat, q: ScratchPair)
    requires i < |h.pairs| && i + 1 in keep && |copied| == Rank(keep, i) && PairsCopied(h, copied, keep, i)
    requires q == ScratchPair(RenamePair(RankMap(keep), h.pairs[i].first), RenamePair(RankMap(keep), h.pairs[i].second))
    ensures PairsCopied(h, copied + [q], keep, i + 1)
  {
    var pm := RankMap(keep);
    forall p | p in keep && p <= i + 1 ensures PairCopied(h, copied + [q], pm, p) {
      if p <= i { assert PairCopied(h, copied, pm, p); }
    }
  }

  lemma AllPairsCopied(h: Heap, vs: seq<Value>, copied: seq<ScratchPair>)
    requires |copied| == |LivePairs(h, vs)| && PairsCopied(h, copied, LivePairs(h, vs), |h.pairs|)
    ensures CompactedPairs(h, vs, copied)
  {}

  lemma NodesCarryThemselves(h: Heap, h': Heap, vs: seq<Value>, hs: seq<int>, n: int)
    requires WellFormed(h) && n in LiveNodes(h, vs, hs)
    requires h'.nodes == h.nodes && h'.attrs == h.attrs && h'.children == h.children && h'.strings == h.strings
    ensures CarriesNode(h, h', Identity(LiveNodes(h, vs, hs)), n)
  {
    ChildrenKept(h, vs, hs, n);
  }

  /** Main theorem of pair compaction: every root unfolds to the same values afterwards. */
  lemma PairCompactionKeepsMeaning(h: Heap, vs: seq<Value>, hs: seq<int>, pairs': seq<ScratchPair>)
    requires WellFormed(h) && RootsSound(h, vs, hs) && CompactedPairs(h, vs, pairs')
    ensures var pm := RankMap(LivePairs(h, vs)); SameMeaning(h, vs, h.(pairs := pairs'), RenamePairs(pm, vs))
    ensures SameMeaning(h, NodeValues(hs), h.(pairs := pairs'), NodeValues(hs))
  {
    var h' := h.(pairs := pairs');
    var nm, pm := Identity(LiveNodes(h, vs, hs)), RankMap(LivePairs(h, vs));
    forall n | n in nm ensures CarriesNode(h, h', nm, n) {
      NodesCarryThemselves(h, h', vs, hs, n);
    }
    forall p | p in pm ensures CarriesPair(h, h', nm, pm, p) {
      assert PairCopied(h, pairs', pm, p);
      PairKept(h, vs, hs, p);
    }
    forall i | 0 <= i < |vs| ensures Corresponds(h, h', nm, pm, vs[i], RenamePairs(pm, vs)[i]) {
      RootKept(h, vs, hs, i);
    }
    forall i | 0 <= i < |hs| ensures Corresponds(h, h', nm, pm, NodeValues(hs)[i], NodeValues(hs)[i]) {
      HandleKept(h, vs, hs, i);
    }
    CarriedList(h, h', nm, pm, vs, RenamePairs(pm, vs));
    CarriedList(h, h', nm, pm, NodeValues(hs), NodeValues(hs));
  }

  /** The pairs after a compaction are the live pairs before it. */
  lemma PairFrom(h: Heap, vs: seq<Value>, pairs': seq<ScratchPair>, p: int) returns (q: int)
    requires CompactedPairs(h, vs, pairs') && 1 <= p <= |pairs'|
    ensures q in LivePairs(h, vs) && PairCopied(h, pairs', RankMap(LivePairs(h, vs)), q) && RankMap(LivePairs(h, vs))[q] == p
  {
    var pm := RankMap(LivePairs(h, vs));
    RankMapBijection(LivePairs(h, vs), |h.pairs|);
    assert p in pm.Values;
    q :| q in pm && pm[q] == p;
  }

  lemma CopiedPairInRange(h: Heap, vs: seq<Value>, hs: seq<int>, pairs': seq<ScratchPair>, p: int)
    requires RootsSound(h, vs, hs) && CompactedPairs(h, vs, pairs') && 1 <= p <= |pairs'|
    ensures var h', q := h.(pairs := pairs'), pairs'[p - 1];
            NodesInRange(h', q) && (q.first.Pair? ==> IsPair(h', q.first.pair)) && (q.second.Pair? ==> IsPair(h', q.second.pair))
  {
    RankMapBijection(LivePairs(h, vs), |h.pairs|);
    var q := PairFrom(h, vs, pairs', p);
    PairKept(h, vs, hs, q);
  }

  lemma PairCompactionSound(h: Heap, vs: seq<Value>, hs: seq<int>, pairs': seq<ScratchPair>)
    requires RootsSound(h, vs, hs) && CompactedPairs(h, vs, pairs')
    ensures RootsSound(h.(pairs := pairs'), RenamePairs(RankMap(LivePairs(h, vs)), vs), hs)
  {
    var h' := h.(pairs := pairs');
    var pm := RankMap(LivePairs(h, vs));
    var vs' := RenamePairs(pm, vs);
    RankMapBijection(LivePairs(h, vs), |h.pairs|);
    var all := set p {:trigger IsPair(h', p)} | 1 <= p <= |pairs'|;
    forall p | IsPair(h', p) ensures ComponentsIn(h'.pairs[p - 1], all) && NodesInRange(h', h'.pairs[p - 1]) {
      CopiedPairInRange(h, vs, hs, pairs', p);
    }
    forall i | 0 <= i < |vs'| ensures (vs'[i].Pair? ==> vs'[i].pair in all) && (vs'[i].Node? ==> IsNode(h', vs'[i].node)) {
      RootKept(h, vs, hs, i);
    }
    assert PairsClosed(h', vs', all);
  }
}
