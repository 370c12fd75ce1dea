/**
 What the collectors keep: a handle is live when it lies in every set that
 holds the roots and is closed under following pair components and node
 children, that is, in the least such set.
 */
module Liveness {
  import opened Heap

  // ----- scratch pairs

  ghost predicate PairsClosed(h: Heap, vs: seq<Value>, ps: set<int>) {
    && (forall i :: 0 <= i < |vs| && vs[i].Pair? ==> vs[i].pair in ps)
    && (forall p :: p in ps && IsPair(h, p) ==> ComponentsIn(h.pairs[p - 1], ps))
  }

  ghost predicate ComponentsIn(q: ScratchPair, ps: set<int>) {
    (q.first.Pair? ==> q.first.pair in ps) && (q.second.Pair? ==> q.second.pair in ps)
  }

  /** The pair handles reachable from the root values `vs`. */
  ghost predicate LivePair(h: Heap, vs: seq<Value>, p: int) {
    forall ps: set<int> :: PairsClosed(h, vs, ps) ==> p in ps
  }

  /** No reachable pair handle is out of range. */
  ghost predicate PairsSound(h: Heap, vs: seq<Value>) {
    forall p :: LivePair(h, vs, p) ==> IsPair(h, p)
  }

  /** What pair marking checks: it accepts any root when there are no pairs at all. */
  ghost predicate PairsPass(h: Heap, vs: seq<Value>) {
    |h.pairs| == 0 || PairsSound(h, vs)
  }

  lemma LivePairRoot(h: Heap, vs: seq<Value>, i: nat)
    requires i < |vs| && vs[i].Pair?
    ensures LivePair(h, vs, vs[i].pair)
  {
    forall ps: set<int> | PairsClosed(h, vs, ps) ensures vs[i].pair in ps {}
  }

  lemma LivePairComponent(h: Heap, vs: seq<Value>, p: int)
    requires LivePair(h, vs, p) && IsPair(h, p)
    ensures h.pairs[p - 1].first.Pair? ==> LivePair(h, vs, h.pairs[p - 1].first.pair)
    ensures h.pairs[p - 1].second.Pair? ==> LivePair(h, vs, h.pairs[p - 1].second.pair)
  {
    forall ps: set<int> | PairsClosed(h, vs, ps)
      ensures ComponentsIn(h.pairs[p - 1], ps)
    {
      assert p in ps;
    }
  }

  // ----- nodes

  /** `hs` are the handles held outside values: pinned handles, builder children, extra handles. */
  ghost predicate NodesClosed(h: Heap, vs: seq<Value>, hs: seq<int>, ns: set<int>) {
    && (forall i :: 0 <= i < |vs| ==> ValueIn(h, vs[i], ns))
    && (forall i :: 0 <= i < |hs| && IsNode(h, hs[i]) ==> hs[i] in ns)
    && (forall p {:trigger LivePair(h, vs, p)} :: IsPair(h, p) && LivePair(h, vs, p) ==>
          ValueIn(h, h.pairs[p - 1].first, ns) && ValueIn(h, h.pairs[p - 1].second, ns))
    && (forall n {:trigger KidsIn(h, n, ns)} :: n in ns && IsNode(h, n) ==> KidsIn(h, n, ns))
  }

  ghost predicate ValueIn(h: Heap, v: Value, ns: set<int>) {
    v.Node? && IsNode(h, v.node) ==> v.node in ns
  }

  ghost predicate KidsIn(h: Heap, n: int, ns: set<int>)
    requires IsNode(h, n)
  {
    forall k :: 0 <= k < |ChildrenOf(h, n)| && IsNode(h, ChildrenOf(h, n)[k]) ==> ChildrenOf(h, n)[k] in ns
  }

  /** The nodes reachable from the roots; a root handle out of range reaches nothing. */
  ghost predicate LiveNode(h: Heap, vs: seq<Value>, hs: seq<int>, n: int) {
    forall ns: set<int> :: NodesClosed(h, vs, hs, ns) ==> n in ns
  }

  lemma LiveNodeRoot(h: Heap, vs: seq<Value>, hs: seq<int>, i: nat)
    requires i < |vs| && vs[i].Node? && IsNode(h, vs[i].node)
    ensures LiveNode(h, vs, hs, vs[i].node)
  {
    forall ns: set<int> | NodesClosed(h, vs, hs, ns) ensures vs[i].node in ns {
      assert ValueIn(h, vs[i], ns);
    }
  }

  lemma LiveNodeHandle(h: Heap, vs: seq<Value>, hs: seq<int>, i: nat)
    requires i < |hs| && IsNode(h, hs[i])
    ensures LiveNode(h, vs, hs, hs[i])
  {
    forall ns: set<int> | NodesClosed(h, vs, hs, ns) ensures hs[i] in ns {}
  }

  lemma LiveNodePair(h: Heap, vs: seq<Value>, hs: seq<int>, p: int, v: Value)
    requires IsPair(h, p) && LivePair(h, vs, p)
    requires v == h.pairs[p - 1].first || v == h.pairs[p - 1].second
    requires v.Node? && IsNode(h, v.node)
    ensures LiveNode(h, vs, hs, v.node)
  {
    forall ns: set<int> | NodesClosed(h, vs, hs, ns)
      ensures v.node in ns
    {
      assert ValueIn(h, v, ns);
    }
  }

  lemma LiveNodeChild(h: Heap, vs: seq<Value>, hs: seq<int>, n: int, k: nat)
    requires IsNode(h, n) && LiveNode(h, vs, hs, n) && k < |ChildrenOf(h, n)| && IsNode(h, ChildrenOf(h, n)[k])
    ensures LiveNode(h, vs, hs, ChildrenOf(h, n)[k])
  {
    forall ns: set<int> | NodesClosed(h, vs, hs, ns)
      ensures ChildrenOf(h, n)[k] in ns
    {
      assert n in ns;
      assert KidsIn(h, n, ns);
    }
  }

  // ----- well-formed heaps and roots

  /** Where the record after the first `i` starts: the end of the one before it. */
  function AttrEnd(nodes: seq<Record>, i: nat): nat
    requires i <= |nodes|
  {
    if i == 0 then 0 else nodes[i - 1].attrStart + nodes[i - 1].attrCount
  }

  function ChildEnd(nodes: seq<Record>, i: nat): nat
    requires i <= |nodes|
  {
    if i == 0 then 0 else nodes[i - 1].childStart + nodes[i - 1].childCount
  }

  ghost predicate StartsAtEnd(nodes: seq<Record>, i: nat)
    requires i < |nodes|
  {
    nodes[i].attrStart == AttrEnd(nodes, i) && nodes[i].childStart == ChildEnd(nodes, i)
  }

  /** The attribute and child arenas are exactly packed, record after record. */
  ghost predicate Packed(nodes: seq<Record>, attrCount: nat, childCount: nat) {
    && (forall i {:trigger StartsAtEnd(nodes, i)} :: 0 <= i < |nodes| ==> StartsAtEnd(nodes, i))
    && AttrEnd(nodes, |nodes|) == attrCount
    && ChildEnd(nodes, |nodes|) == childCount
  }

  lemma {:induction false} PackedWithin(nodes: seq<Record>, attrCount: nat, childCount: nat, i: nat)
    requires Packed(nodes, attrCount, childCount) && i <= |nodes|
    ensures AttrEnd(nodes, i) <= attrCount && ChildEnd(nodes, i) <= childCount
    decreases |nodes| - i
  {
    if i < |nodes| {
      assert StartsAtEnd(nodes, i);
      PackedWithin(nodes, attrCount, childCount, i + 1);
    }
  }

  function SumAttrs(nodes: seq<Record>): nat {
    if nodes == [] then 0 else SumAttrs(nodes[..|nodes| - 1]) + nodes[|nodes| - 1].attrCount
  }

  function SumChildren(nodes: seq<Record>): nat {
    if nodes == [] then 0 else SumChildren(nodes[..|nodes| - 1]) + nodes[|nodes| - 1].childCount
  }

  /** Packed means what the arenas promise: each start is the sum of the earlier counts. */
  lemma {:induction false} PackedStartsAreSums(nodes: seq<Record>, attrCount: nat, childCount: nat, i: nat)
    requires Packed(nodes, attrCount, childCount) && i <= |nodes|
    ensures AttrEnd(nodes, i) == SumAttrs(nodes[..i]) && ChildEnd(nodes, i) == SumChildren(nodes[..i])
  {
    if i > 0 {
      PackedStartsAreSums(nodes, attrCount, childCount, i - 1);
      assert StartsAtEnd(nodes, i - 1);
      assert nodes[..i][..i - 1] == nodes[..i - 1];
    }
  }

  /** Arenas packed and every child handle in range. */
  ghost predicate WellFormed(h: Heap) {
    && Packed(h.nodes, |h.attrs|, |h.children|)
    && (forall i :: 0 <= i < |h.children| ==> IsNode(h, h.children[i]))
  }

  lemma WellFormedSlices(h: Heap, n: int)
    requires WellFormed(h) && IsNode(h, n)
    ensures var r := h.nodes[n - 1];
            r.attrStart + r.attrCount <= |h.attrs| && r.childStart + r.childCount <= |h.children|
    ensures |AttrsOf(h, n)| == h.nodes[n - 1].attrCount && |ChildrenOf(h, n)| == h.nodes[n - 1].childCount
    ensures forall k :: 0 <= k < |ChildrenOf(h, n)| ==> IsNode(h, ChildrenOf(h, n)[k])
  {
    PackedWithin(h.nodes, |h.attrs|, |h.children|, n);
    assert StartsAtEnd(h.nodes, n - 1);
  }

  /** Every live handle is in range: what the collectors check as they go. */
  ghost predicate RootsSound(h: Heap, vs: seq<Value>, hs: seq<int>) {
    && PairsSound(h, vs)
    && (forall i :: 0 <= i < |vs| && vs[i].Node? ==> IsNode(h, vs[i].node))
    && (forall i :: 0 <= i < |hs| ==> IsNode(h, hs[i]))
    && (forall p :: IsPair(h, p) && LivePair(h, vs, p) ==> NodesInRange(h, h.pairs[p - 1]))
  }

  ghost predicate NodesInRange(h: Heap, q: ScratchPair) {
    (q.first.Node? ==> IsNode(h, q.first.node)) && (q.second.Node? ==> IsNode(h, q.second.node))
  }

  ghost function LiveNodes(h: Heap, vs: seq<Value>, hs: seq<int>): set<int> {
    set n | 1 <= n <= |h.nodes| && LiveNode(h, vs, hs, n)
  }

  ghost function LivePairs(h: Heap, vs: seq<Value>): set<int> {
    set p | 1 <= p <= |h.pairs| && LivePair(h, vs, p)
  }

  // ----- worklists

  ghost predicate Distinct(q: seq<int>) {
    forall i, j :: 0 <= i < j < |q| ==> q[i] != q[j]
  }

  /** A list of distinct handles between 1 and `n` has at most `n` entries: no mark queue overflows. */
  lemma {:induction false} DistinctFits(q: seq<int>, n: nat)
    requires Distinct(q) && forall i :: 0 <= i < |q| ==> 1 <= q[i] <= n
    ensures |q| <= n
    decreases n
  {
    if n == 0 {
    } else if n in q {
      var k :| 0 <= k < |q| && q[k] == n;
      var rest := q[..k] + q[k + 1..];
      forall i | 0 <= i < |rest| ensures rest[i] == q[if i < k then i else i + 1] && 1 <= rest[i] <= n - 1 {
        assert q[if i < k then i else i + 1] != q[k];
      }
      forall i, j | 0 <= i < j < |rest| ensures rest[i] != rest[j] {
        assert q[if i < k then i else i + 1] != q[if j < k then j else j + 1];
      }
      DistinctFits(rest, n - 1);
    } else {
      forall i | 0 <= i < |q| ensures 1 <= q[i] <= n - 1 { assert q[i] in q; }
      DistinctFits(q, n - 1);
    }
  }
}
