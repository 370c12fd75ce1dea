/**
 What the two markers keep while they run: the scratch-pair worklist and the
 node mark queue hold only live handles, each once, and when they are drained
 the marks are exactly the live handles.
 */
module Marking {
  import opened Heap
  import opened Liveness
  import opened RootSets

  // ----- scratch-pair marking

  ghost predicate PairWork(n: nat, live: seq<bool>, pending: seq<int>) {
    && |live| == n
    && Distinct(pending)
    && (forall k :: 0 <= k < |pending| ==> 1 <= pending[k] <= n && live[pending[k] - 1])
  }

  ghost predicate PairSeen(live: seq<bool>, v: Value) {
    v.Pair? ==> 1 <= v.pair <= |live| && live[v.pair - 1]
  }

  ghost predicate AllLivePairs(h: Heap, vs: seq<Value>, live: seq<bool>) {
    forall i :: 0 <= i < |live| && live[i] ==> LivePair(h, vs, i + 1)
  }

  /** Pairs already expanded have both components marked. */
  ghost predicate PairsExpanded(h: Heap, live: seq<bool>, pending: seq<int>)
    requires |live| == |h.pairs|
  {
    forall p {:trigger PairExpanded(h, live, p)} :: 1 <= p <= |live| && live[p - 1] && p !in pending ==> PairExpanded(h, live, p)
  }

  ghost predicate PairExpanded(h: Heap, live: seq<bool>, p: int)
    requires IsPair(h, p)
  {
    PairSeen(live, h.pairs[p - 1].first) && PairSeen(live, h.pairs[p - 1].second)
  }

  /** The effect of marking one value: nothing, or one new pair marked and queued. */
  ghost predicate PairStep(v: Value, live: seq<bool>, pending: seq<int>, live': seq<bool>, pending': seq<int>) {
    || (live' == live && pending' == pending)
    || (v.Pair? && 1 <= v.pair <= |live| && !live[v.pair - 1] && live' == live[v.pair - 1 := true] && pending' == pending + [v.pair])
  }

  lemma PairStepGrows(v: Value, live: seq<bool>, pending: seq<int>, live': seq<bool>, pending': seq<int>)
    requires PairStep(v, live, pending, live', pending')
    ensures |live'| == |live|
    ensures forall i :: 0 <= i < |live| && live[i] ==> live'[i]
    ensures forall p :: p in pending ==> p in pending'
    ensures forall i :: 0 <= i < |live| && live'[i] && !live[i] ==> i + 1 in pending'
  {
    if pending' != pending {
      assert pending'[|pending|] == v.pair;
      assert pending == pending'[..|pending|];
    }
  }

  /** Every handle ever queued, for termination: each is queued once. */
  ghost function Logged(v: Value, pending: seq<int>, pending': seq<int>, log: seq<int>): seq<int>
    requires pending' != pending ==> v.Pair?
  {
    if pending' == pending then log else log + [v.pair]
  }

  lemma LogGrows(n: nat, v: Value, live: seq<bool>, pending: seq<int>, live': seq<bool>, pending': seq<int>, log: seq<int>)
    requires PairStep(v, live, pending, live', pending') && PairWork(n, live, log)
    ensures PairWork(n, live', Logged(v, pending, pending', log))
    ensures |Logged(v, pending, pending', log)| - |log| == |pending'| - |pending|
  {
    var log' := Logged(v, pending, pending', log);
    if pending' != pending {
      forall k | 0 <= k < |log| ensures log[k] != v.pair { assert live[log[k] - 1]; }
      assert log' == log + [v.pair];
    }
  }

  /** Popping a pair and marking both components keeps every other marked pair expanded. */
  lemma PairsExpandedStep(h: Heap, p: int, live: seq<bool>, pending: seq<int>,
                          live1: seq<bool>, pending1: seq<int>, live2: seq<bool>, pending2: seq<int>)
    requires IsPair(h, p) && |live| == |h.pairs| && PairsExpanded(h, live, pending + [p])
    requires PairStep(h.pairs[p - 1].first, live, pending, live1, pending1)
    requires PairStep(h.pairs[p - 1].second, live1, pending1, live2, pending2)
    requires PairSeen(live1, h.pairs[p - 1].first) && PairSeen(live2, h.pairs[p - 1].second)
    ensures |live2| == |live| && PairsExpanded(h, live2, pending2)
  {
    PairStepGrows(h.pairs[p - 1].first, live, pending, live1, pending1);
    PairStepGrows(h.pairs[p - 1].second, live1, pending1, live2, pending2);
    forall x | 1 <= x <= |live2| && live2[x - 1] && x !in pending2
      ensures PairExpanded(h, live2, x)
    {
      if x != p {
        assert live[x - 1] && x !in pending + [p];
        assert PairExpanded(h, live, x);
      }
    }
  }

  ghost predicate PairsPending(live: seq<bool>, pending: seq<int>) {
    forall p :: 1 <= p <= |live| && live[p - 1] ==> p in pending
  }

  /** A closed marking that only holds live pairs is exactly the live pairs. */
  lemma PairsMarked(h: Heap, vs: seq<Value>, live: seq<bool>)
    requires |live| == |h.pairs| && AllLivePairs(h, vs, live) && PairsExpanded(h, live, [])
    requires forall i :: 0 <= i < |vs| ==> PairSeen(live, vs[i])
    ensures PairsSound(h, vs)
    ensures forall p :: 1 <= p <= |live| ==> (live[p - 1] <==> LivePair(h, vs, p))
  {
    var marked := set p {:trigger IsPair(h, p)} | 1 <= p <= |live| && live[p - 1];
    forall p | p in marked && IsPair(h, p)
      ensures ComponentsIn(h.pairs[p - 1], marked)
    {
      assert PairExpanded(h, live, p);
    }
    assert PairsClosed(h, vs, marked);
  }

  // ----- node marking

  /** The mark queue holds each marked handle once, and every marked handle is live. */
  ghost predicate NodeWork(h: Heap, vs: seq<Value>, hs: seq<int>, live: seq<bool>, queue: seq<int>) {
    && |h.nodes| <= |live|
    && Distinct(queue)
    && (forall k :: 0 <= k < |queue| ==> IsNode(h, queue[k]) && live[queue[k] - 1] && LiveNode(h, vs, hs, queue[k]))
    && (forall i :: 0 <= i < |live| && live[i] ==> i + 1 in queue)
  }

  /** Marking and queueing one more live handle, for which there is always room. */
  lemma NodeWorkNext(h: Heap, vs: seq<Value>, hs: seq<int>, live: seq<bool>, queue: seq<int>, n: int)
    requires NodeWork(h, vs, hs, live, queue) && IsNode(h, n) && !live[n - 1] && LiveNode(h, vs, hs, n)
    ensures |queue| < |h.nodes| && NodeWork(h, vs, hs, live[n - 1 := true], queue + [n])
  {
    var queue', live' := queue + [n], live[n - 1 := true];
    forall k | 0 <= k < |queue| ensures queue[k] != n && 1 <= queue[k] <= |h.nodes| { assert live[queue[k] - 1]; }
    assert Distinct(queue');
    DistinctFits(queue', |h.nodes|);
    forall k | 0 <= k < |queue'| ensures IsNode(h, queue'[k]) && live'[queue'[k] - 1] && LiveNode(h, vs, hs, queue'[k]) {
      if k < |queue| { assert queue'[k] == queue[k]; }
    }
    forall i | 0 <= i < |live'| && live'[i] ensures i + 1 in queue' {
      if i != n - 1 { assert live[i] && i + 1 in queue; } else { assert queue'[|queue|] == n; }
    }
  }

  ghost predicate NodeSeen(h: Heap, live: seq<bool>, n: int)
    requires |h.nodes| <= |live|
  {
    IsNode(h, n) ==> live[n - 1]
  }

  ghost predicate ValueSeen(h: Heap, live: seq<bool>, v: Value)
    requires |h.nodes| <= |live|
  {
    v.Node? ==> NodeSeen(h, live, v.node)
  }

  ghost predicate StillMarked(live: seq<bool>, live': seq<bool>) {
    |live| == |live'| && forall i :: 0 <= i < |live| && live[i] ==> live'[i]
  }

  ghost predicate KidsSeen(h: Heap, live: seq<bool>, n: int)
    requires IsNode(h, n) && |h.nodes| <= |live|
  {
    forall k :: 0 <= k < |ChildrenOf(h, n)| ==> NodeSeen(h, live, ChildrenOf(h, n)[k])
  }

  ghost predicate QueueExpanded(h: Heap, live: seq<bool>, queue: seq<int>, read: nat)
    requires |h.nodes| <= |live| && read <= |queue| && forall k :: 0 <= k < |queue| ==> IsNode(h, queue[k])
  {
    forall k {:trigger KidsSeen(h, live, queue[k])} :: 0 <= k < read ==> KidsSeen(h, live, queue[k])
  }

  ghost predicate ValuesSeen(h: Heap, live: seq<bool>, vs: seq<Value>)
    requires |h.nodes| <= |live|
  {
    forall i :: 0 <= i < |vs| ==> ValueSeen(h, live, vs[i])
  }

  ghost predicate HandlesSeen(h: Heap, live: seq<bool>, hs: seq<int>)
    requires |h.nodes| <= |live|
  {
    forall i :: 0 <= i < |hs| ==> NodeSeen(h, live, hs[i])
  }

  ghost predicate PairsSeen(h: Heap, vs: seq<Value>, live: seq<bool>, upTo: nat)
    requires |h.nodes| <= |live|
  {
    forall p {:trigger LivePair(h, vs, p)} :: IsPair(h, p) && p <= upTo && LivePair(h, vs, p) ==>
      ValueSeen(h, live, h.pairs[p - 1].first) && ValueSeen(h, live, h.pairs[p - 1].second)
  }

  ghost predicate RootsSeen(h: Heap, vs: seq<Value>, hs: seq<int>, live: seq<bool>)
    requires |h.nodes| <= |live|
  {
    ValuesSeen(h, live, vs) && HandlesSeen(h, live, hs) && PairsSeen(h, vs, live, |h.pairs|)
  }

  lemma SeenStays(h: Heap, live: seq<bool>, live': seq<bool>, vs: seq<Value>, hs: seq<int>)
    requires |h.nodes| <= |live| && StillMarked(live, live')
    ensures ValuesSeen(h, live, vs) ==> ValuesSeen(h, live', vs)
    ensures HandlesSeen(h, live, hs) ==> HandlesSeen(h, live', hs)
  {}

  lemma PairsSeenStays(h: Heap, vs: seq<Value>, live: seq<bool>, live': seq<bool>, upTo: nat)
    requires |h.nodes| <= |live| && StillMarked(live, live') && PairsSeen(h, vs, live, upTo)
    ensures PairsSeen(h, vs, live', upTo)
  {}

  /** One more value, handle or pair seen, by marks that only grow. */
  lemma ValuesSeenNext(h: Heap, live: seq<bool>, live': seq<bool>, list: seq<Value>, i: nat)
    requires i < |list| && |h.nodes| <= |live| && StillMarked(live, live') && ValuesSeen(h, live, list[..i]) && ValueSeen(h, live', list[i])
    ensures ValuesSeen(h, live', list[..i + 1])
  {
    SeenStays(h, live, live', list[..i], []);
    assert list[..i + 1] == list[..i] + [list[i]];
  }

  lemma HandlesSeenNext(h: Heap, live: seq<bool>, live': seq<bool>, list: seq<int>, i: nat)
    requires i < |list| && |h.nodes| <= |live| && StillMarked(live, live') && HandlesSeen(h, live, list[..i]) && NodeSeen(h, live', list[i])
    ensures HandlesSeen(h, live', list[..i + 1])
  {
    SeenStays(h, live, live', [], list[..i]);
    assert list[..i + 1] == list[..i] + [list[i]];
  }

  lemma PairsSeenNext(h: Heap, vs: seq<Value>, live: seq<bool>, live': seq<bool>, i: nat)
    requires i < |h.pairs| && |h.nodes| <= |live| && StillMarked(live, live') && PairsSeen(h, vs, live, i)
    requires LivePair(h, vs, i + 1) ==> ValueSeen(h, live', h.pairs[i].first) && ValueSeen(h, live', h.pairs[i].second)
    ensures PairsSeen(h, vs, live', i + 1)
  {
    PairsSeenStays(h, vs, live, live', i);
    forall p | IsPair(h, p) && p <= i + 1 && LivePair(h, vs, p)
      ensures ValueSeen(h, live', h.pairs[p - 1].first) && ValueSeen(h, live', h.pairs[p - 1].second)
    {
      if p == i + 1 { assert h.pairs[p - 1] == h.pairs[i]; }
    }
  }

  lemma StillMarkedTrans(a: seq<bool>, b: seq<bool>, c: seq<bool>)
    requires StillMarked(a, b) && StillMarked(b, c)
    ensures StillMarked(a, c)
  {}

  ghost predicate ValuesLive(h: Heap, vs: seq<Value>, hs: seq<int>, list: seq<Value>) {
    forall i :: 0 <= i < |list| && list[i].Node? && IsNode(h, list[i].node) ==> LiveNode(h, vs, hs, list[i].node)
  }

  ghost predicate HandlesLive(h: Heap, vs: seq<Value>, hs: seq<int>, list: seq<int>) {
    forall i :: 0 <= i < |list| && IsNode(h, list[i]) ==> LiveNode(h, vs, hs, list[i])
  }

  ghost predicate UpTo(list: seq<int>, n: nat) {
    forall i :: 0 <= i < |list| ==> list[i] <= n
  }

  lemma UpToNext(list: seq<int>, i: nat, n: nat)
    requires i < |list| && UpTo(list[..i], n)
    ensures UpTo(list[..i + 1], n) <==> list[i] <= n
    ensures list[i] > n ==> !UpTo(list, n)
  {
    assert list[..i + 1] == list[..i] + [list[i]];
  }

  lemma PositiveLive(h: Heap, vs: seq<Value>, hs: seq<int>, list: seq<int>)
    requires HandlesLive(h, vs, hs, Positive(list))
    ensures HandlesLive(h, vs, hs, list)
  {
    PositiveMembers(list);
    forall i | 0 <= i < |list| && IsNode(h, list[i]) ensures LiveNode(h, vs, hs, list[i]) {
      var k :| 0 <= k < |Positive(list)| && Positive(list)[k] == list[i];
      assert IsNode(h, Positive(list)[k]);
    }
  }

  /** Every root that is a node is live. */
  lemma RootsAreLive(h: Heap, vs: seq<Value>, hs: seq<int>)
    ensures ValuesLive(h, vs, hs, vs) && HandlesLive(h, vs, hs, hs)
  {
    forall i | 0 <= i < |vs| && vs[i].Node? && IsNode(h, vs[i].node) ensures LiveNode(h, vs, hs, vs[i].node) {
      LiveNodeRoot(h, vs, hs, i);
    }
    forall i | 0 <= i < |hs| && IsNode(h, hs[i]) ensures LiveNode(h, vs, hs, hs[i]) {
      LiveNodeHandle(h, vs, hs, i);
    }
  }

  lemma QueueExpandedStep(h: Heap, live: seq<bool>, queue: seq<int>, live': seq<bool>, queue': seq<int>, read: nat)
    requires |h.nodes| <= |live| && read < |queue| && queue <= queue'
    requires forall k :: 0 <= k < |queue'| ==> IsNode(h, queue'[k])
    requires QueueExpanded(h, live, queue, read) && StillMarked(live, live')
    requires KidsSeen(h, live', queue[read])
    ensures QueueExpanded(h, live', queue', read + 1)
  {
    forall k | 0 <= k < read + 1
      ensures KidsSeen(h, live', queue'[k])
    {
      if k < read {
        assert KidsSeen(h, live, queue[k]);
      }
    }
  }

  /** A marking that saw the roots and expanded its whole queue is exactly the live nodes. */
  lemma NodesMarked(h: Heap, vs: seq<Value>, hs: seq<int>, live: seq<bool>, queue: seq<int>)
    requires NodeWork(h, vs, hs, live, queue) && QueueExpanded(h, live, queue, |queue|) && RootsSeen(h, vs, hs, live)
    ensures forall n :: IsNode(h, n) ==> (live[n - 1] <==> LiveNode(h, vs, hs, n))
  {
    forall n | IsNode(h, n) && LiveNode(h, vs, hs, n)
      ensures live[n - 1]
    {
      var ns := set k {:trigger IsNode(h, k)} | 1 <= k <= |h.nodes| && live[k - 1];
      forall i | 0 <= i < |vs| ensures ValueIn(h, vs[i], ns) { assert ValueSeen(h, live, vs[i]); }
      forall i | 0 <= i < |hs| && IsNode(h, hs[i]) ensures hs[i] in ns { assert NodeSeen(h, live, hs[i]); }
      forall p | IsPair(h, p) && LivePair(h, vs, p)
        ensures ValueIn(h, h.pairs[p - 1].first, ns) && ValueIn(h, h.pairs[p - 1].second, ns)
      {
        assert ValueSeen(h, live, h.pairs[p - 1].first) && ValueSeen(h, live, h.pairs[p - 1].second);
      }
      forall m | m in ns && IsNode(h, m) ensures KidsIn(h, m, ns) {
        assert m in queue;
        var k :| 0 <= k < |queue| && queue[k] == m;
        assert KidsSeen(h, live, queue[k]);
      }
      assert NodesClosed(h, vs, hs, ns);
    }
    forall n | IsNode(h, n) && live[n - 1]
      ensures LiveNode(h, vs, hs, n)
    {
      assert n in queue;
    }
  }

  lemma HandleParts(h: Heap, vs: seq<Value>, hs: seq<int>, fromBuilders: seq<int>, pins: seq<int>, extra: seq<int>)
    requires hs == fromBuilders + Positive(pins) + Positive(extra) && HandlesLive(h, vs, hs, hs)
    ensures HandlesLive(h, vs, hs, fromBuilders) && HandlesLive(h, vs, hs, pins) && HandlesLive(h, vs, hs, extra)
  {
    var b, p := |fromBuilders|, |Positive(pins)|;
    assert fromBuilders == hs[..b] && Positive(pins) == hs[b..b + p] && Positive(extra) == hs[b + p..];
    PositiveLive(h, vs, hs, pins);
    PositiveLive(h, vs, hs, extra);
  }

  lemma HandlesSeenParts(h: Heap, live: seq<bool>, fromBuilders: seq<int>, pins: seq<int>, extra: seq<int>)
    requires |h.nodes| <= |live|
    requires HandlesSeen(h, live, fromBuilders) && HandlesSeen(h, live, pins) && HandlesSeen(h, live, extra)
    ensures HandlesSeen(h, live, fromBuilders + Positive(pins) + Positive(extra))
  {
    PositiveMembers(pins);
    PositiveMembers(extra);
    assert HandlesSeen(h, live, Positive(pins)) && HandlesSeen(h, live, Positive(extra));
  }

  lemma JoinSeen(live: seq<bool>, vs: seq<Value>, r: Roots)
    requires vs == ValuesOf(r)
    requires forall i :: 0 <= i < |r.stack| ==> PairSeen(live, r.stack[i])
    requires forall i :: 0 <= i < |r.locals| ==> PairSeen(live, r.locals[i])
    requires forall i :: 0 <= i < |r.tasks| ==> PairSeen(live, Results(r.tasks)[i])
    requires forall i :: 0 <= i < |r.parValues| ==> PairSeen(live, r.parValues[i])
    ensures forall i :: 0 <= i < |vs| ==> PairSeen(live, vs[i])
  {}

  /** Each pass saw its own roots; later passes only add marks. */
  lemma RootsSeenFrom(h: Heap, r: Roots, extra: seq<int>, live1: seq<bool>, live2: seq<bool>, live3: seq<bool>, live4: seq<bool>, live: seq<bool>)
    requires |h.nodes| <= |live1| && StillMarked(live1, live2) && StillMarked(live2, live3) && StillMarked(live3, live4) && StillMarked(live4, live)
    requires HandlesSeen(h, live1, r.pins) && ValuesSeen(h, live2, ValuesOf(r)) && PairsSeen(h, ValuesOf(r), live3, |h.pairs|)
    requires HandlesSeen(h, live4, BuilderHandles(r.builders)) && HandlesSeen(h, live, extra)
    ensures RootsSeen(h, ValuesOf(r), HandlesOf(r, extra), live)
  {
    StillMarkedTrans(live3, live4, live);
    StillMarkedTrans(live2, live3, live);
    StillMarkedTrans(live1, live2, live);
    SeenStays(h, live2, live, ValuesOf(r), []);
    SeenStays(h, live1, live, [], r.pins);
    SeenStays(h, live4, live, [], BuilderHandles(r.builders));
    PairsSeenStays(h, ValuesOf(r), live3, live, |h.pairs|);
    HandlesSeenParts(h, live, BuilderHandles(r.builders), r.pins, extra);
  }

  // ----- the markers

  /** aivm_vm_mark_live_scratch_pair_handles, one value. */
  method MarkPairValue(h: Heap, ghost vs: seq<Value>, v: Value, live: array<bool>, pending: array<int>, count: nat)
    returns (ok: bool, count': nat)
    requires live != pending as object
    requires pending.Length == live.Length == |h.pairs| && count <= pending.Length
    requires PairWork(|h.pairs|, live[..], pending[..count])
    requires AllLivePairs(h, vs, live[..])
    requires v.Pair? ==> LivePair(h, vs, v.pair)
    modifies live, pending
    ensures count <= count' <= pending.Length
    ensures PairWork(|h.pairs|, live[..], pending[..count'])
    ensures PairStep(v, old(live[..]), old(pending[..count]), live[..], pending[..count'])
    ensures AllLivePairs(h, vs, live[..])
    ensures ok <==> !v.Pair? || IsPair(h, v.pair)
    ensures ok ==> PairSeen(live[..], v)
  {
    count' := count;
    if !v.Pair? {
      return true, count;
    }
    if v.pair <= 0 || v.pair > |h.pairs| {
      return false, count;
    }
    var index := v.pair - 1;
    if live[index] {
      return true, count;
    }
    live[index] := true;
    ghost var was := pending[..count];
    assert Distinct(was + [v.pair]);
    DistinctFits(was + [v.pair], |h.pairs|);
    assert count < |h.pairs|;  // the worklist bound is never hit
    pending[count] := v.pair;
    count' := count + 1;
    assert pending[..count'] == was + [v.pair];
    ok := true;
  }

  method MarkPairValues(h: Heap, ghost vs: seq<Value>, list: seq<Value>, ghost from: nat, live: array<bool>, pending: array<int>, count: nat)
    returns (ok: bool, count': nat)
    requires from + |list| <= |vs| && list == vs[from..from + |list|]
    requires live != pending as object
    requires pending.Length == live.Length == |h.pairs| && count <= pending.Length
    requires PairWork(|h.pairs|, live[..], pending[..count])
    requires AllLivePairs(h, vs, live[..])
    requires PairsPending(live[..], pending[..count])
    modifies live, pending
    ensures count' <= pending.Length
    ensures PairWork(|h.pairs|, live[..], pending[..count'])
    ensures AllLivePairs(h, vs, live[..])
    ensures PairsPending(live[..], pending[..count'])
    ensures forall i :: 0 <= i < live.Length && old(live[i]) ==> live[i]
    ensures ok ==> forall i :: 0 <= i < |list| ==> PairSeen(live[..], list[i])
    ensures !ok ==> !PairsSound(h, vs)
  {
    count' := count;
    for i := 0 to |list|
      invariant count' <= pending.Length
      invariant PairWork(|h.pairs|, live[..], pending[..count'])
      invariant AllLivePairs(h, vs, live[..])
      invariant PairsPending(live[..], pending[..count'])
      invariant forall k :: 0 <= k < live.Length && old(live[k]) ==> live[k]
      invariant forall k :: 0 <= k < i ==> PairSeen(live[..], list[k])
    {
      if list[i].Pair? {
        assert vs[from + i] == list[i];
        LivePairRoot(h, vs, from + i);
      }
      ghost var before, marked := pending[..count'], live[..];
      ok, count' := MarkPairValue(h, vs, list[i], live, pending, count');
      PairStepGrows(list[i], marked, before, live[..], pending[..count']);
      if !ok {
        return;
      }
    }
    ok := true;
  }

  /** Marks exactly the scratch pairs reachable from the root values, or reports a handle out of range. */
  method MarkPairs(h: Heap, r: Roots) returns (ok: bool, marks: seq<bool>)
    ensures ok <==> PairsPass(h, ValuesOf(r))
    ensures ok ==> MarksPairs(h, ValuesOf(r), marks)
  {
    ghost var vs := ValuesOf(r);
    marks := [];
    if |h.pairs| == 0 {
      return true, marks;
    }
    var live := new bool[|h.pairs|](_ => false);
    var pending := new int[|h.pairs|];
    var count;
    ok, count := MarkRootPairs(h, r, live, pending);
    if !ok { return; }
    ok, count := DrainPairs(h, vs, live, pending, count);
    if ok {
      PairsMarked(h, vs, live[..]);
      marks := live[..];
    }
  }

  /** The four passes over the root values. */
  method MarkRootPairs(h: Heap, r: Roots, live: array<bool>, pending: array<int>) returns (ok: bool, count: nat)
    requires live != pending as object && pending.Length == live.Length == |h.pairs|
    requires forall i :: 0 <= i < live.Length ==> !live[i]
    modifies live, pending
    ensures count <= pending.Length
    ensures PairWork(|h.pairs|, live[..], pending[..count])
    ensures AllLivePairs(h, ValuesOf(r), live[..])
    ensures PairsPending(live[..], pending[..count])
    ensures ok ==> forall i :: 0 <= i < |ValuesOf(r)| ==> PairSeen(live[..], ValuesOf(r)[i])
    ensures !ok ==> !PairsSound(h, ValuesOf(r))
  {
    ghost var vs := ValuesOf(r);
    count := 0;
    ghost var s, l, t := |r.stack|, |r.stack| + |r.locals|, |r.stack| + |r.locals| + |r.tasks|;
    assert vs[..s] == r.stack && vs[s..l] == r.locals && vs[l..t] == Results(r.tasks) && vs[t..] == r.parValues;
    ok, count := MarkPairValues(h, vs, r.stack, 0, live, pending, count);
    if !ok { return; }
    ok, count := MarkPairValues(h, vs, r.locals, s, live, pending, count);
    if !ok { return; }
    ok, count := MarkPairValues(h, vs, Results(r.tasks), l, live, pending, count);
    if !ok { return; }
    ok, count := MarkPairValues(h, vs, r.parValues, t, live, pending, count);
    if !ok { return; }
    JoinSeen(live[..], vs, r);
  }

  /** Pops one pair and marks its two components. */
  method ExpandPair(h: Heap, ghost vs: seq<Value>, live: array<bool>, pending: array<int>, count: nat, ghost log: seq<int>)
    returns (ok: bool, count': nat, ghost log': seq<int>)
    requires live != pending as object
    requires pending.Length == live.Length == |h.pairs| && 0 < count <= pending.Length
    requires PairWork(|h.pairs|, live[..], pending[..count])
    requires AllLivePairs(h, vs, live[..])
    requires PairsExpanded(h, live[..], pending[..count])
    requires PairWork(|h.pairs|, live[..], log)
    modifies live, pending
    ensures count' <= pending.Length
    ensures PairWork(|h.pairs|, live[..], pending[..count'])
    ensures AllLivePairs(h, vs, live[..])
    ensures ok ==> PairsExpanded(h, live[..], pending[..count'])
    ensures forall i :: 0 <= i < live.Length && old(live[i]) ==> live[i]
    ensures PairWork(|h.pairs|, live[..], log') && 2 * |log'| - count' > 2 * |log| - count
    ensures !ok ==> !PairsSound(h, vs)
  {
    var p := pending[count - 1];
    ghost var rest, marked := pending[..count - 1], live[..];
    assert pending[..count] == rest + [p];
    log', count' := log, count - 1;
    var q := h.pairs[p - 1];
    LivePairComponent(h, vs, p);
    ok, count' := MarkPairValue(h, vs, q.first, live, pending, count');
    ghost var rest1, marked1 := pending[..count'], live[..];
    PairStepGrows(q.first, marked, rest, marked1, rest1);
    LogGrows(|h.pairs|, q.first, marked, rest, marked1, rest1, log');
    log' := Logged(q.first, rest, rest1, log');
    if !ok { return; }
    ok, count' := MarkPairValue(h, vs, q.second, live, pending, count');
    ghost var rest2, marked2 := pending[..count'], live[..];
    PairStepGrows(q.second, marked1, rest1, marked2, rest2);
    LogGrows(|h.pairs|, q.second, marked1, rest1, marked2, rest2, log');
    log' := Logged(q.second, rest1, rest2, log');
    if ok {
      PairsExpandedStep(h, p, marked, rest, marked1, rest1, marked2, rest2);
    }
  }

  method DrainPairs(h: Heap, ghost vs: seq<Value>, live: array<bool>, pending: array<int>, start: nat)
    returns (ok: bool, count: nat)
    requires live != pending as object
    requires pending.Length == live.Length == |h.pairs| && start <= pending.Length
    requires PairWork(|h.pairs|, live[..], pending[..start])
    requires AllLivePairs(h, vs, live[..])
    requires PairsPending(live[..], pending[..start])
    modifies live, pending
    ensures AllLivePairs(h, vs, live[..])
    ensures forall i :: 0 <= i < live.Length && old(live[i]) ==> live[i]
    ensures ok ==> PairsExpanded(h, live[..], [])
    ensures !ok ==> !PairsSound(h, vs)
  {
    count := start;
    ghost var log: seq<int> := [];
    while count > 0
      invariant count <= pending.Length
      invariant PairWork(|h.pairs|, live[..], pending[..count])
      invariant AllLivePairs(h, vs, live[..])
      invariant PairsExpanded(h, live[..], pending[..count])
      invariant forall i :: 0 <= i < live.Length && old(live[i]) ==> live[i]
      invariant PairWork(|h.pairs|, live[..], log)
      decreases 2 * (|h.pairs| - |log|) + count
    {
      DistinctFits(log, |h.pairs|);
      ok, count, log := ExpandPair(h, vs, live, pending, count, log);
      if !ok { return; }
      DistinctFits(log, |h.pairs|);
    }
    ok := true;
  }

  /** The enqueue step of the marker: an in-range, unmarked handle is marked and queued. */
  method EnqueueHandle(h: Heap, ghost vs: seq<Value>, ghost hs: seq<int>, n: int, live: array<bool>, queue: array<int>, write: nat)
    returns (write': nat)
    requires live != queue as object && write <= queue.Length == live.Length
    requires NodeWork(h, vs, hs, live[..], queue[..write])
    requires IsNode(h, n) ==> LiveNode(h, vs, hs, n)
    modifies live, queue
    ensures write <= write' <= queue.Length
    ensures NodeWork(h, vs, hs, live[..], queue[..write'])
    ensures queue[..write] == old(queue[..write])
    ensures StillMarked(old(live[..]), live[..])
    ensures NodeSeen(h, live[..], n)
  {
    write' := write;
    if 0 < n <= |h.nodes| && !live[n - 1] {
      ghost var was, marked := queue[..write], live[..];
      NodeWorkNext(h, vs, hs, marked, was, n);  // the mark queue is never full
      live[n - 1] := true;
      queue[write] := n;
      write' := write + 1;
      assert queue[..write'] == was + [n] && live[..] == marked[n - 1 := true];
    }
  }

  method EnqueueValues(h: Heap, ghost vs: seq<Value>, ghost hs: seq<int>, list: seq<Value>, live: array<bool>, queue: array<int>, write: nat)
    returns (write': nat)
    requires live != queue as object && write <= queue.Length == live.Length
    requires NodeWork(h, vs, hs, live[..], queue[..write])
    requires ValuesLive(h, vs, hs, list)
    modifies live, queue
    ensures write' <= queue.Length
    ensures NodeWork(h, vs, hs, live[..], queue[..write'])
    ensures StillMarked(old(live[..]), live[..])
    ensures ValuesSeen(h, live[..], list)
  {
    write' := write;
    for i := 0 to |list|
      invariant write' <= queue.Length
      invariant NodeWork(h, vs, hs, live[..], queue[..write'])
      invariant StillMarked(old(live[..]), live[..])
      invariant ValuesSeen(h, live[..], list[..i])
    {
      ghost var marked := live[..];
      if list[i].Node? {
        write' := EnqueueHandle(h, vs, hs, list[i].node, live, queue, write');
      }
      StillMarkedTrans(old(live[..]), marked, live[..]);
      ValuesSeenNext(h, marked, live[..], list, i);
    }
    assert list[..|list|] == list;
  }

  method EnqueueHandles(h: Heap, ghost vs: seq<Value>, ghost hs: seq<int>, list: seq<int>, live: array<bool>, queue: array<int>, write: nat)
    returns (write': nat)
    requires live != queue as object && write <= queue.Length == live.Length
    requires NodeWork(h, vs, hs, live[..], queue[..write])
    requires HandlesLive(h, vs, hs, list)
    modifies live, queue
    ensures write <= write' <= queue.Length
    ensures NodeWork(h, vs, hs, live[..], queue[..write'])
    ensures queue[..write] == old(queue[..write])
    ensures StillMarked(old(live[..]), live[..])
    ensures HandlesSeen(h, live[..], list)
  {
    write' := write;
    for i := 0 to |list|
      invariant write <= write' <= queue.Length
      invariant NodeWork(h, vs, hs, live[..], queue[..write'])
      invariant queue[..write] == old(queue[..write])
      invariant StillMarked(old(live[..]), live[..])
      invariant HandlesSeen(h, live[..], list[..i])
    {
      ghost var marked := live[..];
      write' := EnqueueHandle(h, vs, hs, list[i], live, queue, write');
      StillMarkedTrans(old(live[..]), marked, live[..]);
      HandlesSeenNext(h, marked, live[..], list, i);
    }
    assert list[..|list|] == list;
  }

  /** Follows children from the queue until every queued node has been expanded. */
  method DrainNodes(h: Heap, ghost vs: seq<Value>, ghost hs: seq<int>, live: array<bool>, queue: array<int>, start: nat)
    returns (write: nat)
    requires live != queue as object && start <= queue.Length == live.Length
    requires WellFormed(h)
    requires NodeWork(h, vs, hs, live[..], queue[..start])
    modifies live, queue
    ensures write <= queue.Length
    ensures NodeWork(h, vs, hs, live[..], queue[..write])
    ensures QueueExpanded(h, live[..], queue[..write], write)
    ensures StillMarked(old(live[..]), live[..])
  {
    write := start;
    var read := 0;
    while read < write
      invariant read <= write <= queue.Length
      invariant NodeWork(h, vs, hs, live[..], queue[..write])
      invariant QueueExpanded(h, live[..], queue[..write], read)
      invariant StillMarked(old(live[..]), live[..])
      decreases queue.Length - read
    {
      var n := queue[read];
      assert queue[..write][read] == n;
      WellFormedSlices(h, n);  // no child slot is out of bounds
      var kids := h.children[h.nodes[n - 1].childStart..h.nodes[n - 1].childStart + h.nodes[n - 1].childCount];
      assert kids == ChildrenOf(h, n);
      forall k | 0 <= k < |kids| ensures LiveNode(h, vs, hs, kids[k]) {
        LiveNodeChild(h, vs, hs, n, k);
      }
      ghost var was, marked := queue[..write], live[..];
      write := EnqueueHandles(h, vs, hs, kids, live, queue, write);
      QueueExpandedStep(h, marked, was, live[..], queue[..write], read);
      read := read + 1;
    }
  }

  /** Enqueues the children held by the active node builders. */
  method EnqueueBuilders(h: Heap, r: Roots, ghost vs: seq<Value>, ghost hs: seq<int>, live: array<bool>, queue: array<int>, write: nat)
    returns (write': nat)
    requires live != queue as object && write <= queue.Length == live.Length
    requires NodeWork(h, vs, hs, live[..], queue[..write])
    requires HandlesLive(h, vs, hs, BuilderHandles(r.builders))
    modifies live, queue
    ensures write' <= queue.Length
    ensures NodeWork(h, vs, hs, live[..], queue[..write'])
    ensures StillMarked(old(live[..]), live[..])
    ensures HandlesSeen(h, live[..], BuilderHandles(r.builders))
  {
    write' := write;
    for b := 0 to |r.builders|
      invariant write' <= queue.Length
      invariant NodeWork(h, vs, hs, live[..], queue[..write'])
      invariant StillMarked(old(live[..]), live[..])
      invariant HandlesSeen(h, live[..], BuilderHandles(r.builders[..b]))
    {
      assert r.builders[..b + 1][..b] == r.builders[..b];
      if r.builders[b].active {
        forall k | 0 <= k < |r.builders[b].children| && IsNode(h, r.builders[b].children[k])
          ensures LiveNode(h, vs, hs, r.builders[b].children[k])
        {
          BuilderHandleIn(r.builders, b, k);
        }
        write' := EnqueueHandles(h, vs, hs, r.builders[b].children, live, queue, write');
      }
    }
    assert r.builders[..|r.builders|] == r.builders;
  }

  method EnqueueRootValues(h: Heap, r: Roots, ghost hs: seq<int>, live: array<bool>, queue: array<int>, write: nat) returns (write': nat)
    requires live != queue as object && write <= queue.Length == live.Length
    requires NodeWork(h, ValuesOf(r), hs, live[..], queue[..write])
    modifies live, queue
    ensures write' <= queue.Length
    ensures NodeWork(h, ValuesOf(r), hs, live[..], queue[..write'])
    ensures StillMarked(old(live[..]), live[..])
    ensures ValuesSeen(h, live[..], ValuesOf(r))
  {
    ghost var vs := ValuesOf(r);
    RootsAreLive(h, vs, hs);
    ghost var s, l, t := |r.stack|, |r.stack| + |r.locals|, |r.stack| + |r.locals| + |r.tasks|;
    assert vs[..s] == r.stack && vs[s..l] == r.locals && vs[l..t] == Results(r.tasks) && vs[t..] == r.parValues;
    write' := EnqueueValues(h, vs, hs, r.stack, live, queue, write);
    write' := EnqueueValues(h, vs, hs, r.locals, live, queue, write');
    write' := EnqueueValues(h, vs, hs, Results(r.tasks), live, queue, write');
    write' := EnqueueValues(h, vs, hs, r.parValues, live, queue, write');
  }

  method EnqueueLivePairs(h: Heap, ghost vs: seq<Value>, ghost hs: seq<int>, livePairs: seq<bool>, live: array<bool>, queue: array<int>, write: nat)
    returns (write': nat)
    requires live != queue as object && write <= queue.Length == live.Length
    requires NodeWork(h, vs, hs, live[..], queue[..write])
    requires MarksPairs(h, vs, livePairs)
    modifies live, queue
    ensures write' <= queue.Length
    ensures NodeWork(h, vs, hs, live[..], queue[..write'])
    ensures StillMarked(old(live[..]), live[..])
    ensures PairsSeen(h, vs, live[..], |h.pairs|)
  {
    write' := write;
    for i := 0 to |h.pairs|
      invariant write' <= queue.Length
      invariant NodeWork(h, vs, hs, live[..], queue[..write'])
      invariant StillMarked(old(live[..]), live[..])
      invariant PairsSeen(h, vs, live[..], i)
    {
      if livePairs[i] {
        var both := [h.pairs[i].first, h.pairs[i].second];
        forall k | 0 <= k < |both| && both[k].Node? && IsNode(h, both[k].node)
          ensures LiveNode(h, vs, hs, both[k].node)
        {
          LiveNodePair(h, vs, hs, i + 1, both[k]);
        }
        ghost var marked := live[..];
        write' := EnqueueValues(h, vs, hs, both, live, queue, write');
        StillMarkedTrans(old(live[..]), marked, live[..]);
        assert ValueSeen(h, live[..], both[0]) && ValueSeen(h, live[..], both[1]);
        PairsSeenNext(h, vs, marked, live[..], i);
      }
    }
  }

  method EnqueueExtra(h: Heap, ghost vs: seq<Value>, ghost hs: seq<int>, extra: seq<int>, live: array<bool>, queue: array<int>, write: nat)
    returns (ok: bool, write': nat)
    requires live != queue as object && write <= queue.Length == live.Length
    requires NodeWork(h, vs, hs, live[..], queue[..write])
    requires HandlesLive(h, vs, hs, extra)
    modifies live, queue
    ensures write' <= queue.Length
    ensures NodeWork(h, vs, hs, live[..], queue[..write'])
    ensures StillMarked(old(live[..]), live[..])
    ensures ok <==> UpTo(extra, |h.nodes|)
    ensures ok ==> HandlesSeen(h, live[..], extra)
  {
    write' := write;
    for i := 0 to |extra|
      invariant write' <= queue.Length
      invariant NodeWork(h, vs, hs, live[..], queue[..write'])
      invariant StillMarked(old(live[..]), live[..])
      invariant UpTo(extra[..i], |h.nodes|)
      invariant HandlesSeen(h, live[..], extra[..i])
    {
      ghost var marked := live[..];
      UpToNext(extra, i, |h.nodes|);
      ok, write' := EnqueueInRange(h, vs, hs, extra[i], live, queue, write');
      StillMarkedTrans(old(live[..]), marked, live[..]);
      if !ok {
        return;
      }
      HandlesSeenNext(h, marked, live[..], extra, i);
    }
    assert extra[..|extra|] == extra;
    ok := true;
  }

  /** One extra handle: none when not positive, refused when out of range. */
  method EnqueueInRange(h: Heap, ghost vs: seq<Value>, ghost hs: seq<int>, n: int, live: array<bool>, queue: array<int>, write: nat)
    returns (ok: bool, write': nat)
    requires live != queue as object && write <= queue.Length == live.Length
    requires NodeWork(h, vs, hs, live[..], queue[..write])
    requires IsNode(h, n) ==> LiveNode(h, vs, hs, n)
    modifies live, queue
    ensures write' <= queue.Length
    ensures NodeWork(h, vs, hs, live[..], queue[..write'])
    ensures StillMarked(old(live[..]), live[..]) && NodeSeen(h, live[..], n)
    ensures ok <==> n <= |h.nodes|
  {
    ok, write' := n <= |h.nodes|, write;
    if ok && n > 0 {
      write' := EnqueueHandle(h, vs, hs, n, live, queue, write');
    }
  }

  /** aivm_vm_mark_live_node_handles: marks exactly the nodes reachable from the roots. */
  method MarkNodes(h: Heap, r: Roots, extra: seq<int>, capacity: nat) returns (ok: bool, marks: seq<bool>)
    requires |h.nodes| <= capacity && WellFormed(h)
    ensures ok <==> PairsPass(h, ValuesOf(r)) && forall i :: 0 <= i < |extra| ==> extra[i] <= |h.nodes|
    ensures ok ==> MarksNodes(h, ValuesOf(r), HandlesOf(r, extra), marks)
  {
    ghost var vs, hs := ValuesOf(r), HandlesOf(r, extra);
    marks := [];
    var livePairs;
    ok, livePairs := MarkPairs(h, r);
    if !ok { return; }
    var live := new bool[capacity](_ => false);
    var queue := new int[capacity];
    RootsAreLive(h, vs, hs);
    HandleParts(h, vs, hs, BuilderHandles(r.builders), r.pins, extra);
    var write := EnqueueHandles(h, vs, hs, r.pins, live, queue, 0);
    ghost var live1 := live[..];
    write := EnqueueRootValues(h, r, hs, live, queue, write);
    ghost var live2 := live[..];
    write := EnqueueLivePairs(h, vs, hs, livePairs, live, queue, write);
    ghost var live3 := live[..];
    write := EnqueueBuilders(h, r, vs, hs, live, queue, write);
    ghost var live4 := live[..];
    ok, write := EnqueueExtra(h, vs, hs, extra, live, queue, write);
    if !ok { return; }
    RootsSeenFrom(h, r, extra, live1, live2, live3, live4, live[..]);
    ghost var live5 := live[..];
    write := DrainNodes(h, vs, hs, live, queue, write);
    SeenStays(h, live5, live[..], vs, hs);
    PairsSeenStays(h, vs, live5, live[..], |h.pairs|);
    NodesMarked(h, vs, hs, live[..], queue[..write]);
    marks := live[..];
  }
}
