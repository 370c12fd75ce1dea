/**
 Compaction of the bytes arena: every rooted view, an offset and a length, is
 copied once into a fresh arena. `TotalOf` the distinct live views says exactly
 when it succeeds, and views that never overlap always fit.
 */
module BytesCompaction {
  import opened CText
  import opened Heap
  import opened Liveness
  import opened Compaction
  import opened Relocation
  import opened RootSets
  import opened Marking
  import opened BytesViews

  /** One entry of the relocation table. */
  datatype Move = Move(span: Span, target: nat)

  ghost function SpansIn(a: Arena, vs: seq<Value>): set<Span> {
    set i | 0 <= i < |vs| && vs[i].Bytes? && InBytes(a, vs[i].bytes) :: SpanOf(vs[i].bytes)
  }

  // ----- the room a set of views takes

  ghost function TotalOf(s: set<Span>): nat {
    if s == {} then 0 else var x :| x in s; x.length + TotalOf(s - {x})
  }

  lemma {:induction false} TotalRemove(s: set<Span>, x: Span)
    requires x in s
    ensures TotalOf(s) == x.length + TotalOf(s - {x})
    decreases |s|
  {
    var y :| y in s && TotalOf(s) == y.length + TotalOf(s - {y});
    if y != x {
      TotalRemove(s - {y}, x);
      TotalRemove(s - {x}, y);
      assert s - {y} - {x} == s - {x} - {y};
    }
  }

  lemma {:induction false} TotalGrows(s: set<Span>, t: set<Span>)
    requires s <= t
    ensures TotalOf(s) <= TotalOf(t)
    decreases |t - s|
  {
    if x :| x in t && x !in s {
      TotalRemove(s + {x}, x);
      assert s + {x} - {x} == s && t - (s + {x}) == (t - s) - {x};
      TotalGrows(s + {x}, t);
    } else {
      assert s == t;
    }
  }

  ghost predicate Disjoint(s: set<Span>) {
    forall x, y :: x in s && y in s && x != y ==> Apart(x, y)
  }

  /** The bytes of the arena some view covers. */
  ghost function Cover(s: set<Span>): set<nat> {
    set x, k | x in s && k in Range(x.offset, x.length) :: k
  }

  lemma CoverSplit(s: set<Span>, x: Span)
    requires x in s && Disjoint(s)
    ensures |Cover(s)| == x.length + |Cover(s - {x})|
  {
    var mine, rest := Range(x.offset, x.length), Cover(s - {x});
    assert Cover(s) == mine + rest;
    forall k: nat | k in rest ensures k !in mine {
      var y :| y in s - {x} && k in Range(y.offset, y.length);
      assert Apart(x, y);
    }
    assert mine !! rest;
    RangeSize(x.offset, x.length);
  }

  /** Disjoint views take as many bytes as they cover. */
  lemma {:induction false} DisjointTotal(s: set<Span>)
    requires Disjoint(s)
    ensures TotalOf(s) == |Cover(s)|
    decreases |s|
  {
    if x :| x in s {
      TotalRemove(s, x);
      CoverSplit(s, x);
      DisjointTotal(s - {x});
    } else {
      assert s == {};
      assert Cover(s) == {};
    }
  }

  /** Views of an arena that do not overlap fit into one of the same size. */
  lemma DisjointFits(s: set<Span>, n: nat)
    requires Disjoint(s) && forall x :: x in s ==> x.offset + x.length <= n
    ensures TotalOf(s) <= n
  {
    DisjointTotal(s);
    RangeSize(0, n);
    assert Range(0, n) == Cover(s) + (Range(0, n) - Cover(s));
  }

  // ----- the relocation table

  ghost function Spans(table: seq<Move>): set<Span> {
    set i | 0 <= i < |table| :: table[i].span
  }

  ghost predicate EntryOk(a: Arena, b: seq<Byte>, m: Move) {
    && m.span.offset + m.span.length <= |a.bytes| && m.target + m.span.length <= |b|
    && b[m.target..m.target + m.span.length] == a.bytes[m.span.offset..m.span.offset + m.span.length]
  }

  /** Where an entry's bytes stand in the fresh arena. */
  function Target(m: Move): Span {
    Span(m.target, m.span.length)
  }

  ghost predicate IsTarget(table: seq<Move>, x: Span) {
    exists k :: 0 <= k < |table| && Target(table[k]) == x
  }

  ghost predicate TargetsApart(table: seq<Move>) {
    forall i, j :: 0 <= i < j < |table| ==> Apart(Target(table[i]), Target(table[j]))
  }

  /** Each entry's bytes stand in the fresh arena `b`, apart from one another, and it holds nothing else. */
  ghost predicate TableOk(a: Arena, table: seq<Move>, b: seq<Byte>) {
    && (forall i :: 0 <= i < |table| ==> EntryOk(a, b, table[i])) && TargetsApart(table)
    && |b| == TotalOf(Spans(table))
  }

  ghost predicate Moved(a: Arena, table: seq<Move>, r: BytesRef, r': BytesRef) {
    if InBytes(a, r) then r'.ArenaBytes? && r'.epoch == a.epoch + 1 && r'.length == r.length && Move(SpanOf(r), r'.offset) in table
    else r' == r
  }

  ghost predicate ValueMoved(a: Arena, table: seq<Move>, v: Value, v': Value) {
    if v.Bytes? then v'.Bytes? && Moved(a, table, v.bytes, v'.bytes) else v' == v
  }

  ghost predicate ValuesMoved(a: Arena, table: seq<Move>, vs: seq<Value>, vs': seq<Value>) {
    |vs'| == |vs| && forall i :: 0 <= i < |vs| ==> ValueMoved(a, table, vs[i], vs'[i])
  }

  /** A moved view reads the same bytes; nothing may point into an arena that does not exist yet. */
  lemma MovedReads(a: Arena, table: seq<Move>, b: seq<Byte>, r: BytesRef, r': BytesRef)
    requires TableOk(a, table, b) && Moved(a, table, r, r') && (r.ArenaBytes? ==> r.epoch <= a.epoch)
    ensures ReadBytes(a, r) == ReadBytes(Arena(a.epoch + 1, b), r')
  {
    if InBytes(a, r) {
      var i :| 0 <= i < |table| && table[i] == Move(SpanOf(r), r'.offset);
      assert EntryOk(a, b, table[i]);
    }
  }

  /** What a pass over some values leaves: every view among them has an entry, and nothing else was added. */
  ghost predicate Passed(a: Arena, table: seq<Move>, views: set<Span>, capacity: nat, table': seq<Move>, b': seq<Byte>) {
    table <= table' && TableOk(a, table', b') && |b'| <= capacity && Spans(table') == Spans(table) + views
  }

  lemma OneSpan(a: Arena, v: Value)
    ensures SpansIn(a, [v]) == if v.Bytes? && InBytes(a, v.bytes) then {SpanOf(v.bytes)} else {}
  {
    var one := [v];
    assert one[0] == v;
  }

  /** compact_relocate_value_bytes: find the view in the table or copy it; fails only for want of room. */
  method RelocateValue(a: Arena, v: Value, table: seq<Move>, b: seq<Byte>, capacity: nat, tableCapacity: nat)
    returns (ok: bool, v': Value, table': seq<Move>, b': seq<Byte>)
    requires TableOk(a, table, b) && |table| < tableCapacity && |b| <= capacity
    ensures ok <==> TotalOf(Spans(table) + SpansIn(a, [v])) <= capacity
    ensures ok ==> Passed(a, table, SpansIn(a, [v]), capacity, table', b') && ValueMoved(a, table', v, v') && |table'| <= |table| + 1
    ensures !ok ==> v' == v
  {
    v', table', b' := v, table, b;
    OneSpan(a, v);
    if !v.Bytes? || !InBytes(a, v.bytes) {
      assert Spans(table) + {} == Spans(table);
      return true, v', table', b';
    }
    var span := SpanOf(v.bytes);
    for i := 0 to |table|
      invariant forall k :: 0 <= k < i ==> table[k].span != span
    {
      if table[i].span == span {
        assert Spans(table) + {span} == Spans(table);
        return true, Bytes(ArenaBytes(a.epoch + 1, table[i].target, span.length)), table, b;
      }
    }
    assert span !in Spans(table);
    TotalRemove(Spans(table) + {span}, span);
    assert Spans(table) + {span} - {span} == Spans(table);
    if |table| >= tableCapacity || |b| + span.length > capacity {
      return false, v', table', b';
    }
    table', b' := table + [Move(span, |b|)], b + a.bytes[span.offset..span.offset + span.length];
    TableNext(a, table, b, span);
    ok, v' := true, Bytes(ArenaBytes(a.epoch + 1, |b|, span.length));
    assert table'[|table|] == Move(span, |b|);
  }

  lemma EntriesNext(a: Arena, table: seq<Move>, b: seq<Byte>, span: Span)
    requires TableOk(a, table, b) && span.offset + span.length <= |a.bytes|
    ensures var table', b' := table + [Move(span, |b|)], b + a.bytes[span.offset..span.offset + span.length];
            (forall i :: 0 <= i < |table'| ==> EntryOk(a, b', table'[i])) && TargetsApart(table')
  {
    var table', b' := table + [Move(span, |b|)], b + a.bytes[span.offset..span.offset + span.length];
    forall i | 0 <= i < |table'| ensures EntryOk(a, b', table'[i]) {
      if i < |table| {
        var m := table[i];
        assert EntryOk(a, b, m);
        assert b'[m.target..m.target + m.span.length] == b[m.target..m.target + m.span.length];
      }
    }
    forall i, j | 0 <= i < j < |table'| ensures Apart(Target(table'[i]), Target(table'[j])) {
      assert EntryOk(a, b, table[i]);
      if j < |table| { assert Apart(Target(table[i]), Target(table[j])); }
    }
  }

  lemma SpansNext(table: seq<Move>, m: Move)
    ensures Spans(table + [m]) == Spans(table) + {m.span}
  {
    var table' := table + [m];
    assert forall i :: 0 <= i < |table| ==> table'[i] == table[i];
    assert table'[|table|] == m;
  }

  lemma TableNext(a: Arena, table: seq<Move>, b: seq<Byte>, span: Span)
    requires TableOk(a, table, b) && span !in Spans(table) && span.offset + span.length <= |a.bytes|
    ensures var table', b' := table + [Move(span, |b|)], b + a.bytes[span.offset..span.offset + span.length];
            TableOk(a, table', b') && Spans(table') == Spans(table) + {span}
  {
    EntriesNext(a, table, b, span);
    SpansNext(table, Move(span, |b|));
    TotalRemove(Spans(table) + {span}, span);
    assert Spans(table) + {span} - {span} == Spans(table);
  }

  // ----- lists of values

  lemma SpansInNext(a: Arena, list: seq<Value>, i: nat)
    requires i < |list|
    ensures SpansIn(a, list[..i + 1]) == SpansIn(a, list[..i]) + SpansIn(a, [list[i]])
    ensures SpansIn(a, list[..i + 1]) <= SpansIn(a, list)
  {
    var one, next := [list[i]], list[..i + 1];
    assert one[0] == list[i] && next[i] == list[i];
    assert forall k :: 0 <= k < i ==> next[k] == list[..i][k];
    forall x | x in SpansIn(a, next) ensures x in SpansIn(a, list[..i]) + SpansIn(a, one) && x in SpansIn(a, list) {
      var k :| 0 <= k < |next| && next[k].Bytes? && InBytes(a, next[k].bytes) && SpanOf(next[k].bytes) == x;
      assert list[k] == next[k];
      if k < i { assert list[..i][k] == next[k]; }
    }
    forall x | x in SpansIn(a, list[..i]) ensures x in SpansIn(a, next) {
      var k :| 0 <= k < i && list[..i][k].Bytes? && InBytes(a, list[..i][k].bytes) && SpanOf(list[..i][k].bytes) == x;
      assert next[k] == list[..i][k];
    }
  }

  lemma ValuesMovedStay(a: Arena, table: seq<Move>, table': seq<Move>, vs: seq<Value>, vs': seq<Value>)
    requires ValuesMoved(a, table, vs, vs') && table <= table'
    ensures ValuesMoved(a, table', vs, vs')
  {
    forall i | 0 <= i < |vs| ensures ValueMoved(a, table', vs[i], vs'[i]) { assert ValueMoved(a, table, vs[i], vs'[i]); }
  }

  lemma PassedNext(a: Arena, table: seq<Move>, list: seq<Value>, i: nat, capacity: nat, table1: seq<Move>, b1: seq<Byte>)
    requires i < |list| && Passed(a, table, SpansIn(a, list[..i]), capacity, table1, b1)
    ensures Spans(table1) + SpansIn(a, [list[i]]) == Spans(table) + SpansIn(a, list[..i + 1])
    ensures TotalOf(Spans(table1) + SpansIn(a, [list[i]])) > capacity ==> TotalOf(Spans(table) + SpansIn(a, list)) > capacity
  {
    SpansInNext(a, list, i);
    TotalGrows(Spans(table) + SpansIn(a, list[..i + 1]), Spans(table) + SpansIn(a, list));
  }

  lemma ValuesMovedNext(a: Arena, table: seq<Move>, table': seq<Move>, list: seq<Value>, i: nat, done: seq<Value>, v': Value)
    requires i < |list| && ValuesMoved(a, table, list[..i], done) && table <= table' && ValueMoved(a, table', list[i], v')
    ensures ValuesMoved(a, table', list[..i + 1], done + [v'])
  {
    ValuesMovedStay(a, table, table', list[..i], done);
    assert list[..i + 1] == list[..i] + [list[i]];
  }

  /** Relocates values in order; stops at the first view without room, with the earlier ones already rewritten. */
  method RelocateValues(a: Arena, list: seq<Value>, capacity: nat, tableCapacity: nat)
    returns (ok: bool, list': seq<Value>, table: seq<Move>, b: seq<Byte>)
    requires |list| <= tableCapacity
    ensures ok <==> TotalOf(SpansIn(a, list)) <= capacity
    ensures ok ==> Passed(a, [], SpansIn(a, list), capacity, table, b) && ValuesMoved(a, table, list, list')
    ensures |list'| == |list|
  {
    list', table, b := [], [], [];
    assert Spans(table) == {} && SpansIn(a, list[..0]) == {};
    for i := 0 to |list|
      invariant |list'| == i && |table| <= i
      invariant Passed(a, [], SpansIn(a, list[..i]), capacity, table, b)
      invariant ValuesMoved(a, table, list[..i], list')
    {
      ghost var before := table;
      PassedNext(a, [], list, i, capacity, table, b);
      assert Spans([]) + SpansIn(a, list) == SpansIn(a, list);
      var v;
      ok, v, table, b := RelocateValue(a, list[i], table, b, capacity, tableCapacity);
      if !ok {
        return false, list' + list[i..], table, b;
      }
      ValuesMovedNext(a, before, table, list, i, list', v);
      list' := list' + [v];
    }
    assert list[..|list|] == list && Spans([]) + SpansIn(a, list) == SpansIn(a, list);
    ok := true;
  }

  // ----- live pairs

  /** The components of the live pairs, in the order the collector visits them. */
  function LiveComponents(pairs: seq<ScratchPair>, live: seq<bool>): (vs: seq<Value>)
    requires |live| == |pairs|
    ensures |vs| <= 2 * |pairs|
  {
    if pairs == [] then []
    else LiveComponents(pairs[..|pairs| - 1], live[..|pairs| - 1])
         + (if live[|pairs| - 1] then [pairs[|pairs| - 1].first, pairs[|pairs| - 1].second] else [])
  }

  /** The pairs with the components of the live ones replaced, in the same order. */
  function WithComponents(pairs: seq<ScratchPair>, live: seq<bool>, vs: seq<Value>): (r: seq<ScratchPair>)
    requires |live| == |pairs| && |vs| == |LiveComponents(pairs, live)|
    ensures |r| == |pairs|
  {
    if pairs == [] then []
    else
      var k := |pairs| - 1;
      if live[k] then WithComponents(pairs[..k], live[..k], vs[..|vs| - 2]) + [ScratchPair(vs[|vs| - 2], vs[|vs| - 1])]
      else WithComponents(pairs[..k], live[..k], vs) + [pairs[k]]
  }

  ghost predicate PairsMoved(a: Arena, table: seq<Move>, pairs: seq<ScratchPair>, live: seq<bool>, pairs': seq<ScratchPair>)
    requires |live| == |pairs|
  {
    && |pairs'| == |pairs|
    && forall i :: 0 <= i < |pairs| ==>
         if live[i] then ValueMoved(a, table, pairs[i].first, pairs'[i].first) && ValueMoved(a, table, pairs[i].second, pairs'[i].second)
         else pairs'[i] == pairs[i]
  }

  lemma {:induction false} ComponentsMoved(a: Arena, table: seq<Move>, pairs: seq<ScratchPair>, live: seq<bool>, vs: seq<Value>)
    requires |live| == |pairs| && ValuesMoved(a, table, LiveComponents(pairs, live), vs)
    ensures PairsMoved(a, table, pairs, live, WithComponents(pairs, live, vs))
  {
    if pairs != [] {
      var k, n := |pairs| - 1, |vs|;
      var was, before := LiveComponents(pairs, live), LiveComponents(pairs[..k], live[..k]);
      if live[k] {
        assert was == before + [pairs[k].first, pairs[k].second];
        assert was[n - 2] == pairs[k].first && was[n - 1] == pairs[k].second && was[..n - 2] == before;
        assert ValueMoved(a, table, was[n - 2], vs[n - 2]) && ValueMoved(a, table, was[n - 1], vs[n - 1]);
        ComponentsMoved(a, table, pairs[..k], live[..k], vs[..n - 2]);
      } else {
        assert was == before;
        ComponentsMoved(a, table, pairs[..k], live[..k], vs);
      }
    }
  }

  lemma {:induction false} ComponentIn(pairs: seq<ScratchPair>, live: seq<bool>, i: nat)
    requires |live| == |pairs| && i < |pairs| && live[i]
    ensures pairs[i].first in LiveComponents(pairs, live) && pairs[i].second in LiveComponents(pairs, live)
  {
    if i < |pairs| - 1 { ComponentIn(pairs[..|pairs| - 1], live[..|pairs| - 1], i); }
  }

  lemma {:induction false} ComponentOf(pairs: seq<ScratchPair>, live: seq<bool>, v: Value) returns (i: nat)
    requires |live| == |pairs| && v in LiveComponents(pairs, live)
    ensures i < |pairs| && live[i] && (v == pairs[i].first || v == pairs[i].second)
  {
    var k := |pairs| - 1;
    if live[k] && (v == pairs[k].first || v == pairs[k].second) {
      i := k;
    } else {
      i := ComponentOf(pairs[..k], live[..k], v);
    }
  }

  // ----- heap and roots

  ghost predicate LiveSpan(h: Heap, vs: seq<Value>, p: int, x: Span)
    requires IsPair(h, p)
  {
    || (h.pairs[p - 1].first.Bytes? && InBytes(h.bytes, h.pairs[p - 1].first.bytes) && SpanOf(h.pairs[p - 1].first.bytes) == x)
    || (h.pairs[p - 1].second.Bytes? && InBytes(h.bytes, h.pairs[p - 1].second.bytes) && SpanOf(h.pairs[p - 1].second.bytes) == x)
  }

  /** `views` are the views held by the roots and by the live pairs. */
  ghost predicate LiveViews(h: Heap, vs: seq<Value>, views: set<Span>) {
    forall x :: x in views <==> x in SpansIn(h.bytes, vs) || exists p :: p in LivePairs(h, vs) && LiveSpan(h, vs, p, x)
  }

  lemma SpansInConcat(a: Arena, xs: seq<Value>, ys: seq<Value>)
    ensures SpansIn(a, xs + ys) == SpansIn(a, xs) + SpansIn(a, ys)
  {
    var all := xs + ys;
    assert forall k :: 0 <= k < |xs| ==> all[k] == xs[k];
    assert forall k :: 0 <= k < |ys| ==> all[|xs| + k] == ys[k];
    forall x | x in SpansIn(a, all) ensures x in SpansIn(a, xs) + SpansIn(a, ys) {
      var k :| 0 <= k < |all| && all[k].Bytes? && InBytes(a, all[k].bytes) && SpanOf(all[k].bytes) == x;
      if k >= |xs| { assert ys[k - |xs|] == all[k]; }
    }
  }

  lemma SpanMember(a: Arena, vs: seq<Value>, v: Value)
    requires v in vs && v.Bytes? && InBytes(a, v.bytes)
    ensures SpanOf(v.bytes) in SpansIn(a, vs)
  {}

  /** The collector visits exactly the live views. */
  lemma VisitsLive(h: Heap, vs: seq<Value>, live: seq<bool>)
    requires MarksPairs(h, vs, live)
    ensures LiveViews(h, vs, SpansIn(h.bytes, vs + LiveComponents(h.pairs, live)))
  {
    var comps := LiveComponents(h.pairs, live);
    SpansInConcat(h.bytes, vs, comps);
    forall x ensures x in SpansIn(h.bytes, comps) <==> exists p :: p in LivePairs(h, vs) && LiveSpan(h, vs, p, x) {
      if x in SpansIn(h.bytes, comps) {
        var k :| 0 <= k < |comps| && comps[k].Bytes? && InBytes(h.bytes, comps[k].bytes) && SpanOf(comps[k].bytes) == x;
        var i := ComponentOf(h.pairs, live, comps[k]);
        assert i + 1 in LivePairs(h, vs) && LiveSpan(h, vs, i + 1, x);
      } else if p :| p in LivePairs(h, vs) && LiveSpan(h, vs, p, x) {
        ComponentIn(h.pairs, live, p - 1);
        var q := h.pairs[p - 1];
        if q.first.Bytes? && InBytes(h.bytes, q.first.bytes) && SpanOf(q.first.bytes) == x {
          SpanMember(h.bytes, comps, q.first);
        } else {
          SpanMember(h.bytes, comps, q.second);
        }
      }
    }
  }

  lemma {:induction false} LiveViewsUnique(h: Heap, vs: seq<Value>, s: set<Span>, t: set<Span>)
    requires LiveViews(h, vs, s) && LiveViews(h, vs, t)
    ensures s == t
  {
    forall x ensures x in s <==> x in t {}
  }

  /** The roots with their values replaced, in the collector's order. */
  function WithValues(r: Roots, vs: seq<Value>): (r': Roots)
    requires |vs| == |ValuesOf(r)|
    ensures ValuesOf(r') == vs && r'.builders == r.builders && r'.pins == r.pins && SameShape(r, r')
  {
    var i, j, k := |r.stack|, |r.stack| + |r.locals|, |r.stack| + |r.locals| + |r.tasks|;
    Roots(vs[..i], vs[i..j], WithResults(r.tasks, vs[j..k]), vs[k..], r.builders, r.pins)
  }

  ghost predicate PairMovedAt(h: Heap, vs: seq<Value>, table: seq<Move>, h': Heap, p: int)
    requires IsPair(h, p) && IsPair(h', p)
  {
    if p in LivePairs(h, vs) then
      && ValueMoved(h.bytes, table, h.pairs[p - 1].first, h'.pairs[p - 1].first)
      && ValueMoved(h.bytes, table, h.pairs[p - 1].second, h'.pairs[p - 1].second)
    else h'.pairs[p - 1] == h.pairs[p - 1]
  }

  /** The heap and root values after bytes compaction: each live view copied once, nothing else kept. */
  ghost predicate BytesCompacted(h: Heap, vs: seq<Value>, table: seq<Move>, h': Heap, vs': seq<Value>) {
    && h' == h.(pairs := h'.pairs, bytes := h'.bytes) && |h'.pairs| == |h.pairs| && h'.bytes.epoch == h.bytes.epoch + 1
    && TableOk(h.bytes, table, h'.bytes.bytes) && LiveViews(h, vs, Spans(table))
    && ValuesMoved(h.bytes, table, vs, vs')
    && forall p {:trigger PairMovedAt(h, vs, table, h', p)} :: IsPair(h, p) ==> PairMovedAt(h, vs, table, h', p)
  }

  lemma BytesCompactedShapes(h: Heap, vs: seq<Value>, table: seq<Move>, h': Heap, vs': seq<Value>)
    requires BytesCompacted(h, vs, table, h', vs')
    ensures SamePairShapes(h, vs, h', vs') && SameNodeShapes(h, vs, h', vs')
  {
    forall p | 0 <= p < |h.pairs|
      ensures SamePairShape(h.pairs[p].first, h'.pairs[p].first) && SamePairShape(h.pairs[p].second, h'.pairs[p].second)
      ensures SameNodeShape(h.pairs[p].first, h'.pairs[p].first) && SameNodeShape(h.pairs[p].second, h'.pairs[p].second)
    {
      assert IsPair(h, p + 1) && PairMovedAt(h, vs, table, h', p + 1);
    }
    forall i | 0 <= i < |vs| ensures SamePairShape(vs[i], vs'[i]) && SameNodeShape(vs[i], vs'[i]) {
      assert ValueMoved(h.bytes, table, vs[i], vs'[i]);
    }
    forall n | IsNode(h, n) ensures ChildrenOf(h, n) == ChildrenOf(h', n) {}
  }

  lemma ViewCorresponds(h: Heap, vs: seq<Value>, hs: seq<int>, table: seq<Move>, h': Heap, v: Value, v': Value)
    requires h'.strings == h.strings && h'.bytes.epoch == h.bytes.epoch + 1 && TableOk(h.bytes, table, h'.bytes.bytes)
    requires ValueMoved(h.bytes, table, v, v') && Current(h.bytes, v) && ValueKept(h, vs, hs, v)
    ensures Corresponds(h, h', Identity(LiveNodes(h, vs, hs)), Identity(LivePairs(h, vs)), v, v')
  {
    if v.Bytes? {
      MovedReads(h.bytes, table, h'.bytes.bytes, v.bytes, v'.bytes);
      assert h'.bytes == Arena(h.bytes.epoch + 1, h'.bytes.bytes);
    }
  }

  /** Main theorem of bytes compaction: every root reads the same afterwards, at every depth. */
  lemma BytesCompactionKeepsMeaning(h: Heap, vs: seq<Value>, hs: seq<int>, table: seq<Move>, h': Heap, vs': seq<Value>, capacity: nat)
    requires WellFormed(h) && RootsSound(h, vs, hs) && BytesFit(h.bytes, h.pairs, vs, capacity) && BytesCompacted(h, vs, table, h', vs')
    ensures SameMeaning(h, vs, h', vs') && SameMeaning(h, NodeValues(hs), h', NodeValues(hs))
  {
    var nm, pm := Identity(LiveNodes(h, vs, hs)), Identity(LivePairs(h, vs));
    forall n | n in nm ensures CarriesNode(h, h', nm, n) {
      NodesCarryThemselves(h, h', vs, hs, n);
    }
    forall p | p in pm ensures CarriesPair(h, h', nm, pm, p) {
      PairKept(h, vs, hs, p);
      assert PairMovedAt(h, vs, table, h', p);
      ViewCorresponds(h, vs, hs, table, h', h.pairs[p - 1].first, h'.pairs[p - 1].first);
      ViewCorresponds(h, vs, hs, table, h', h.pairs[p - 1].second, h'.pairs[p - 1].second);
    }
    forall i | 0 <= i < |vs| ensures Corresponds(h, h', nm, pm, vs[i], vs'[i]) {
      RootKept(h, vs, hs, i);
      ViewCorresponds(h, vs, hs, table, h', vs[i], vs'[i]);
    }
    CarriedList(h, h', nm, pm, vs, vs');
    forall i | 0 <= i < |hs| ensures Corresponds(h, h', nm, pm, NodeValues(hs)[i], NodeValues(hs)[i]) {
      HandleKept(h, vs, hs, i);
    }
    CarriedList(h, h', nm, pm, NodeValues(hs), NodeValues(hs));
  }

  /** A view of the fresh arena is the target of an entry. */
  lemma MovedView(a: Arena, table: seq<Move>, b: seq<Byte>, v: Value, v': Value)
    requires TableOk(a, table, b) && Current(a, v) && (ValueMoved(a, table, v, v') || v' == v)
    ensures Current(Arena(a.epoch + 1, b), v')
    ensures forall x :: Views(Arena(a.epoch + 1, b), v', x) ==> IsTarget(table, x)
  {
    if v'.Bytes? && v' != v && InBytes(a, v.bytes) {
      var k :| 0 <= k < |table| && table[k] == Move(SpanOf(v.bytes), v'.bytes.offset);
      assert EntryOk(a, b, table[k]) && Target(table[k]) == SpanOf(v'.bytes);
    }
  }

  /** The views of the fresh arena do not overlap either. */
  lemma MovedViewsFit(h: Heap, vs: seq<Value>, table: seq<Move>, h': Heap, vs': seq<Value>, capacity: nat)
    requires BytesFit(h.bytes, h.pairs, vs, capacity) && BytesCompacted(h, vs, table, h', vs') && |h'.bytes.bytes| <= capacity
    ensures BytesFit(h'.bytes, h'.pairs, vs', capacity)
  {
    var a', b := h'.bytes, h'.bytes.bytes;
    assert a' == Arena(h.bytes.epoch + 1, b);
    forall i | 0 <= i < |vs'| ensures Current(a', vs'[i]) && forall x :: Views(a', vs'[i], x) ==> IsTarget(table, x) {
      assert ValueMoved(h.bytes, table, vs[i], vs'[i]);
      MovedView(h.bytes, table, b, vs[i], vs'[i]);
    }
    forall p | 0 <= p < |h'.pairs|
      ensures Current(a', h'.pairs[p].first) && Current(a', h'.pairs[p].second)
      ensures forall x :: Views(a', h'.pairs[p].first, x) || Views(a', h'.pairs[p].second, x) ==> IsTarget(table, x)
    {
      assert IsPair(h, p + 1) && PairMovedAt(h, vs, table, h', p + 1);
      MovedView(h.bytes, table, b, h.pairs[p].first, h'.pairs[p].first);
      MovedView(h.bytes, table, b, h.pairs[p].second, h'.pairs[p].second);
    }
    forall x, y | Held(a', h'.pairs, vs', x) && Held(a', h'.pairs, vs', y) && x != y ensures Apart(x, y) {
      assert IsTarget(table, x) && IsTarget(table, y);
      var i :| 0 <= i < |table| && Target(table[i]) == x;
      var j :| 0 <= j < |table| && Target(table[j]) == y;
      assert if i < j then Apart(Target(table[i]), Target(table[j])) else Apart(Target(table[j]), Target(table[i]));
    }
  }

  /** The live views are among those held, so they never overlap and fit an arena of the same size. */
  lemma LiveViewsFit(h: Heap, vs: seq<Value>, views: set<Span>, capacity: nat)
    requires BytesFit(h.bytes, h.pairs, vs, capacity) && LiveViews(h, vs, views)
    ensures TotalOf(views) <= |h.bytes.bytes|
  {
    forall x | x in views ensures Held(h.bytes, h.pairs, vs, x) && x.offset + x.length <= |h.bytes.bytes| {
      if x in SpansIn(h.bytes, vs) {
        var i :| 0 <= i < |vs| && vs[i].Bytes? && InBytes(h.bytes, vs[i].bytes) && SpanOf(vs[i].bytes) == x;
        assert Views(h.bytes, vs[i], x);
      } else {
        var p :| p in LivePairs(h, vs) && LiveSpan(h, vs, p, x);
        var q := p - 1;
        assert Views(h.bytes, h.pairs[q].first, x) || Views(h.bytes, h.pairs[q].second, x);
      }
    }
    DisjointFits(views, |h.bytes.bytes|);
  }

  /** After bytes compaction the heap is still ready and its views still apart. */
  lemma BytesCompactionSound(h: Heap, r: Roots, table: seq<Move>, h': Heap, r': Roots, capacity: nat)
    requires Ready(h, r, []) && BytesFit(h.bytes, h.pairs, ValuesOf(r), capacity) && BytesCompacted(h, ValuesOf(r), table, h', ValuesOf(r'))
    requires r'.builders == r.builders && r'.pins == r.pins
    ensures Ready(h', r', []) && BytesFit(h'.bytes, h'.pairs, ValuesOf(r'), capacity) && |h'.bytes.bytes| <= |h.bytes.bytes|
  {
    var vs, vs', hs := ValuesOf(r), ValuesOf(r'), HandlesOf(r, []);
    LiveViewsFit(h, vs, Spans(table), capacity);
    MovedViewsFit(h, vs, table, h', vs', capacity);
    BytesCompactedShapes(h, vs, table, h', vs');
    SameLivePairs(h, vs, h', vs');
    SameLiveNodes(h, vs, hs, h', vs');
    forall i | 0 <= i < |vs'| ensures ValueOk(h'.strings, vs'[i]) && (vs'[i].Node? ==> IsNode(h', vs'[i].node)) {
      assert ValueMoved(h.bytes, table, vs[i], vs'[i]);
    }
    forall p | IsPair(h', p) && LivePair(h', vs', p)
      ensures NodesInRange(h', h'.pairs[p - 1]) && ValueOk(h'.strings, h'.pairs[p - 1].first) && ValueOk(h'.strings, h'.pairs[p - 1].second)
    {
      assert p in LivePairs(h, vs) && NodesInRange(h, h.pairs[p - 1]);
      assert PairMovedAt(h, vs, table, h', p);
    }
    forall n | n in LiveNodes(h', vs', hs) ensures NodeOk(h', n) {
      assert NodeOk(h, n);
      assert AttrsOf(h', n) == AttrsOf(h, n);
    }
  }

  /** aivm_compact_bytes_arena on values, after its early exits. A failure leaves the views before the one that did
      not fit pointing into the discarded arena. */
  method RelocateBytes(h: Heap, r: Roots, capacity: nat) returns (ok: bool, h': Heap, r': Roots, ghost table: seq<Move>)
    ensures ok <==> PairsPass(h, ValuesOf(r)) && forall views :: LiveViews(h, ValuesOf(r), views) ==> TotalOf(views) <= capacity
    ensures ok ==> BytesCompacted(h, ValuesOf(r), table, h', ValuesOf(r')) && r'.builders == r.builders && r'.pins == r.pins && SameShape(r, r') && |h'.bytes.bytes| <= capacity
    ensures !PairsPass(h, ValuesOf(r)) ==> h' == h && r' == r
  {
    h', r', table := h, r, [];
    var live;
    ok, live := MarkPairs(h, r);
    if !ok { return; }
    var vs, comps := ValuesOf(r), LiveComponents(h.pairs, live);
    VisitsLive(h, vs, live);
    ghost var views := SpansIn(h.bytes, vs + comps);
    forall other | LiveViews(h, vs, other) ensures other == views { LiveViewsUnique(h, vs, other, views); }
    var moved, moves, b;
    ok, moved, moves, b := RelocateValues(h.bytes, vs + comps, capacity, |vs| + 2 * |h.pairs|);
    r' := WithValues(r, moved[..|vs|]);
    h' := h.(pairs := WithComponents(h.pairs, live, moved[|vs|..]));
    if ok {
      table := moves;
      SplitMoved(h, vs, live, moves, moved);
      h' := h'.(bytes := Arena(h.bytes.epoch + 1, b));
      forall p | IsPair(h, p) ensures PairMovedAt(h, vs, table, h', p) { assert live[p - 1] <==> LivePair(h, vs, p); }
    }
  }

  lemma SplitMoved(h: Heap, vs: seq<Value>, live: seq<bool>, table: seq<Move>, moved: seq<Value>)
    requires |live| == |h.pairs| && ValuesMoved(h.bytes, table, vs + LiveComponents(h.pairs, live), moved)
    ensures ValuesMoved(h.bytes, table, vs, moved[..|vs|])
    ensures PairsMoved(h.bytes, table, h.pairs, live, WithComponents(h.pairs, live, moved[|vs|..]))
  {
    var comps := LiveComponents(h.pairs, live);
    var all := vs + comps;
    forall i | 0 <= i < |vs| ensures ValueMoved(h.bytes, table, vs[i], moved[..|vs|][i]) { assert all[i] == vs[i]; }
    forall i | 0 <= i < |comps| ensures ValueMoved(h.bytes, table, comps[i], moved[|vs|..][i]) { assert all[|vs| + i] == comps[i]; }
    ComponentsMoved(h.bytes, table, h.pairs, live, moved[|vs|..]);
  }
}
