/**
 The intern index over the string arena (src/aivm_vm_string_copy.c): an
 open-addressing table from text hashes to arena segments.
 */
module InternIndex {
  import opened CText
  import opened Probe

  datatype Entry = Entry(hash: nat, offset: nat, length: nat)

  const EMPTY: Entry := Entry(0, 0, 0)
  const MIN_CAPACITY: nat := 1024

  /** The hash of a text, never 0: 0 marks a free slot. */
  function Hash(t: Text): (h: nat)
    ensures h != 0
  {
    if Fnv(t) == 0 then 1 else Fnv(t)
  }

  /** What a capacity is: 0 before the first entry, then a power of two. */
  predicate PowerOfTwo(n: nat) {
    n <= 1 || (n % 2 == 0 && PowerOfTwo(n / 2))
  }

  /** Bitwise and. */
  function And(x: nat, y: nat): nat
    decreases x
  {
    if x == 0 || y == 0 then 0 else 2 * And(x / 2, y / 2) + (if x % 2 == 1 && y % 2 == 1 then 1 else 0)
  }

  lemma {:induction false} AndBelow(x: nat, y: nat)
    ensures And(x, y) <= y
    decreases x
  {
    if x > 0 && y > 0 { AndBelow(x / 2, y / 2); }
  }

  /** The mask of a power of two leaves a slot number alone and wraps the first one past the table. */
  lemma {:induction false} MaskWraps(x: nat, cap: nat)
    requires cap > 0 && PowerOfTwo(cap) && x <= cap
    ensures And(x, cap - 1) == if x < cap then x else 0
    decreases x
  {
    if x > 0 && cap > 1 {
      var half := cap / 2;
      Halves(cap, half);
      MaskWraps(x / 2, half);
      assert And(x, cap - 1) == 2 * And(x / 2, half - 1) + x % 2;
    }
  }

  lemma Halves(cap: nat, half: nat)
    requires cap > 1 && cap % 2 == 0 && half == cap / 2
    ensures cap == 2 * half && (cap - 1) / 2 == half - 1 && (cap - 1) % 2 == 1
  {}

  /** string_intern_slot. */
  function Home(hash: nat, cap: nat): (h: nat)
    requires cap > 0
    ensures h < cap
  {
    AndBelow(hash, cap - 1);
    And(hash, cap - 1)
  }

  lemma NextSlot(start: nat, d: nat, cap: nat)
    requires PowerOfTwo(cap) && start < cap && d < cap
    ensures And(Step(start, d, cap) + 1, cap - 1) < cap
    ensures d + 1 < cap ==> And(Step(start, d, cap) + 1, cap - 1) == Step(start, d + 1, cap)
  {
    MaskWraps(Step(start, d, cap) + 1, cap);
  }

  function Occupied(es: seq<Entry>): (occ: seq<bool>)
    ensures |occ| == |es| && forall i :: 0 <= i < |es| ==> occ[i] == (es[i].hash != 0)
  {
    seq(|es|, i requires 0 <= i < |es| => es[i].hash != 0)
  }

  ghost predicate Placed(es: seq<Entry>, i: nat)
    requires i < |es|
  {
    es[i].hash != 0 ==> Reaches(Occupied(es), Home(es[i].hash, |es|), i)
  }

  /** Every entry is on the probe path of its hash; `n` slots are occupied; the mask covers the table. */
  ghost predicate Table(es: seq<Entry>, n: nat) {
    && (forall i {:trigger Placed(es, i)} :: 0 <= i < |es| ==> Placed(es, i))
    && n == Count(Occupied(es)) && PowerOfTwo(|es|)
  }

  /** An entry stands for one segment of the arena. */
  ghost predicate Indexes(a: seq<Byte>, e: Entry) {
    && SegmentStart(a, e.offset) && e.length == |TextAt(a, e.offset)| && e.hash == Hash(TextAt(a, e.offset))
  }

  ghost predicate Sound(a: seq<Byte>, es: seq<Entry>) {
    forall i :: 0 <= i < |es| && es[i].hash != 0 ==> Indexes(a, es[i])
  }

  ghost predicate Indexed(es: seq<Entry>, e: Entry) {
    e.hash != 0 && e in es
  }

  /** The entries afterwards are those before and `e`. */
  ghost predicate Adds(es: seq<Entry>, es': seq<Entry>, e: Entry) {
    forall x :: Indexed(es', x) <==> Indexed(es, x) || x == e
  }

  /** No entry stands for the text `t`. */
  ghost predicate Absent(a: seq<Byte>, es: seq<Entry>, t: Text) {
    forall x :: Indexed(es, x) ==> TextAt(a, x.offset) != t
  }

  /** string_intern_insert: the first free slot on the probe path. */
  method Insert(es: seq<Entry>, e: Entry, ghost n: nat) returns (ok: bool, es': seq<Entry>)
    requires Table(es, n) && e.hash != 0
    ensures ok <==> n < |es|
    ensures ok ==> |es'| == |es| && Table(es', n + 1)
    ensures ok ==> Adds(es, es', e)
    ensures !ok ==> es' == es
  {
    var cap := |es|;
    ghost var occ := Occupied(es);
    if cap == 0 {
      return false, es;
    }
    var slot := Home(e.hash, cap);
    ghost var home := slot;
    for probes := 0 to cap
      invariant FullFor(occ, home, probes)
      invariant probes < cap ==> slot == Step(home, probes, cap)
    {
      if es[slot].hash == 0 {
        DistOfStep(home, probes, cap);
        InsertKeeps(es, e, slot, n);
        return true, es[slot := e];
      }
      NextSlot(home, probes, cap);
      slot := And(slot + 1, cap - 1);
    }
    WholeTableFull(occ, home);
    ok, es' := false, es;
  }

  lemma WholeTableFull(occ: seq<bool>, home: nat)
    requires home < |occ| && FullFor(occ, home, |occ|)
    ensures Count(occ) == |occ|
  {
    CountBound(occ);
    forall i | 0 <= i < |occ| ensures occ[i] {
      assert occ[Step(home, Dist(home, i, |occ|), |occ|)];
    }
  }

  lemma InsertKeeps(es: seq<Entry>, e: Entry, slot: nat, n: nat)
    requires Table(es, n) && e.hash != 0 && slot < |es| && es[slot].hash == 0
    requires Reaches(Occupied(es), Home(e.hash, |es|), slot)
    ensures n < |es| && Table(es[slot := e], n + 1)
    ensures Adds(es, es[slot := e], e)
  {
    var es' := es[slot := e];
    assert Occupied(es') == Occupied(es)[slot := true];
    CountSet(Occupied(es), slot);
    CountBound(Occupied(es'));
    forall i | 0 <= i < |es'| ensures Placed(es', i) {
      assert Placed(es, i);
      if es'[i].hash != 0 {
        ReachesStays(Occupied(es), Home(es'[i].hash, |es|), i, slot);
      }
    }
    forall x ensures Indexed(es', x) <==> Indexed(es, x) || x == e {
      if Indexed(es, x) {
        var i :| 0 <= i < |es| && es[i] == x;
        assert es'[i] == x;
      }
      assert es'[slot] == e;
    }
  }

  /** string_intern_resize: rehashes into a power-of-two capacity of at least `requested`, if there is `memory` for it. */
  method Resize(es: seq<Entry>, requested: nat, memory: bool, ghost n: nat) returns (ok: bool, es': seq<Entry>)
    requires Table(es, n) && n < requested
    ensures ok == memory
    ensures ok ==> |es'| >= requested && |es'| >= 1024 && (|es'| == 1024 || (1024 < requested && |es'| < 2 * requested)) && Table(es', n) && SameEntriesAs(es', es)
  {
    var capacity := MIN_CAPACITY;
    while capacity < requested
      invariant capacity >= MIN_CAPACITY && PowerOfTwo(capacity) && (capacity == 1024 || (1024 < requested && capacity < 2 * requested))
      decreases requested - capacity
    {
      capacity := capacity * 2;
    }
    es' := seq(capacity, _ => EMPTY);
    if !memory {
      return false, es';
    }
    CountBound(Occupied(es'));
    for i := 0 to |es|
      invariant |es'| == capacity && Table(es', Count(Occupied(es)[..i]))
      invariant SameEntriesAs(es', es[..i])
    {
      CountStep(es, i);
      ghost var before := es';
      if es[i].hash != 0 {
        ok, es' := Insert(es', es[i], Count(Occupied(es)[..i]));
      }
      SameEntriesNext(before, es', es, i);
    }
    assert Occupied(es)[..|es|] == Occupied(es) && es[..|es|] == es;
    ok := true;
  }

  ghost predicate SameEntriesAs(es': seq<Entry>, es: seq<Entry>) {
    forall x :: Indexed(es', x) <==> Indexed(es, x)
  }

  lemma SameEntriesNext(before: seq<Entry>, after: seq<Entry>, es: seq<Entry>, i: nat)
    requires i < |es| && SameEntriesAs(before, es[..i]) && (if es[i].hash == 0 then after == before else Adds(before, after, es[i]))
    ensures SameEntriesAs(after, es[..i + 1])
  {
    assert es[..i + 1] == es[..i] + [es[i]];
  }

  lemma CountStep(es: seq<Entry>, i: nat)
    requires i < |es|
    ensures var occ := Occupied(es); Count(occ[..i + 1]) == Count(occ[..i]) + (if es[i].hash != 0 then 1 else 0) <= Count(occ) <= |es|
  {
    var occ := Occupied(es);
    assert occ[..i + 1][..i] == occ[..i];
    CountPrefix(occ, i + 1);
    CountBound(occ);
  }

  /** What a probe for text `t` looks for. */
  predicate Matches(a: seq<Byte>, e: Entry, t: Text) {
    e.hash == Hash(t) && e.length == |t| && e.offset + |t| <= |a| && a[e.offset..e.offset + |t|] == t
  }

  ghost predicate MissedFor(a: seq<Byte>, es: seq<Entry>, t: Text, home: nat, d: nat)
    requires home < |es| && d <= |es|
  {
    forall k :: 0 <= k < d ==> !Matches(a, es[Step(home, k, |es|)], t)
  }

  lemma MissedNext(a: seq<Byte>, es: seq<Entry>, t: Text, home: nat, d: nat)
    requires home < |es| && d < |es| && MissedFor(a, es, t, home, d) && !Matches(a, es[Step(home, d, |es|)], t)
    ensures MissedFor(a, es, t, home, d + 1)
  {}

  /** lookup_string_in_index: sound and, over a sound table, complete. */
  method Lookup(a: seq<Byte>, es: seq<Entry>, t: Text, ghost n: nat) returns (found: bool, offset: nat)
    requires Terminated(a) && Sound(a, es) && Table(es, n) && NulFree(t)
    ensures found ==> SegmentStart(a, offset) && TextAt(a, offset) == t
    ensures found <==> !Absent(a, es, t)
  {
    offset := 0;
    var cap := |es|;
    if cap == 0 {
      return false, 0;
    }
    var slot := Home(Hash(t), cap);
    ghost var home := slot;
    for probes := 0 to cap
      invariant probes < cap ==> slot == Step(home, probes, cap)
      invariant MissedFor(a, es, t, home, probes)
    {
      if es[slot].hash == 0 {
        ProbeMisses(a, es, t, home, probes, n);
        return false, 0;
      }
      if Matches(a, es[slot], t) {
        MatchFound(a, es, slot, t);
        return true, es[slot].offset;
      }
      MissedNext(a, es, t, home, probes);
      NextSlot(home, probes, cap);
      slot := And(slot + 1, cap - 1);
    }
    WholeProbeMisses(a, es, t, home);
    found := false;
  }

  lemma MatchFound(a: seq<Byte>, es: seq<Entry>, slot: nat, t: Text)
    requires Sound(a, es) && slot < |es| && Matches(a, es[slot], t)
    ensures SegmentStart(a, es[slot].offset) && TextAt(a, es[slot].offset) == t && !Absent(a, es, t)
  {
    assert Indexes(a, es[slot]) && Indexed(es, es[slot]);
  }

  lemma WholeProbeMisses(a: seq<Byte>, es: seq<Entry>, t: Text, home: nat)
    requires Terminated(a) && Sound(a, es) && home < |es|
    requires MissedFor(a, es, t, home, |es|)
    ensures Absent(a, es, t)
  {
    forall x | Indexed(es, x) ensures TextAt(a, x.offset) != t {
      var i :| 0 <= i < |es| && es[i] == x;
      assert !Matches(a, es[Step(home, Dist(home, i, |es|), |es|)], t);
      TextMatches(a, x, t);
    }
  }

  lemma TextMatches(a: seq<Byte>, e: Entry, t: Text)
    requires Terminated(a) && Indexes(a, e)
    ensures TextAt(a, e.offset) == t ==> Matches(a, e, t)
  {}

  lemma ProbeMisses(a: seq<Byte>, es: seq<Entry>, t: Text, home: nat, d: nat, n: nat)
    requires Terminated(a) && Sound(a, es) && Table(es, n) && d < |es| && home == Home(Hash(t), |es|)
    requires es[Step(home, d, |es|)].hash == 0
    requires MissedFor(a, es, t, home, d)
    ensures Absent(a, es, t)
  {
    forall x | Indexed(es, x) ensures TextAt(a, x.offset) != t {
      var i :| 0 <= i < |es| && es[i] == x;
      assert Placed(es, i) && Indexes(a, es[i]);
      TextMatches(a, x, t);
      if TextAt(a, x.offset) == t {
        MetBefore(Occupied(es), home, d, i);
      }
    }
  }

  /** The table is large enough that one more entry fits. */
  /** One more entry leaves the table below its load bound. */
  predicate HasSlot(cap: nat, n: nat) {
    cap > 0 && (n + 1) * 10 < cap * 7
  }

  predicate Loaded(cap: nat, n: nat) {
    cap == 0 || n * 10 < cap * 7
  }

  /** Every segment of the first `o` bytes has an entry. */
  ghost predicate Covers(a: seq<Byte>, es: seq<Entry>, o: nat) {
    forall s: nat :: SegmentStart(a, s) && s < o ==> HasSegment(a, es, s)
  }

  ghost predicate HasSegment(a: seq<Byte>, es: seq<Entry>, s: nat)
    requires s <= |a|
  {
    Indexed(es, Entry(Hash(TextAt(a, s)), s, |TextAt(a, s)|))
  }

  lemma HasSegmentAdds(a: seq<Byte>, es: seq<Entry>, es': seq<Entry>, e: Entry, s: nat)
    requires s <= |a| && Adds(es, es', e) && (HasSegment(a, es, s) || e == Entry(Hash(TextAt(a, s)), s, |TextAt(a, s)|))
    ensures HasSegment(a, es', s)
  {}

  /** Where a scan that hops from segment to segment stops: `starts[k]` after `k` hops. */
  ghost predicate Hops(a: seq<Byte>, starts: seq<nat>) {
    && |starts| > 0 && starts[0] == 0
    && forall k {:trigger Hop(a, starts, k)} :: 0 <= k < |starts| - 1 ==> Hop(a, starts, k)
  }

  ghost predicate Hop(a: seq<Byte>, starts: seq<nat>, k: nat)
    requires k + 1 < |starts|
  {
    starts[k] < |a| && starts[k + 1] == starts[k] + |TextAt(a, starts[k])| + 1
  }

  lemma HopNext(a: seq<Byte>, starts: seq<nat>, k: nat)
    requires Terminated(a) && Hops(a, starts) && k < |starts| && starts[|starts| - 1] == |a| && starts[k] < |a|
    ensures k + 1 < |starts| && starts[k + 1] == starts[k] + |TextAt(a, starts[k])| + 1 <= |a|
    ensures starts[k + 1] == |a| || SegmentStart(a, starts[k + 1])
  {
    assert Hop(a, starts, k);
    TerminatedText(a, starts[k]);
  }

  method CountSegments(a: seq<Byte>) returns (count: nat, ghost starts: seq<nat>)
    requires Terminated(a)
    ensures Hops(a, starts) && |starts| == count + 1 && starts[count] == |a|
  {
    count := 0;
    var o := 0;
    starts := [0];
    while o < |a|
      invariant o <= |a| && |starts| == count + 1 && starts[count] == o
      invariant Hops(a, starts)
    {
      TerminatedText(a, o);
      ghost var before := starts;
      o := o + |TextAt(a, o)| + 1;
      starts := starts + [o];
      forall k | 0 <= k < |starts| - 1 ensures Hop(a, starts, k) {
        if k < count { assert Hop(a, before, k); }
      }
      count := count + 1;
    }
  }

  /** aivm_vm_rebuild_string_intern_index: one entry for every segment, or an index marked incomplete. */
  method Rebuild(a: seq<Byte>, old': seq<Entry>, memory: bool) returns (es: seq<Entry>, n: nat, complete: bool)
    requires Terminated(a) && PowerOfTwo(|old'|)
    ensures IndexOk(a, es, n, complete, {}) && Covered(a, es, complete) && (complete <==> a == [] || memory)
  {
    ghost var starts;
    var total;
    total, starts := CountSegments(a);
    es := seq(|old'|, _ => EMPTY);
    n, complete := 0, true;
    CountBound(Occupied(es));
    if total == 0 {
      return;
    }
    assert Hop(a, starts, 0);
    var ok, bigger := Resize(es, total * 2, memory, 0);
    if !ok {
      return es, 0, false;
    }
    NothingIndexed(a, bigger);
    es, n := IndexAll(a, bigger, total, starts);
  }

  lemma NothingIndexed(a: seq<Byte>, es: seq<Entry>)
    requires forall x :: !Indexed(es, x)
    ensures Sound(a, es)
  {
    assert forall i :: 0 <= i < |es| && es[i].hash != 0 ==> Indexed(es, es[i]);
  }

  /** The second pass of the rebuild: one insertion per segment, none of which can fail. */
  method IndexAll(a: seq<Byte>, empty: seq<Entry>, ghost total: nat, ghost starts: seq<nat>) returns (es: seq<Entry>, n: nat)
    requires Terminated(a) && Table(empty, 0) && Sound(a, empty) && total > 0 && |empty| >= total * 2
    requires Hops(a, starts) && |starts| == total + 1 && starts[total] == |a|
    ensures Table(es, n) && Sound(a, es) && Loaded(|es|, n) && Covers(a, es, |a|)
  {
    es, n := empty, 0;
    var o := 0;
    while o < |a|
      invariant o == |a| || SegmentStart(a, o)
      invariant Table(es, n) && Sound(a, es) && |es| == |empty|
      invariant n <= total && o == starts[n]
      invariant Covers(a, es, o)
    {
      HopNext(a, starts, n);
      es := IndexSegment(a, es, o, n);
      n := n + 1;
      o := o + |TextAt(a, o)| + 1;
    }
  }

  method IndexSegment(a: seq<Byte>, es: seq<Entry>, o: nat, ghost n: nat) returns (es': seq<Entry>)
    requires Terminated(a) && SegmentStart(a, o) && o < |a| && Table(es, n) && Sound(a, es) && Covers(a, es, o) && n < |es|
    ensures |es'| == |es| && Table(es', n + 1) && Sound(a, es') && Covers(a, es', o + |TextAt(a, o)| + 1)
  {
    var t := TextAt(a, o);
    var e := Entry(Hash(t), o, |t|);
    var ok;
    ok, es' := Insert(es, e, n);
    SoundAdds(a, es, es', e);
    CoversNext(a, es, es', o);
  }

  lemma SoundAdds(a: seq<Byte>, es: seq<Entry>, es': seq<Entry>, e: Entry)
    requires Sound(a, es) && Adds(es, es', e) && Indexes(a, e)
    ensures Sound(a, es')
  {
    forall i | 0 <= i < |es'| && es'[i].hash != 0 ensures Indexes(a, es'[i]) {
      assert Indexed(es', es'[i]);
    }
  }

  lemma CoversNext(a: seq<Byte>, es: seq<Entry>, es': seq<Entry>, o: nat)
    requires Terminated(a) && SegmentStart(a, o) && Covers(a, es, o)
    requires Adds(es, es', Entry(Hash(TextAt(a, o)), o, |TextAt(a, o)|))
    ensures Covers(a, es', o + |TextAt(a, o)| + 1)
  {
    forall s: nat | SegmentStart(a, s) && s < o + |TextAt(a, o)| + 1 ensures HasSegment(a, es', s) {
      if o < s { SegmentsDisjoint(a, o, s); }
      HasSegmentAdds(a, es, es', Entry(Hash(TextAt(a, o)), o, |TextAt(a, o)|), s);
    }
  }

  /** The index over arena `a`: well placed, sound, not overloaded; complete means every remembered text has an entry. */
  ghost predicate IndexOk(a: seq<Byte>, es: seq<Entry>, n: nat, complete: bool, remembered: set<Text>) {
    && Table(es, n) && Sound(a, es) && Loaded(|es|, n)
    && (forall t :: t in remembered ==> Stored(a, t))
    && (complete ==> forall t :: t in remembered ==> !Absent(a, es, t))
  }

  /** A complete index has an entry for every segment of the arena. */
  ghost predicate Covered(a: seq<Byte>, es: seq<Entry>, complete: bool) {
    complete ==> Covers(a, es, |a|)
  }

  /** Where a copy of `t` is looked for: the index alone while it is complete, else every segment. */
  ghost predicate Known(a: seq<Byte>, es: seq<Entry>, complete: bool, t: Text) {
    !Absent(a, es, t) || (!complete && Stored(a, t))
  }

  /** A text remembered since the last compaction is always found again. */
  lemma RememberedKnown(a: seq<Byte>, es: seq<Entry>, n: nat, complete: bool, remembered: set<Text>, t: Text)
    requires IndexOk(a, es, n, complete, remembered) && t in remembered
    ensures Known(a, es, complete, t)
  {}

  /** Over a covered arena the index misses nothing: a copy is looked up with success exactly when the text is stored. */
  lemma KnownIffStored(a: seq<Byte>, es: seq<Entry>, complete: bool, t: Text)
    requires Sound(a, es) && Covered(a, es, complete)
    ensures Known(a, es, complete, t) <==> Stored(a, t)
  {
    if e :| Indexed(es, e) && TextAt(a, e.offset) == t { assert Indexes(a, e); }
    if complete && Stored(a, t) {
      var s: nat :| SegmentStart(a, s) && TextAt(a, s) == t;
      assert HasSegment(a, es, s);
    }
  }

  lemma KnownRemembered(a: seq<Byte>, es: seq<Entry>, n: nat, complete: bool, remembered: set<Text>, t: Text)
    requires IndexOk(a, es, n, complete, remembered) && Known(a, es, complete, t)
    ensures IndexOk(a, es, n, complete, remembered + {t})
  {
    if e :| Indexed(es, e) && TextAt(a, e.offset) == t {
      assert Indexes(a, e);
      assert Stored(a, t);
    }
  }

  /** lookup_string_in_arena and lookup_string_range_in_arena: the index, then the segments when it may miss some. */
  method Find(a: seq<Byte>, es: seq<Entry>, complete: bool, t: Text, ghost n: nat) returns (found: bool, offset: nat)
    requires Terminated(a) && Sound(a, es) && Table(es, n) && NulFree(t)
    ensures found ==> SegmentStart(a, offset) && TextAt(a, offset) == t
    ensures found <==> Known(a, es, complete, t)
  {
    found, offset := Lookup(a, es, t, n);
    if !found && !complete {
      found, offset := FindText(a, t);
    }
  }

  lemma IndexesStays(a: seq<Byte>, t: Text, e: Entry)
    requires Terminated(a) && NulFree(t) && Indexes(a, e)
    ensures Indexes(Appended(a, t), e)
  {
    AppendSegments(a, t, e.offset);
    AppendKeeps(a, t, e.offset);
  }

  /** An index stays good when the arena grows at its end. */
  lemma IndexStays(a: seq<Byte>, t: Text, es: seq<Entry>, n: nat, complete: bool, remembered: set<Text>)
    requires Terminated(a) && NulFree(t) && IndexOk(a, es, n, complete, remembered)
    ensures IndexOk(Appended(a, t), es, n, complete, remembered)
  {
    var a' := Appended(a, t);
    forall i | 0 <= i < |es| && es[i].hash != 0 ensures Indexes(a', es[i]) {
      IndexesStays(a, t, es[i]);
    }
    forall x | x in remembered ensures Stored(a', x) && (complete ==> !Absent(a', es, x)) {
      var o: nat :| SegmentStart(a, o) && TextAt(a, o) == x;
      AppendSegments(a, t, o);
      AppendKeeps(a, t, o);
      if complete {
        var e :| Indexed(es, e) && TextAt(a, e.offset) == x;
        assert Indexes(a, e);
        AppendKeeps(a, t, e.offset);
      }
    }
  }

  /** remember_string_in_index for the text just stored at `offset`. */
  method Remember(a: seq<Byte>, es: seq<Entry>, n: nat, complete: bool, memory: bool, offset: nat, t: Text, ghost remembered: set<Text>)
    returns (es': seq<Entry>, n': nat, complete': bool)
    requires Terminated(a) && SegmentStart(a, offset) && TextAt(a, offset) == t
    requires IndexOk(a, es, n, complete, remembered)
    ensures IndexOk(a, es', n', complete', remembered + {t})
    ensures complete' ==> complete && Adds(es, es', Entry(Hash(t), offset, |t|)) && n' == n + 1
    ensures complete' <==> complete && (memory || HasSlot(|es|, n))
    ensures if !complete || HasSlot(|es|, n) then |es'| == |es|
            else complete' ==> |es'| >= 2 * |es| && (|es'| == 1024 || |es'| < 4 * |es|)
  {
    es', n', complete' := es, n, complete;
    assert Stored(a, t);
    if !complete {
      return;
    }
    if |es| == 0 || (n + 1) * 10 >= |es| * 7 {
      complete', es' := Enlarge(a, es, n, memory, remembered);
      if !complete' {
        return;
      }
    }
    ghost var before := es';
    es', n' := AddEntry(a, es', n, offset, t, remembered);
    AddsSame(es, before, es', Entry(Hash(t), offset, |t|));
  }

  /** A table of at least twice the size, 1024 slots at first, with the same entries; or the old one when there is no memory. */
  method Enlarge(a: seq<Byte>, es: seq<Entry>, n: nat, memory: bool, ghost remembered: set<Text>) returns (ok: bool, es': seq<Entry>)
    requires IndexOk(a, es, n, true, remembered)
    ensures ok == memory
    ensures if ok then IndexOk(a, es', n, true, remembered) && Loaded(|es'|, n + 1) && SameEntriesAs(es', es) else es' == es
    ensures ok ==> |es'| >= 2 * |es| && |es'| >= 1024 && (|es'| == 1024 || |es'| < 4 * |es|)
  {
    CountBound(Occupied(es));
    var bigger;
    ok, bigger := Resize(es, if |es| == 0 then MIN_CAPACITY else |es| * 2, memory, n);
    es' := if ok then bigger else es;
    if ok { SameEntries(a, es, bigger, n, remembered); }
  }

  lemma AddsSame(es: seq<Entry>, before: seq<Entry>, es': seq<Entry>, e: Entry)
    requires SameEntriesAs(before, es) && Adds(before, es', e)
    ensures Adds(es, es', e)
  {}

  /** One more entry in a table with a free slot. */
  method AddEntry(a: seq<Byte>, es: seq<Entry>, n: nat, offset: nat, t: Text, ghost remembered: set<Text>) returns (es': seq<Entry>, n': nat)
    requires Terminated(a) && SegmentStart(a, offset) && TextAt(a, offset) == t && n < |es| && Loaded(|es|, n + 1) && IndexOk(a, es, n, true, remembered)
    ensures IndexOk(a, es', n', true, remembered + {t}) && n' == n + 1 && |es'| == |es| && Adds(es, es', Entry(Hash(t), offset, |t|))
  {
    var e := Entry(Hash(t), offset, |t|);
    var ok;
    ok, es' := Insert(es, e, n);
    n' := n + 1;
    SoundAdds(a, es, es', e);
    forall x | x in remembered + {t} ensures !Absent(a, es', x) {
      if x != t {
        var y :| Indexed(es, y) && TextAt(a, y.offset) == x;
        assert Indexed(es', y);
      } else {
        assert Indexed(es', e);
      }
    }
  }

  lemma SameEntries(a: seq<Byte>, es: seq<Entry>, es': seq<Entry>, n: nat, remembered: set<Text>)
    requires IndexOk(a, es, n, true, remembered) && Table(es', n) && SameEntriesAs(es', es)
    ensures Sound(a, es') && forall t :: t in remembered ==> !Absent(a, es', t)
  {
    forall i | 0 <= i < |es'| && es'[i].hash != 0 ensures Indexes(a, es'[i]) {
      assert Indexed(es', es'[i]);
    }
    forall t | t in remembered ensures !Absent(a, es', t) {
      var y :| Indexed(es, y) && TextAt(a, y.offset) == t;
      assert Indexed(es', y);
    }
  }

  lemma HasSegmentStays(a: seq<Byte>, t: Text, es: seq<Entry>, s: nat)
    requires Terminated(a) && NulFree(t) && s < |a| && HasSegment(a, es, s)
    ensures HasSegment(Appended(a, t), es, s)
  {
    AppendKeeps(a, t, s);
  }

  lemma CoversExtended(a: seq<Byte>, t: Text, es: seq<Entry>, es': seq<Entry>)
    requires Terminated(a) && NulFree(t) && Covers(a, es, |a|) && Adds(es, es', Entry(Hash(t), |a|, |t|))
    ensures Covers(Appended(a, t), es', |Appended(a, t)|)
  {
    var a' := Appended(a, t);
    AppendStores(a, t);
    forall s: nat | SegmentStart(a', s) && s < |a'| ensures HasSegment(a', es', s) {
      AppendSegments(a, t, s);
      if s < |a| { HasSegmentStays(a, t, es, s); }
      HasSegmentAdds(a', es, es', Entry(Hash(t), |a|, |t|), s);
    }
  }

  /** A text written to the end of the arena and remembered. */
  method Extend(a: seq<Byte>, t: Text, es: seq<Entry>, n: nat, complete: bool, memory: bool, ghost remembered: set<Text>)
    returns (es': seq<Entry>, n': nat, complete': bool)
    requires Terminated(a) && NulFree(t) && IndexOk(a, es, n, complete, remembered)
    ensures Terminated(Appended(a, t)) && IndexOk(Appended(a, t), es', n', complete', remembered + {t})
    ensures Covered(a, es, complete) ==> Covered(Appended(a, t), es', complete')
    ensures complete' <==> complete && (memory || HasSlot(|es|, n))
  {
    AppendStores(a, t);
    IndexStays(a, t, es, n, complete, remembered);
    es', n', complete' := Remember(Appended(a, t), es, n, complete, memory, |a|, t, remembered);
    if complete' && Covers(a, es, |a|) { CoversExtended(a, t, es, es'); }
  }
}
