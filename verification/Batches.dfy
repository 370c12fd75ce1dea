/**
 Worker batches: one byte string framing many payloads, and the window that turns
 payloads into tasks in order, group by group, as slots of the task table come free.
 */
module Batches {
  import opened CText
  import opened Codec

  // ----- framing

  predicate PayloadOk(p: seq<Byte>) {
    |p| < TWO32
  }

  /** A payload in a batch: its length, then its bytes. */
  function EncodePayload(p: seq<Byte>): seq<Byte> {
    Field(|p|) + p
  }

  function ParsePayload(b: seq<Byte>): Parsed<seq<Byte>> {
    if |b| < 4 || 4 + ReadU32(b) > |b| then Fail else Done(b[4..4 + ReadU32(b)], 4 + ReadU32(b))
  }

  lemma PayloadSound(b: seq<Byte>)
    requires ParsePayload(b).Done?
    ensures var r := ParsePayload(b); PayloadOk(r.value) && 0 < r.size <= |b| && b[..r.size] == EncodePayload(r.value)
  {
    FieldWrites(b);
    assert b[..4 + ReadU32(b)] == b[..4] + b[4..4 + ReadU32(b)];
  }

  lemma PayloadComplete(p: seq<Byte>, rest: seq<Byte>)
    requires PayloadOk(p)
    ensures ParsePayload(EncodePayload(p) + rest) == Done(p, |EncodePayload(p)|)
  {
    var b := EncodePayload(p) + rest;
    assert b == Field(|p|) + (p + rest);
    FieldReads(|p|, p + rest);
    assert b[4..4 + |p|] == p;
  }

  ghost predicate AllPayloads(ps: seq<seq<Byte>>) {
    forall i :: 0 <= i < |ps| ==> PayloadOk(ps[i])
  }

  function Frame(ps: seq<seq<Byte>>): seq<Byte> {
    Concat(EncodePayload, ps)
  }

  ghost predicate IsFraming(b: seq<Byte>, ps: seq<seq<Byte>>) {
    AllPayloads(ps) && Frame(ps) == b
  }

  /** Framings of which one begins the other: the payloads begin the others. */
  lemma {:induction false} FramePrefix(a: seq<seq<Byte>>, b: seq<seq<Byte>>)
    requires AllPayloads(a) && AllPayloads(b) && Frame(a) <= Frame(b)
    ensures a <= b
    decreases |a|
  {
    if a != [] {
      var e, y := EncodePayload(a[0]), Frame(b);
      assert y[..|e|] == e;
      PayloadComplete(a[0], y[|e|..]);
      assert y == e + y[|e|..];
      assert b != [];
      PayloadComplete(b[0], Frame(b[1..]));
      assert a[0] == b[0];
      assert Frame(a)[|e|..] == Frame(a[1..]) && y[|e|..] == Frame(b[1..]);
      FramePrefix(a[1..], b[1..]);
    }
  }

  /** A batch frames one list of payloads. */
  lemma OneFraming(b: seq<Byte>, ps: seq<seq<Byte>>, qs: seq<seq<Byte>>)
    requires IsFraming(b, ps) && IsFraming(b, qs)
    ensures ps == qs
  {
    FramePrefix(ps, qs);
    FramePrefix(qs, ps);
  }

  /** After a framed prefix, bytes that do not parse as a payload leave no framing of the whole. */
  lemma NoFraming(b: seq<Byte>, offset: nat, done: seq<seq<Byte>>)
    requires offset < |b| && IsFraming(b[..offset], done) && ParsePayload(b[offset..]).Fail?
    ensures forall ps :: !IsFraming(b, ps)
  {
    forall ps | IsFraming(b, ps) ensures false {
      FramePrefix(done, ps);
      var rest := ps[|done|..];
      assert ps == done + rest;
      ConcatJoin(EncodePayload, done, rest);
      assert b[offset..] == Frame(rest);
      assert rest != [];
      PayloadComplete(rest[0], Frame(rest[1..]));
    }
  }

  /** validate_batch: accepts exactly the framings of at least one payload, and counts them. */
  method ValidateBatch(b: seq<Byte>) returns (ok: bool, count: nat, ghost ps: seq<seq<Byte>>)
    ensures ok ==> IsFraming(b, ps) && |ps| == count > 0
    ensures !ok ==> forall other :: IsFraming(b, other) ==> other == []
  {
    ps, count := [], 0;
    var offset := 0;
    while offset < |b|
      invariant 0 <= offset <= |b| && IsFraming(b[..offset], ps) && |ps| == count && (offset > 0 ==> count > 0)
    {
      var one := ParsePayload(b[offset..]);
      if one.Fail? {
        NoFraming(b, offset, ps);
        return false, 0, ps;
      }
      PayloadSound(b[offset..]);
      FrameNext(b, offset, ps, one.value, one.size);
      ps := ps + [one.value];
      offset, count := offset + one.size, count + 1;
    }
    assert b[..offset] == b;
    if count == 0 {
      forall other | IsFraming(b, other) ensures other == [] { FramePrefix(other, []); }
      return false, 0, ps;
    }
    ok := true;
  }

  lemma FrameNext(b: seq<Byte>, offset: nat, ps: seq<seq<Byte>>, p: seq<Byte>, size: nat)
    requires offset <= |b| && size <= |b| - offset && IsFraming(b[..offset], ps) && PayloadOk(p) && b[offset..][..size] == EncodePayload(p)
    ensures IsFraming(b[..offset + size], ps + [p])
  {
    ConcatOne(EncodePayload, ps, p);
    assert b[..offset + size] == b[..offset] + b[offset..][..size];
  }

  // ----- what a submission may add

  /** What was accepted so far and how much is allowed: logical tasks, bytes of batches, groups, group handles. */
  datatype Workload = Workload(tasks: nat, taskLimit: nat, bytes: nat, byteLimit: nat, groups: nat, groupLimit: nat, nextGroup: int, lastGroup: int)

  /** The batch frames at least one payload and fits within every bound. */
  ghost predicate Admissible(batch: seq<Byte>, load: Workload) {
    exists ps :: IsFraming(batch, ps) && ps != [] && Fits(batch, ps, load)
  }

  ghost predicate Fits(batch: seq<Byte>, ps: seq<seq<Byte>>, load: Workload) {
    && load.tasks + |ps| <= load.taskLimit && load.bytes + |batch| <= load.byteLimit
    && load.groups < load.groupLimit && load.nextGroup < load.lastGroup
  }

  lemma AdmissibleIff(batch: seq<Byte>, ps: seq<seq<Byte>>, load: Workload)
    requires IsFraming(batch, ps) && ps != []
    ensures Admissible(batch, load) <==> Fits(batch, ps, load)
  {
    if qs :| IsFraming(batch, qs) && qs != [] && Fits(batch, qs, load) { OneFraming(batch, ps, qs); }
  }

  // ----- groups

  datatype Group = Group(handle: int, batch: seq<Byte>, offsets: seq<nat>, lengths: seq<nat>, handles: seq<int>, next: nat)

  function Payload(g: Group, i: nat): seq<Byte> {
    if i < |g.offsets| && i < |g.lengths| && g.offsets[i] + g.lengths[i] <= |g.batch| then g.batch[g.offsets[i]..g.offsets[i] + g.lengths[i]] else []
  }

  /** The slices a group records are the payloads its batch frames. */
  ghost predicate Slices(g: Group, ps: seq<seq<Byte>>) {
    && IsFraming(g.batch, ps) && |g.offsets| == |ps| && |g.lengths| == |ps|
    && forall i :: 0 <= i < |ps| ==> SliceAt(g.batch, g.offsets[i], g.lengths[i], ps[i])
  }

  ghost predicate SliceAt(b: seq<Byte>, offset: nat, length: nat, p: seq<Byte>) {
    offset + length <= |b| && b[offset..offset + length] == p
  }

  /** The parsing loop of aivm_vm_submit_worker_tasks over a batch already validated. */
  method SliceBatch(b: seq<Byte>, ghost ps: seq<seq<Byte>>) returns (offsets: seq<nat>, lengths: seq<nat>)
    requires IsFraming(b, ps)
    ensures |offsets| == |lengths| == |ps| && forall i :: 0 <= i < |ps| ==> SliceAt(b, offsets[i], lengths[i], ps[i])
  {
    offsets, lengths := [], [];
    var offset := 0;
    ghost var k: nat := 0;
    while offset < |b|
      invariant k <= |ps| && |offsets| == |lengths| == k && 0 <= offset <= |b| && Frame(ps[..k]) == b[..offset] && Frame(ps[k..]) == b[offset..]
      invariant forall i :: 0 <= i < k ==> SliceAt(b, offsets[i], lengths[i], ps[i])
      decreases |b| - offset
    {
      SliceNext(b, ps, k, offset);
      var length := ReadU32(b[offset..]);
      offsets, lengths := offsets + [offset + 4], lengths + [length];
      offset := offset + 4 + length;
      k := k + 1;
    }
    FrameLength(ps[k..]);
  }

  lemma FrameLength(ps: seq<seq<Byte>>)
    ensures if ps == [] then Frame(ps) == [] else |Frame(ps)| >= 4
  {}

  lemma FrameHead(ps: seq<seq<Byte>>)
    requires ps != []
    ensures Frame(ps) == EncodePayload(ps[0]) + Frame(ps[1..])
  {}

  /** The next payload stands at `offset`, and the framings before and after it meet there. */
  lemma SliceNext(b: seq<Byte>, ps: seq<seq<Byte>>, k: nat, offset: nat)
    requires AllPayloads(ps) && k <= |ps| && offset < |b| && Frame(ps[..k]) == b[..offset] && Frame(ps[k..]) == b[offset..]
    ensures k < |ps| && |b[offset..]| >= 4 && ReadU32(b[offset..]) == |ps[k]| && SliceAt(b, offset + 4, |ps[k]|, ps[k])
    ensures Frame(ps[..k + 1]) == b[..offset + 4 + |ps[k]|] && Frame(ps[k + 1..]) == b[offset + 4 + |ps[k]|..]
  {
    FrameLength(ps[k..]);
    var p, u := ps[k], b[offset..];
    PayloadFirst(ps[k..], u);
    assert ps[k..][0] == p && ps[k..][1..] == ps[k + 1..];
    var end := 4 + |p|;
    assert b[offset + 4..offset + end] == u[4..end];
    assert b[offset + end..] == u[end..];
    assert b[..offset + end] == b[..offset] + u[..end];
    ConcatOne(EncodePayload, ps[..k], p);
    assert ps[..k] + [p] == ps[..k + 1];
  }

  lemma PayloadFirst(ps: seq<seq<Byte>>, u: seq<Byte>)
    requires ps != [] && AllPayloads(ps) && Frame(ps) == u
    ensures |u| >= 4 + |ps[0]| && ReadU32(u) == |ps[0]| && u[4..4 + |ps[0]|] == ps[0]
    ensures u[..4 + |ps[0]|] == EncodePayload(ps[0]) && u[4 + |ps[0]|..] == Frame(ps[1..])
  {
    var e, rest := EncodePayload(ps[0]), Frame(ps[1..]);
    FrameHead(ps);
    PayloadComplete(ps[0], rest);
    assert u == e + rest && |e| == 4 + |ps[0]|;
  }

  // ----- the window

  /** Where a submission comes from: alone, or from a payload of a group. */
  datatype Origin = Alone | Member(group: nat, index: nat)

  /** A task handle, the payload submitted under it, and where it comes from. */
  datatype Submission = Submission(handle: int, payload: seq<Byte>, origin: Origin)

  /** Before (g, i) in the order of groups and, within a group, of payloads. */
  predicate Before(g: nat, i: nat, g': nat, i': nat) {
    g < g' || (g == g' && i < i')
  }

  ghost predicate Made(groups: seq<Group>, g: nat, i: nat) {
    g < |groups| && i < |groups[g].handles| && groups[g].handles[i] != 0
  }

  /** Handles exist exactly below each group's mark, and a group is begun only when the ones before it are done. */
  ghost predicate Windowed(groups: seq<Group>) {
    && (forall g: nat {:trigger Marks(groups, g)} :: g < |groups| ==> Marks(groups, g))
    && (forall g: nat, g': nat {:trigger Waits(groups, g, g')} :: g < g' < |groups| ==> Waits(groups, g, g'))
  }

  ghost predicate Marks(groups: seq<Group>, g: nat) {
    && g < |groups| && groups[g].next <= |groups[g].handles|
    && forall i :: 0 <= i < |groups[g].handles| ==> (groups[g].handles[i] != 0 <==> i < groups[g].next)
  }

  ghost predicate Waits(groups: seq<Group>, g: nat, g': nat) {
    g < g' < |groups| && (groups[g].next < |groups[g].handles| ==> groups[g'].next == 0)
  }

  /** Handles increase across groups and payloads, and all were issued. */
  ghost predicate Rising(groups: seq<Group>, nextHandle: int) {
    && (forall g: nat, i: nat, g': nat, i': nat {:trigger Rises(groups, g, i, g', i')} ::
          Made(groups, g, i) && Made(groups, g', i') && Before(g, i, g', i') ==> Rises(groups, g, i, g', i'))
    && (forall g: nat, i: nat {:trigger Issued(groups, g, i, nextHandle)} :: Made(groups, g, i) ==> Issued(groups, g, i, nextHandle))
  }

  ghost predicate Rises(groups: seq<Group>, g: nat, i: nat, g': nat, i': nat) {
    Made(groups, g, i) && Made(groups, g', i') && groups[g].handles[i] < groups[g'].handles[i']
  }

  ghost predicate Issued(groups: seq<Group>, g: nat, i: nat, nextHandle: int) {
    Made(groups, g, i) && 0 < groups[g].handles[i] < nextHandle
  }

  /** Every handle made was submitted with its own payload, and ids were submitted in increasing order. */
  ghost predicate Logged(groups: seq<Group>, nextHandle: int, log: seq<Submission>) {
    && (forall k: nat {:trigger Follows(log, k)} :: k < |log| ==> Follows(log, k))
    && (forall k: nat {:trigger Sent(groups, nextHandle, log, k)} :: k < |log| ==> Sent(groups, nextHandle, log, k))
    && (forall g: nat, i: nat {:trigger InLog(groups, g, i, log)} :: Made(groups, g, i) ==> InLog(groups, g, i, log))
  }

  ghost predicate Follows(log: seq<Submission>, k: nat) {
    k < |log| && forall j :: 0 <= j < k ==> log[j].handle < log[k].handle
  }

  /** The task made of a payload was submitted with it. */
  ghost predicate InLog(groups: seq<Group>, g: nat, i: nat, log: seq<Submission>) {
    Made(groups, g, i) && Submission(groups[g].handles[i], Payload(groups[g], i), Member(g, i)) in log
  }

  /** What was submitted under a handle issued, and from a payload of a group only under the handle recorded there. */
  ghost predicate Sent(groups: seq<Group>, nextHandle: int, log: seq<Submission>, k: nat) {
    k < |log| && 0 < log[k].handle < nextHandle && FromMade(groups, log[k])
  }

  /** A submission from a group has the handle recorded there. */
  ghost predicate FromMade(groups: seq<Group>, s: Submission) {
    s.origin.Member? ==> Made(groups, s.origin.group, s.origin.index) && groups[s.origin.group].handles[s.origin.index] == s.handle
  }

  /** No payload of a group is submitted twice. */
  lemma SubmittedOnce(groups: seq<Group>, nextHandle: int, log: seq<Submission>, j: nat, k: nat)
    requires Logged(groups, nextHandle, log) && j < k < |log| && log[j].origin.Member?
    ensures log[j].origin != log[k].origin
  {
    assert Sent(groups, nextHandle, log, j) && Sent(groups, nextHandle, log, k) && Follows(log, k);
  }

  ghost predicate WindowOk(groups: seq<Group>, nextHandle: int, log: seq<Submission>) {
    Windowed(groups) && Rising(groups, nextHandle) && Logged(groups, nextHandle, log)
  }

  /** Group `g` is where the window stands: everything before it is made, nothing after it is. */
  ghost predicate Standing(groups: seq<Group>, g: nat) {
    && g <= |groups|
    && (forall k :: 0 <= k < g ==> groups[k].next == |groups[k].handles|)
    && (forall k :: g < k < |groups| ==> groups[k].next == 0)
  }

  function Marked(groups: seq<Group>, g: nat, handle: int): seq<Group>
    requires g < |groups| && groups[g].next < |groups[g].handles|
  {
    groups[g := groups[g].(handles := groups[g].handles[groups[g].next := handle], next := groups[g].next + 1)]
  }

  lemma MadeAfterMark(groups: seq<Group>, g: nat, handle: int, k: nat, i: nat)
    requires Windowed(groups) && g < |groups| && groups[g].next < |groups[g].handles| && handle != 0
    ensures Made(Marked(groups, g, handle), k, i) <==> Made(groups, k, i) || (k == g && i == groups[g].next)
    ensures Made(groups, k, i) ==> Marked(groups, g, handle)[k].handles[i] == groups[k].handles[i]
  {
    assert Marks(groups, g);
  }

  /** One more payload made into a task keeps the window. */
  lemma MarkKeepsWindow(groups: seq<Group>, nextHandle: int, log: seq<Submission>, g: nat)
    requires WindowOk(groups, nextHandle, log) && g < |groups| && Standing(groups, g) && groups[g].next < |groups[g].handles| && nextHandle > 0
    ensures var groups' := Marked(groups, g, nextHandle);
            WindowOk(groups', nextHandle + 1, log + [Submission(nextHandle, Payload(groups[g], groups[g].next), Member(g, groups[g].next))]) && Standing(groups', g)
  {
    var n := groups[g].next;
    var groups' := Marked(groups, g, nextHandle);
    var log' := log + [Submission(nextHandle, Payload(groups[g], n), Member(g, n))];
    forall k: nat | k < |groups'| ensures Marks(groups', k) { assert Marks(groups, k); }
    forall k: nat, k': nat | k < k' < |groups'| ensures Waits(groups', k, k') { assert Waits(groups, k, k'); }
    forall k: nat, i: nat | Made(groups', k, i) ensures Issued(groups', k, i, nextHandle + 1) && InLog(groups', k, i, log') {
      MadeAfterMark(groups, g, nextHandle, k, i);
      if k == g && i == n {
        assert log'[|log|] == Submission(nextHandle, Payload(groups[g], n), Member(g, n));
      } else {
        assert Issued(groups, k, i, nextHandle) && InLog(groups, k, i, log);
      }
    }
    forall k: nat, i: nat, k': nat, i': nat | Made(groups', k, i) && Made(groups', k', i') && Before(k, i, k', i') ensures Rises(groups', k, i, k', i') {
      MarkRises(groups, nextHandle, g, k, i, k', i');
    }
    forall k: nat | k < |log'| ensures Follows(log', k) {
      if k < |log| {
        assert Follows(log, k);
      } else {
        forall j | 0 <= j < k ensures log'[j].handle < nextHandle { assert Sent(groups, nextHandle, log, j); }
      }
    }
    var later := nextHandle + 1;
    forall k: nat | k < |log'| ensures Sent(groups', later, log', k) {
      if k < |log| {
        assert Sent(groups, nextHandle, log, k);
        if log[k].origin.Member? { MadeAfterMark(groups, g, nextHandle, log[k].origin.group, log[k].origin.index); }
      }
    }
  }

  lemma MarkRises(groups: seq<Group>, nextHandle: int, g: nat, k: nat, i: nat, k': nat, i': nat)
    requires Windowed(groups) && Rising(groups, nextHandle) && g < |groups| && Standing(groups, g) && groups[g].next < |groups[g].handles| && nextHandle > 0
    requires var groups' := Marked(groups, g, nextHandle); Made(groups', k, i) && Made(groups', k', i') && Before(k, i, k', i')
    ensures var groups' := Marked(groups, g, nextHandle); groups'[k].handles[i] < groups'[k'].handles[i']
  {
    MadeAfterMark(groups, g, nextHandle, k, i);
    MadeAfterMark(groups, g, nextHandle, k', i');
    assert Marks(groups, k');
    if Made(groups, k, i) {
      assert Issued(groups, k, i, nextHandle);
      if Made(groups, k', i') { assert Rises(groups, k, i, k', i'); }
    }
  }

  /** A new group behind the others. */
  lemma GroupKeepsWindow(groups: seq<Group>, nextHandle: int, log: seq<Submission>, g: Group)
    requires WindowOk(groups, nextHandle, log) && g.next == 0 && forall i :: 0 <= i < |g.handles| ==> g.handles[i] == 0
    ensures WindowOk(groups + [g], nextHandle, log)
  {
    var groups' := groups + [g];
    forall k: nat | k < |groups'| ensures Marks(groups', k) { if k < |groups| { assert Marks(groups, k); } }
    forall k: nat, k': nat | k < k' < |groups'| ensures Waits(groups', k, k') { if k' < |groups| { assert Waits(groups, k, k'); } }
    forall k: nat, i: nat | Made(groups', k, i) ensures Made(groups, k, i) && Issued(groups', k, i, nextHandle) && InLog(groups', k, i, log) {
      assert Issued(groups, k, i, nextHandle) && InLog(groups, k, i, log);
    }
    forall k: nat, i: nat, k': nat, i': nat | Made(groups', k, i) && Made(groups', k', i') && Before(k, i, k', i') ensures Rises(groups', k, i, k', i') {
      assert Rises(groups, k, i, k', i');
    }
    forall k: nat | k < |log| ensures Sent(groups', nextHandle, log, k) { assert Sent(groups, nextHandle, log, k); }
  }

  /** A group's slices are the payloads its batch frames, one handle for each. */
  ghost predicate Framed(g: Group) {
    exists ps: seq<seq<Byte>> :: Slices(g, ps) && |ps| == |g.handles|
  }

  ghost predicate AllFramed(groups: seq<Group>) {
    forall g {:trigger Framed(groups[g])} :: 0 <= g < |groups| ==> Framed(groups[g])
  }

  lemma MarkKeepsFramed(groups: seq<Group>, g: nat, handle: int)
    requires AllFramed(groups) && g < |groups| && groups[g].next < |groups[g].handles|
    ensures AllFramed(Marked(groups, g, handle))
  {
    var groups' := Marked(groups, g, handle);
    forall k | 0 <= k < |groups'| ensures Framed(groups'[k]) {
      assert Framed(groups[k]);
      var ps: seq<seq<Byte>> :| Slices(groups[k], ps) && |ps| == |groups[k].handles|;
      assert Slices(groups'[k], ps);
    }
  }

  ghost predicate SameBatch(g: Group, g': Group) {
    g.handle == g'.handle && g.batch == g'.batch && g.offsets == g'.offsets && g.lengths == g'.lengths && |g.handles| == |g'.handles|
  }

  /** A group as it was or further on: the same batch and slices, every task made still there, the mark never back. */
  ghost predicate GroupKept(g: Group, g': Group) {
    SameBatch(g', g) && g.next <= g'.next && forall i :: 0 <= i < |g.handles| && g.handles[i] != 0 ==> g'.handles[i] == g.handles[i]
  }

  /** Every group is kept, and new ones stand behind. */
  ghost predicate GroupsKept(groups: seq<Group>, groups': seq<Group>) {
    |groups| <= |groups'| && forall k {:trigger GroupKept(groups[k], groups'[k])} :: 0 <= k < |groups| ==> GroupKept(groups[k], groups'[k])
  }

  lemma GroupsKeptSelf(groups: seq<Group>)
    ensures GroupsKept(groups, groups)
  {}

  /** What was there is still there, and the groups are as many: groups kept, submissions and slots only added. */
  ghost predicate Progress<T>(groups: seq<Group>, log: seq<Submission>, slots: seq<T>, groups': seq<Group>, log': seq<Submission>, slots': seq<T>) {
    |groups'| == |groups| && GroupsKept(groups, groups') && log <= log' && slots <= slots'
  }

  lemma ProgressTwice<T>(a: seq<Group>, la: seq<Submission>, sa: seq<T>, b: seq<Group>, lb: seq<Submission>, sb: seq<T>, c: seq<Group>, lc: seq<Submission>, sc: seq<T>)
    requires Progress(a, la, sa, b, lb, sb) && Progress(b, lb, sb, c, lc, sc)
    ensures Progress(a, la, sa, c, lc, sc)
  {
    GroupsKeptTwice(a, b, c);
  }

  lemma GroupsKeptTwice(a: seq<Group>, b: seq<Group>, c: seq<Group>)
    requires GroupsKept(a, b) && GroupsKept(b, c)
    ensures GroupsKept(a, c)
  {
    forall k | 0 <= k < |a| ensures GroupKept(a[k], c[k]) {
      assert GroupKept(a[k], b[k]) && GroupKept(b[k], c[k]);
    }
  }

  /** One more group behind the others, with the slices of the payloads its batch frames. */
  ghost predicate GroupAdded(groups: seq<Group>, groups': seq<Group>, handle: int, batch: seq<Byte>, ps: seq<seq<Byte>>) {
    && |groups'| == |groups| + 1 && GroupsKept(groups, groups')
    && var g := groups'[|groups|];
    g.handle == handle && g.batch == batch && Slices(g, ps) && |g.handles| == |ps| > 0
  }

  lemma FilledKeepsAdded(groups: seq<Group>, mid: seq<Group>, groups': seq<Group>, handle: int, batch: seq<Byte>, ps: seq<seq<Byte>>)
    requires GroupAdded(groups, mid, handle, batch, ps) && |groups'| == |mid| && GroupsKept(mid, groups')
    ensures GroupAdded(groups, groups', handle, batch, ps)
  {
    GroupsKeptTwice(groups, mid, groups');
    assert GroupKept(mid[|groups|], groups'[|groups|]);
  }

  /** No handle is left, or the runtime refused the last one issued. */
  ghost predicate Stuck(takes: int -> bool, nextHandle: int) {
    nextHandle >= 0x7FFF_FFFF_FFFF_FFFF || !takes(nextHandle - 1)
  }

  /** Everything the window keeps. */
  ghost predicate Intact(groups: seq<Group>, nextHandle: int, log: seq<Submission>) {
    WindowOk(groups, nextHandle, log) && AllFramed(groups)
  }

  lemma FramedPayload(g: Group, i: nat, ps: seq<seq<Byte>>)
    requires Framed(g) && IsFraming(g.batch, ps) && i < |g.handles|
    ensures i < |ps| && Payload(g, i) == ps[i]
  {
    var known: seq<seq<Byte>> :| Slices(g, known) && |known| == |g.handles|;
    OneFraming(g.batch, ps, known);
    assert SliceAt(g.batch, g.offsets[i], g.lengths[i], ps[i]);
  }

  /** Every task made from a group was submitted with the payload its batch frames in that place. */
  lemma SubmitsFramedPayload(groups: seq<Group>, nextHandle: int, log: seq<Submission>, g: nat, i: nat, ps: seq<seq<Byte>>)
    requires Logged(groups, nextHandle, log) && AllFramed(groups) && Made(groups, g, i) && IsFraming(groups[g].batch, ps)
    ensures i < |ps| && Submission(groups[g].handles[i], ps[i], Member(g, i)) in log
  {
    assert InLog(groups, g, i, log);
    FramedPayload(groups[g], i, ps);
  }

  /** Groups before `g` have all their tasks. */
  ghost predicate DoneBefore(groups: seq<Group>, g: nat) {
    forall k :: 0 <= k < g && k < |groups| ==> groups[k].next == |groups[k].handles|
  }

  lemma DoneNext(groups: seq<Group>, g: nat)
    requires Windowed(groups) && g < |groups| && DoneBefore(groups, g)
    ensures groups[g].next >= |groups[g].handles| ==> DoneBefore(groups, g + 1)
  {
    assert Marks(groups, g);
  }

  /** Payloads of group `g` above its mark. */
  function Left(groups: seq<Group>, g: nat): nat {
    if g < |groups| && groups[g].next <= |groups[g].handles| then |groups[g].handles| - groups[g].next else 0
  }

  /** Group `g` is the next to have a task made. */
  ghost predicate CanAdvance(groups: seq<Group>, g: nat) {
    g < |groups| && DoneBefore(groups, g) && groups[g].next < |groups[g].handles|
  }

  lemma StandsAt(groups: seq<Group>, g: nat)
    requires Windowed(groups) && g < |groups| && DoneBefore(groups, g) && groups[g].next < |groups[g].handles|
    ensures Standing(groups, g)
  {
    forall k | g < k < |groups| ensures groups[k].next == 0 { assert Waits(groups, g, k); }
  }

  /** The next payload of group `g` submitted under `handle`, and its mark moved on. */
  ghost predicate Advanced(groups: seq<Group>, log: seq<Submission>, g: nat, handle: int, groups': seq<Group>, log': seq<Submission>) {
    && g < |groups| == |groups'| && GroupAdvanced(groups[g], handle, groups'[g]) && SameOthers(groups, g, groups')
    && log' == log + [Submission(handle, Payload(groups[g], groups[g].next), Member(g, groups[g].next))]
  }

  ghost predicate GroupAdvanced(g: Group, handle: int, g': Group) {
    g.next < |g.handles| && g' == g.(handles := g.handles[g.next := handle], next := g.next + 1)
  }

  ghost predicate SameOthers(groups: seq<Group>, g: nat, groups': seq<Group>) {
    |groups| == |groups'| && forall k :: 0 <= k < |groups| && k != g ==> groups'[k] == groups[k]
  }

  lemma AdvanceKeepsIntact(groups: seq<Group>, nextHandle: int, log: seq<Submission>, g: nat, groups': seq<Group>, log': seq<Submission>)
    requires Intact(groups, nextHandle, log) && DoneBefore(groups, g) && nextHandle > 0 && Advanced(groups, log, g, nextHandle, groups', log')
    ensures Intact(groups', nextHandle + 1, log')
  {
    StandsAt(groups, g);
    assert groups' == Marked(groups, g, nextHandle);
    MarkKeepsWindow(groups, nextHandle, log, g);
    MarkKeepsFramed(groups, g, nextHandle);
  }

  lemma AdvanceKeepsBatches(groups: seq<Group>, log: seq<Submission>, g: nat, handle: int, groups': seq<Group>, log': seq<Submission>)
    requires Advanced(groups, log, g, handle, groups', log')
    requires Windowed(groups)
    ensures |groups'| == |groups| && GroupsKept(groups, groups') && (DoneBefore(groups, g) ==> DoneBefore(groups', g)) && log <= log'
    ensures groups'[g].next == groups[g].next + 1 && Left(groups', g) < Left(groups, g)
  {
    forall k | 0 <= k < |groups| ensures GroupKept(groups[k], groups'[k]) {
      if k == g { assert GroupAdvanced(groups[g], handle, groups'[g]) && Marks(groups, g); }
    }
  }

  /** The value of one step of the mark. */
  method Advance(groups: seq<Group>, ghost log: seq<Submission>, g: nat, handle: int) returns (groups': seq<Group>, ghost log': seq<Submission>)
    requires Intact(groups, handle, log) && CanAdvance(groups, g) && handle > 0
    ensures Advanced(groups, log, g, handle, groups', log') && Intact(groups', handle + 1, log')
  {
    groups', log' := Marked(groups, g, handle), log + [Submission(handle, Payload(groups[g], groups[g].next), Member(g, groups[g].next))];
    AdvanceKeepsIntact(groups, handle, log, g, groups', log');
  }

  /** Handles issued and not submitted keep the window. */
  lemma SpentKeepsIntact(groups: seq<Group>, nextHandle: int, log: seq<Submission>, later: int)
    requires Intact(groups, nextHandle, log) && nextHandle <= later
    ensures Intact(groups, later, log)
  {
    forall g: nat, i: nat | Made(groups, g, i) ensures Issued(groups, g, i, later) { assert Issued(groups, g, i, nextHandle); }
    forall k: nat | k < |log| ensures Sent(groups, later, log, k) { assert Sent(groups, nextHandle, log, k); }
  }

  /** A handle submitted outside any group keeps the window. */
  lemma OtherKeepsIntact(groups: seq<Group>, nextHandle: int, log: seq<Submission>, payload: seq<Byte>)
    requires Intact(groups, nextHandle, log) && nextHandle > 0
    ensures Intact(groups, nextHandle + 1, log + [Submission(nextHandle, payload, Alone)])
  {
    var log' := log + [Submission(nextHandle, payload, Alone)];
    var later := nextHandle + 1;
    SpentKeepsIntact(groups, nextHandle, log, later);
    forall g: nat, i: nat | Made(groups, g, i) ensures InLog(groups, g, i, log') { assert InLog(groups, g, i, log); }
    forall k: nat | k < |log'| ensures Sent(groups, later, log', k) {
      if k < |log| { assert Sent(groups, nextHandle, log, k); }
    }
    forall k: nat | k < |log'| ensures Follows(log', k) {
      if k < |log| {
        assert Follows(log, k);
      } else {
        forall j | 0 <= j < k ensures log'[j].handle < nextHandle { assert Sent(groups, nextHandle, log, j); }
      }
    }
  }

  /** The group of a batch that frames `ps`, with no task made yet. */
  method MakeGroup(handle: int, batch: seq<Byte>, ghost ps: seq<seq<Byte>>) returns (g: Group)
    requires IsFraming(batch, ps)
    ensures g.handle == handle && g.batch == batch && Slices(g, ps) && |g.handles| == |ps| && Framed(g)
    ensures g.next == 0 && forall i :: 0 <= i < |g.handles| ==> g.handles[i] == 0
  {
    var offsets, lengths := SliceBatch(batch, ps);
    g := Group(handle, batch, offsets, lengths, seq(|offsets|, _ => 0), 0);
    assert Slices(g, ps);
  }

  lemma GroupKeepsIntact(groups: seq<Group>, nextHandle: int, log: seq<Submission>, g: Group)
    requires Intact(groups, nextHandle, log) && g.next == 0 && (forall i :: 0 <= i < |g.handles| ==> g.handles[i] == 0) && Framed(g)
    ensures Intact(groups + [g], nextHandle, log)
  {
    GroupKeepsWindow(groups, nextHandle, log, g);
  }
}
