/**
 The worker runtime over the scheduler: a table of invocations, changed only by
 the owner thread, whose entries the scheduler's tasks point to. The owner's calls
 are split where workers can interleave: an entry is placed before it is submitted
 and freed after it is released.
 */
module Runtime {
  import opened CText
  import opened Liveness
  import opened Scheduler

  datatype Outcome = Pending | Returned(ok: bool, data: seq<Byte>)

  datatype Entry = Vacant | Entry(id: int, payload: seq<Byte>, outcome: Outcome)

  datatype Owner =
    | Idle
    | Placed(at: nat)        // in submit, before the scheduler has the task
    | Refusing(at: nat)      // the scheduler refused it; not rolled back yet
    | Freeing(at: nat)       // in release, after the scheduler let go of the task

  datatype Answer = WasCanceled | Result(outcome: Outcome)

  datatype RState = RState(sched: State, entries: seq<Entry>, owner: Owner, given: map<int, seq<Byte>>)

  datatype RStep =
    | Inner(step: Step)                              // a worker, an awaiter or a cancel
    | Execute(w: nat)                                // `run` fills in its invocation and returns
    | Place(id: int, payload: seq<Byte>, at: nat)
    | SubmitOk(at: nat)
    | SubmitRefused
    | RollBack
    | ReleaseTask(at: nat, slot: nat)
    | FreeEntry

  ghost predicate HasEntry(entries: seq<Entry>, id: int) {
    exists c :: 0 <= c < |entries| && entries[c].Entry? && entries[c].id == id
  }

  predicate InnerStep(step: Step) {
    !step.Submit? && !step.Release? && !step.Return?
  }

  ghost predicate RNext(exec: seq<Byte> -> Outcome, r: RState, step: RStep, r': RState) {
    match step
    case Inner(inner) =>
      InnerStep(inner) && Next(r.sched, inner, r'.sched) && r' == r.(sched := r'.sched)
    case Execute(w) =>
      && Next(r.sched, Return(w), r'.sched)
      && var c := r.sched.workers[w].context;
      && c < |r.entries| && r.entries[c].Entry?
      && r' == r.(sched := r'.sched, entries := r.entries[c := r.entries[c].(outcome := exec(r.entries[c].payload))])
    case Place(id, payload, at) =>
      && r.owner == Idle && !HasEntry(r.entries, id) && at < |r.entries| && r.entries[at].Vacant?
      && r' == r.(entries := r.entries[at := Entry(id, payload, Pending)], owner := Placed(at), given := r.given[id := payload])
    case SubmitOk(at) =>
      && r.owner.Placed? && r.owner.at < |r.entries| && r.entries[r.owner.at].Entry?
      && Next(r.sched, Submit(r.entries[r.owner.at].id, r.owner.at, at), r'.sched)
      && r' == r.(sched := r'.sched, owner := Idle)
    case SubmitRefused =>
      && r.owner.Placed? && r.owner.at < |r.entries| && r.entries[r.owner.at].Entry?
      && (r.sched.count >= |r.sched.slots| || Has(r.sched.slots, r.entries[r.owner.at].id))
      && r' == r.(owner := Refusing(r.owner.at))
    case RollBack =>
      && r.owner.Refusing? && r.owner.at < |r.entries|
      && r' == r.(entries := r.entries[r.owner.at := Vacant], owner := Idle)
    case ReleaseTask(at, slot) =>
      && r.owner == Idle && at < |r.entries| && r.entries[at].Entry? && slot < |r.sched.slots| && Holds(r.sched.slots[slot], r.entries[at].id)
      && Next(r.sched, Release(slot), r'.sched)
      && r' == r.(sched := r'.sched, owner := Freeing(at))
    case FreeEntry =>
      && r.owner.Freeing? && r.owner.at < |r.entries|
      && r' == r.(entries := r.entries[r.owner.at := Vacant], owner := Idle)
  }

  // ----- the coupling

  predicate InFlight(owner: Owner, c: nat) {
    !owner.Idle? && owner.at == c
  }

  /** A scheduler task points at the entry with its id, which the owner is not handling. */
  ghost predicate PointsAt(r: RState, t: Slot)
    requires t.Task?
  {
    && t.context < |r.entries| && r.entries[t.context].Entry? && r.entries[t.context].id == t.id
    && !InFlight(r.owner, t.context)
  }

  ghost predicate Tracked(r: RState, c: nat, i: nat)
    requires c < |r.entries| && r.entries[c].Entry?
  {
    i < |r.sched.slots| && r.sched.slots[i].Task? && r.sched.slots[i].id == r.entries[c].id && r.sched.slots[i].context == c
  }

  ghost predicate DistinctEntries(entries: seq<Entry>) {
    forall c, d :: 0 <= c < d < |entries| && entries[c].Entry? && entries[d].Entry? ==> entries[c].id != entries[d].id
  }

  ghost predicate Coupled(r: RState) {
    && Inv(r.sched) && |r.entries| == |r.sched.slots| && DistinctEntries(r.entries)
    && (!r.owner.Idle? ==> r.owner.at < |r.entries| && r.entries[r.owner.at].Entry?)
    && (forall i :: 0 <= i < |r.sched.slots| && r.sched.slots[i].Task? ==> PointsAt(r, r.sched.slots[i]))
    && (forall c :: 0 <= c < |r.entries| && r.entries[c].Entry? && !InFlight(r.owner, c) ==> exists i :: Tracked(r, c, i))
  }

  ghost predicate Done(exec: seq<Byte> -> Outcome, e: Entry) {
    e.Entry? && e.outcome == exec(e.payload)
  }

  /** An entry's payload is the one given for its id. */
  ghost predicate OwnPayload(r: RState, c: nat)
    requires c < |r.entries|
  {
    r.entries[c].Entry? ==> r.entries[c].id in r.given && r.given[r.entries[c].id] == r.entries[c].payload
  }

  ghost predicate SlotDone(exec: seq<Byte> -> Outcome, r: RState, i: nat)
    requires i < |r.sched.slots|
  {
    var t := r.sched.slots[i];
    t.Task? && t.status == Completed && t.context < |r.entries| ==> Done(exec, r.entries[t.context])
  }

  ghost predicate WorkerDone(exec: seq<Byte> -> Outcome, r: RState, w: nat)
    requires w < |r.sched.workers|
  {
    var u := r.sched.workers[w];
    u.InRun? && u.done && u.context < |r.entries| ==> Done(exec, r.entries[u.context])
  }

  /** What has been computed: a finished task's entry holds the outcome of the payload given for its id. */
  ghost predicate Outcomes(exec: seq<Byte> -> Outcome, r: RState) {
    && (forall c {:trigger OwnPayload(r, c)} :: 0 <= c < |r.entries| ==> OwnPayload(r, c))
    && (forall i {:trigger SlotDone(exec, r, i)} :: 0 <= i < |r.sched.slots| ==> SlotDone(exec, r, i))
    && (forall w {:trigger WorkerDone(exec, r, w)} :: 0 <= w < |r.sched.workers| ==> WorkerDone(exec, r, w))
  }

  ghost predicate RInv(exec: seq<Byte> -> Outcome, r: RState) {
    Coupled(r) && Outcomes(exec, r)
  }

  function RInitial(activeLimit: nat, outstandingLimit: nat): RState {
    RState(Initial(activeLimit, outstandingLimit), seq(outstandingLimit, _ => Vacant), Idle, map[])
  }

  lemma RInitialInv(exec: seq<Byte> -> Outcome, activeLimit: nat, outstandingLimit: nat)
    ensures RInv(exec, RInitial(activeLimit, outstandingLimit))
  {
    InitialInv(activeLimit, outstandingLimit);
  }

  // ----- what the owner may touch

  /** A worker inside `run` works on an entry the owner is not handling, and no other worker does. */
  lemma RunOwnsEntry(r: RState, w: nat)
    requires Coupled(r) && w < |r.sched.workers| && r.sched.workers[w].InRun?
    ensures var c := r.sched.workers[w].context;
            && c < |r.entries| && r.entries[c].Entry? && r.entries[c].id == r.sched.workers[w].id && !InFlight(r.owner, c)
            && forall v :: 0 <= v < |r.sched.workers| && v != w && r.sched.workers[v].InRun? ==> r.sched.workers[v].context != c
  {
    assert RunsIn(r.sched, w, r.sched.workers[w].at);
    forall v | 0 <= v < |r.sched.workers| && v != w && r.sched.workers[v].InRun? ensures r.sched.workers[v].context != r.sched.workers[w].context {
      assert RunsIn(r.sched, v, r.sched.workers[v].at);
      assert PointsAt(r, r.sched.slots[r.sched.workers[v].at]) && PointsAt(r, r.sched.slots[r.sched.workers[w].at]);
    }
  }

  /** No invocation is freed, rolled back or reused while a worker runs it. */
  lemma NeverFreedInRun(exec: seq<Byte> -> Outcome, r: RState, step: RStep, r': RState, w: nat)
    requires Coupled(r) && RNext(exec, r, step, r') && w < |r.sched.workers| && r.sched.workers[w].InRun?
    ensures var c := r.sched.workers[w].context;
            && c < |r.entries| == |r'.entries| && r.entries[c].Entry? && r'.entries[c].Entry?
            && r'.entries[c].id == r.entries[c].id && r'.entries[c].payload == r.entries[c].payload
            && (r'.entries[c].outcome != r.entries[c].outcome ==> step == Execute(w))
  {
    RunOwnsEntry(r, w);
    if step.Execute? && step.w != w { RunOwnsEntry(r, step.w); }
  }

  /** The scheduler has room whenever the runtime placed an entry, and never knows its id: submission is not refused. */
  lemma NeverRefused(r: RState)
    requires Coupled(r) && r.owner.Placed?
    ensures r.sched.count < |r.sched.slots| && !Has(r.sched.slots, r.entries[r.owner.at].id)
  {
    var slots, at := r.sched.slots, r.owner.at;
    forall i | 0 <= i < |slots| ensures !Holds(slots[i], r.entries[at].id) {
      assert slots[i].Task? ==> PointsAt(r, slots[i]);
    }
    Probe.CountBound(Occupied(slots));
    HasRoom(r);
    if r.sched.count == |slots| {
      AllTasks(slots);
    }
  }

  /** As many tasks as entries cannot all point elsewhere than at the one being placed. */
  lemma HasRoom(r: RState)
    requires Coupled(r) && r.owner.Placed?
    ensures exists i :: 0 <= i < |r.sched.slots| && r.sched.slots[i].Free?
  {
    var slots, at := r.sched.slots, r.owner.at;
    if forall i :: 0 <= i < |slots| ==> slots[i].Task? {
      var q := seq(|slots|, i requires 0 <= i < |slots| && slots[i].Task? => if slots[i].context > at then slots[i].context as int else slots[i].context + 1);
      forall i | 0 <= i < |q| ensures 1 <= q[i] <= |slots| - 1 { assert PointsAt(r, slots[i]); }
      forall i, j | 0 <= i < j < |q| ensures q[i] != q[j] { assert PointsAt(r, slots[i]) && PointsAt(r, slots[j]); }
      DistinctFits(q, |slots| - 1);
    }
  }

  lemma {:induction false} AllTasks(slots: seq<Slot>)
    requires Probe.Count(Occupied(slots)) == |slots|
    ensures forall i :: 0 <= i < |slots| ==> slots[i].Task?
  {
    var occ := Occupied(slots);
    if slots != [] {
      var k := |slots| - 1;
      assert Occupied(slots[..k]) == occ[..k];
      Probe.CountBound(occ[..k]);
      AllTasks(slots[..k]);
      assert forall i :: 0 <= i < k ==> slots[i] == slots[..k][i];
    }
  }

  // ----- every step keeps the coupling

  lemma InnerCoupled(exec: seq<Byte> -> Outcome, r: RState, step: Step, r': RState)
    requires Coupled(r) && RNext(exec, r, Inner(step), r')
    ensures Coupled(r')
  {
    StepInv(r.sched, step, r'.sched);
    InnerKeeps(r.sched, step, r'.sched);
    forall i | 0 <= i < |r'.sched.slots| && r'.sched.slots[i].Task? ensures PointsAt(r', r'.sched.slots[i]) {
      assert PointsAt(r, r.sched.slots[i]);
    }
    forall c | 0 <= c < |r'.entries| && r'.entries[c].Entry? && !InFlight(r'.owner, c) ensures exists i :: Tracked(r', c, i) {
      var i :| Tracked(r, c, i);
      assert Tracked(r', c, i);
    }
  }

  /** Steps other than submit and release keep every task where it is, up to its status. */
  lemma InnerKeeps(s: State, step: Step, s': State)
    requires Next(s, step, s') && !step.Submit? && !step.Release?
    ensures |s'.slots| == |s.slots|
    ensures forall i :: 0 <= i < |s.slots| ==> s'.slots[i].Task? == s.slots[i].Task?
    ensures forall i :: 0 <= i < |s.slots| && s.slots[i].Task? ==> s'.slots[i].id == s.slots[i].id && s'.slots[i].context == s.slots[i].context
  {}

  lemma ExecuteCoupled(exec: seq<Byte> -> Outcome, r: RState, w: nat, r': RState)
    requires Coupled(r) && RNext(exec, r, Execute(w), r')
    ensures Coupled(r')
  {
    StepInv(r.sched, Return(w), r'.sched);
    forall i | 0 <= i < |r'.sched.slots| && r'.sched.slots[i].Task? ensures PointsAt(r', r'.sched.slots[i]) {
      assert PointsAt(r, r.sched.slots[i]);
    }
    forall c | 0 <= c < |r'.entries| && r'.entries[c].Entry? && !InFlight(r'.owner, c) ensures exists i :: Tracked(r', c, i) {
      assert r.entries[c].Entry? && !InFlight(r.owner, c);
      var i :| Tracked(r, c, i);
      assert Tracked(r', c, i);
    }
  }

  lemma OwnerCoupled(exec: seq<Byte> -> Outcome, r: RState, step: RStep, r': RState)
    requires Coupled(r) && RNext(exec, r, step, r') && (step.Place? || step.RollBack? || step.FreeEntry? || step.SubmitRefused?)
    ensures Coupled(r')
  {
    forall i | 0 <= i < |r'.sched.slots| && r'.sched.slots[i].Task? ensures PointsAt(r', r'.sched.slots[i]) {
      assert PointsAt(r, r.sched.slots[i]);
    }
    forall c | 0 <= c < |r'.entries| && r'.entries[c].Entry? && !InFlight(r'.owner, c) ensures exists i :: Tracked(r', c, i) {
      var i :| Tracked(r, c, i);
      assert Tracked(r', c, i);
    }
  }

  lemma SubmitCoupled(exec: seq<Byte> -> Outcome, r: RState, at: nat, r': RState)
    requires Coupled(r) && RNext(exec, r, SubmitOk(at), r')
    ensures Coupled(r')
  {
    StepInv(r.sched, Submit(r.entries[r.owner.at].id, r.owner.at, at), r'.sched);
    forall i | 0 <= i < |r'.sched.slots| && r'.sched.slots[i].Task? ensures PointsAt(r', r'.sched.slots[i]) {
      if i != at { assert PointsAt(r, r.sched.slots[i]); }
    }
    forall c | 0 <= c < |r'.entries| && r'.entries[c].Entry? ensures exists i :: Tracked(r', c, i) {
      if c == r.owner.at {
        assert Tracked(r', c, at);
      } else {
        var i :| Tracked(r, c, i);
        assert Tracked(r', c, i);
      }
    }
  }

  lemma ReleaseCoupled(exec: seq<Byte> -> Outcome, r: RState, at: nat, slot: nat, r': RState)
    requires Coupled(r) && RNext(exec, r, ReleaseTask(at, slot), r')
    ensures Coupled(r')
  {
    StepInv(r.sched, Release(slot), r'.sched);
    assert PointsAt(r, r.sched.slots[slot]);
    forall i | 0 <= i < |r'.sched.slots| && r'.sched.slots[i].Task? ensures PointsAt(r', r'.sched.slots[i]) {
      assert PointsAt(r, r.sched.slots[i]);
    }
    forall c | 0 <= c < |r'.entries| && r'.entries[c].Entry? && !InFlight(r'.owner, c) ensures exists i :: Tracked(r', c, i) {
      var i :| Tracked(r, c, i);
      assert Tracked(r', c, i);
    }
  }

  lemma CoupledStep(exec: seq<Byte> -> Outcome, r: RState, step: RStep, r': RState)
    requires Coupled(r) && RNext(exec, r, step, r')
    ensures Coupled(r')
  {
    match step
    case Inner(inner) => InnerCoupled(exec, r, inner, r');
    case Execute(w) => ExecuteCoupled(exec, r, w, r');
    case SubmitOk(at) => SubmitCoupled(exec, r, at, r');
    case ReleaseTask(at, slot) => ReleaseCoupled(exec, r, at, slot, r');
    case _ => OwnerCoupled(exec, r, step, r');
  }

  // ----- what await returns

  lemma TableSlotDone(exec: seq<Byte> -> Outcome, r: RState, step: RStep, r': RState, i: nat)
    requires RNext(exec, r, step, r') && !step.Inner? && !step.Execute? && i < |r.sched.slots| && SlotDone(exec, r, i)
    requires r.sched.slots[i].Task? ==> PointsAt(r, r.sched.slots[i])
    ensures i < |r'.sched.slots| && SlotDone(exec, r', i)
  {}

  lemma TableWorkerDone(exec: seq<Byte> -> Outcome, r: RState, step: RStep, r': RState, w: nat)
    requires RNext(exec, r, step, r') && !step.Inner? && !step.Execute? && w < |r.sched.workers| && WorkerDone(exec, r, w)
    requires var u := r.sched.workers[w]; u.InRun? ==> u.context < |r.entries| && r.entries[u.context].Entry? && !InFlight(r.owner, u.context)
    ensures w < |r'.sched.workers| && WorkerDone(exec, r', w)
  {}

  lemma TableOutcomes(exec: seq<Byte> -> Outcome, r: RState, step: RStep, r': RState)
    requires RInv(exec, r) && RNext(exec, r, step, r') && !step.Inner? && !step.Execute?
    ensures Outcomes(exec, r')
  {
    forall c | 0 <= c < |r'.entries| ensures OwnPayload(r', c) {
      assert OwnPayload(r, c);
    }
    forall i | 0 <= i < |r'.sched.slots| ensures SlotDone(exec, r', i) {
      assert SlotDone(exec, r, i);
      if r.sched.slots[i].Task? { assert PointsAt(r, r.sched.slots[i]); }
      TableSlotDone(exec, r, step, r', i);
    }
    forall w | 0 <= w < |r'.sched.workers| ensures WorkerDone(exec, r', w) {
      assert WorkerDone(exec, r, w);
      if r.sched.workers[w].InRun? { RunOwnsEntry(r, w); }
      TableWorkerDone(exec, r, step, r', w);
    }
  }

  lemma InnerSlotDone(exec: seq<Byte> -> Outcome, r: RState, step: Step, r': RState, i: nat)
    requires RInv(exec, r) && RNext(exec, r, Inner(step), r') && i < |r'.sched.slots|
    ensures SlotDone(exec, r', i)
  {
    InnerKeeps(r.sched, step, r'.sched);
    assert SlotDone(exec, r, i);
    if step.Finish? && step.at == i {
      FinishesOwn(r.sched, step.w, i);
      assert WorkerDone(exec, r, step.w);
    }
  }

  lemma InnerWorkerDone(exec: seq<Byte> -> Outcome, r: RState, step: Step, r': RState, w: nat)
    requires RInv(exec, r) && RNext(exec, r, Inner(step), r') && w < |r'.sched.workers|
    ensures WorkerDone(exec, r', w)
  {
    assert WorkerDone(exec, r, w);
  }

  lemma InnerOutcomes(exec: seq<Byte> -> Outcome, r: RState, step: Step, r': RState)
    requires RInv(exec, r) && RNext(exec, r, Inner(step), r')
    ensures Outcomes(exec, r')
  {
    forall c | 0 <= c < |r'.entries| ensures OwnPayload(r', c) { assert OwnPayload(r, c); }
    forall i | 0 <= i < |r'.sched.slots| ensures SlotDone(exec, r', i) { InnerSlotDone(exec, r, step, r', i); }
    forall w | 0 <= w < |r'.sched.workers| ensures WorkerDone(exec, r', w) { InnerWorkerDone(exec, r, step, r', w); }
  }

  lemma ExecuteOutcomes(exec: seq<Byte> -> Outcome, r: RState, w: nat, r': RState)
    requires RInv(exec, r) && RNext(exec, r, Execute(w), r')
    ensures Outcomes(exec, r')
  {
    forall c | 0 <= c < |r'.entries| ensures OwnPayload(r', c) { assert OwnPayload(r, c); }
    forall i | 0 <= i < |r'.sched.slots| ensures SlotDone(exec, r', i) { assert SlotDone(exec, r, i); }
    forall v | 0 <= v < |r'.sched.workers| ensures WorkerDone(exec, r', v) { assert WorkerDone(exec, r, v); }
  }

  lemma RStepInv(exec: seq<Byte> -> Outcome, r: RState, step: RStep, r': RState)
    requires RInv(exec, r) && RNext(exec, r, step, r')
    ensures RInv(exec, r')
  {
    CoupledStep(exec, r, step, r');
    match step
    case Inner(inner) => InnerOutcomes(exec, r, inner, r');
    case Execute(w) => ExecuteOutcomes(exec, r, w, r');
    case _ => TableOutcomes(exec, r, step, r');
  }

  ghost predicate IsRRun(exec: seq<Byte> -> Outcome, run: seq<RState>, steps: seq<RStep>, activeLimit: nat, outstandingLimit: nat) {
    && |run| == |steps| + 1 && run[0] == RInitial(activeLimit, outstandingLimit)
    && forall k :: 0 <= k < |steps| ==> RNext(exec, run[k], steps[k], run[k + 1])
  }

  /** The two tables stay coupled over every run of owner and workers. */
  lemma {:induction false} RRunInv(exec: seq<Byte> -> Outcome, run: seq<RState>, steps: seq<RStep>, activeLimit: nat, outstandingLimit: nat, k: nat)
    requires IsRRun(exec, run, steps, activeLimit, outstandingLimit) && k < |run|
    ensures RInv(exec, run[k])
  {
    if k == 0 {
      RInitialInv(exec, activeLimit, outstandingLimit);
    } else {
      RRunInv(exec, run, steps, activeLimit, outstandingLimit, k - 1);
      RStepInv(exec, run[k - 1], steps[k - 1], run[k]);
    }
  }

  /** aivm_worker_runtime_await once the scheduler has answered: the entry found by id is read. */
  function AwaitAnswer(e: Entry, status: Status): Answer
    requires e.Entry?
  {
    if status == Canceled then WasCanceled else Result(e.outcome)
  }

  /** Await gives the outcome of the payload submitted under its own id, and of no other. */
  lemma AwaitReturnsOwn(exec: seq<Byte> -> Outcome, r: RState, c: nat, i: nat)
    requires RInv(exec, r) && r.owner == Idle && c < |r.entries| && r.entries[c].Entry?
    requires i < |r.sched.slots| && Holds(r.sched.slots[i], r.entries[c].id) && IsTerminal(r.sched.slots[i])
    ensures r.entries[c].id in r.given
    ensures AwaitAnswer(r.entries[c], r.sched.slots[i].status)
         == if r.sched.slots[i].status == Canceled then WasCanceled else Result(exec(r.given[r.entries[c].id]))
  {
    assert PointsAt(r, r.sched.slots[i]);
    assert r.sched.slots[i].context == c;
    assert SlotDone(exec, r, i) && OwnPayload(r, c);
  }
}
