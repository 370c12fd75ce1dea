/**
 The worker scheduler as an interleaved step system: a slot table, a stopping
 flag and one broadcast condition, under one mutex. A step is one critical
 section, or a wait entered or left inside one; any interleaving is a run.
 `started`, `canceled` and the serial numbers record history and steer nothing.
 */
module Scheduler {
  import Probe

  datatype Status = Queued | Running | Completed | Canceled

  datatype Slot = Free | Task(id: int, context: nat, status: Status, serial: nat)

  datatype Worker =
    | Seeking                                                            // before it takes the lock to look for a task
    | Asleep(notified: bool)
    | InRun(id: int, context: nat, serial: nat, at: nat, done: bool)     // outside the lock, before or after `run` returned
    | Exited

  datatype Awaiter =
    | Checking(id: int)
    | Waiting(id: int, notified: bool)
    | Answered(id: int, status: Status)
    | Rejected(id: int)

  datatype Start = Start(id: int, serial: nat)

  datatype State = State(
    slots: seq<Slot>, count: nat, stopping: bool, workers: seq<Worker>, awaiters: seq<Awaiter>,
    submitted: nat, started: seq<Start>, canceled: set<nat>)

  // ----- the slot table

  predicate Holds(t: Slot, id: int) {
    t.Task? && t.id == id
  }

  predicate IsQueued(t: Slot) {
    t.Task? && t.status == Queued
  }

  predicate IsRunning(t: Slot) {
    t.Task? && t.status == Running
  }

  predicate IsTerminal(t: Slot) {
    t.Task? && (t.status == Completed || t.status == Canceled)
  }

  ghost predicate Has(slots: seq<Slot>, id: int) {
    exists i :: 0 <= i < |slots| && Holds(slots[i], id)
  }

  ghost predicate AnyQueued(slots: seq<Slot>) {
    exists i :: 0 <= i < |slots| && IsQueued(slots[i])
  }

  /** The queued task with the least id: what a worker picks. */
  ghost predicate LeastQueued(slots: seq<Slot>, i: nat) {
    && i < |slots| && IsQueued(slots[i])
    && forall k :: 0 <= k < |slots| && IsQueued(slots[k]) ==> slots[i].id <= slots[k].id
  }

  ghost predicate FirstFree(slots: seq<Slot>, i: nat) {
    i < |slots| && slots[i].Free? && forall k :: 0 <= k < i ==> slots[k].Task?
  }

  function Occupied(slots: seq<Slot>): (occ: seq<bool>)
    ensures |occ| == |slots| && forall i :: 0 <= i < |slots| ==> occ[i] == slots[i].Task?
  {
    seq(|slots|, i requires 0 <= i < |slots| => slots[i].Task?)
  }

  // ----- steps

  function WakeWorkers(ws: seq<Worker>): (r: seq<Worker>)
    ensures |r| == |ws| && forall i :: 0 <= i < |ws| ==> r[i] == if ws[i].Asleep? then Asleep(true) else ws[i]
  {
    seq(|ws|, i requires 0 <= i < |ws| => if ws[i].Asleep? then Asleep(true) else ws[i])
  }

  function WakeAwaiters(ws: seq<Awaiter>): (r: seq<Awaiter>)
    ensures |r| == |ws| && forall i :: 0 <= i < |ws| ==> r[i] == if ws[i].Waiting? then Waiting(ws[i].id, true) else ws[i]
  {
    seq(|ws|, i requires 0 <= i < |ws| => if ws[i].Waiting? then Waiting(ws[i].id, true) else ws[i])
  }

  /** scheduler_wake_all. */
  function Broadcast(s: State): State {
    s.(workers := WakeWorkers(s.workers), awaiters := WakeAwaiters(s.awaiters))
  }

  datatype Step =
    | Submit(id: int, context: nat, at: nat)
    | Refused                                  // a call that returns an error changes nothing
    | Pick(w: nat, at: nat)
    | Doze(w: nat)
    | Leave(w: nat)
    | Return(w: nat)                           // `run` returns
    | Finish(w: nat, at: nat)
    | FinishLost(w: nat)                       // the worker's task is gone or no longer running
    | Cancel(at: nat)
    | Await(id: int)
    | AwaitDoze(a: nat, at: nat)
    | AwaitDone(a: nat, at: nat)
    | AwaitLost(a: nat)
    | Release(at: nat)
    | Stop

  ghost predicate CanLook(s: State, w: nat) {
    w < |s.workers| && (s.workers[w].Seeking? || s.workers[w].Asleep?)  // a sleeper may also wake spuriously
  }

  ghost predicate CanCheck(s: State, a: nat) {
    a < |s.awaiters| && (s.awaiters[a].Checking? || s.awaiters[a].Waiting?)
  }

  function SetStatus(slots: seq<Slot>, at: nat, status: Status): (r: seq<Slot>)
    requires at < |slots| && slots[at].Task?
  {
    slots[at := slots[at].(status := status)]
  }

  ghost predicate Next(s: State, step: Step, s': State) {
    match step
    case Refused => s' == s
    case Submit(id, context, at) =>
      && s.count < |s.slots| && !Has(s.slots, id) && FirstFree(s.slots, at)
      && s' == Broadcast(s.(slots := s.slots[at := Task(id, context, Queued, s.submitted)], count := s.count + 1, submitted := s.submitted + 1))
    case Pick(w, at) =>
      && CanLook(s, w) && !s.stopping && LeastQueued(s.slots, at)
      && var t := s.slots[at];
      && s' == s.(slots := SetStatus(s.slots, at, Running),
                  workers := s.workers[w := InRun(t.id, t.context, t.serial, at, false)],
                  started := s.started + [Start(t.id, t.serial)])
    case Doze(w) =>
      && CanLook(s, w) && !s.stopping && !AnyQueued(s.slots)
      && s' == s.(workers := s.workers[w := Asleep(false)])
    case Leave(w) =>
      && CanLook(s, w) && s.stopping
      && s' == s.(workers := s.workers[w := Exited])
    case Return(w) =>
      && w < |s.workers| && s.workers[w].InRun? && !s.workers[w].done
      && s' == s.(workers := s.workers[w := s.workers[w].(done := true)])
    case Finish(w, at) =>
      && w < |s.workers| && s.workers[w].InRun? && s.workers[w].done
      && at < |s.slots| && Holds(s.slots[at], s.workers[w].id) && IsRunning(s.slots[at])
      && s' == Broadcast(s.(slots := SetStatus(s.slots, at, Completed), workers := s.workers[w := Seeking]))
    case FinishLost(w) =>
      && w < |s.workers| && s.workers[w].InRun? && s.workers[w].done
      && (forall i :: 0 <= i < |s.slots| ==> !(Holds(s.slots[i], s.workers[w].id) && IsRunning(s.slots[i])))
      && s' == Broadcast(s.(workers := s.workers[w := Seeking]))
    case Cancel(at) =>
      && at < |s.slots| && IsQueued(s.slots[at])
      && s' == Broadcast(s.(slots := SetStatus(s.slots, at, Canceled), canceled := s.canceled + {s.slots[at].serial}))
    case Await(id) => s' == s.(awaiters := s.awaiters + [Checking(id)])
    case AwaitDoze(a, at) =>
      && CanCheck(s, a) && at < |s.slots| && Holds(s.slots[at], s.awaiters[a].id) && !IsTerminal(s.slots[at])
      && s' == s.(awaiters := s.awaiters[a := Waiting(s.awaiters[a].id, false)])
    case AwaitDone(a, at) =>
      && CanCheck(s, a) && at < |s.slots| && Holds(s.slots[at], s.awaiters[a].id) && IsTerminal(s.slots[at])
      && s' == s.(awaiters := s.awaiters[a := Answered(s.awaiters[a].id, s.slots[at].status)])
    case AwaitLost(a) =>
      && CanCheck(s, a) && !Has(s.slots, s.awaiters[a].id)
      && s' == s.(awaiters := s.awaiters[a := Rejected(s.awaiters[a].id)])
    case Release(at) =>
      && at < |s.slots| && IsTerminal(s.slots[at]) && s.count > 0
      && s' == s.(slots := s.slots[at := Free], count := s.count - 1)
    case Stop => s' == Broadcast(s.(stopping := true))
  }

  function Initial(activeLimit: nat, outstandingLimit: nat): State {
    State(seq(outstandingLimit, _ => Free), 0, false, seq(activeLimit, _ => Seeking), [], 0, [], {})
  }

  // ----- the invariant

  ghost predicate DistinctIds(slots: seq<Slot>) {
    forall i, j :: 0 <= i < j < |slots| && slots[i].Task? && slots[j].Task? ==> slots[i].id != slots[j].id
  }

  ghost predicate TableOk(s: State) {
    DistinctIds(s.slots) && s.count == Probe.Count(Occupied(s.slots))
  }

  ghost predicate RunsIn(s: State, w: nat, at: nat)
    requires w < |s.workers|
  {
    && s.workers[w].InRun? && s.workers[w].at == at && at < |s.slots|
    && s.slots[at] == Task(s.workers[w].id, s.workers[w].context, Running, s.workers[w].serial)
  }

  /** Running tasks and workers inside `run` correspond one to one. */
  ghost predicate RunningOk(s: State) {
    && (forall w {:trigger s.workers[w]} :: 0 <= w < |s.workers| && s.workers[w].InRun? ==> RunsIn(s, w, s.workers[w].at))
    && (forall v, w :: 0 <= v < w < |s.workers| && s.workers[v].InRun? && s.workers[w].InRun? ==> s.workers[v].at != s.workers[w].at)
    && (forall i :: 0 <= i < |s.slots| && IsRunning(s.slots[i]) ==> exists w :: 0 <= w < |s.workers| && RunsIn(s, w, i))
  }

  ghost predicate Pending(slots: seq<Slot>, id: int) {
    exists i :: 0 <= i < |slots| && Holds(slots[i], id) && !IsTerminal(slots[i])
  }

  /** No lost wakeup: a sleeper that was not notified has nothing to do. */
  ghost predicate WakeOk(s: State) {
    && (forall w :: 0 <= w < |s.workers| && s.workers[w] == Asleep(false) ==> !s.stopping && !AnyQueued(s.slots))
    && (forall a :: 0 <= a < |s.awaiters| && s.awaiters[a].Waiting? && !s.awaiters[a].notified ==> Pending(s.slots, s.awaiters[a].id))
    && (forall w :: 0 <= w < |s.workers| && s.workers[w].Exited? ==> s.stopping)
  }

  ghost predicate WasStarted(s: State, serial: nat) {
    exists k :: 0 <= k < |s.started| && s.started[k].serial == serial
  }

  ghost predicate SlotHistory(s: State, t: Slot) {
    t.Task? ==>
      && t.serial < s.submitted
      && (t.status == Queued ==> !WasStarted(s, t.serial) && t.serial !in s.canceled)
      && (t.status == Canceled ==> t.serial in s.canceled)
      && (t.status == Running || t.status == Completed ==> WasStarted(s, t.serial))
  }

  /** What each submission went through. */
  ghost predicate HistoryOk(s: State) {
    && (forall i :: 0 <= i < |s.slots| ==> SlotHistory(s, s.slots[i]))
    && (forall i, j :: 0 <= i < j < |s.slots| && s.slots[i].Task? && s.slots[j].Task? ==> s.slots[i].serial != s.slots[j].serial)
    && (forall k :: 0 <= k < |s.started| ==> s.started[k].serial < s.submitted && s.started[k].serial !in s.canceled)
    && (forall j, k :: 0 <= j < k < |s.started| ==> s.started[j].serial != s.started[k].serial)
    && (forall n :: n in s.canceled ==> n < s.submitted)
  }

  ghost predicate Inv(s: State) {
    TableOk(s) && RunningOk(s) && WakeOk(s) && HistoryOk(s)
  }

  lemma InitialInv(activeLimit: nat, outstandingLimit: nat)
    ensures Inv(Initial(activeLimit, outstandingLimit))
  {
    Probe.CountBound(Occupied(Initial(activeLimit, outstandingLimit).slots));
  }

  lemma SameOccupied(slots: seq<Slot>, slots': seq<Slot>)
    requires |slots'| == |slots| && forall i :: 0 <= i < |slots| ==> slots'[i].Task? == slots[i].Task?
    ensures Occupied(slots') == Occupied(slots)
  {}

  /** What a step other than submit and release does to one slot: at most its status changes. */
  lemma SlotKept(s: State, step: Step, s': State, i: nat)
    requires Next(s, step, s') && !step.Submit? && !step.Release? && i < |s.slots|
    ensures |s'.slots| == |s.slots| && s'.count == s.count && s'.slots[i].Task? == s.slots[i].Task?
    ensures s.slots[i].Task? ==> s'.slots[i] == s.slots[i].(status := s'.slots[i].status)
    ensures IsQueued(s'.slots[i]) ==> IsQueued(s.slots[i])
    ensures !step.Pick? && !step.Finish? && (IsRunning(s.slots[i]) || IsRunning(s'.slots[i])) ==> s'.slots[i] == s.slots[i]
  {}

  lemma SlotsCount(s: State, step: Step, s': State)
    requires Next(s, step, s') && !step.Submit? && !step.Release?
    ensures |s'.slots| == |s.slots| && s'.count == s.count
  {}

  lemma SubmitTable(s: State, id: int, context: nat, at: nat, s': State)
    requires TableOk(s) && Next(s, Submit(id, context, at), s')
    ensures TableOk(s')
  {
    Probe.CountSet(Occupied(s.slots), at);
    assert Occupied(s'.slots) == Occupied(s.slots)[at := true];
    forall i, j | 0 <= i < j < |s'.slots| && s'.slots[i].Task? && s'.slots[j].Task? ensures s'.slots[i].id != s'.slots[j].id {
      if i == at { assert !Holds(s.slots[j], id); }
      if j == at { assert !Holds(s.slots[i], id); }
    }
  }

  lemma ReleaseTable(s: State, at: nat, s': State)
    requires TableOk(s) && Next(s, Release(at), s')
    ensures TableOk(s')
  {
    Probe.CountSet(Occupied(s'.slots), at);
    assert Occupied(s.slots) == Occupied(s'.slots)[at := true];
  }

  lemma TableStep(s: State, step: Step, s': State)
    requires TableOk(s) && Next(s, step, s')
    ensures TableOk(s')
  {
    match step
    case Submit(id, context, at) => SubmitTable(s, id, context, at, s');
    case Release(at) => ReleaseTable(s, at, s');
    case _ => KeptTable(s, step, s');
  }

  lemma KeptTable(s: State, step: Step, s': State)
    requires TableOk(s) && Next(s, step, s') && !step.Submit? && !step.Release?
    ensures TableOk(s')
  {
    SlotsCount(s, step, s');
    forall i | 0 <= i < |s.slots| ensures s'.slots[i].Task? == s.slots[i].Task? && (s.slots[i].Task? ==> s'.slots[i].id == s.slots[i].id) {
      SlotKept(s, step, s', i);
    }
    SameOccupied(s.slots, s'.slots);
  }

  ghost predicate SameRun(v: Worker, v': Worker) {
    (v'.InRun? <==> v.InRun?) && (v.InRun? ==> v'.at == v.at && v'.id == v.id && v'.context == v.context && v'.serial == v.serial)
  }

  lemma SameRunning(s: State, s': State)
    requires RunningOk(s) && |s'.workers| == |s.workers| && |s'.slots| == |s.slots|
    requires forall w :: 0 <= w < |s.workers| ==> SameRun(s.workers[w], s'.workers[w])
    requires forall i :: 0 <= i < |s.slots| && (IsRunning(s.slots[i]) || IsRunning(s'.slots[i])) ==> s'.slots[i] == s.slots[i]
    ensures RunningOk(s')
  {
    forall w | 0 <= w < |s'.workers| && s'.workers[w].InRun? ensures RunsIn(s', w, s'.workers[w].at) {
      assert SameRun(s.workers[w], s'.workers[w]) && RunsIn(s, w, s.workers[w].at);
    }
    forall v, w | 0 <= v < w < |s'.workers| && s'.workers[v].InRun? && s'.workers[w].InRun? ensures s'.workers[v].at != s'.workers[w].at {
      assert SameRun(s.workers[v], s'.workers[v]) && SameRun(s.workers[w], s'.workers[w]);
    }
    forall i | 0 <= i < |s'.slots| && IsRunning(s'.slots[i]) ensures exists w :: 0 <= w < |s'.workers| && RunsIn(s', w, i) {
      var w :| 0 <= w < |s.workers| && RunsIn(s, w, i);
      assert SameRun(s.workers[w], s'.workers[w]);
      assert RunsIn(s', w, i);
    }
  }

  lemma PickRunning(s: State, w: nat, at: nat, s': State)
    requires RunningOk(s) && Next(s, Pick(w, at), s')
    ensures RunningOk(s')
  {
    forall i | 0 <= i < |s'.slots| && IsRunning(s'.slots[i]) ensures exists v :: 0 <= v < |s'.workers| && RunsIn(s', v, i) {
      if i == at {
        assert RunsIn(s', w, i);
      } else {
        var v :| 0 <= v < |s.workers| && RunsIn(s, v, i);
        assert RunsIn(s', v, i);
      }
    }
  }

  /** A finishing worker finds its own slot, still running. */
  lemma FinishesOwn(s: State, w: nat, at: nat)
    requires Inv(s) && w < |s.workers| && s.workers[w].InRun? && at < |s.slots| && Holds(s.slots[at], s.workers[w].id)
    ensures at == s.workers[w].at && RunsIn(s, w, at)
  {
    assert RunsIn(s, w, s.workers[w].at);
  }

  /** So the branch in which a finishing worker finds no running task is never taken. */
  lemma NeverLost(s: State, w: nat, s': State)
    requires Inv(s)
    ensures !Next(s, FinishLost(w), s')
  {
    if w < |s.workers| && s.workers[w].InRun? {
      assert RunsIn(s, w, s.workers[w].at);
      assert Holds(s.slots[s.workers[w].at], s.workers[w].id);
    }
  }

  lemma FinishRunning(s: State, w: nat, at: nat, s': State)
    requires Inv(s) && Next(s, Finish(w, at), s')
    ensures RunningOk(s')
  {
    FinishesOwn(s, w, at);
    forall v | 0 <= v < |s'.workers| && s'.workers[v].InRun? ensures RunsIn(s', v, s'.workers[v].at) {
      assert RunsIn(s, v, s.workers[v].at);
    }
    forall i | 0 <= i < |s'.slots| && IsRunning(s'.slots[i]) ensures exists v :: 0 <= v < |s'.workers| && RunsIn(s', v, i) {
      var v :| 0 <= v < |s.workers| && RunsIn(s, v, i);
      assert RunsIn(s', v, i);
    }
  }

  lemma RunningStep(s: State, step: Step, s': State)
    requires Inv(s) && Next(s, step, s')
    ensures RunningOk(s')
  {
    match step
    case Pick(w, at) => PickRunning(s, w, at, s');
    case Finish(w, at) => FinishRunning(s, w, at, s');
    case FinishLost(w) => NeverLost(s, w, s');
    case Submit(id, context, at) => SameRunning(s, s');
    case Release(at) => SameRunning(s, s');
    case _ => KeptRunning(s, step, s');
  }

  lemma WorkerKept(s: State, step: Step, s': State, w: nat)
    requires Next(s, step, s') && !step.Pick? && !step.Finish? && !step.FinishLost? && w < |s.workers|
    ensures |s'.workers| == |s.workers| && SameRun(s.workers[w], s'.workers[w])
  {}

  lemma WorkersCount(s: State, step: Step, s': State)
    requires Next(s, step, s')
    ensures |s'.workers| == |s.workers|
  {}

  lemma KeptRunning(s: State, step: Step, s': State)
    requires RunningOk(s) && Next(s, step, s') && !step.Pick? && !step.Finish? && !step.FinishLost? && !step.Submit? && !step.Release?
    ensures RunningOk(s')
  {
    SlotsCount(s, step, s');
    WorkersCount(s, step, s');
    forall w | 0 <= w < |s.workers| ensures SameRun(s.workers[w], s'.workers[w]) { WorkerKept(s, step, s', w); }
    forall i | 0 <= i < |s.slots| && (IsRunning(s.slots[i]) || IsRunning(s'.slots[i])) ensures s'.slots[i] == s.slots[i] {
      SlotKept(s, step, s', i);
    }
    SameRunning(s, s');
  }

  /** A broadcast leaves no sleeper without its notice. */
  lemma BroadcastWakes(s: State)
    requires forall w :: 0 <= w < |s.workers| && s.workers[w].Exited? ==> s.stopping
    ensures WakeOk(Broadcast(s))
  {}

  lemma StillPending(s: State, s': State)
    requires WakeOk(s)
    requires |s'.workers| == |s.workers| && s'.stopping == s.stopping
    requires forall w :: 0 <= w < |s.workers| && s'.workers[w] != s.workers[w] ==>
               s'.workers[w].InRun? || (s'.workers[w].Exited? && s.stopping) || (s'.workers[w] == Asleep(false) && !s.stopping && !AnyQueued(s.slots))
    requires |s'.slots| == |s.slots|
    requires forall i :: 0 <= i < |s.slots| ==> IsQueued(s'.slots[i]) ==> IsQueued(s.slots[i])
    requires forall i :: 0 <= i < |s.slots| && s.slots[i].Task? && !IsTerminal(s.slots[i]) ==> Holds(s'.slots[i], s.slots[i].id) && !IsTerminal(s'.slots[i])
    requires |s'.awaiters| >= |s.awaiters|
    requires forall a :: 0 <= a < |s'.awaiters| && s'.awaiters[a].Waiting? && !s'.awaiters[a].notified ==>
               (a < |s.awaiters| && s'.awaiters[a] == s.awaiters[a]) || Pending(s.slots, s'.awaiters[a].id)
    ensures WakeOk(s')
  {
    forall a | 0 <= a < |s'.awaiters| && s'.awaiters[a].Waiting? && !s'.awaiters[a].notified ensures Pending(s'.slots, s'.awaiters[a].id) {
      var i :| 0 <= i < |s.slots| && Holds(s.slots[i], s'.awaiters[a].id) && !IsTerminal(s.slots[i]);
      assert Holds(s'.slots[i], s'.awaiters[a].id) && !IsTerminal(s'.slots[i]);
    }
  }

  lemma WakeStep(s: State, step: Step, s': State)
    requires WakeOk(s) && Next(s, step, s')
    ensures WakeOk(s')
  {
    match step
    case Submit(id, context, at) =>
      BroadcastWakes(s.(slots := s.slots[at := Task(id, context, Queued, s.submitted)], count := s.count + 1, submitted := s.submitted + 1));
    case Finish(w, at) =>
      BroadcastWakes(s.(slots := SetStatus(s.slots, at, Completed), workers := s.workers[w := Seeking]));
    case FinishLost(w) =>
      BroadcastWakes(s.(workers := s.workers[w := Seeking]));
    case Cancel(at) =>
      BroadcastWakes(s.(slots := SetStatus(s.slots, at, Canceled), canceled := s.canceled + {s.slots[at].serial}));
    case Stop =>
      BroadcastWakes(s.(stopping := true));
    case AwaitDoze(a, at) =>
      assert Pending(s.slots, s.awaiters[a].id);
      StillPending(s, s');
    case _ =>
      StillPending(s, s');
  }

  lemma SubmitHistory(s: State, id: int, context: nat, at: nat, s': State)
    requires HistoryOk(s) && Next(s, Submit(id, context, at), s')
    ensures HistoryOk(s')
  {
    forall i | 0 <= i < |s'.slots| ensures SlotHistory(s', s'.slots[i]) {
      assert SlotHistory(s, s.slots[i]);
      assert forall n :: WasStarted(s', n) <==> WasStarted(s, n);
    }
  }

  lemma PickHistory(s: State, w: nat, at: nat, s': State)
    requires HistoryOk(s) && Next(s, Pick(w, at), s')
    ensures HistoryOk(s')
  {
    var t := s.slots[at];
    assert SlotHistory(s, t);
    assert s'.started[|s.started|].serial == t.serial;
    assert forall k :: 0 <= k < |s.started| ==> s'.started[k] == s.started[k];
    assert forall n :: WasStarted(s', n) <==> WasStarted(s, n) || n == t.serial;
    forall i | 0 <= i < |s'.slots| ensures SlotHistory(s', s'.slots[i]) {
      assert SlotHistory(s, s.slots[i]);
    }
  }

  /** Steps that start nothing and submit nothing. */
  lemma StatusHistory(s: State, s': State)
    requires HistoryOk(s) && s'.started == s.started && s'.submitted == s.submitted && |s'.slots| == |s.slots|
    requires forall i :: 0 <= i < |s.slots| ==> s'.slots[i].Free? || s'.slots[i] == s.slots[i] || StatusMoved(s, s', i)
    requires s.canceled <= s'.canceled && forall n :: n in s'.canceled - s.canceled ==> n < s.submitted && !WasStarted(s, n)
    requires forall i :: 0 <= i < |s.slots| && IsQueued(s'.slots[i]) ==> s'.slots[i].serial !in s'.canceled
    ensures HistoryOk(s')
  {
    assert forall n :: WasStarted(s', n) <==> WasStarted(s, n);
    forall i | 0 <= i < |s'.slots| ensures SlotHistory(s', s'.slots[i]) {
      assert SlotHistory(s, s.slots[i]);
    }
    forall k | 0 <= k < |s'.started| ensures s'.started[k].serial !in s'.canceled {
      assert WasStarted(s, s.started[k].serial);
    }
    forall n | n in s'.canceled ensures n < s'.submitted {
      assert n in s.canceled || n in s'.canceled - s.canceled;
    }
  }

  ghost predicate StatusMoved(s: State, s': State, i: nat)
    requires i < |s.slots| == |s'.slots|
  {
    || (IsRunning(s.slots[i]) && s'.slots[i] == s.slots[i].(status := Completed))
    || (IsQueued(s.slots[i]) && s'.slots[i] == s.slots[i].(status := Canceled) && s.slots[i].serial in s'.canceled)
  }

  lemma HistoryStep(s: State, step: Step, s': State)
    requires HistoryOk(s) && Next(s, step, s')
    ensures HistoryOk(s')
  {
    forall i | 0 <= i < |s.slots| && IsQueued(s.slots[i]) ensures s.slots[i].serial < s.submitted && !WasStarted(s, s.slots[i].serial) && s.slots[i].serial !in s.canceled {
      assert SlotHistory(s, s.slots[i]);
    }
    match step
    case Submit(id, context, at) => SubmitHistory(s, id, context, at, s');
    case Pick(w, at) => PickHistory(s, w, at, s');
    case Finish(w, at) =>
      assert StatusMoved(s, s', at);
      StatusHistory(s, s');
    case Cancel(at) =>
      assert StatusMoved(s, s', at);
      StatusHistory(s, s');
    case _ => StatusHistory(s, s');
  }

  lemma SizesStep(s: State, step: Step, s': State)
    requires Next(s, step, s')
    ensures |s'.workers| == |s.workers| && |s'.slots| == |s.slots|
  {}

  lemma StepInv(s: State, step: Step, s': State)
    requires Inv(s) && Next(s, step, s')
    ensures Inv(s') && |s'.workers| == |s.workers| && |s'.slots| == |s.slots|
  {
    SizesStep(s, step, s');
    TableStep(s, step, s');
    RunningStep(s, step, s');
    WakeStep(s, step, s');
    HistoryStep(s, step, s');
  }

  // ----- runs

  /** A run: states joined by steps, from a scheduler just created. */
  ghost predicate IsRun(run: seq<State>, steps: seq<Step>, activeLimit: nat, outstandingLimit: nat) {
    && |run| == |steps| + 1 && run[0] == Initial(activeLimit, outstandingLimit)
    && forall k :: 0 <= k < |steps| ==> Next(run[k], steps[k], run[k + 1])
  }

  /** Safety over every run and every interleaving. */
  lemma {:induction false} RunInv(run: seq<State>, steps: seq<Step>, activeLimit: nat, outstandingLimit: nat, k: nat)
    requires IsRun(run, steps, activeLimit, outstandingLimit) && k < |run|
    ensures Inv(run[k]) && |run[k].workers| == activeLimit && |run[k].slots| == outstandingLimit
  {
    if k == 0 {
      InitialInv(activeLimit, outstandingLimit);
    } else {
      RunInv(run, steps, activeLimit, outstandingLimit, k - 1);
      StepInv(run[k - 1], steps[k - 1], run[k]);
    }
  }

  predicate StatusMay(from: Status, to: Status) {
    from == to || (from == Queued && (to == Running || to == Canceled)) || (from == Running && to == Completed)
  }

  /** A submission's status only moves forward; it leaves the table only when terminal. */
  lemma StatusForward(s: State, step: Step, s': State, i: nat)
    requires Inv(s) && Next(s, step, s') && i < |s.slots| && s.slots[i].Task?
    ensures |s'.slots| == |s.slots|
    ensures if s'.slots[i].Task? then s'.slots[i] == s.slots[i].(status := s'.slots[i].status) && StatusMay(s.slots[i].status, s'.slots[i].status)
            else IsTerminal(s.slots[i]) && step == Release(i)
  {}

  /** At most `active_limit` tasks run at once: the running tasks inject into the workers. */
  lemma RunningBound(s: State, running: set<int>)
    requires Inv(s) && forall i :: i in running ==> 0 <= i < |s.slots| && IsRunning(s.slots[i])
    ensures |running| <= |s.workers|
  {
    var inside := set w {:trigger s.workers[w]} | 0 <= w < |s.workers| && s.workers[w].InRun?;
    var places := set w | w in inside :: s.workers[w].at as int;
    forall i | i in running ensures i in places {
      var w :| 0 <= w < |s.workers| && RunsIn(s, w, i);
      assert w in inside;
    }
    ImageBound(s.workers, inside, |s.workers|);
    SubsetBound(running, places);
  }

  lemma {:induction false} ImageBound(ws: seq<Worker>, inside: set<int>, n: nat)
    requires n <= |ws| && forall w :: w in inside ==> 0 <= w < n && ws[w].InRun?
    ensures |set w | w in inside :: ws[w].at as int| <= n
  {
    var places := set w | w in inside :: ws[w].at as int;
    if n == 0 {
      assert forall k: int :: k !in inside;
      assert places == {};
    } else {
      var rest := inside - {n - 1};
      ImageBound(ws, rest, n - 1);
      var fewer := set w | w in rest :: ws[w].at as int;
      if n - 1 in inside {
        assert places == fewer + {ws[n - 1].at as int};
      } else {
        assert rest == inside;
      }
    }
  }

  lemma SubsetBound(a: set<int>, b: set<int>)
    requires a <= b
    ensures |a| <= |b|
  {
    assert b == a + (b - a);
  }

  // ----- progress

  /** With a task queued and no stop, every worker is inside `run` or can pick a task now. */
  lemma QueuedProceeds(s: State, w: nat)
    requires Inv(s) && AnyQueued(s.slots) && !s.stopping && w < |s.workers|
    ensures s.workers[w].InRun? || s.workers[w] == Seeking || s.workers[w] == Asleep(true)
    ensures !s.workers[w].InRun? ==> exists at: nat, s' :: Next(s, Pick(w, at), s')
  {
    if !s.workers[w].InRun? {
      var at := LeastExists(s.slots);
      var t := s.slots[at];
      var s' := s.(slots := SetStatus(s.slots, at, Running), workers := s.workers[w := InRun(t.id, t.context, t.serial, at, false)],
                   started := s.started + [Start(t.id, t.serial)]);
      assert Next(s, Pick(w, at), s');
    }
  }

  lemma LeastExists(slots: seq<Slot>) returns (at: nat)
    requires AnyQueued(slots)
    ensures LeastQueued(slots, at)
  {
    var first :| 0 <= first < |slots| && IsQueued(slots[first]);
    at := first;
    var i := 0;
    while i < |slots|
      invariant 0 <= i <= |slots| && at < |slots| && IsQueued(slots[at])
      invariant forall k :: 0 <= k < i && IsQueued(slots[k]) ==> slots[at].id <= slots[k].id
    {
      if IsQueued(slots[i]) && slots[i].id < slots[at].id { at := i; }
      i := i + 1;
    }
  }

  /** An awaiter asleep without notice waits for a task that is queued or running, and one whose task is done was notified. */
  lemma AwaiterNotStranded(s: State, a: nat, at: nat)
    requires Inv(s) && a < |s.awaiters| && s.awaiters[a].Waiting? && at < |s.slots| && Holds(s.slots[at], s.awaiters[a].id) && IsTerminal(s.slots[at])
    ensures s.awaiters[a].notified
    ensures exists s' :: Next(s, AwaitDone(a, at), s') && s'.awaiters[a] == Answered(s.awaiters[a].id, s.slots[at].status)
  {
    var s' := s.(awaiters := s.awaiters[a := Answered(s.awaiters[a].id, s.slots[at].status)]);
    assert Next(s, AwaitDone(a, at), s');
  }

  // ----- canonical order

  /** A step that keeps submission ids increasing. */
  ghost predicate CanonicalSubmit(last: int, step: Step) {
    step.Submit? ==> step.id > last
  }

  function LastId(last: int, step: Step): int {
    if step.Submit? then step.id else last
  }

  /** Ids started so far increase, queued ids lie above all of them, and none exceeds the last id submitted. */
  ghost predicate Ordered(s: State, last: int) {
    && (forall j, k :: 0 <= j < k < |s.started| ==> s.started[j].id < s.started[k].id)
    && (forall k, i :: 0 <= k < |s.started| && 0 <= i < |s.slots| && IsQueued(s.slots[i]) ==> s.started[k].id < s.slots[i].id)
    && (forall k :: 0 <= k < |s.started| ==> s.started[k].id <= last)
    && (forall i :: 0 <= i < |s.slots| && s.slots[i].Task? ==> s.slots[i].id <= last)
  }

  lemma OrderedPick(s: State, w: nat, at: nat, s': State, last: int)
    requires TableOk(s) && Ordered(s, last) && Next(s, Pick(w, at), s')
    ensures Ordered(s', last)
  {
    forall k, i | 0 <= k < |s'.started| && 0 <= i < |s'.slots| && IsQueued(s'.slots[i]) ensures s'.started[k].id < s'.slots[i].id {
      assert IsQueued(s.slots[i]) && i != at;
      assert s.slots[i].id != s.slots[at].id;
    }
  }

  lemma OrderedStep(s: State, step: Step, s': State, last: int)
    requires Inv(s) && Ordered(s, last) && Next(s, step, s') && CanonicalSubmit(last, step)
    ensures Ordered(s', LastId(last, step))
  {
    match step
    case Pick(w, at) => OrderedPick(s, w, at, s', last);
    case Submit(id, context, at) => OrderedSubmit(s, id, context, at, s', last);
    case Release(at) => OrderedKept(s, s', last);
    case _ => KeptOrdered(s, step, s', last);
  }

  lemma KeptOrdered(s: State, step: Step, s': State, last: int)
    requires Ordered(s, last) && Next(s, step, s') && !step.Pick? && !step.Submit? && !step.Release?
    ensures Ordered(s', last)
  {
    SlotsCount(s, step, s');
    StartsKept(s, step, s');
    forall i | 0 <= i < |s.slots| && s'.slots[i].Task? ensures Holds(s.slots[i], s'.slots[i].id) && (IsQueued(s'.slots[i]) ==> IsQueued(s.slots[i])) {
      SlotKept(s, step, s', i);
    }
    OrderedKept(s, s', last);
  }

  lemma StartsKept(s: State, step: Step, s': State)
    requires Next(s, step, s') && !step.Pick?
    ensures s'.started == s.started
  {}

  lemma OrderedSubmit(s: State, id: int, context: nat, at: nat, s': State, last: int)
    requires Ordered(s, last) && Next(s, Submit(id, context, at), s') && id > last
    ensures Ordered(s', id)
  {}

  lemma OrderedKept(s: State, s': State, last: int)
    requires Ordered(s, last) && s'.started == s.started && |s'.slots| == |s.slots|
    requires forall i :: 0 <= i < |s.slots| && s'.slots[i].Task? ==> Holds(s.slots[i], s'.slots[i].id) && (IsQueued(s'.slots[i]) ==> IsQueued(s.slots[i]))
    ensures Ordered(s', last)
  {}

  ghost predicate CanonicalRun(run: seq<State>, steps: seq<Step>, lasts: seq<int>) {
    && |lasts| == |run| == |steps| + 1
    && forall k :: 0 <= k < |steps| ==> CanonicalSubmit(lasts[k], steps[k]) && lasts[k + 1] == LastId(lasts[k], steps[k])
  }

  /** In a run that submits ids in increasing order, tasks start in increasing order of id, under every interleaving. */
  lemma {:induction false} StartsInOrder(run: seq<State>, steps: seq<Step>, lasts: seq<int>, activeLimit: nat, outstandingLimit: nat, k: nat)
    requires IsRun(run, steps, activeLimit, outstandingLimit) && CanonicalRun(run, steps, lasts) && k < |run|
    ensures Ordered(run[k], lasts[k])
  {
    if k > 0 {
      StartsInOrder(run, steps, lasts, activeLimit, outstandingLimit, k - 1);
      RunInv(run, steps, activeLimit, outstandingLimit, k - 1);
      OrderedStep(run[k - 1], steps[k - 1], run[k], lasts[k - 1]);
    }
  }
}
