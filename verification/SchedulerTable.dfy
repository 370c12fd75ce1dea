/**
 The critical sections of the scheduler over its real slot array. Each is one
 step of the step system: the ghost `state` follows along, and `Valid` ties it
 to the array and counters the code reads.
 */
module SchedulerTable {
  import opened Scheduler

  class Table {
    const tasks: array<Slot>
    var outstanding: nat
    var stopping: bool
    var submitted: nat          // numbers the submissions; nothing reads it back
    ghost var state: State

    ghost predicate Valid()
      reads this, tasks
    {
      && state.slots == tasks[..] && state.count == outstanding && state.stopping == stopping && state.submitted == submitted
      && Inv(state)
    }

    constructor (activeLimit: nat, outstandingLimit: nat)
      ensures Valid() && fresh(tasks) && state == Initial(activeLimit, outstandingLimit) && tasks.Length == outstandingLimit && outstanding == 0 && !stopping
      ensures forall i :: 0 <= i < tasks.Length ==> tasks[i] == Free
    {
      tasks := new Slot[outstandingLimit](_ => Free);
      outstanding, stopping, submitted := 0, false, 0;
      state := Initial(activeLimit, outstandingLimit);
      new;
      InitialInv(activeLimit, outstandingLimit);
      assert tasks[..] == state.slots;
    }

    /** find_task. */
    method FindTask(id: int) returns (found: bool, at: nat)
      ensures found ==> at < tasks.Length && Holds(tasks[at], id)
      ensures found <==> Has(tasks[..], id)
    {
      for i := 0 to tasks.Length
        invariant forall k :: 0 <= k < i ==> !Holds(tasks[k], id)
      {
        if Holds(tasks[i], id) {
          assert Holds(tasks[..][i], id);
          return true, i;
        }
      }
      return false, 0;
    }

    /** find_queued_task: the queued task with the least id. */
    method FindQueued() returns (found: bool, at: nat)
      ensures found ==> LeastQueued(tasks[..], at)
      ensures found <==> AnyQueued(tasks[..])
    {
      found, at := false, 0;
      for i := 0 to tasks.Length
        invariant found ==> at < tasks.Length && IsQueued(tasks[at])
        invariant forall k :: 0 <= k < i && IsQueued(tasks[k]) ==> found && tasks[at].id <= tasks[k].id
      {
        if IsQueued(tasks[i]) && (!found || tasks[i].id < tasks[at].id) {
          found, at := true, i;
        }
      }
      if found { assert IsQueued(tasks[..][at]); }
    }

    method FindFree() returns (found: bool, at: nat)
      ensures found ==> FirstFree(tasks[..], at)
      ensures !found ==> forall k :: 0 <= k < tasks.Length ==> tasks[k].Task?
    {
      for i := 0 to tasks.Length
        invariant forall k :: 0 <= k < i ==> tasks[k].Task?
      {
        if tasks[i].Free? {
          return true, i;
        }
      }
      return false, 0;
    }

    /** aivm_worker_scheduler_submit: refused exactly when the table is full or the id is taken. */
    method Submit(id: int, context: nat) returns (ok: bool, at: nat)
      requires Valid()
      modifies tasks, this`outstanding, this`submitted, this`state
      ensures Valid()
      ensures ok <==> old(outstanding) < tasks.Length && !Has(old(tasks[..]), id)
      ensures Next(old(state), if ok then Scheduler.Submit(id, context, at) else Refused, state)
      ensures ok ==> FirstFree(old(tasks[..]), at) && tasks[..] == old(tasks[..])[at := Task(id, context, Queued, old(submitted))] && outstanding == old(outstanding) + 1
      ensures !ok ==> tasks[..] == old(tasks[..]) && outstanding == old(outstanding)
    {
      at := 0;
      var taken, where := FindTask(id);
      if outstanding >= tasks.Length || taken {
        return false, 0;
      }
      ok, at := FindFree();
      CountFree(tasks[..]);
      assert ok;  // the count says a slot is free
      ghost var s := state;
      tasks[at] := Task(id, context, Queued, submitted);
      outstanding, submitted := outstanding + 1, submitted + 1;
      state := Broadcast(s.(slots := s.slots[at := tasks[at]], count := s.count + 1, submitted := s.submitted + 1));
      StepInv(s, Scheduler.Submit(id, context, at), state);
    }

    /** The top of scheduler_worker_main's loop for worker `w`, one look at the table: take a task, wait, or leave. */
    method Look(w: nat) returns (picked: bool, at: nat)
      requires Valid() && CanLook(state, w)
      modifies tasks, this`state
      ensures Valid()
      ensures picked <==> !stopping && AnyQueued(old(tasks[..]))
      ensures Next(old(state), if picked then Pick(w, at) else if stopping then Leave(w) else Doze(w), state)
      ensures picked ==> LeastQueued(old(tasks[..]), at) && tasks[..] == old(tasks[..])[at := old(tasks[..])[at].(status := Running)]
      ensures !picked ==> tasks[..] == old(tasks[..])
    {
      picked, at := FindQueued();
      ghost var s := state;
      if stopping {
        picked := false;
        state := s.(workers := s.workers[w := Exited]);
        StepInv(s, Leave(w), state);
      } else if !picked {
        state := s.(workers := s.workers[w := Asleep(false)]);
        StepInv(s, Doze(w), state);
      } else {
        var t := tasks[at];
        tasks[at] := t.(status := Running);
        state := s.(slots := SetStatus(s.slots, at, Running), workers := s.workers[w := InRun(t.id, t.context, t.serial, at, false)],
                    started := s.started + [Start(t.id, t.serial)]);
        StepInv(s, Pick(w, at), state);
      }
    }

    /** The end of the loop: the worker looks its task up again by id, and finds it running. */
    method FinishRun(w: nat, id: int) returns (at: nat)
      requires Valid() && w < |state.workers| && state.workers[w].InRun? && state.workers[w].done && state.workers[w].id == id
      modifies tasks, this`state
      ensures Valid() && Next(old(state), Finish(w, at), state) && at == old(state).workers[w].at
      ensures at < tasks.Length && Holds(old(tasks[..])[at], id) && tasks[..] == old(tasks[..])[at := old(tasks[..])[at].(status := Completed)]
    {
      ghost var s := state;
      ghost var own := s.workers[w].at;
      assert RunsIn(s, w, own);
      assert Holds(tasks[..][own], id);
      var found;
      found, at := FindTask(id);
      FinishesOwn(s, w, at);
      tasks[at] := tasks[at].(status := Completed);
      state := Broadcast(s.(slots := SetStatus(s.slots, at, Completed), workers := s.workers[w := Seeking]));
      StepInv(s, Finish(w, at), state);
    }

    /** aivm_worker_scheduler_cancel: only a queued task is canceled. */
    method Cancel(id: int) returns (found: bool, canceled: bool, at: nat)
      requires Valid()
      modifies tasks, this`state
      ensures Valid()
      ensures found <==> Has(old(tasks[..]), id)
      ensures canceled <==> exists i :: 0 <= i < tasks.Length && Holds(old(tasks[..])[i], id) && IsQueued(old(tasks[..])[i])
      ensures Next(old(state), if canceled then Scheduler.Cancel(at) else Refused, state)
      ensures canceled ==> at < tasks.Length && Holds(old(tasks[..])[at], id) && tasks[..] == old(tasks[..])[at := old(tasks[..])[at].(status := Canceled)]
      ensures !canceled ==> tasks[..] == old(tasks[..])
    {
      ghost var s := state;
      canceled := false;
      found, at := FindTask(id);
      if found && tasks[at].status == Queued {
        assert Holds(s.slots[at], id) && IsQueued(s.slots[at]);
        canceled := true;
        tasks[at] := tasks[at].(status := Canceled);
        state := Broadcast(s.(slots := SetStatus(s.slots, at, Canceled), canceled := s.canceled + {s.slots[at].serial}));
        StepInv(s, Scheduler.Cancel(at), state);
      }
    }

    /** aivm_worker_scheduler_release: only a terminal task leaves the table. */
    method Release(id: int) returns (ok: bool, at: nat)
      requires Valid()
      modifies tasks, this`outstanding, this`state
      ensures Valid()
      ensures ok <==> exists i :: 0 <= i < tasks.Length && Holds(old(tasks[..])[i], id) && IsTerminal(old(tasks[..])[i])
      ensures Next(old(state), if ok then Scheduler.Release(at) else Refused, state)
      ensures ok ==> at < tasks.Length && Holds(old(tasks[..])[at], id) && tasks[..] == old(tasks[..])[at := Free] && outstanding == old(outstanding) - 1
      ensures !ok ==> tasks[..] == old(tasks[..]) && outstanding == old(outstanding)
    {
      ghost var s := state;
      ok, at := FindTask(id);
      if !ok || !IsTerminal(tasks[at]) {
        return false, at;
      }
      assert Holds(s.slots[at], id) && IsTerminal(s.slots[at]);
      CountOccupied(s.slots, at);
      tasks[at] := Free;
      outstanding := outstanding - 1;
      state := s.(slots := s.slots[at := Free], count := s.count - 1);
      StepInv(s, Scheduler.Release(at), state);
    }

    /** One check of aivm_worker_scheduler_await for awaiter `a`. */
    method Check(a: nat, id: int) returns (answered: bool, status: Status)
      requires Valid() && CanCheck(state, a) && state.awaiters[a].id == id
      modifies this`state
      ensures Valid()
      ensures answered ==> exists at :: Next(old(state), AwaitDone(a, at), state) && status == state.awaiters[a].status
      ensures !answered ==> Next(old(state), AwaitLost(a), state) || exists at :: Next(old(state), AwaitDoze(a, at), state)
      ensures answered <==> exists i :: 0 <= i < tasks.Length && Holds(tasks[i], id) && IsTerminal(tasks[i])
      ensures answered ==> exists i :: 0 <= i < tasks.Length && Holds(tasks[i], id) && tasks[i].status == status && (status == Completed || status == Canceled)
    {
      ghost var s := state;
      answered, status := false, Queued;
      var at, found;
      found, at := FindTask(id);
      if !found {
        state := s.(awaiters := s.awaiters[a := Rejected(id)]);
        StepInv(s, AwaitLost(a), state);
      } else if IsTerminal(tasks[at]) {
        answered, status := true, tasks[at].status;
        state := s.(awaiters := s.awaiters[a := Answered(id, status)]);
        assert Next(s, AwaitDone(a, at), state);
        StepInv(s, AwaitDone(a, at), state);
      } else {
        state := s.(awaiters := s.awaiters[a := Waiting(id, false)]);
        assert Next(s, AwaitDoze(a, at), state);
        StepInv(s, AwaitDoze(a, at), state);
      }
    }
  }

  lemma CountFree(slots: seq<Slot>)
    ensures Probe.Count(Occupied(slots)) < |slots| ==> exists i :: 0 <= i < |slots| && slots[i].Free?
  {
    Probe.CountBound(Occupied(slots));
    if i :| 0 <= i < |slots| && !Occupied(slots)[i] { assert slots[i].Free?; }
  }

  lemma CountOccupied(slots: seq<Slot>, at: nat)
    requires at < |slots| && slots[at].Task?
    ensures Probe.Count(Occupied(slots)) > 0
  {
    Probe.CountSet(Occupied(slots)[at := false], at);
    assert Occupied(slots)[at := false][at := true] == Occupied(slots);
  }
}
