/**
 The owner's calls over the runtime's real table of invocations. The ghost `state`
 is the whole system, workers and scheduler included; `Valid` ties its entries to
 the array, and each method is the owner's part of a step.
 */
module RuntimeTable {
  import opened CText
  import opened Scheduler
  import opened Runtime

  class Invocations {
    const entries: array<Entry>
    const payloadLimit: nat
    ghost const exec: seq<Byte> -> Outcome
    ghost var state: RState

    ghost predicate Valid()
      reads this, entries
    {
      state.entries == entries[..] && RInv(exec, state)
    }

    constructor (activeLimit: nat, outstandingLimit: nat, payloadLimit: nat, ghost exec: seq<Byte> -> Outcome)
      ensures Valid() && fresh(entries) && state == RInitial(activeLimit, outstandingLimit) && entries.Length == outstandingLimit && this.payloadLimit == payloadLimit
      ensures forall i :: 0 <= i < entries.Length ==> entries[i] == Vacant
    {
      entries := new Entry[outstandingLimit](_ => Vacant);
      this.exec, this.payloadLimit := exec, payloadLimit;
      state := RInitial(activeLimit, outstandingLimit);
      new;
      RInitialInv(exec, activeLimit, outstandingLimit);
      assert entries[..] == state.entries;
    }

    /** find_runtime_task. */
    method Find(id: int) returns (found: bool, at: nat)
      ensures found ==> at < entries.Length && entries[at].Entry? && entries[at].id == id
      ensures found <==> HasEntry(entries[..], id)
    {
      for i := 0 to entries.Length
        invariant forall k :: 0 <= k < i ==> !(entries[k].Entry? && entries[k].id == id)
      {
        if entries[i].Entry? && entries[i].id == id {
          assert entries[..][i].Entry? && entries[..][i].id == id;
          return true, i;
        }
      }
      return false, 0;
    }

    /** aivm_worker_runtime_submit up to its call of the scheduler: the first free entry takes the payload. `prepared` says
        that the program could be loaded and `copied` that there was memory for the payload. */
    method Place(id: int, payload: seq<Byte>, prepared: bool, copied: bool) returns (ok: bool, at: nat)
      requires Valid() && state.owner == Idle
      modifies entries, this`state
      ensures Valid()
      ensures ok <==> |payload| <= payloadLimit && !HasEntry(old(entries[..]), id) && prepared && Vacant in old(entries[..]) && copied
      ensures if ok then RNext(exec, old(state), Runtime.Place(id, payload, at), state) else state == old(state)
      ensures ok ==> at < entries.Length && entries[..] == old(entries[..])[at := Entry(id, payload, Outcome.Pending)] && old(entries[..])[at] == Vacant
      ensures ok ==> forall k :: 0 <= k < at ==> old(entries[..])[k].Entry?
      ensures !ok ==> entries[..] == old(entries[..])
    {
      at := 0;
      if |payload| > payloadLimit {
        return false, 0;
      }
      var taken, where := Find(id);
      if taken || !prepared {
        return false, 0;
      }
      for i := 0 to entries.Length
        invariant forall k :: 0 <= k < i ==> entries[k].Entry?
        invariant entries[..] == old(entries[..]) && state == old(state)
      {
        if entries[i].Vacant? {
          ghost var r := state;
          assert entries[..][i] == Vacant;
          if !copied {
            return false, 0;
          }
          entries[i] := Entry(id, payload, Outcome.Pending);
          state := r.(entries := r.entries[i := Entry(id, payload, Outcome.Pending)], owner := Placed(i), given := r.given[id := payload]);
          assert entries[..] == state.entries;
          RStepInv(exec, r, Runtime.Place(id, payload, i), state);
          return true, i;
        }
      }
      return false, 0;
    }

    /** The end of aivm_worker_runtime_release, once the scheduler has let go of the task: no worker is inside its `run`. */
    method Free(at: nat)
      requires Valid() && state.owner == Freeing(at)
      modifies entries, this`state
      ensures Valid() && RNext(exec, old(state), FreeEntry, state) && at < entries.Length && entries[..] == old(entries[..])[at := Vacant]
      ensures forall w :: 0 <= w < |old(state).sched.workers| && old(state).sched.workers[w].InRun? ==> old(state).sched.workers[w].context != at
    {
      ghost var r := state;
      forall w | 0 <= w < |r.sched.workers| && r.sched.workers[w].InRun? ensures r.sched.workers[w].context != at { RunOwnsEntry(r, w); }
      entries[at] := Vacant;
      state := r.(entries := r.entries[at := Vacant], owner := Idle);
      assert entries[..] == state.entries;
      RStepInv(exec, r, FreeEntry, state);
    }

    /** aivm_worker_runtime_await once the scheduler has answered with `status`. */
    method Answer(id: int, status: Status, ghost slot: nat) returns (ok: bool, answer: Answer)
      requires Valid() && state.owner == Idle
      requires slot < |state.sched.slots| && Holds(state.sched.slots[slot], id) && state.sched.slots[slot].status == status && IsTerminal(state.sched.slots[slot])
      ensures ok && id in state.given
      ensures answer == if status == Canceled then WasCanceled else Result(exec(state.given[id]))
    {
      assert PointsAt(state, state.sched.slots[slot]);
      assert entries[..][state.sched.slots[slot].context].id == id;
      var at;
      ok, at := Find(id);
      AwaitReturnsOwn(exec, state, at, slot);
      answer := AwaitAnswer(entries[at], status);
    }
  }
}
