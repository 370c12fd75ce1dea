/**
 The owner's side of worker tasks: single submissions, batches, and the refill of
 the window whenever slots of the task table are free.
 */
module WorkerTasks {
  import opened CText
  import opened Heap
  import opened TaskTable
  import opened Batches

  class Workers {
    const owner: Owner
    const taskLimit: nat        // logical tasks the profile allows
    const inputLimit: nat       // and bytes of their batches
    var groups: seq<Group>
    var nextGroup: int
    var logicalTasks: nat
    var logicalBytes: nat
    ghost var log: seq<Submission>

    ghost predicate Valid()
      reads this, owner
    {
      owner.Valid() && Intact(groups, owner.nextHandle, log)
    }

    constructor (owner: Owner, taskLimit: nat, inputLimit: nat)
      requires owner.Valid()
      ensures Valid() && groups == [] && this.owner == owner && this.taskLimit == taskLimit && this.inputLimit == inputLimit
      ensures nextGroup == 1 && logicalTasks == 0 && logicalBytes == 0 && log == []
    {
      this.owner, this.taskLimit, this.inputLimit := owner, taskLimit, inputLimit;
      groups, nextGroup, logicalTasks, logicalBytes, log := [], 1, 0, 0, [];
    }

    /** Issue a pending task and submit it; `takes` tells which handles the runtime accepts. A task it refuses is
        discarded, its handle spent. */
    method IssueAndSubmit(takes: int -> bool) returns (ok: bool, handle: int, ghost at: nat)
      requires owner.Valid()
      modifies owner`tasks, owner`nextHandle, owner`past
      ensures owner.Valid()
      ensures ok <==> CanIssue(old(owner.tasks), owner.holders, old(owner.nextHandle)) && takes(old(owner.nextHandle))
      ensures ok ==> handle == old(owner.nextHandle) && SlotAdded(old(owner.tasks), owner.holders, at, TaskSlot(handle, Pending, Void, true), owner.tasks)
      ensures !ok ==> owner.tasks == old(owner.tasks) || SlotFreed(old(owner.tasks), owner.holders, at, owner.tasks)
      ensures owner.nextHandle == old(owner.nextHandle) + if CanIssue(old(owner.tasks), owner.holders, old(owner.nextHandle)) then 1 else 0
    {
      ok, handle, at := owner.Issue(Pending, Void, true);
      if !ok {
        return;
      }
      ghost var issued := owner.tasks;
      assert issued[|issued| - 1].handle == handle;
      ok := takes(handle);
      if !ok {
        ghost var k := owner.Discard(handle);
        LastWithout(issued, owner.nextHandle, k);
      }
    }

    /** aivm_vm_submit_worker_task: one task outside any group. */
    method SubmitOne(payload: seq<Byte>, takes: int -> bool) returns (ok: bool, handle: int, ghost at: nat)
      requires Valid()
      modifies this`log, owner`tasks, owner`nextHandle, owner`past
      ensures Valid()
      ensures ok <==> CanIssue(old(owner.tasks), owner.holders, old(owner.nextHandle)) && takes(old(owner.nextHandle))
      ensures ok ==> log == old(log) + [Submission(handle, payload, Alone)] && handle == old(owner.nextHandle)
      ensures ok ==> SlotAdded(old(owner.tasks), owner.holders, at, TaskSlot(handle, Pending, Void, true), owner.tasks)
      ensures !ok ==> log == old(log) && (owner.tasks == old(owner.tasks) || SlotFreed(old(owner.tasks), owner.holders, at, owner.tasks))
    {
      OtherKeepsIntact(groups, owner.nextHandle, log, payload);
      SpentKeepsIntact(groups, owner.nextHandle, log, owner.nextHandle + 1);
      ok, handle, at := IssueAndSubmit(takes);
      if ok {
        log := log + [Submission(handle, payload, Alone)];
      }
    }

    /** A pending task in a table with room: nothing is reclaimed. */
    method IssueWithRoom(takes: int -> bool) returns (ok: bool, handle: int)
      requires owner.Valid() && |owner.tasks| < TASK_CAPACITY
      modifies owner`tasks, owner`nextHandle, owner`past
      ensures owner.Valid()
      ensures owner.tasks == if ok then old(owner.tasks) + [TaskSlot(old(owner.nextHandle), Pending, Void, true)] else old(owner.tasks)
      ensures ok ==> handle == old(owner.nextHandle) && owner.nextHandle == handle + 1
      ensures !ok ==> old(owner.nextHandle) <= owner.nextHandle && Stuck(takes, owner.nextHandle)
    {
      ghost var next, was := owner.nextHandle, owner.tasks;
      ghost var at;
      ok, handle, at := IssueAndSubmit(takes);
      AddedWithRoom(was, owner.holders, at, TaskSlot(next, Pending, Void, true), owner.tasks);
    }

    /** The step of the mark of group `g` once its next payload is submitted under `handle`. */
    method MoveMark(g: nat, handle: int)
      requires Intact(groups, handle, log) && CanAdvance(groups, g) && handle > 0
      modifies this`groups, this`log
      ensures Intact(groups, handle + 1, log) && Advanced(old(groups), old(log), g, handle, groups, log)
    {
      groups, log := Advance(groups, log, g, handle);
    }

    /** materialize_worker_task for the next payload of group `g`, and the step of its mark. */
    method Materialize(g: nat, takes: int -> bool) returns (ok: bool)
      requires Valid() && CanAdvance(groups, g) && |owner.tasks| < TASK_CAPACITY
      modifies this`groups, this`log, owner`tasks, owner`nextHandle, owner`past
      ensures Valid()
      ensures ok ==> Advanced(old(groups), old(log), g, old(owner.nextHandle), groups, log)
      ensures !ok ==> groups == old(groups) && log == old(log) && Stuck(takes, owner.nextHandle)
      ensures owner.tasks == if ok then old(owner.tasks) + [TaskSlot(old(owner.nextHandle), Pending, Void, true)] else old(owner.tasks)
    {
      ghost var next := owner.nextHandle;
      var handle;
      ok, handle := IssueWithRoom(takes);
      if ok {
        MoveMark(g, handle);
      } else {
        SpentKeepsIntact(groups, next, log, owner.nextHandle);
      }
    }

    /** aivm_vm_refill_worker_task_groups: while slots are free, the next payloads become tasks, in order; it stops with
        slots free when every payload of every group has been made, and fails only where it is stuck. */
    method Refill(takes: int -> bool) returns (ok: bool)
      requires Valid()
      modifies this`groups, this`log, owner`tasks, owner`nextHandle, owner`past
      ensures Valid() && Progress(old(groups), old(log), old(owner.tasks), groups, log, owner.tasks)
      ensures ok && |owner.tasks| < TASK_CAPACITY ==> DoneBefore(groups, |groups|)
      ensures !ok ==> Stuck(takes, owner.nextHandle) && |owner.tasks| < TASK_CAPACITY && !DoneBefore(groups, |groups|)
    {
      var g := 0;
      while g < |groups| && |owner.tasks| < TASK_CAPACITY
        invariant Valid() && Progress(old(groups), old(log), old(owner.tasks), groups, log, owner.tasks) && 0 <= g <= |groups|
        invariant |owner.tasks| < TASK_CAPACITY ==> DoneBefore(groups, g)
        decreases |groups| - g
      {
        ghost var before, sent, was := groups, log, owner.tasks;
        ok := FillGroup(g, takes);
        ProgressTwice(old(groups), old(log), old(owner.tasks), before, sent, was, groups, log, owner.tasks);
        if !ok {
          assert !DoneBefore(groups, |groups|);
          return;
        }
        g := g + 1;
      }
      ok := true;
    }

    /** The inner loop of the refill over one group. */
    method FillGroup(g: nat, takes: int -> bool) returns (ok: bool)
      requires Valid() && g < |groups| && DoneBefore(groups, g)
      modifies this`groups, this`log, owner`tasks, owner`nextHandle, owner`past
      ensures Valid() && Progress(old(groups), old(log), old(owner.tasks), groups, log, owner.tasks) && DoneBefore(groups, g)
      ensures ok ==> DoneBefore(groups, g + 1) || |owner.tasks| >= TASK_CAPACITY
      ensures !ok ==> Stuck(takes, owner.nextHandle) && Left(groups, g) > 0 && |owner.tasks| < TASK_CAPACITY
    {
      while groups[g].next < |groups[g].handles| && |owner.tasks| < TASK_CAPACITY
        invariant Valid() && Progress(old(groups), old(log), old(owner.tasks), groups, log, owner.tasks) && DoneBefore(groups, g)
        decreases Left(groups, g)
      {
        ghost var before, sent, was := groups, log, owner.tasks;
        ok := FillNext(g, takes);
        ProgressTwice(old(groups), old(log), old(owner.tasks), before, sent, was, groups, log, owner.tasks);
        if !ok {
          return;
        }
      }
      ok := true;
      DoneNext(groups, g);
    }

    /** One turn of that loop. */
    method FillNext(g: nat, takes: int -> bool) returns (ok: bool)
      requires Valid() && CanAdvance(groups, g) && |owner.tasks| < TASK_CAPACITY
      modifies this`groups, this`log, owner`tasks, owner`nextHandle, owner`past
      ensures Valid() && Progress(old(groups), old(log), old(owner.tasks), groups, log, owner.tasks) && DoneBefore(groups, g)
      ensures ok ==> Left(groups, g) < Left(old(groups), g)
      ensures !ok ==> Stuck(takes, owner.nextHandle) && Left(groups, g) > 0 && |owner.tasks| < TASK_CAPACITY
    {
      ghost var before, sent, next := groups, log, owner.nextHandle;
      ok := Materialize(g, takes);
      if ok {
        AdvanceKeepsBatches(before, sent, g, next, groups, log);
      }
    }

    /** The workload so far, against its bounds. */
    function Load(): Workload
      reads this
    {
      Workload(logicalTasks, taskLimit, logicalBytes, inputLimit, |groups|, TASK_CAPACITY, nextGroup, INT64_MAX)
    }

    /** aivm_vm_submit_worker_tasks once its operands are checked; `ready` says that the catalog has the worker and the
        runtime could be made. An accepted batch becomes a group behind the others. */
    method SubmitAll(batch: seq<Byte>, ready: bool, takes: int -> bool) returns (ok: bool, ghost accepted: bool, ghost ps: seq<seq<Byte>>)
      requires Valid()
      modifies this`groups, this`log, this`nextGroup, this`logicalTasks, this`logicalBytes, owner`tasks, owner`nextHandle, owner`past
      ensures Valid() && old(log) <= log && (ok ==> accepted)
      ensures accepted <==> ready && Admissible(batch, old(Load()))
      ensures old(owner.tasks) <= owner.tasks && GroupsKept(old(groups), groups)
      ensures !accepted ==> groups == old(groups) && log == old(log) && nextGroup == old(nextGroup) && logicalTasks == old(logicalTasks) && logicalBytes == old(logicalBytes)
      ensures accepted ==> GroupAdded(old(groups), groups, old(nextGroup), batch, ps)
      ensures accepted ==> nextGroup == old(nextGroup) + 1 && logicalTasks == old(logicalTasks) + |ps| && logicalBytes == old(logicalBytes) + |batch|
      ensures ok && |owner.tasks| < TASK_CAPACITY ==> DoneBefore(groups, |groups|)
      ensures accepted && !ok ==> Stuck(takes, owner.nextHandle) && |owner.tasks| < TASK_CAPACITY && !DoneBefore(groups, |groups|)
    {
      var count;
      ok, count, ps := CheckBatch(batch, ready);
      accepted := ok;
      if ok {
        ok := Accept(batch, count, ps, takes);
      }
    }

    /** The group of a checked batch goes behind the others, and the window is filled. */
    method Accept(batch: seq<Byte>, count: nat, ghost ps: seq<seq<Byte>>, takes: int -> bool) returns (ok: bool)
      requires Valid() && IsFraming(batch, ps) && |ps| == count > 0
      modifies this`groups, this`log, this`nextGroup, this`logicalTasks, this`logicalBytes, owner`tasks, owner`nextHandle, owner`past
      ensures Valid() && old(log) <= log && GroupAdded(old(groups), groups, old(nextGroup), batch, ps) && old(owner.tasks) <= owner.tasks
      ensures nextGroup == old(nextGroup) + 1 && logicalTasks == old(logicalTasks) + count && logicalBytes == old(logicalBytes) + |batch|
      ensures ok && |owner.tasks| < TASK_CAPACITY ==> DoneBefore(groups, |groups|)
      ensures !ok ==> Stuck(takes, owner.nextHandle) && |owner.tasks| < TASK_CAPACITY && !DoneBefore(groups, |groups|)
    {
      AddGroup(batch, ps);
      nextGroup, logicalTasks, logicalBytes := nextGroup + 1, logicalTasks + count, logicalBytes + |batch|;
      ghost var before := groups;
      ok := Refill(takes);
      FilledKeepsAdded(old(groups), before, groups, old(nextGroup), batch, ps);
    }

    method AddGroup(batch: seq<Byte>, ghost ps: seq<seq<Byte>>)
      requires Valid() && IsFraming(batch, ps) && ps != []
      modifies this`groups
      ensures Valid() && GroupAdded(old(groups), groups, nextGroup, batch, ps) && groups[..|old(groups)|] == old(groups)
    {
      var g := MakeGroup(nextGroup, batch, ps);
      GroupKeepsIntact(groups, owner.nextHandle, log, g);
      groups := groups + [g];
      GroupsKeptSelf(old(groups));
      assert forall k :: 0 <= k < |old(groups)| ==> groups[k] == old(groups)[k];
    }

    /** The tests of aivm_vm_submit_worker_tasks. */
    method CheckBatch(batch: seq<Byte>, ready: bool) returns (ok: bool, count: nat, ghost ps: seq<seq<Byte>>)
      ensures ok <==> ready && Admissible(batch, Load())
      ensures ok ==> IsFraming(batch, ps) && count == |ps| > 0
    {
      ok, count, ps := ValidateBatch(batch);
      if ok {
        AdmissibleIff(batch, ps, Load());
        ok := ready && logicalTasks + count <= taskLimit && logicalBytes + |batch| <= inputLimit && |groups| < TASK_CAPACITY && nextGroup < INT64_MAX;
      }
    }

    /** AIVM_OP_AWAIT with what follows the delivery: the slot it freed is refilled. The safe point after it cannot fail. */
    method Await(handle: int, arrived: Option<TaskSlot>, isErr: bool, takes: int -> bool) returns (ok: bool, delivered: bool, result: Value, ghost from: nat)
      requires Valid() && (arrived.Some? ==> arrived.value.handle == handle && Terminal(arrived.value.state))
      modifies this`groups, this`log, owner`tasks, owner`nextHandle, owner`past, owner`consumed, owner`holders, owner`delivered
      ensures Valid() && |groups| == |old(groups)| && GroupsKept(old(groups), groups) && old(log) <= log && (ok ==> delivered)
      ensures owner.delivered == if delivered then old(owner.delivered) + [handle] else old(owner.delivered)
      ensures delivered <==> HasHandle(old(owner.tasks), handle) && SlotOf(old(owner.tasks), handle, from) && Deliverable(old(owner.tasks)[from], handle, arrived, isErr) &&
                             (|old(owner.consumed)| < 256 || !NeedsTombstone(old(owner.tasks), old(owner.holders) + [result], old(owner.consumed), handle))
      ensures !delivered ==> groups == old(groups) && log == old(log)
      ensures delivered ==> SlotOf(old(owner.tasks), handle, from) && Deliverable(old(owner.tasks)[from], handle, arrived, isErr) && result == Outcome(old(owner.tasks)[from], arrived)
      ensures delivered ==> Without(old(owner.tasks), from) <= owner.tasks && owner.holders == old(owner.holders) + [result]
      ensures handle in old(owner.delivered) ==> !delivered
      ensures ok && |owner.tasks| < TASK_CAPACITY ==> DoneBefore(groups, |groups|)
      ensures delivered && !ok ==> Stuck(takes, owner.nextHandle) && |owner.tasks| < TASK_CAPACITY && !DoneBefore(groups, |groups|)
    {
      delivered, result, from := owner.Await(handle, arrived, isErr);
      if !delivered {
        return false, false, result, from;
      }
      ok := Refill(takes);
    }
  }
}
