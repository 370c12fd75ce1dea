/**
 The owner VM's task table: handles issued once and in order, slots kept in the
 order of their handles, the oldest finished slot reclaimed when the table is
 full, and AWAIT, which delivers a result and drops its slot.
 */
module TaskTable {
  import opened Heap

  const TASK_CAPACITY: nat := 256
  const INT64_MAX: int := 0x7FFF_FFFF_FFFF_FFFF

  datatype TaskState = Pending | Completed | Failed | Canceled

  datatype TaskSlot = TaskSlot(handle: int, state: TaskState, result: Value, worker: bool)

  predicate Terminal(state: TaskState) {
    state != Pending
  }

  /** A task is pinned when a stack, local or parallel value, or another task's result, holds its handle. */
  ghost predicate Pinned(tasks: seq<TaskSlot>, holders: seq<Value>, handle: int) {
    || (exists i :: 0 <= i < |holders| && holders[i] == Value.Task(handle))
    || (exists i :: 0 <= i < |tasks| && tasks[i].handle != handle && tasks[i].result == Value.Task(handle))
  }

  ghost predicate Reclaimable(tasks: seq<TaskSlot>, holders: seq<Value>, i: nat) {
    i < |tasks| && Terminal(tasks[i].state) && !Pinned(tasks, holders, tasks[i].handle)
  }

  function Without(tasks: seq<TaskSlot>, i: nat): (r: seq<TaskSlot>)
    requires i < |tasks|
    ensures |r| == |tasks| - 1
  {
    tasks[..i] + tasks[i + 1..]
  }

  ghost predicate NoneReclaimable(tasks: seq<TaskSlot>, holders: seq<Value>) {
    forall i: nat :: !Reclaimable(tasks, holders, i)
  }

  /** The first slot that could be reclaimed stands at `at`. */
  ghost predicate OldestReclaimable(tasks: seq<TaskSlot>, holders: seq<Value>, at: nat) {
    Reclaimable(tasks, holders, at) && forall i: nat :: i < at ==> !Reclaimable(tasks, holders, i)
  }

  /** One more slot at the end; a full table first loses its oldest finished, unpinned slot and no other. */
  ghost predicate SlotAdded(tasks: seq<TaskSlot>, holders: seq<Value>, at: nat, slot: TaskSlot, tasks': seq<TaskSlot>) {
    SlotFreed(tasks, holders, at, tasks'[..if |tasks'| > 0 then |tasks'| - 1 else 0]) && |tasks'| > 0 && tasks'[|tasks'| - 1] == slot
  }

  /** The table before the new slot: as it was with room, else without its oldest finished, unpinned slot. */
  ghost predicate SlotFreed(tasks: seq<TaskSlot>, holders: seq<Value>, at: nat, rest: seq<TaskSlot>) {
    if |tasks| < 256 then rest == tasks else OldestReclaimable(tasks, holders, at) && rest == Without(tasks, at)
  }

  /** The slot of `handle`, finished or finished by waiting, with a payload its state allows. */
  ghost predicate Deliverable(slot: TaskSlot, handle: int, arrived: Option<TaskSlot>, isErr: bool) {
    && slot.handle == handle && (slot.state == Pending ==> arrived.Some?)
    && (isErr || (if slot.state == Pending then arrived.value.state == Completed else slot.state == Completed))
  }

  /** The table once a pending slot at `at` has what waiting brought. */
  ghost function Settled(tasks: seq<TaskSlot>, at: nat, arrived: Option<TaskSlot>): seq<TaskSlot> {
    if at < |tasks| && tasks[at].state == Pending && arrived.Some? then tasks[at := arrived.value] else tasks
  }

  /** The first slot with the handle, the only one there is, stands at `at`. */
  ghost predicate SlotOf(tasks: seq<TaskSlot>, handle: int, at: nat) {
    at < |tasks| && tasks[at].handle == handle
  }

  /** Finding room for a new slot: always with less than 256, else when some slot can be reclaimed. */
  ghost predicate CanIssue(tasks: seq<TaskSlot>, holders: seq<Value>, next: int) {
    next < 0x7FFF_FFFF_FFFF_FFFF && (|tasks| < 256 || !NoneReclaimable(tasks, holders))
  }

  /** A consumed handle that something still holds needs a tombstone, unless it has one. */
  ghost predicate NeedsTombstone(tasks: seq<TaskSlot>, holders: seq<Value>, consumed: seq<int>, handle: int) {
    Pinned(tasks, holders, handle) && handle !in consumed
  }

  /** Settling a slot does not change whether its own handle is held. */
  lemma SettledPins(tasks: seq<TaskSlot>, holders: seq<Value>, handle: int, at: nat, arrived: Option<TaskSlot>)
    requires SlotOf(tasks, handle, at) && (arrived.Some? ==> arrived.value.handle == handle)
    ensures Pinned(Settled(tasks, at, arrived), holders, handle) <==> Pinned(tasks, holders, handle)
  {
    var tasks' := Settled(tasks, at, arrived);
    assert forall i :: 0 <= i < |tasks| && i != at ==> tasks'[i] == tasks[i];
    if i :| 0 <= i < |tasks| && tasks[i].handle != handle && tasks[i].result == Value.Task(handle) { assert tasks'[i] == tasks[i]; }
  }

  ghost function Outcome(slot: TaskSlot, arrived: Option<TaskSlot>): Value {
    if slot.state == Pending && arrived.Some? then arrived.value.result else slot.result
  }

  ghost predicate HasHandle(tasks: seq<TaskSlot>, handle: int) {
    exists i :: 0 <= i < |tasks| && tasks[i].handle == handle
  }

  /** Slots stand in the order their handles were issued. */
  ghost predicate InOrder(tasks: seq<TaskSlot>, next: int) {
    && (forall i, j :: 0 <= i < j < |tasks| ==> tasks[i].handle < tasks[j].handle)
    && (forall i :: 0 <= i < |tasks| ==> 1 <= tasks[i].handle < next)
  }

  /** Removing a slot keeps the order of the rest and drops exactly its handle. */
  lemma WithoutKeepsOrder(tasks: seq<TaskSlot>, next: int, k: nat)
    requires InOrder(tasks, next) && k < |tasks|
    ensures InOrder(Without(tasks, k), next)
    ensures forall h :: HasHandle(Without(tasks, k), h) <==> HasHandle(tasks, h) && h != tasks[k].handle
  {
    var r := Without(tasks, k);
    assert forall i :: 0 <= i < |r| ==> r[i] == tasks[if i < k then i else i + 1];
    forall h | HasHandle(tasks, h) && h != tasks[k].handle ensures HasHandle(r, h) {
      var i :| 0 <= i < |tasks| && tasks[i].handle == h;
      assert r[if i < k then i else i - 1] == tasks[i];
    }
  }

  /** is_task_handle_pinned. */
  method IsPinned(tasks: seq<TaskSlot>, holders: seq<Value>, handle: int) returns (pinned: bool)
    ensures pinned <==> Pinned(tasks, holders, handle)
  {
    for i := 0 to |holders|
      invariant forall k :: 0 <= k < i ==> holders[k] != Value.Task(handle)
    {
      if holders[i].Task? && holders[i].h == handle {
        return true;
      }
    }
    for i := 0 to |tasks|
      invariant forall k :: 0 <= k < i ==> !(tasks[k].handle != handle && tasks[k].result == Value.Task(handle))
    {
      if tasks[i].handle != handle && tasks[i].result.Task? && tasks[i].result.h == handle {
        return true;
      }
    }
    pinned := false;
  }

  /** reclaim_oldest_completed_task_slot: drops the first slot that is finished and not pinned, and fails only when
      a table that is not empty has none. */
  method Reclaim(tasks: seq<TaskSlot>, holders: seq<Value>) returns (ok: bool, tasks': seq<TaskSlot>, ghost at: nat)
    ensures ok <==> tasks == [] || exists i :: Reclaimable(tasks, holders, i)
    ensures !ok || tasks == [] ==> tasks' == tasks
    ensures ok && tasks != [] ==> Reclaimable(tasks, holders, at) && tasks' == Without(tasks, at) && forall i: nat :: i < at ==> !Reclaimable(tasks, holders, i)
  {
    tasks', at := tasks, 0;
    if |tasks| == 0 {
      return true, tasks', 0;
    }
    for index := 0 to |tasks|
      invariant forall i: nat :: i < index ==> !Reclaimable(tasks, holders, i)
    {
      if Terminal(tasks[index].state) {
        var pinned := IsPinned(tasks, holders, tasks[index].handle);
        if !pinned {
          assert Reclaimable(tasks, holders, index);
          return true, tasks[..index] + tasks[index + 1..], index;
        }
      }
    }
    ok := false;
  }

  /** remove_completed_task_slot. */
  method Remove(tasks: seq<TaskSlot>, handle: int) returns (found: bool, tasks': seq<TaskSlot>, ghost at: nat)
    ensures found <==> HasHandle(tasks, handle)
    ensures if found then at < |tasks| && tasks[at].handle == handle && tasks' == Without(tasks, at) else tasks' == tasks
  {
    tasks', at := tasks, 0;
    for index := 0 to |tasks|
      invariant forall k :: 0 <= k < index ==> tasks[k].handle != handle
    {
      if tasks[index].handle == handle {
        return true, tasks[..index] + tasks[index + 1..], index;
      }
    }
    found := false;
  }

  /** Results handed out so far: never twice the same handle, and never one still in the table. */
  ghost predicate Delivered(tasks: seq<TaskSlot>, next: int, delivered: seq<int>) {
    && (forall i, j :: 0 <= i < j < |delivered| ==> delivered[i] != delivered[j])
    && (forall i :: 0 <= i < |delivered| ==> delivered[i] < next && !HasHandle(tasks, delivered[i]))
  }

  ghost predicate TableOk(tasks: seq<TaskSlot>, next: int, delivered: seq<int>) {
    |tasks| <= TASK_CAPACITY && next >= 1 && InOrder(tasks, next) && Delivered(tasks, next, delivered)
  }

  lemma DropKeepsTable(tasks: seq<TaskSlot>, next: int, delivered: seq<int>, k: nat)
    requires TableOk(tasks, next, delivered) && k < |tasks|
    ensures TableOk(Without(tasks, k), next, delivered) && TableOk(Without(tasks, k), next, delivered + [tasks[k].handle])
  {
    WithoutKeepsOrder(tasks, next, k);
    assert HasHandle(tasks, tasks[k].handle);
  }

  lemma IssueKeepsTable(tasks: seq<TaskSlot>, next: int, delivered: seq<int>, slot: TaskSlot)
    requires TableOk(tasks, next, delivered) && |tasks| < TASK_CAPACITY && slot.handle == next
    ensures TableOk(tasks + [slot], next + 1, delivered)
  {
    forall i | 0 <= i < |delivered| ensures !HasHandle(tasks + [slot], delivered[i]) {
      assert !HasHandle(tasks, delivered[i]);
    }
  }

  lemma SameHandles(tasks: seq<TaskSlot>, tasks': seq<TaskSlot>, next: int, delivered: seq<int>)
    requires TableOk(tasks, next, delivered) && |tasks'| == |tasks| && forall i :: 0 <= i < |tasks| ==> tasks'[i].handle == tasks[i].handle
    ensures TableOk(tasks', next, delivered) && forall h :: HasHandle(tasks', h) <==> HasHandle(tasks, h)
  {
    forall h ensures HasHandle(tasks', h) <==> HasHandle(tasks, h) {
      if i :| 0 <= i < |tasks| && tasks[i].handle == h { assert tasks'[i].handle == h; }
      if i :| 0 <= i < |tasks'| && tasks'[i].handle == h { assert tasks[i].handle == h; }
    }
  }

  // ----- over any run

  datatype Table = Table(tasks: seq<TaskSlot>, next: int, delivered: seq<int>)

  /** What the operations above do to the table, one at a time. */
  datatype TableStep =
    | Issues(slot: TaskSlot)
    | Drops(at: nat)               // reclaimed or discarded
    | Fills(at: nat, slot: TaskSlot)
    | Delivers(at: nat)

  ghost predicate TableNext(t: Table, step: TableStep, t': Table) {
    match step
    case Issues(slot) => slot.handle == t.next && |t.tasks| < TASK_CAPACITY && t' == Table(t.tasks + [slot], t.next + 1, t.delivered)
    case Drops(at) => at < |t.tasks| && t' == t.(tasks := Without(t.tasks, at))
    case Fills(at, slot) => at < |t.tasks| && slot.handle == t.tasks[at].handle && t' == t.(tasks := t.tasks[at := slot])
    case Delivers(at) => at < |t.tasks| && t' == t.(tasks := Without(t.tasks, at), delivered := t.delivered + [t.tasks[at].handle])
  }

  lemma TableStepOk(t: Table, step: TableStep, t': Table)
    requires TableOk(t.tasks, t.next, t.delivered) && TableNext(t, step, t')
    ensures TableOk(t'.tasks, t'.next, t'.delivered) && t'.next >= t.next
  {
    match step
    case Issues(slot) => IssueKeepsTable(t.tasks, t.next, t.delivered, slot);
    case Drops(at) => DropKeepsTable(t.tasks, t.next, t.delivered, at);
    case Fills(at, slot) => SameHandles(t.tasks, t'.tasks, t.next, t.delivered);
    case Delivers(at) => DropKeepsTable(t.tasks, t.next, t.delivered, at);
  }

  /** The states and steps of a table so far, from an empty one. */
  datatype History = History(states: seq<Table>, steps: seq<TableStep>)

  ghost predicate IsTableRun(run: seq<Table>, steps: seq<TableStep>) {
    && |run| == |steps| + 1 && run[0] == Table([], 1, [])
    && forall k {:trigger StepAt(run, steps, k)} :: 0 <= k < |steps| ==> StepAt(run, steps, k)
  }

  ghost predicate StepAt(run: seq<Table>, steps: seq<TableStep>, k: nat)
    requires k < |steps| && |run| == |steps| + 1
  {
    TableNext(run[k], steps[k], run[k + 1])
  }

  /** Over any run no result is delivered twice and no handle is issued twice: handles issued later are larger. */
  lemma {:induction false} DeliveredAtMostOnce(run: seq<Table>, steps: seq<TableStep>, k: nat)
    requires IsTableRun(run, steps) && k < |run|
    ensures TableOk(run[k].tasks, run[k].next, run[k].delivered)
    ensures forall i, j :: 0 <= i < j < |run[k].delivered| ==> run[k].delivered[i] != run[k].delivered[j]
    ensures forall i :: 0 <= i < k && steps[i].Issues? ==> steps[i].slot.handle < run[k].next
  {
    if k > 0 {
      DeliveredAtMostOnce(run, steps, k - 1);
      assert StepAt(run, steps, k - 1);
      TableStepOk(run[k - 1], steps[k - 1], run[k]);
    }
  }

  /** The history ends in the table `t`. */
  ghost predicate EndsIn(past: History, t: Table) {
    IsTableRun(past.states, past.steps) && past.states[|past.steps|] == t
  }

  function Extended(past: History, step: TableStep, t: Table): History {
    History(past.states + [t], past.steps + [step])
  }

  /** A later history of the same table. */
  ghost predicate Continues(past: History, past': History) {
    past.steps <= past'.steps
  }

  ghost predicate LastStep(past: History, step: TableStep) {
    past.steps != [] && past.steps[|past.steps| - 1] == step
  }

  lemma ContinuesTwice(a: History, b: History, c: History)
    requires Continues(a, b) && Continues(b, c)
    ensures Continues(a, c)
  {}

  lemma StepExtends(past: History, t: Table, step: TableStep, t': Table)
    requires EndsIn(past, t) && TableNext(t, step, t')
    ensures EndsIn(Extended(past, step, t'), t')
  {
    var next := Extended(past, step, t');
    forall k | 0 <= k < |next.steps| ensures StepAt(next.states, next.steps, k) {
      if k < |past.steps| { assert StepAt(past.states, past.steps, k); }
    }
  }

  /** What the owner keeps: its table is where some run of the steps above ends, and so is good. */
  ghost predicate OwnerOk(tasks: seq<TaskSlot>, next: int, consumed: seq<int>, delivered: seq<int>, past: History) {
    TableOk(tasks, next, delivered) && |consumed| <= TASK_CAPACITY && EndsIn(past, Table(tasks, next, delivered))
  }

  /** One step of the table keeps what the owner keeps. */
  lemma OwnerStep(t: Table, consumed: seq<int>, past: History, step: TableStep, t': Table)
    requires OwnerOk(t.tasks, t.next, consumed, t.delivered, past) && TableNext(t, step, t')
    ensures OwnerOk(t'.tasks, t'.next, consumed, t'.delivered, Extended(past, step, t'))
  {
    assert t == Table(t.tasks, t.next, t.delivered) && t' == Table(t'.tasks, t'.next, t'.delivered);
    TableStepOk(t, step, t');
    StepExtends(past, t, step, t');
  }

  /** Removing the slot of the last handle removes the last slot. */
  lemma LastWithout(tasks: seq<TaskSlot>, next: int, k: nat)
    requires InOrder(tasks, next) && k < |tasks| && tasks[k].handle == tasks[|tasks| - 1].handle
    ensures Without(tasks, k) == tasks[..|tasks| - 1]
  {}

  /** With room nothing is reclaimed. */
  lemma AddedWithRoom(tasks: seq<TaskSlot>, holders: seq<Value>, at: nat, slot: TaskSlot, tasks': seq<TaskSlot>)
    requires |tasks| < TASK_CAPACITY
    ensures SlotAdded(tasks, holders, at, slot, tasks') ==> tasks' == tasks + [slot]
    ensures SlotFreed(tasks, holders, at, tasks') ==> tasks' == tasks
  {
    if SlotAdded(tasks, holders, at, slot, tasks') { assert tasks' == tasks'[..|tasks'| - 1] + [slot]; }
  }

  class Owner {
    var tasks: seq<TaskSlot>
    var nextHandle: int
    var consumed: seq<int>
    var holders: seq<Value>       // stack, locals and parallel values
    ghost var delivered: seq<int> // handles whose result AWAIT has pushed
    ghost var past: History       // every step the table has taken

    ghost predicate Valid()
      reads this
    {
      OwnerOk(tasks, nextHandle, consumed, delivered, past)
    }

    ghost function Value(): Table
      reads this
    {
      Table(tasks, nextHandle, delivered)
    }

    constructor ()
      ensures Valid() && nextHandle == 1 && tasks == [] && delivered == [] && consumed == [] && holders == []
    {
      tasks, nextHandle, consumed, holders, delivered, past := [], 1, [], [], [], History([Table([], 1, [])], []);
    }

    /** The start of aivm_vm_allocate_worker_task and push_completed_task: a full table first reclaims a slot. */
    method MakeSlot() returns (ok: bool, ghost at: nat)
      requires Valid()
      modifies this`tasks, this`past
      ensures Valid() && Continues(old(past), past)
      ensures ok <==> |old(tasks)| < 256 || !NoneReclaimable(old(tasks), holders)
      ensures if ok then SlotFreed(old(tasks), holders, at, tasks) && |tasks| < TASK_CAPACITY else tasks == old(tasks)
    {
      ok, at := true, 0;
      if |tasks| >= TASK_CAPACITY {
        var rest;
        ok, rest, at := Reclaim(tasks, holders);
        if ok {
          OwnerStep(Value(), consumed, past, Drops(at), Value().(tasks := rest));
          tasks, past := rest, Extended(past, Drops(at), Value().(tasks := rest));
        }
      }
    }

    /** aivm_vm_allocate_worker_task and push_completed_task: a handle never issued before, one above the last. */
    method Issue(state: TaskState, result: Value, worker: bool) returns (ok: bool, handle: int, ghost at: nat)
      requires Valid()
      modifies this`tasks, this`nextHandle, this`past
      ensures Valid() && Continues(old(past), past)
      ensures ok ==> handle == old(nextHandle) && nextHandle == handle + 1
      ensures ok ==> LastStep(past, Issues(TaskSlot(handle, state, result, worker)))
      ensures ok <==> CanIssue(old(tasks), holders, old(nextHandle))
      ensures ok ==> SlotAdded(old(tasks), holders, at, TaskSlot(handle, state, result, worker), tasks)
      ensures !ok ==> nextHandle == old(nextHandle) && (tasks == old(tasks) || SlotFreed(old(tasks), holders, at, tasks))
    {
      handle := 0;
      ok, at := MakeSlot();
      if !ok {
        return;
      }
      if nextHandle >= INT64_MAX {
        return false, 0, at;
      }
      handle := nextHandle;
      ghost var mid := past;
      ghost var rest := tasks;
      Append(TaskSlot(handle, state, result, worker));
      assert tasks[..|tasks| - 1] == rest;
      ContinuesTwice(old(past), mid, past);
    }

    /** A slot with the next handle at the end of a table that has room. */
    method Append(slot: TaskSlot)
      requires Valid() && |tasks| < TASK_CAPACITY && slot.handle == nextHandle
      modifies this`tasks, this`nextHandle, this`past
      ensures Valid() && tasks == old(tasks) + [slot] && nextHandle == old(nextHandle) + 1
      ensures Continues(old(past), past) && LastStep(past, Issues(slot))
    {
      ghost var next := Table(tasks + [slot], nextHandle + 1, delivered);
      OwnerStep(Value(), consumed, past, Issues(slot), next);
      tasks, nextHandle, past := tasks + [slot], nextHandle + 1, Extended(past, Issues(slot), next);
    }

    /** aivm_vm_discard_worker_task. */
    method Discard(handle: int) returns (ghost at: nat)
      requires Valid()
      modifies this`tasks, this`past
      ensures Valid() && !HasHandle(tasks, handle) && Continues(old(past), past)
      ensures forall h :: h != handle ==> (HasHandle(tasks, h) <==> HasHandle(old(tasks), h))
      ensures if HasHandle(old(tasks), handle) then at < |old(tasks)| && old(tasks)[at].handle == handle && tasks == Without(old(tasks), at) else tasks == old(tasks)
    {
      var found, rest;
      found, rest, at := Remove(tasks, handle);
      if found {
        WithoutKeepsOrder(tasks, nextHandle, at);
        ghost var next := Value().(tasks := rest);
        OwnerStep(Value(), consumed, past, Drops(at), next);
        tasks, past := rest, Extended(past, Drops(at), next);
      }
    }

    /** find_terminal_task_result; `arrived` is what waiting for a pending task brings, or nothing when it fails, and
        `isErr` tells whether the result is an Err node, as a failed or canceled task's must be. */
    method FindResult(handle: int, arrived: Option<TaskSlot>, isErr: bool) returns (ok: bool, result: Value, ghost at: nat)
      requires Valid() && (arrived.Some? ==> arrived.value.handle == handle && Terminal(arrived.value.state))
      modifies this`tasks, this`past
      ensures Valid() && Continues(old(past), past)
      ensures HasHandle(old(tasks), handle) ==> SlotOf(old(tasks), handle, at) && tasks == Settled(old(tasks), at, arrived)
      ensures !HasHandle(old(tasks), handle) ==> tasks == old(tasks)
      ensures ok <==> HasHandle(old(tasks), handle) && Deliverable(old(tasks)[at], handle, arrived, isErr)
      ensures ok ==> result == Outcome(old(tasks)[at], arrived)
    {
      result, at := Void, 0;
      for i := 0 to |tasks|
        invariant tasks == old(tasks) && past == old(past)
        invariant forall k :: 0 <= k < i ==> tasks[k].handle != handle
      {
        if tasks[i].handle == handle {
          at := i;
          if tasks[i].state == Pending {
            if arrived.None? {
              return false, Void, at;
            }
            ghost var step, next := Fills(i, arrived.value), Value().(tasks := tasks[i := arrived.value]);
            OwnerStep(Value(), consumed, past, step, next);
            tasks, past := tasks[i := arrived.value], Extended(past, step, next);
          }
          if tasks[i].state != Completed && !isErr {
            return false, Void, at;
          }
          return true, tasks[i].result, at;
        }
      }
      ok := false;
    }

    /** AIVM_OP_AWAIT after its operand is popped: the result is pushed, then the slot is dropped, with a tombstone when
        the handle is still held somewhere; it fails only without a deliverable slot or room for that tombstone. */
    method Await(handle: int, arrived: Option<TaskSlot>, isErr: bool) returns (ok: bool, result: Value, ghost from: nat)
      requires Valid() && (arrived.Some? ==> arrived.value.handle == handle && Terminal(arrived.value.state))
      modifies this`tasks, this`consumed, this`holders, this`delivered, this`past
      ensures Valid() && Continues(old(past), past)
      ensures HasHandle(old(tasks), handle) ==> SlotOf(old(tasks), handle, from) && (Deliverable(old(tasks)[from], handle, arrived, isErr) ==> result == Outcome(old(tasks)[from], arrived))
      ensures ok <==> HasHandle(old(tasks), handle) && Deliverable(old(tasks)[from], handle, arrived, isErr) &&
                      (|old(consumed)| < 256 || !NeedsTombstone(old(tasks), old(holders) + [result], old(consumed), handle))
      ensures delivered == if ok then old(delivered) + [handle] else old(delivered)
      ensures ok ==> holders == old(holders) + [result] && tasks == Without(old(tasks), from)
      ensures ok ==> consumed == if NeedsTombstone(old(tasks), holders, old(consumed), handle) then old(consumed) + [handle] else old(consumed)
      ensures !ok ==> consumed == old(consumed) && tasks == if HasHandle(old(tasks), handle) then Settled(old(tasks), from, arrived) else old(tasks)
      ensures handle in old(delivered) ==> !ok
    {
      if handle in delivered { assert !HasHandle(tasks, handle); }
      ok, result, from := FindResult(handle, arrived, isErr);
      if !ok {
        return;
      }
      SettledPins(old(tasks), old(holders) + [result], handle, from, arrived);
      holders := holders + [result];
      var pinned := IsPinned(tasks, holders, handle);
      if pinned && handle !in consumed {
        if |consumed| >= TASK_CAPACITY {
          return false, result, from;
        }
        consumed := consumed + [handle];
      }
      Deliver(handle, from);
      assert tasks == Without(old(tasks), from);
    }

    /** The slot of a handle goes, its result delivered. */
    method Deliver(handle: int, ghost at: nat)
      requires Valid() && SlotOf(tasks, handle, at)
      modifies this`tasks, this`delivered, this`past
      ensures Valid() && Continues(old(past), past) && tasks == Without(old(tasks), at) && delivered == old(delivered) + [handle]
    {
      var found, rest;
      ghost var k;
      found, rest, k := Remove(tasks, handle);
      assert k == at;
      ghost var next := Table(rest, nextHandle, delivered + [handle]);
      OwnerStep(Value(), consumed, past, Delivers(at), next);
      tasks, delivered, past := rest, delivered + [handle], Extended(past, Delivers(at), next);
    }
  }

  /** Over the whole life of an owner: no result delivered twice, and every handle it issued below the next one. */
  lemma OwnerDeliversOnce(owner: Owner)
    requires owner.Valid()
    ensures forall i, j :: 0 <= i < j < |owner.delivered| ==> owner.delivered[i] != owner.delivered[j]
    ensures forall i :: 0 <= i < |owner.past.steps| && owner.past.steps[i].Issues? ==> owner.past.steps[i].slot.handle < owner.nextHandle
    ensures forall i, j :: 0 <= i < j < |owner.past.steps| && owner.past.steps[i].Issues? && owner.past.steps[j].Issues? ==>
              owner.past.steps[i].slot.handle < owner.past.steps[j].slot.handle
  {
    var run, steps := owner.past.states, owner.past.steps;
    DeliveredAtMostOnce(run, steps, |steps|);
    forall i, j | 0 <= i < j < |steps| && steps[i].Issues? && steps[j].Issues? ensures steps[i].slot.handle < steps[j].slot.handle {
      DeliveredAtMostOnce(run, steps, j);
      assert StepAt(run, steps, j);
    }
  }
}
