/**
 The same operations as the VM runs them: fixed arrays with counts, and limits
 that grow by steps up to the capacity. `View` reads the arrays back as a machine
 of `CallMachine`; each method does exactly what its function there says.
 */
module CallStack {
  import opened CallMachine

  const STACK_STEP: nat := 512
  const FRAME_STEP: nat := 256
  const LOCALS_STEP: nat := 1024

  /** The growth loop of ensure_stack_capacity and its two siblings: the limit grows only as far as it must. */
  method GrowLimit(limit: nat, step: nat, capacity: nat, needed: nat) returns (limit': nat, ghost steps: nat)
    requires limit <= capacity && step > 0
    ensures limit <= limit' <= capacity
    ensures needed <= limit' <==> needed <= capacity
    ensures needed <= limit ==> limit' == limit
    ensures limit' > limit ==> limit' - step < needed
    ensures limit' == capacity || limit' == limit + steps * step
  {
    limit', steps := limit, 0;
    while needed > limit' && limit' < capacity
      invariant limit <= limit' <= capacity
      invariant limit' > limit ==> limit' - step < needed && needed > limit
      invariant limit' == capacity || limit' == limit + steps * step
      decreases capacity - limit'
    {
      limit', steps := if limit' + step > capacity then capacity else limit' + step, steps + 1;
    }
  }

  /** memmove to a lower place in the same array; the two ranges may overlap. */
  method MoveDown(a: array<Cell>, to: nat, from: nat, n: nat)
    requires to <= from && from + n <= a.Length
    modifies a
    ensures forall p :: 0 <= p < to ==> a[p] == old(a[p])
    ensures forall p :: to <= p < to + n ==> a[p] == old(a[..])[p - to + from]
  {
    ghost var was := a[..];
    for i := 0 to n
      invariant forall p :: 0 <= p < to ==> a[p] == was[p]
      invariant forall p :: to <= p < to + i ==> a[p] == was[p - to + from]
      invariant forall p :: from + i <= p < a.Length ==> a[p] == was[p]
    {
      a[to + i] := a[from + i];
    }
  }

  /** infer_call_arg_count: counts the run of STORE_LOCAL at the target. */
  method InferArgCount(prog: seq<Instr>, target: nat) returns (count: nat)
    ensures count == ArgCount(prog, target)
    ensures count > 0 ==> target + count <= |prog|
    ensures forall i :: target <= i < target + count ==> prog[i].StoreLocal?
    ensures target + count < |prog| ==> !prog[target + count].StoreLocal?
  {
    count := 0;
    while target + count < |prog| && prog[target + count].StoreLocal?
      invariant ArgCount(prog, target) == count + ArgCount(prog, target + count)
      invariant count > 0 ==> target + count <= |prog|
      invariant forall i :: target <= i < target + count ==> prog[i].StoreLocal?
      decreases |prog| - (target + count)
    {
      count := count + 1;
    }
  }

  /** validate_call_target_layout: keeps the locals seen so far and looks each new one up among them. */
  method ValidateLayout(prog: seq<Instr>, target: nat, argCount: nat) returns (ok: bool)
    ensures ok <==> LayoutOk(prog, target, argCount)
  {
    if argCount > LAYOUT_WINDOW {
      return false;
    }
    var seen: seq<int> := [];
    for i := 0 to argCount
      invariant |seen| == i && (i > 0 ==> target + i <= |prog|)
      invariant forall k :: target <= k < target + i ==> prog[k].StoreLocal? && prog[k].index >= 0 && seen[k - target] == prog[k].index
      invariant forall j, k :: target <= j < k < target + i ==> prog[j].index != prog[k].index
    {
      if target + i >= |prog| || !prog[target + i].StoreLocal? || prog[target + i].index < 0 {
        return false;
      }
      var index := prog[target + i].index;
      for j := 0 to |seen|
        invariant forall k :: 0 <= k < j ==> seen[k] != index
      {
        if seen[j] == index {
          assert prog[target + j].index == prog[target + i].index;
          return false;
        }
      }
      seen := seen + [index];
    }
    ok := true;
  }

  class Stacks {
    const stack: array<Cell>
    const frames: array<Frame>
    const locals: array<Cell>
    var stackCount: nat
    var frameCount: nat
    var localsCount: nat
    var stackLimit: nat
    var frameLimit: nat
    var localsLimit: nat
    var ip: nat
    var world: int

    /** Counts within limits, limits within capacities. */
    ghost predicate Valid()
      reads this
    {
      && stack.Length == STACK_CAPACITY && frames.Length == FRAME_CAPACITY && locals.Length == LOCALS_CAPACITY && stack != locals
      && stackCount <= stackLimit <= STACK_CAPACITY && frameCount <= frameLimit <= FRAME_CAPACITY && localsCount <= localsLimit <= LOCALS_CAPACITY
    }

    ghost function View(): Machine
      reads this, stack, frames, locals
      requires Valid()
    {
      Machine(ip, stack[..stackCount], frames[..frameCount], locals[..], localsCount, world)
    }

    /** Where the locals of the top frame begin. */
    function Base(): nat
      reads this, frames
      requires frameCount <= frames.Length
    {
      if frameCount > 0 then frames[frameCount - 1].localsBase else 0
    }

    constructor ()
      ensures Valid() && fresh(stack) && fresh(frames) && fresh(locals)
      ensures stackLimit == 1024 && frameLimit == 256 && localsLimit == 2048
      ensures View().stack == [] && View().frames == [] && View().localsCount == 0 && View().ip == 0 && View().world == 0 && Disciplined(View())
    {
      stack, frames, locals := new Cell[STACK_CAPACITY](_ => 0), new Frame[FRAME_CAPACITY](_ => Frame(0, 0, 0)), new Cell[LOCALS_CAPACITY](_ => 0);
      stackCount, frameCount, localsCount := 0, 0, 0;
      stackLimit, frameLimit, localsLimit := 1024, 256, 2048;
      ip, world := 0, 0;
    }

    /** aivm_stack_push. */
    method Push(v: Cell) returns (ok: bool)
      requires Valid()
      modifies stack, this`stackCount, this`stackLimit
      ensures Valid()
      ensures ok <==> CallMachine.Push(old(View()), v).Running?
      ensures View() == if ok then CallMachine.Push(old(View()), v).m else old(View())
      ensures ok <==> old(stackCount) < 20000
      ensures stackLimit == if old(stackCount) < old(stackLimit) then old(stackLimit) else if old(stackLimit) + 512 > 20000 then 20000 else old(stackLimit) + 512
      ensures ok ==> stackCount == old(stackCount) + 1 && stack[old(stackCount)] == v
      ensures forall p :: 0 <= p < old(stackCount) ==> stack[p] == old(stack[p])
    {
      ghost var steps;
      stackLimit, steps := GrowLimit(stackLimit, STACK_STEP, STACK_CAPACITY, stackCount + 1);
      if stackCount + 1 > stackLimit {
        return false;
      }
      stack[stackCount] := v;
      stackCount := stackCount + 1;
      ok := true;
    }

    /** aivm_stack_pop: it looks at no frame. */
    method Pop() returns (ok: bool, v: Cell)
      requires Valid()
      modifies this`stackCount
      ensures Valid()
      ensures ok <==> old(View()).stack != []
      ensures if ok then old(View()) == View().(stack := View().stack + [v]) else View() == old(View())
    {
      if stackCount == 0 {
        return false, 0;
      }
      stackCount := stackCount - 1;
      ok, v := true, stack[stackCount];
    }

    method CheckTop() returns (ok: bool)
      requires Valid()
      ensures ok <==> TopOk(View())
    {
      if frameCount > 0 {
        var f := frames[frameCount - 1];
        ok := f.base <= stackCount && f.localsBase <= localsCount;
      } else {
        ok := true;
      }
    }

    /** aivm_frame_push. */
    method PushFrame(returnIp: nat, base: nat) returns (ok: bool)
      requires Valid()
      modifies frames, this`frameCount, this`frameLimit
      ensures Valid()
      ensures ok <==> FramePush(old(View()), returnIp, base).Running?
      ensures View() == if ok then FramePush(old(View()), returnIp, base).m else old(View())
      ensures ok ==> frameCount == old(frameCount) + 1 <= 2048 && frames[old(frameCount)] == Frame(returnIp, base, localsCount)
      ensures ok ==> frameLimit == if old(frameCount) < old(frameLimit) then old(frameLimit) else if old(frameLimit) + 256 > 2048 then 2048 else old(frameLimit) + 256
      ensures forall p :: 0 <= p < old(frameCount) ==> frames[p] == old(frames[p])
    {
      ok := CheckTop();
      if !ok || base > stackCount {
        return false;
      }
      ghost var steps;
      frameLimit, steps := GrowLimit(frameLimit, FRAME_STEP, FRAME_CAPACITY, frameCount + 1);
      if frameCount + 1 > frameLimit {
        return false;
      }
      frames[frameCount] := Frame(returnIp, base, localsCount);
      frameCount := frameCount + 1;
    }

    /** aivm_local_set. */
    method SetLocal(index: nat, v: Cell) returns (ok: bool)
      requires Valid()
      modifies locals, this`localsCount, this`localsLimit
      ensures Valid()
      ensures ok <==> LocalSet(old(View()), index, v).Running?
      ensures View() == if ok then LocalSet(old(View()), index, v).m else old(View())
      ensures ok ==> CanGet(View(), index) && View().locals[LocalsBase(View()) + index] == v
      ensures ok ==> var at := Base() + index;
                     && at < 16384 && locals[at] == v && (forall p :: 0 <= p < locals.Length && p != at ==> locals[p] == old(locals[p]))
                     && localsCount == if at + 1 > old(localsCount) then at + 1 else old(localsCount)
      ensures localsLimit == 16384 || (localsLimit - old(localsLimit)) % 1024 == 0
    {
      ok := CheckTop();
      if !ok {
        return;
      }
      var base := Base();
      if base >= LOCALS_CAPACITY || index >= LOCALS_CAPACITY - base {
        return false;
      }
      var at := base + index;
      ghost var steps;
      localsLimit, steps := GrowLimit(localsLimit, LOCALS_STEP, LOCALS_CAPACITY, at + 1);
      locals[at] := v;
      if at >= localsCount {
        localsCount := at + 1;
      }
    }

    /** aivm_local_get. */
    method GetLocal(index: nat) returns (ok: bool, v: Cell)
      requires Valid()
      ensures ok <==> CanGet(View(), index)
      ensures ok ==> v == View().locals[LocalsBase(View()) + index]
      ensures ok ==> Base() + index < locals.Length && v == locals[Base() + index]
    {
      v := 0;
      ok := CheckTop();
      if !ok {
        return;
      }
      var base := Base();
      if base >= LOCALS_CAPACITY || index >= LOCALS_CAPACITY - base || base + index >= localsCount {
        return false, 0;
      }
      v := locals[base + index];
    }

    /** The tail call: the arguments slide down to the caller's base, in place. */
    method SlideArguments(argCount: nat, target: nat)
      requires Valid() && frameCount > 0 && argCount <= stackCount && frames[frameCount - 1].base <= stackCount - argCount
      requires frames[frameCount - 1].localsBase <= localsCount
      modifies stack, this`stackCount, this`localsCount, this`ip
      ensures Valid()
      ensures var f, m := old(frames[frameCount - 1]), old(View());
              View() == m.(stack := m.stack[..f.base] + m.stack[|m.stack| - argCount..], localsCount := f.localsBase, ip := target)
    {
      var f := frames[frameCount - 1];
      MoveDown(stack, f.base, stackCount - argCount, argCount);
      SlidStack(old(stack[..]), stack[..], stackCount, f.base, argCount);
      stackCount := f.base + argCount;
      localsCount := f.localsBase;
      ip := target;
    }

    /** What AIVM_OP_CALL checks first: the target, the arguments on the stack, the layout, the caller's base. */
    method CheckCall(prog: seq<Instr>, target: int) returns (ok: bool, argCount: nat)
      requires Valid()
      ensures ok <==> CanCall(prog, View(), target)
      ensures ok ==> argCount == ArgCount(prog, target)
    {
      argCount := 0;
      if target < 0 || target >= |prog| {
        return false, 0;
      }
      argCount := InferArgCount(prog, target);
      if argCount > stackCount {
        return false, argCount;
      }
      ok := ValidateLayout(prog, target, argCount);
      if !ok {
        return;
      }
      ok := frameCount == 0 || frames[frameCount - 1].base <= stackCount - argCount;
    }

    /** AIVM_OP_CALL. */
    method DoCall(prog: seq<Instr>) returns (ok: bool)
      requires Valid() && Disciplined(View()) && ip < |prog| && prog[ip].Call?
      modifies stack, frames, this`stackCount, this`frameCount, this`frameLimit, this`localsCount, this`ip
      ensures Valid()
      ensures ok <==> Step(prog, old(View())).Running?
      ensures View() == if ok then Step(prog, old(View())).m else old(View())
    {
      var target := prog[ip].target;
      var argCount;
      ok, argCount := CheckCall(prog, target);
      if !ok {
        return;
      }
      if frameCount > 0 && ip + 1 < |prog| && prog[ip + 1].Ret? {
        assert frames[frameCount - 1] == View().frames[frameCount - 1];
        SlideArguments(argCount, target);
        return;
      }
      ok := PushFrame(ip + 1, stackCount - argCount);
      if ok {
        ip := target;
      }
    }

    /** AIVM_OP_RET. */
    method Return(prog: seq<Instr>) returns (ok: bool)
      requires Valid() && Disciplined(View()) && frameCount > 0
      modifies stack, this`stackCount, this`stackLimit, this`frameCount, this`localsCount, this`ip
      ensures Valid()
      ensures ok <==> DoRet(prog, old(View())).Running?
      ensures ok ==> View() == DoRet(prog, old(View())).m
    {
      ghost var m := View();
      ok := CheckTop();
      if !ok {
        return;
      }
      frameCount := frameCount - 1;
      var f := frames[frameCount];
      assert f == m.frames[|m.frames| - 1];
      if f.returnIp > |prog| || stackCount > f.base + 1 {
        return false;
      }
      var has := stackCount > f.base;
      var v := if has then stack[stackCount - 1] else 0;
      stackCount := f.base;
      localsCount := f.localsBase;
      assert stack[..stackCount] == m.stack[..f.base];
      if has {
        ok := Push(v);
      }
      ip := f.returnIp;
      assert frames[..frameCount] == m.frames[..|m.frames| - 1];
    }
  }

  lemma SlidStack(was: seq<Cell>, now: seq<Cell>, count: nat, base: nat, argCount: nat)
    requires |now| == |was| && argCount <= count <= |was| && base + argCount <= count
    requires forall p :: 0 <= p < base ==> now[p] == was[p]
    requires forall p :: base <= p < base + argCount ==> now[p] == was[p - base + (count - argCount)]
    ensures now[..base + argCount] == was[..count][..base] + was[..count][count - argCount..]
  {}
}
