/**
 The call machine: operand stack, call frames and locals, with CALL, RET and the
 tail call that reuses the caller's frame. Every other opcode is a `Prim`, which
 pops, computes on what it popped and on the rest of the world, and pushes or jumps.
 */
module CallMachine {

  const STACK_CAPACITY: nat := 20000
  const FRAME_CAPACITY: nat := 2048
  const LOCALS_CAPACITY: nat := 16384
  const LAYOUT_WINDOW: nat := 64

  /** A value's bits: what a value is does not matter to calls. */
  type Cell = int

  datatype Frame = Frame(returnIp: nat, base: nat, localsBase: nat)

  /** The live stack, the frames, and the whole locals array with its count: a cell above the count is stale, not gone. */
  datatype Machine = Machine(ip: nat, stack: seq<Cell>, frames: seq<Frame>, locals: seq<Cell>, localsCount: nat, world: int)

  datatype Effect = Fault | Effect(pushed: seq<Cell>, jump: bool, target: nat, world: int)

  datatype Instr =
    | StoreLocal(index: int)
    | LoadLocal(index: int)
    | Call(target: int)
    | Ret
    | Prim(pops: nat, act: (seq<Cell>, int) -> Effect)

  datatype Outcome = Running(m: Machine) | Halted(m: Machine) | Failed

  // ----- the operations of src/aivm_vm_stack.c

  function Push(m: Machine, v: Cell): Outcome {
    if |m.stack| + 1 > STACK_CAPACITY then Failed else Running(m.(stack := m.stack + [v]))
  }

  /** aivm_vm_validate_call_local_state: the top frame lies within the stack and the locals. */
  predicate TopOk(m: Machine) {
    m.frames != [] ==> m.frames[|m.frames| - 1].base <= |m.stack| && m.frames[|m.frames| - 1].localsBase <= m.localsCount
  }

  function LocalsBase(m: Machine): nat {
    if m.frames == [] then 0 else m.frames[|m.frames| - 1].localsBase
  }

  function FramePush(m: Machine, returnIp: nat, base: nat): Outcome {
    if !TopOk(m) || base > |m.stack| || |m.frames| + 1 > FRAME_CAPACITY then Failed
    else Running(m.(frames := m.frames + [Frame(returnIp, base, m.localsCount)]))
  }

  /** The locals array always has its full capacity; a machine without it counts as out of range. */
  function LocalSet(m: Machine, index: nat, v: Cell): Outcome {
    var at := LocalsBase(m) + index;
    if !TopOk(m) || at >= LOCALS_CAPACITY || |m.locals| != LOCALS_CAPACITY then Failed
    else Running(m.(locals := m.locals[at := v], localsCount := if at >= m.localsCount then at + 1 else m.localsCount))
  }

  predicate CanGet(m: Machine, index: nat) {
    TopOk(m) && LocalsBase(m) + index < m.localsCount && LocalsBase(m) + index < LOCALS_CAPACITY == |m.locals|
  }

  /** What a store does, cell by cell: position `base + index` holds the value, every other one what it held, and the
      count covers it; nothing else changes. */
  lemma StoreLaw(m: Machine, index: nat, v: Cell)
    ensures LocalSet(m, index, v).Running? <==> TopOk(m) && LocalsBase(m) + index < 16384 && |m.locals| == 16384
    ensures LocalSet(m, index, v).Running? ==>
              var m', at := LocalSet(m, index, v).m, LocalsBase(m) + index;
              && |m'.locals| == |m.locals| && m'.locals[at] == v
              && (forall p :: 0 <= p < |m.locals| && p != at ==> m'.locals[p] == m.locals[p])
              && m'.localsCount >= m.localsCount && m'.localsCount >= at + 1 && (m'.localsCount == m.localsCount || m'.localsCount == at + 1)
              && m'.stack == m.stack && m'.frames == m.frames && m'.ip == m.ip && m'.world == m.world
              && CanGet(m', index) && LocalsBase(m') == LocalsBase(m)
  {}

  // ----- CALL and RET

  /** infer_call_arg_count: the run of STORE_LOCAL at the target. */
  function ArgCount(prog: seq<Instr>, target: nat): nat
    decreases |prog| - target
  {
    if target < |prog| && prog[target].StoreLocal? then 1 + ArgCount(prog, target + 1) else 0
  }

  /** validate_call_target_layout: at most 64 arguments, into distinct locals. */
  predicate LayoutOk(prog: seq<Instr>, target: nat, argCount: nat) {
    && argCount <= LAYOUT_WINDOW && (argCount > 0 ==> target + argCount <= |prog|)
    && (forall i :: target <= i < target + argCount ==> prog[i].StoreLocal? && prog[i].index >= 0)
    && (forall i, j :: target <= i < j < target + argCount ==> prog[i].index != prog[j].index)
  }

  /** What CALL checks before it enters the target. */
  predicate CanCall(prog: seq<Instr>, m: Machine, target: int) {
    && 0 <= target < |prog| && ArgCount(prog, target) <= |m.stack| && LayoutOk(prog, target, ArgCount(prog, target))
    && (m.frames != [] ==> m.frames[|m.frames| - 1].base <= |m.stack| - ArgCount(prog, target))
  }

  predicate IsTailCall(prog: seq<Instr>, m: Machine) {
    m.frames != [] && m.ip + 1 < |prog| && prog[m.ip + 1].Ret?
  }

  /** Enter the target in the caller's own frame. */
  function TailCall(prog: seq<Instr>, m: Machine, target: nat): Machine
    requires m.frames != [] && CanCall(prog, m, target)
  {
    var f := m.frames[|m.frames| - 1];
    m.(stack := m.stack[..f.base] + m.stack[|m.stack| - ArgCount(prog, target)..], localsCount := f.localsBase, ip := target)
  }

  /** Enter the target in a frame of its own. */
  function PlainCall(prog: seq<Instr>, m: Machine, target: nat): Outcome
    requires CanCall(prog, m, target)
  {
    match FramePush(m, m.ip + 1, |m.stack| - ArgCount(prog, target))
    case Running(m') => Running(m'.(ip := target))
    case other => other
  }

  function DoRet(prog: seq<Instr>, m: Machine): Outcome {
    if m.frames == [] then Halted(m)
    else
      var f := m.frames[|m.frames| - 1];
      if !TopOk(m) || f.returnIp > |prog| || |m.stack| > f.base + 1 then Failed
      else Running(m.(stack := m.stack[..f.base] + (if |m.stack| > f.base then [m.stack[|m.stack| - 1]] else []),
                      frames := m.frames[..|m.frames| - 1], localsCount := f.localsBase, ip := f.returnIp))
  }

  function DoPrim(m: Machine, pops: nat, act: (seq<Cell>, int) -> Effect): Outcome {
    if pops > |m.stack| then Failed
    else
      var rest := m.stack[..|m.stack| - pops];
      match act(m.stack[|m.stack| - pops..], m.world)
      case Fault => Failed
      case Effect(pushed, jump, target, world) =>
        if |rest| + |pushed| > STACK_CAPACITY then Failed
        else Running(m.(stack := rest + pushed, ip := if jump then target else m.ip + 1, world := world))
  }

  function Step(prog: seq<Instr>, m: Machine): Outcome {
    if m.ip >= |prog| then Halted(m)
    else match prog[m.ip]
      case StoreLocal(index) =>
        if index < 0 || m.stack == [] then Failed
        else (match LocalSet(m.(stack := m.stack[..|m.stack| - 1]), index, m.stack[|m.stack| - 1])
              case Running(m') => Running(m'.(ip := m.ip + 1))
              case other => other)
      case LoadLocal(index) =>
        if index < 0 || !CanGet(m, index) then Failed
        else (match Push(m, m.locals[LocalsBase(m) + index])
              case Running(m') => Running(m'.(ip := m.ip + 1))
              case other => other)
      case Call(target) =>
        if !CanCall(prog, m, target) then Failed
        else if IsTailCall(prog, m) then Running(TailCall(prog, m, target))
        else PlainCall(prog, m, target)
      case Ret => DoRet(prog, m)
      case Prim(pops, act) => DoPrim(m, pops, act)
  }

  // ----- what the opcodes do, said without the functions above

  /** STORE_LOCAL and then LOAD_LOCAL of the same local: the value is back on top and the stack as it was. */
  lemma StoreThenLoad(prog: seq<Instr>, m: Machine, index: int)
    requires Disciplined(m) && m.ip + 1 < |prog| && prog[m.ip] == StoreLocal(index) && prog[m.ip + 1] == LoadLocal(index)
    ensures Step(prog, m).Running? ==>
              var m1 := Step(prog, m).m;
              && |m1.stack| == |m.stack| - 1
              && Step(prog, m1).Running?
              && Step(prog, m1).m.stack == m.stack && Step(prog, m1).m.ip == m.ip + 2 && Step(prog, m1).m.frames == m.frames
  {
    if Step(prog, m).Running? {
      var low := m.(stack := m.stack[..|m.stack| - 1]);
      StoreLaw(low, index, m.stack[|m.stack| - 1]);
      var m1 := Step(prog, m).m;
      assert m1.stack + [m.stack[|m.stack| - 1]] == m.stack;
    }
  }

  /** A push fails exactly on a full stack; otherwise the value is on top of what was there, and only the stack changes. */
  lemma PushLaw(m: Machine, v: Cell)
    ensures Push(m, v).Running? <==> |m.stack| < 20000
    ensures Push(m, v).Running? ==>
              var m' := Push(m, v).m;
              |m'.stack| == |m.stack| + 1 && m'.stack[|m.stack|] == v && m'.stack[..|m.stack|] == m.stack && m' == m.(stack := m'.stack)
  {}

  /** CALL enters its target with the arguments on top of the stack. It fails exactly when the target is out of range or
      its layout is bad, the arguments are not there or reach below the caller's base, or, in a frame of its own, the
      caller's frame is out of range or no frame is free. Outside a tail call the stack stays and one frame is added
      that returns behind the call, to the stack below the arguments and the locals as they are now; in a tail call the
      frames stay, the arguments stand at the caller's base, and the caller's locals are given up. */
  lemma CallLaw(prog: seq<Instr>, m: Machine, target: int)
    requires Disciplined(m) && m.ip < |prog| && prog[m.ip] == Call(target)
    ensures var args := if 0 <= target < |prog| then ArgCount(prog, target) else 0;
            var tail := m.frames != [] && m.ip + 1 < |prog| && prog[m.ip + 1].Ret?;
            && (Step(prog, m).Running? <==>
                  && 0 <= target < |prog| && args <= |m.stack| && LayoutOk(prog, target, args)
                  && (m.frames != [] ==> m.frames[|m.frames| - 1].base <= |m.stack| - args)
                  && (tail || |m.frames| < 2048))
            && (Step(prog, m).Running? ==>
                  var m' := Step(prog, m).m;
                  && m'.ip == target && m'.locals == m.locals && m'.world == m.world
                  && |m'.stack| >= args && m'.stack[|m'.stack| - args..] == m.stack[|m.stack| - args..]
                  && if tail then
                       var f := m.frames[|m.frames| - 1];
                       && m'.frames == m.frames && |m'.stack| == f.base + args && m'.stack[..f.base] == m.stack[..f.base]
                       && m'.localsCount == f.localsBase
                     else
                       && m'.stack == m.stack && m'.localsCount == m.localsCount && |m'.frames| == |m.frames| + 1
                       && m'.frames[..|m.frames|] == m.frames && m'.frames[|m.frames|].returnIp == m.ip + 1
                       && m'.frames[|m.frames|].base == |m.stack| - args && m'.frames[|m.frames|].localsBase == m.localsCount)
  {}

  /** The arguments of a target are the whole run of STORE_LOCAL that stands there. */
  lemma {:induction false} ArgumentRun(prog: seq<Instr>, target: nat)
    ensures target <= |prog| ==> target + ArgCount(prog, target) <= |prog|
    ensures forall i :: target <= i < target + ArgCount(prog, target) && i < |prog| ==> prog[i].StoreLocal?
    ensures target + ArgCount(prog, target) < |prog| ==> !prog[target + ArgCount(prog, target)].StoreLocal?
    decreases |prog| - target
  {
    if target < |prog| && prog[target].StoreLocal? { ArgumentRun(prog, target + 1); }
  }

  /** A layout is good when it has at most 64 arguments, none negative, no two the same. */
  lemma LayoutLaw(prog: seq<Instr>, target: nat, stores: seq<Instr>)
    requires target + |stores| <= |prog| && stores == prog[target..target + |stores|] && ArgCount(prog, target) == |stores|
    ensures LayoutOk(prog, target, |stores|) <==>
              && |stores| <= 64 && (forall i :: 0 <= i < |stores| ==> stores[i].StoreLocal? && stores[i].index >= 0)
              && (forall i, j :: 0 <= i < j < |stores| && stores[i].StoreLocal? && stores[j].StoreLocal? ==> stores[i].index != stores[j].index)
  {
    ArgumentRun(prog, target);
    forall i | 0 <= i < |stores| ensures stores[i] == prog[target + i] {}
    forall i | target <= i < target + |stores| ensures prog[i] == stores[i - target] {}
  }

  /** A primitive gets the popped cells in stack order, its results go on the rest in order, and it touches no frame and no
      local. */
  lemma PrimLaw(prog: seq<Instr>, m: Machine, pops: nat, act: (seq<Cell>, int) -> Effect, args: seq<Cell>, below: seq<Cell>)
    requires m.ip < |prog| && prog[m.ip] == Prim(pops, act) && m.stack == below + args && |args| == pops
    ensures Step(prog, m).Running? <==> act(args, m.world).Effect? && |below| + |act(args, m.world).pushed| <= 20000
    ensures Step(prog, m).Running? ==>
              var e := act(args, m.world);
              Step(prog, m).m == m.(stack := below + e.pushed, ip := if e.jump then e.target else m.ip + 1, world := e.world)
  {
    assert m.stack[..|m.stack| - pops] == below && m.stack[|m.stack| - pops..] == args;
  }

  // ----- discipline over every run

  /** Bases never decrease up the frame stack, the top locals base is at most the count, and counts fit. */
  ghost predicate Disciplined(m: Machine) {
    && |m.locals| == LOCALS_CAPACITY && m.localsCount <= LOCALS_CAPACITY
    && |m.stack| <= STACK_CAPACITY && |m.frames| <= FRAME_CAPACITY
    && (forall i, j :: 0 <= i <= j < |m.frames| ==> m.frames[i].base <= m.frames[j].base && m.frames[i].localsBase <= m.frames[j].localsBase)
    && (forall i :: 0 <= i < |m.frames| ==> m.frames[i].localsBase <= m.localsCount)
  }

  lemma TopIsHighest(m: Machine)
    requires Disciplined(m) && m.frames != []
    ensures var top := m.frames[|m.frames| - 1];
            forall i :: 0 <= i < |m.frames| ==> m.frames[i].base <= top.base && m.frames[i].localsBase <= top.localsBase
  {}

  lemma CallDisciplined(prog: seq<Instr>, m: Machine, target: nat)
    requires Disciplined(m) && CanCall(prog, m, target)
    ensures IsTailCall(prog, m) ==> Disciplined(TailCall(prog, m, target))
    ensures PlainCall(prog, m, target).Running? ==> Disciplined(PlainCall(prog, m, target).m)
  {
    if m.frames != [] { TopIsHighest(m); }
  }

  lemma RetDisciplined(prog: seq<Instr>, m: Machine)
    requires Disciplined(m) && DoRet(prog, m).Running?
    ensures Disciplined(DoRet(prog, m).m)
  {
    TopIsHighest(m);
  }

  lemma StoreDisciplined(m: Machine, index: nat, v: Cell)
    requires Disciplined(m) && LocalSet(m, index, v).Running?
    ensures Disciplined(LocalSet(m, index, v).m)
  {}

  lemma StepDisciplined(prog: seq<Instr>, m: Machine)
    requires Disciplined(m) && Step(prog, m).Running?
    ensures Disciplined(Step(prog, m).m)
  {
    match prog[m.ip]
    case Call(target) => CallDisciplined(prog, m, target);
    case Ret => RetDisciplined(prog, m);
    case StoreLocal(index) => StoreDisciplined(m.(stack := m.stack[..|m.stack| - 1]), index, m.stack[|m.stack| - 1]);
    case _ =>
  }

  /** The machine after `n` steps; it stays where it halted or failed. */
  function Run(prog: seq<Instr>, m: Machine, n: nat): Outcome {
    if n == 0 then Running(m)
    else match Run(prog, m, n - 1)
      case Running(m') => Step(prog, m')
      case other => other
  }

  /** Call and return discipline for every program and every run. */
  lemma {:induction false} RunDisciplined(prog: seq<Instr>, m: Machine, n: nat)
    requires Disciplined(m)
    ensures Run(prog, m, n).Running? ==> Disciplined(Run(prog, m, n).m)
  {
    if n > 0 {
      RunDisciplined(prog, m, n - 1);
      if Run(prog, m, n - 1).Running? && Run(prog, m, n).Running? {
        StepDisciplined(prog, Run(prog, m, n - 1).m);
      }
    }
  }

  /** A successful RET leaves the stack at the frame's base plus zero or one value, the locals at the saved base,
      and one frame fewer; the value is the one that was on top. */
  lemma RetRestores(prog: seq<Instr>, m: Machine)
    requires Disciplined(m) && m.ip < |prog| && prog[m.ip].Ret?
    ensures m.frames == [] ==> Step(prog, m) == Halted(m)
    ensures m.frames != [] ==>
              (Step(prog, m).Running? <==> var f := m.frames[|m.frames| - 1]; f.base <= |m.stack| <= f.base + 1 && f.returnIp <= |prog|)
    ensures m.frames != [] && Step(prog, m).Running? ==>
            var m', f := Step(prog, m).m, m.frames[|m.frames| - 1];
            && m'.locals == m.locals && m'.world == m.world
            && m'.stack == m.stack
            && m'.ip == f.returnIp && m'.localsCount == f.localsBase && m'.frames == m.frames[..|m.frames| - 1]
            && (m'.stack == m.stack[..f.base] || (m.stack != [] && m'.stack == m.stack[..f.base] + [m.stack[|m.stack| - 1]]))
  {
    if m.frames != [] {
      var f := m.frames[|m.frames| - 1];
      if |m.stack| == f.base + 1 {
        assert m.stack == m.stack[..f.base] + [m.stack[f.base]];
      } else if |m.stack| == f.base {
        assert m.stack == m.stack[..f.base];
      }
    }
  }

  // ----- a tail call refines a call and a return

  /** How far apart the two machines' locals lie, and what they share below the callee. */
  datatype Gap = Gap(below: seq<Frame>, caller: Frame, callee: Frame)

  function Shift(g: Gap): int {
    g.callee.localsBase - g.caller.localsBase
  }

  /** The frames above the callee, whose locals bases lie one gap apart. */
  ghost predicate FramesApart(g: Gap, a: seq<Frame>, b: seq<Frame>) {
    var d := |g.below| + 1;
    && |a| >= d && |b| == |a| + 1 && a[..d] == g.below + [g.caller] && b[..d + 1] == g.below + [g.caller, g.callee]
    && forall i :: d <= i < |a| ==> a[i].base == b[i + 1].base && a[i].returnIp == b[i + 1].returnIp && a[i].localsBase + Shift(g) == b[i + 1].localsBase
  }

  /** `a` runs in the reused frame, `b` in a frame of its own: same instruction, stack and world; each local stored since
      (positions `stored` of `a`) holds the same value one gap further up; everything of the callers below is the same. */
  ghost predicate Simulates(g: Gap, a: Machine, b: Machine, stored: set<int>) {
    && Disciplined(a) && Disciplined(b)
    && g.callee.base == g.caller.base && Shift(g) >= 0
    && a.ip == b.ip && a.stack == b.stack && a.world == b.world
    && FramesApart(g, a.frames, b.frames)
    && a.localsCount + Shift(g) == b.localsCount && a.localsCount >= g.caller.localsBase
    && a.locals[..g.caller.localsBase] == b.locals[..g.caller.localsBase]
    && forall p :: p in stored ==> g.caller.localsBase <= p < a.localsCount && a.locals[p] == b.locals[p + Shift(g)]
  }

  /** What the step must not do: read a local not stored since, or hit a limit in the machine with the extra frame. */
  ghost predicate StepOk(prog: seq<Instr>, a: Machine, b: Machine, stored: set<int>) {
    a.ip < |prog| ==>
      match prog[a.ip]
      case LoadLocal(index) => LocalsBase(a) + index in stored
      case StoreLocal(index) => index >= 0 ==> LocalsBase(b) + index < LOCALS_CAPACITY
      case Call(target) => |b.frames| + 1 <= FRAME_CAPACITY
      case _ => true
  }

  /** The callee itself returns. */
  predicate Returns(prog: seq<Instr>, g: Gap, a: Machine) {
    a.ip < |prog| && prog[a.ip].Ret? && |a.frames| == |g.below| + 1
  }

  /** The stored locals after the step. */
  ghost function StoredAfter(prog: seq<Instr>, a: Machine, a': Machine, stored: set<int>): set<int> {
    (set p | p in stored && p < a'.localsCount)
      + (if a.ip < |prog| && prog[a.ip].StoreLocal? then {LocalsBase(a) + prog[a.ip].index} else {})
  }

  lemma TopApart(g: Gap, a: seq<Frame>, b: seq<Frame>)
    requires FramesApart(g, a, b) && g.callee.base == g.caller.base
    ensures a != [] && b != []
    ensures a[|a| - 1].base == b[|b| - 1].base && a[|a| - 1].localsBase + Shift(g) == b[|b| - 1].localsBase
    ensures a[|a| - 1].localsBase >= g.caller.localsBase || |a| > |g.below| + 1
  {
    var d := |g.below| + 1;
    if |a| == d {
      assert a[d - 1] == a[..d][d - 1] && b[d] == b[..d + 1][d];
    }
  }

  lemma SimulatesTop(g: Gap, a: Machine, b: Machine, stored: set<int>)
    requires Simulates(g, a, b, stored)
    ensures a.frames != [] && b.frames != [] && TopOk(a) == TopOk(b) && LocalsBase(a) + Shift(g) == LocalsBase(b) && LocalsBase(a) >= g.caller.localsBase
    ensures a.frames[|a.frames| - 1].base == b.frames[|b.frames| - 1].base
  {
    TopApart(g, a.frames, b.frames);
    var d := |g.below| + 1;
    assert a.frames[d - 1] == a.frames[..d][d - 1] == g.caller;
  }

  // ----- one step of each kind

  /** The two machines take the same kind of step, and stay in simulation. */
  ghost predicate StepsTogether(prog: seq<Instr>, g: Gap, a: Machine, b: Machine, stored: set<int>) {
    var a', b' := Step(prog, a), Step(prog, b);
    && (a'.Running? <==> b'.Running?) && (a'.Failed? <==> b'.Failed?)
    && (a'.Running? ==> Simulates(g, a'.m, b'.m, StoredAfter(prog, a, a'.m, stored)))
  }

  lemma SimStore(prog: seq<Instr>, g: Gap, a: Machine, b: Machine, stored: set<int>)
    requires Simulates(g, a, b, stored) && StepOk(prog, a, b, stored) && a.ip < |prog| && prog[a.ip].StoreLocal?
    ensures StepsTogether(prog, g, a, b, stored)
  {
    SimulatesTop(g, a, b, stored);
    if Step(prog, a).Running? {
      StepDisciplined(prog, a);
      StepDisciplined(prog, b);
      var a', b' := Step(prog, a).m, Step(prog, b).m;
      var p := LocalsBase(a) + prog[a.ip].index;
      var k := g.caller.localsBase;
      assert a'.locals[..k] == a.locals[..k] && b'.locals[..k] == b.locals[..k];
      forall q | q in StoredAfter(prog, a, a', stored) ensures k <= q < a'.localsCount && a'.locals[q] == b'.locals[q + Shift(g)] {
        if q != p { assert q in stored; }
      }
    }
  }

  lemma SimLoad(prog: seq<Instr>, g: Gap, a: Machine, b: Machine, stored: set<int>)
    requires Simulates(g, a, b, stored) && StepOk(prog, a, b, stored) && a.ip < |prog| && prog[a.ip].LoadLocal?
    ensures StepsTogether(prog, g, a, b, stored)
  {
    SimulatesTop(g, a, b, stored);
    var p := LocalsBase(a) + prog[a.ip].index;
    assert p in stored && a.locals[p] == b.locals[p + Shift(g)];
    if Step(prog, a).Running? {
      StepDisciplined(prog, a);
      StepDisciplined(prog, b);
    }
  }

  lemma SimPrim(prog: seq<Instr>, g: Gap, a: Machine, b: Machine, stored: set<int>)
    requires Simulates(g, a, b, stored) && a.ip < |prog| && prog[a.ip].Prim?
    ensures StepsTogether(prog, g, a, b, stored)
  {
    if Step(prog, a).Running? {
      StepDisciplined(prog, a);
      StepDisciplined(prog, b);
    }
  }

  lemma SimTailCall(prog: seq<Instr>, g: Gap, a: Machine, b: Machine, stored: set<int>, target: nat)
    requires Simulates(g, a, b, stored) && CanCall(prog, a, target) && a.ip < |prog| && prog[a.ip] == Call(target) && IsTailCall(prog, a)
    ensures StepsTogether(prog, g, a, b, stored)
  {
    SimulatesTop(g, a, b, stored);
    StepDisciplined(prog, a);
    StepDisciplined(prog, b);
  }

  /** A frame pushed in both machines keeps the frames one gap apart. */
  lemma ApartPush(g: Gap, a: seq<Frame>, b: seq<Frame>, f: Frame)
    requires FramesApart(g, a, b) && f.localsBase + Shift(g) >= 0
    ensures FramesApart(g, a + [f], b + [f.(localsBase := f.localsBase + Shift(g))])
  {
    var d := |g.below| + 1;
    var a', b' := a + [f], b + [f.(localsBase := f.localsBase + Shift(g))];
    assert a'[..d] == a[..d] && b'[..d + 1] == b[..d + 1];
    forall i | d <= i < |a'| ensures a'[i].base == b'[i + 1].base && a'[i].returnIp == b'[i + 1].returnIp && a'[i].localsBase + Shift(g) == b'[i + 1].localsBase {
      if i < |a| { assert a'[i] == a[i] && b'[i + 1] == b[i + 1]; }
    }
  }

  lemma SimPlainCall(prog: seq<Instr>, g: Gap, a: Machine, b: Machine, stored: set<int>, target: nat)
    requires Simulates(g, a, b, stored) && CanCall(prog, a, target) && a.ip < |prog| && prog[a.ip] == Call(target) && !IsTailCall(prog, a)
    requires |b.frames| + 1 <= FRAME_CAPACITY
    ensures StepsTogether(prog, g, a, b, stored)
  {
    SimulatesTop(g, a, b, stored);
    if Step(prog, a).Running? {
      StepDisciplined(prog, a);
      StepDisciplined(prog, b);
      ApartPush(g, a.frames, b.frames, Frame(a.ip + 1, |a.stack| - ArgCount(prog, target), a.localsCount));
    }
  }

  lemma SimCall(prog: seq<Instr>, g: Gap, a: Machine, b: Machine, stored: set<int>)
    requires Simulates(g, a, b, stored) && StepOk(prog, a, b, stored) && a.ip < |prog| && prog[a.ip].Call?
    ensures StepsTogether(prog, g, a, b, stored)
  {
    SimulatesTop(g, a, b, stored);
    var target := prog[a.ip].target;
    if CanCall(prog, a, target) {
      if IsTailCall(prog, a) {
        SimTailCall(prog, g, a, b, stored, target);
      } else {
        SimPlainCall(prog, g, a, b, stored, target);
      }
    }
  }

  /** A return above the callee. */
  lemma SimRet(prog: seq<Instr>, g: Gap, a: Machine, b: Machine, stored: set<int>)
    requires Simulates(g, a, b, stored) && a.ip < |prog| && prog[a.ip].Ret? && !Returns(prog, g, a)
    ensures StepsTogether(prog, g, a, b, stored)
  {
    SimulatesTop(g, a, b, stored);
    var d := |g.below| + 1;
    assert a.frames[|a.frames| - 1].returnIp == b.frames[|b.frames| - 1].returnIp;
    if Step(prog, a).Running? {
      StepDisciplined(prog, a);
      StepDisciplined(prog, b);
      var a', b' := Step(prog, a).m, Step(prog, b).m;
      assert a'.frames[..d] == a.frames[..d] && b'.frames[..d + 1] == b.frames[..d + 1];
      assert a.frames[d - 1] == a.frames[..d][d - 1] == g.caller;
    }
  }

  lemma SimStep(prog: seq<Instr>, g: Gap, a: Machine, b: Machine, stored: set<int>)
    requires Simulates(g, a, b, stored) && StepOk(prog, a, b, stored) && !Returns(prog, g, a)
    ensures StepsTogether(prog, g, a, b, stored)
  {
    if a.ip < |prog| {
      match prog[a.ip]
      case StoreLocal(_) => SimStore(prog, g, a, b, stored);
      case LoadLocal(_) => SimLoad(prog, g, a, b, stored);
      case Call(_) => SimCall(prog, g, a, b, stored);
      case Ret => SimRet(prog, g, a, b, stored);
      case Prim(_, _) => SimPrim(prog, g, a, b, stored);
    }
  }

  // ----- the callee returns

  /** Same instruction, stack, frames, world and live locals. */
  ghost predicate SameLive(a: Machine, b: Machine) {
    && a.ip == b.ip && a.stack == b.stack && a.frames == b.frames && a.world == b.world && a.localsCount == b.localsCount
    && a.localsCount <= |a.locals| == |b.locals| && a.locals[..a.localsCount] == b.locals[..a.localsCount]
  }

  /** Where the reused frame returns once, the other machine returns twice, through the caller's own RET, to the same state. */
  lemma SimReturn(prog: seq<Instr>, g: Gap, a: Machine, b: Machine, stored: set<int>)
    requires Simulates(g, a, b, stored) && Returns(prog, g, a)
    requires g.callee.returnIp < |prog| && prog[g.callee.returnIp].Ret? && g.caller.returnIp <= |prog|
    ensures Step(prog, a).Running? <==> Step(prog, b).Running?
    ensures Step(prog, a).Running? ==>
              var b' := Step(prog, Step(prog, b).m);
              b'.Running? && SameLive(Step(prog, a).m, b'.m)
  {
    SimulatesTop(g, a, b, stored);
    var d := |g.below| + 1;
    assert a.frames[d - 1] == a.frames[..d][d - 1] == g.caller;
    assert b.frames[d] == b.frames[..d + 1][d] == g.callee;
    assert b.frames[d - 1] == b.frames[..d + 1][d - 1] == g.caller;
    if Step(prog, a).Running? {
      var a', b1 := Step(prog, a).m, Step(prog, b).m;
      assert b1.frames == b.frames[..d];
      assert b1.frames[|b1.frames| - 1] == g.caller;
      assert a.frames[..d - 1] == a.frames[..d][..d - 1] == g.below;
      assert b1.frames[..d - 1] == b.frames[..d + 1][..d - 1] == g.below;
    }
  }

  // ----- whole runs of the callee

  /** For `n` steps the callee stays active, reads only locals it stored, and hits no limit. */
  ghost predicate RunOk(prog: seq<Instr>, g: Gap, a: Machine, b: Machine, stored: set<int>, n: nat)
    decreases n
  {
    n > 0 ==>
      && StepOk(prog, a, b, stored) && !Returns(prog, g, a) && Step(prog, a).Running? && Step(prog, b).Running?
      && RunOk(prog, g, Step(prog, a).m, Step(prog, b).m, StoredAfter(prog, a, Step(prog, a).m, stored), n - 1)
  }

  lemma {:induction false} RunShift(prog: seq<Instr>, m: Machine, n: nat)
    requires Step(prog, m).Running?
    ensures Run(prog, m, n + 1) == Run(prog, Step(prog, m).m, n)
  {
    if n == 0 {
      assert Run(prog, m, 0) == Running(m);
    } else {
      RunShift(prog, m, n - 1);
    }
  }

  /** Both machines visit the same instructions with the same stack, step by step. */
  lemma {:induction false} RunsTogether(prog: seq<Instr>, g: Gap, a: Machine, b: Machine, stored: set<int>, n: nat) returns (stored': set<int>)
    requires Simulates(g, a, b, stored) && RunOk(prog, g, a, b, stored, n)
    ensures Run(prog, a, n).Running? && Run(prog, b, n).Running?
    ensures Simulates(g, Run(prog, a, n).m, Run(prog, b, n).m, stored')
    decreases n
  {
    stored' := stored;
    if n > 0 {
      SimStep(prog, g, a, b, stored);
      var a', b' := Step(prog, a).m, Step(prog, b).m;
      stored' := RunsTogether(prog, g, a', b', StoredAfter(prog, a, a', stored), n - 1);
      RunShift(prog, a, n - 1);
      RunShift(prog, b, n - 1);
    }
  }

  /** The state just after the call: the reused frame and the pushed frame start in simulation when the caller's frame
      holds only the arguments. */
  lemma CallsTogether(prog: seq<Instr>, m: Machine, target: nat)
    requires Disciplined(m) && IsTailCall(prog, m) && CanCall(prog, m, target) && PlainCall(prog, m, target).Running?
    requires m.frames[|m.frames| - 1].base == |m.stack| - ArgCount(prog, target)
    ensures Simulates(CallGap(prog, m, target), TailCall(prog, m, target), PlainCall(prog, m, target).m, {})
  {
    var k := |m.frames| - 1;
    TopIsHighest(m);
    CallDisciplined(prog, m, target);
    assert TailCall(prog, m, target).stack == m.stack;
    StartApart(m.frames, CallGap(prog, m, target));
  }

  lemma StartApart(frames: seq<Frame>, g: Gap)
    requires frames != [] && g.below == frames[..|frames| - 1] && g.caller == frames[|frames| - 1]
    ensures FramesApart(g, frames, frames + [g.callee])
  {
    assert frames == g.below + [g.caller];
  }

  /** At each of the first `n` steps both machines are at the same instruction with the same stack. */
  ghost predicate SameVisits(prog: seq<Instr>, a: Machine, b: Machine, n: nat) {
    forall i: nat :: i <= n ==> SameVisit(Run(prog, a, i), Run(prog, b, i))
  }

  ghost predicate SameVisit(a: Outcome, b: Outcome) {
    a.Running? && b.Running? && a.m.ip == b.m.ip && a.m.stack == b.m.stack
  }

  lemma VisitTogether(prog: seq<Instr>, g: Gap, a: Machine, b: Machine, n: nat, i: nat)
    requires Simulates(g, a, b, {}) && RunOk(prog, g, a, b, {}, n) && i <= n
    ensures SameVisit(Run(prog, a, i), Run(prog, b, i))
  {
    RunOkPrefix(prog, g, a, b, {}, n, i);
    var stored := RunsTogether(prog, g, a, b, {}, i);
  }

  /** The reused frame returns after `n` steps and one more; the other machine takes one step longer. */
  lemma CalleeRefines(prog: seq<Instr>, g: Gap, a: Machine, b: Machine, n: nat)
    requires Simulates(g, a, b, {}) && RunOk(prog, g, a, b, {}, n)
    requires g.callee.returnIp < |prog| && prog[g.callee.returnIp].Ret? && g.caller.returnIp <= |prog|
    requires Run(prog, a, n).Running? && Returns(prog, g, Run(prog, a, n).m) && Step(prog, Run(prog, a, n).m).Running?
    ensures SameVisits(prog, a, b, n)
    ensures Run(prog, a, n + 1).Running? && Run(prog, b, n + 2).Running? && SameLive(Run(prog, a, n + 1).m, Run(prog, b, n + 2).m)
  {
    forall i: nat | i <= n ensures SameVisit(Run(prog, a, i), Run(prog, b, i)) {
      VisitTogether(prog, g, a, b, n, i);
    }
    ReturnTogether(prog, g, a, b, n);
  }

  lemma ReturnTogether(prog: seq<Instr>, g: Gap, a: Machine, b: Machine, n: nat)
    requires Simulates(g, a, b, {}) && RunOk(prog, g, a, b, {}, n)
    requires g.callee.returnIp < |prog| && prog[g.callee.returnIp].Ret? && g.caller.returnIp <= |prog|
    requires Run(prog, a, n).Running? && Returns(prog, g, Run(prog, a, n).m) && Step(prog, Run(prog, a, n).m).Running?
    ensures Run(prog, a, n + 1).Running? && Run(prog, b, n + 2).Running? && SameLive(Run(prog, a, n + 1).m, Run(prog, b, n + 2).m)
  {
    var stored := RunsTogether(prog, g, a, b, {}, n);
    var a', b' := Run(prog, a, n).m, Run(prog, b, n).m;
    SimReturn(prog, g, a', b', stored);
    RunNext(prog, a, n, a');
    RunNext(prog, b, n, b');
    RunNext(prog, b, n + 1, Step(prog, b').m);
  }

  lemma RunNext(prog: seq<Instr>, m: Machine, n: nat, m': Machine)
    requires Run(prog, m, n) == Running(m')
    ensures Run(prog, m, n + 1) == Step(prog, m')
  {}

  ghost function CallGap(prog: seq<Instr>, m: Machine, target: nat): Gap
    requires m.frames != [] && ArgCount(prog, target) <= |m.stack|
  {
    var k := |m.frames| - 1;
    Gap(m.frames[..k], m.frames[k], Frame(m.ip + 1, |m.stack| - ArgCount(prog, target), m.localsCount))
  }

  /** Main theorem: the run that reuses the frame and the run that pushes one and later executes the caller's RET visit
      the same callee instructions and end with equal stack, frames, live locals and instruction pointer. */
  lemma TailCallRefinesCall(prog: seq<Instr>, m: Machine, target: nat, n: nat)
    requires Disciplined(m) && IsTailCall(prog, m) && CanCall(prog, m, target)
    requires PlainCall(prog, m, target).Running? && m.frames[|m.frames| - 1].base == |m.stack| - ArgCount(prog, target)
    requires m.frames[|m.frames| - 1].returnIp <= |prog|
    requires RunOk(prog, CallGap(prog, m, target), TailCall(prog, m, target), PlainCall(prog, m, target).m, {}, n)
    requires var end := Run(prog, TailCall(prog, m, target), n);
             end.Running? && Returns(prog, CallGap(prog, m, target), end.m) && Step(prog, end.m).Running?
    ensures var a, b := TailCall(prog, m, target), PlainCall(prog, m, target).m;
            && SameVisits(prog, a, b, n)
            && Run(prog, a, n + 1).Running? && Run(prog, b, n + 2).Running?
            && SameLive(Run(prog, a, n + 1).m, Run(prog, b, n + 2).m)
  {
    CallsTogether(prog, m, target);
    CalleeRefines(prog, CallGap(prog, m, target), TailCall(prog, m, target), PlainCall(prog, m, target).m, n);
  }

  lemma {:induction false} RunOkPrefix(prog: seq<Instr>, g: Gap, a: Machine, b: Machine, stored: set<int>, n: nat, i: nat)
    requires RunOk(prog, g, a, b, stored, n) && i <= n
    ensures RunOk(prog, g, a, b, stored, i)
    decreases n
  {
    if i > 0 {
      RunOkPrefix(prog, g, Step(prog, a).m, Step(prog, b).m, StoredAfter(prog, a, Step(prog, a).m, stored), n - 1, i - 1);
    }
  }

  /** The condition on the caller's frame is needed: with other values under the arguments, the caller's RET either fails or
      leaves a stack of another height than the tail call does, whose height is the base plus what the callee returned. */
  lemma ExtraValuesDiffer(prog: seq<Instr>, m: Machine, calleeBase: nat)
    requires m.ip < |prog| && prog[m.ip].Ret? && m.frames != []
    requires m.frames[|m.frames| - 1].base < calleeBase <= |m.stack| <= calleeBase + 1
    ensures var out, tail := Step(prog, m), m.frames[|m.frames| - 1].base + (|m.stack| - calleeBase);
            out.Failed? || (out.Running? && |out.m.stack| != tail)
  {}
}
