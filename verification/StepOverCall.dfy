/**
  Leaving a breakpoint through the step call of the core's thread: the call executes one instruction if the
  core was started, and none if it was stopped or suspended when it was halted.
*/
module StepOverCall {
  import opened Partial
  import opened Memory
  import opened Breakpoints
  import Cpu
  import CoreMachine
  import StepHandshake
  import opened Transparency

  type Hart = Cpu.Hart

  /** A step call that executes `n` instructions, as a step of the hart. */
  function Instructions(n: nat): Hart -> Option<Hart> { h => Iterate(Move, h, n) }

  /** The instructions between two points of a run of the core. */
  function Executed(before: CoreMachine.Core, after: CoreMachine.Core): nat {
    if after.executed < before.executed then 0 else after.executed - before.executed
  }

  /** A step call that returns has executed one instruction on a started core, and none on any other. */
  lemma CallExecutes(r: seq<CoreMachine.Core>, ss: seq<CoreMachine.Step>, k: nat)
    requires CoreMachine.Run(r, ss) && StepHandshake.Posted(r[0]) && StepHandshake.InHandshake(r[0])
    requires StepHandshake.ReturnsAt(r, k) && forall i :: 0 <= i <= k ==> r[i].buffered == r[0].buffered
    ensures Executed(r[0], r[k]) == if r[0].buffered == CoreMachine.StartS then 1 else 0
  {
    StepHandshake.StepExecutesOne(r, ss, k, k);
  }

  lemma OneInstruction(h: Hart)
    ensures Iterate(Move, h, 1) == Move(h)
  {}

  /** The step over is the same for steps that do the same to the hart with the breakpoint lifted. */
  lemma SameStepOver(d: Debuggee, f: Hart -> Option<Hart>, g: Hart -> Option<Hart>)
    requires Cpu.Valid(d.hart) && forall h :: f(h) == g(h)
    ensures StepTheBreakpoint(d, f) == StepTheBreakpoint(d, g)
  {}

  /** A step of one instruction is the step of the transparency theorems. */
  lemma OneInstructionStepsOver(d: Debuggee)
    requires Cpu.Valid(d.hart)
    ensures StepTheBreakpoint(d, Instructions(1)) == StepTheBreakpoint(d, Move)
  {
    forall h: Hart
      ensures Instructions(1)(h) == Move(h)
    {
      OneInstruction(h);
    }
    SameStepOver(d, Instructions(1), Move);
  }

  /** Writing the original word and then the EBREAK again leaves patched memory as it was. */
  lemma LiftedAndPlanted(m: Bytes, a: nat, instr: word)
    requires Fits(m, a, 4) && Rw(m, a) == Cpu.EBREAK
    ensures Ww(Ww(m, a, instr), a, Cpu.EBREAK) == m
  {
    Restore(m, a, instr);
  }

  /** Remove and insert with no step in between: memory is as before, and so are the breakpoints. */
  lemma RemoveAndInsert(t: Table, m: Bytes, orig: Bytes, a: nat)
    requires Agrees(t, m, orig) && Planted(t, a)
    ensures Fits(m, a, 4) && Fits(Remove(t, m, a).1, a, 4)
    ensures
      var (t', m', _) := Remove(t, m, a);
      var (t'', m'', r) := Insert(t', m', a);
      && r == Inserted && m'' == m && Agrees(t'', m, orig)
      && forall b :: Planted(t'', b) <==> Planted(t, b)
  {
    var i := FindFrom(t, a, 0);
    RemoveAgrees(t, m, orig, a);
    var (t', m', _) := Remove(t, m, a);
    assert SlotAgrees(t[i], m, orig);
    ReadBack(m, a, t[i].instr);
    LiftedAndPlanted(m, a, t[i].instr);
    FirstFree(t', i);
    InsertAgrees(t', m', orig, a);
    forall b
      ensures Planted(Insert(t', m', a).0, b) <==> Planted(t, b)
    {
      InsertPlants(t', m', a, b);
    }
  }

  lemma FirstFree(t: Table, i: nat)
    requires i < |t| && !t[i].full
    ensures FirstEmpty(t, 0) < |t|
  {}

  /** A step over that executes nothing changes neither the hart nor the set of breakpoints. */
  lemma NoInstructionStaysPut(d: Debuggee, orig: Bytes)
    requires Cpu.Valid(d.hart) && Agrees(d.table, d.hart.mem, orig) && Planted(d.table, d.hart.regs[Cpu.PC])
    ensures
      var after := StepTheBreakpoint(d, Instructions(0));
      && after.Some? && after.value.hart == d.hart && Agrees(after.value.table, d.hart.mem, orig)
      && forall a :: Planted(after.value.table, a) <==> Planted(d.table, a)
  {
    RemoveAndInsert(d.table, d.hart.mem, orig, d.hart.regs[Cpu.PC]);
  }

  /**
    Leaving a breakpoint through a step call that returns, with no HSM request to the core meanwhile. A started
    core executes exactly the instruction under the breakpoint; a stopped or suspended one is left on the
    breakpoint as it was. Either way the same breakpoints stay planted.
  */
  lemma StepOverByCall(
    r: seq<CoreMachine.Core>, ss: seq<CoreMachine.Step>, k: nat, d: Debuggee, b: Hart)
    requires CoreMachine.Run(r, ss) && StepHandshake.Posted(r[0]) && StepHandshake.InHandshake(r[0])
    requires StepHandshake.ReturnsAt(r, k) && forall i :: 0 <= i <= k ==> r[i].buffered == r[0].buffered
    requires Related(d.table, d.hart, b) && Obeys(d.table, b) && Planted(d.table, d.hart.regs[Cpu.PC])
    ensures
      var after := StepTheBreakpoint(d, Instructions(Executed(r[0], r[k])));
      if r[0].buffered == CoreMachine.StartS then
        && (after.Some? <==> Move(b).Some?)
        && (after.Some? ==> Related(after.value.table, after.value.hart, Move(b).value))
        && (after.Some? ==> forall a :: Planted(after.value.table, a) <==> Planted(d.table, a))
      else
        && after.Some? && after.value.hart == d.hart && Related(after.value.table, after.value.hart, b)
        && forall a :: Planted(after.value.table, a) <==> Planted(d.table, a)
  {
    CallExecutes(r, ss, k);
    if r[0].buffered == CoreMachine.StartS {
      assert d.hart.regs[Cpu.PC] == Cpu.Cleared(d.hart).regs[Cpu.PC] == Cpu.Cleared(b).regs[Cpu.PC] == b.regs[Cpu.PC];
      OneInstructionStepsOver(d);
      StepOverIsTransparent(d, b);
    } else {
      NoInstructionStaysPut(d, b.mem);
    }
  }
}
