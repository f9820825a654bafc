/** Leaving a breakpoint, as the debugger does it: on the table, the memory and the core in place. */
module StepOver {
  import opened Partial
  import opened Breakpoints
  import Cpu
  import opened Vcore
  import opened Transparency

  /**
    Remove the breakpoint under the PC, step the core, insert it again. The verdict is that of the step;
    if the step leaves the model the final state is not described.
  */
  method StepTheBreakpoint(table: BreakpointTable, core: VCore) returns (r: Ret, v: Verdict)
    requires core.Valid() && core.vmem == table.vmem
    requires Planted(table.slots[..], core.regs[Cpu.PC]) ==> core.regs[Cpu.PC] + 4 <= core.vmem.bytes.Length
    modifies table.slots, core.regs, core.vmem.bytes
    ensures r == NotFound <==> !old(Planted(table.slots[..], core.regs[Cpu.PC]))
    ensures r == NotFound ==>
              table.slots[..] == old(table.slots[..]) && core.View() == old(core.View())
    ensures
      var after := Transparency.StepTheBreakpoint(old(Debuggee(table.slots[..], core.View())), Move);
      after == if v == Executed || v == HitBreakpoint then Some(Debuggee(table.slots[..], core.View())) else None
  {
    var pc := core.regs[Cpu.PC];
    v := Executed;
    r := table.RemoveBreakpoint(pc);
    if r != Removed { return; }
    ghost var lifted := core.View();
    v := core.Iterate();
    if v != Executed && v != HitBreakpoint { return Stepped, v; }
    assert Move(lifted) == Some(core.View());
    var again := table.InsertBreakpoint(pc);
    r := Stepped;
  }
}
