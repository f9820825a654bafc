/**
  The interpreter as the program writes it: the register file is updated in place, instruction class by
  instruction class, and the run loop goes round until it reads the exit flag as set.
*/
module Vcore {
  import opened Partial
  import opened Memory
  import opened Words
  import MulDiv
  import Isa
  import opened Cpu

  function Turn(h: Hart): Outcome { if Cpu.Valid(h) then Iteration(h) else Wild }

  function Continues(o: Outcome): Option<Hart> { if o.Ran? then Some(o.hart) else None }

  function Finishes(h: Hart): Outcome { Ran(h) }

  /**
    The run loop, when the exit flag is first read as set after `n` instructions. EBREAK makes the core halt
    all cores, itself included, so the flag is read as set right after it.
  */
  function RunLoop(h: Hart, n: nat): Outcome { Loop(Turn, Continues, Finishes, h, n) }

  /** How an iteration of the loop ends, without the state it leaves. */
  datatype Verdict = Executed | HitBreakpoint | CallsHost | IsAtomic | EndsProcess | OutOfMemory

  /** The guards and the switch of vcore_r_type; `None` is the illegal-instruction trap. */
  method RTypeValue(func: word, rs1: word, rs2: word) returns (v: Option<word>)
    ensures v == RValue(func, rs1, rs2)
  {
    if rs2 == 0 {
      if func == DIV || func == DIVU { return Some(0xFFFF_FFFF); }
      if func == REM || func == REMU { return Some(rs1); }
    }
    if S(rs2) == -1 && S(rs1) == -0x8000_0000 {
      if func == DIV { return Some(0x8000_0000); }
      if func == REM { return Some(0); }
    }
    if func == ADD { return Some(U(rs1 + rs2)); }
    if func == SUB { return Some(U(rs1 - rs2)); }
    if func == XOR { return Some(Xor(rs1, rs2)); }
    if func == OR { return Some(Or(rs1, rs2)); }
    if func == AND { return Some(And(rs1, rs2)); }
    if func == SLL { return Some(Shl(rs1, rs2 % 32)); }
    if func == SRL { return Some(Shr(rs1, rs2 % 32)); }
    if func == SRA { return Some(U(Ashr(S(rs1), rs2 % 32))); }
    if func == SLT { return Some(if S(rs1) < S(rs2) then 1 else 0); }
    if func == SLTU { return Some(if rs1 < rs2 then 1 else 0); }
    v := MTypeValue(func, rs1, rs2);
  }

  /** The M extension's part of the switch, behind the guards: native divisions are always defined here. */
  method MTypeValue(func: word, rs1: word, rs2: word) returns (v: Option<word>)
    requires func in {DIV, DIVU, REM, REMU} ==> rs2 != 0
    requires func in {DIV, REM} ==> !(S(rs2) == -1 && S(rs1) == -0x8000_0000)
    ensures func !in {ADD, SUB, XOR, OR, AND, SLL, SRL, SRA, SLT, SLTU} ==> v == RValue(func, rs1, rs2)
  {
    if func == MUL { return Some(U(S(rs1) * S(rs2))); }
    if func == MULH { return Some(MulDiv.UpperOfTemporary(S(rs1) * S(rs2))); }
    if func == MULHSU { return Some(MulDiv.UpperOfTemporary(S(rs1) * rs2)); }
    if func == MULHU { return Some(MulDiv.UpperOfTemporary(rs1 * rs2)); }
    if func == DIV {
      assert MulDiv.CDivDefined(S(rs1), S(rs2)) by { MulDiv.GuardsKeepDivisionDefined(rs1, rs2); }
      return Some(U(MulDiv.CDiv(S(rs1), S(rs2))));
    }
    if func == DIVU { return Some(MulDiv.Divu(rs1, rs2)); }
    if func == REM { return Some(U(MulDiv.CRem(S(rs1), S(rs2)))); }
    if func == REMU { return Some(MulDiv.Remu(rs1, rs2)); }
    return None;
  }

  class VCore {
    const regs: array<word>
    const vmem: Vmem

    constructor (vmem: Vmem)
      ensures Valid() && this.vmem == vmem && fresh(regs)
    {
      this.regs := new word[REG_NUMS](_ => 0);
      this.vmem := vmem;
    }

    ghost predicate Valid() { regs.Length == REG_NUMS }

    ghost function View(): Hart
      reads regs, vmem.bytes
    {
      Hart(regs[..], vmem.bytes[..])
    }

    /** The verdict and the state of the object together are the outcome `o`. */
    ghost predicate Reached(v: Verdict, o: Outcome)
      reads regs, vmem.bytes
    {
      match v
      case Executed => o == Ran(View())
      case HitBreakpoint => o == Breakpoint(View())
      case CallsHost => o == SystemCall
      case IsAtomic => o == Atomic
      case EndsProcess => o == Exit
      case OutOfMemory => o == Wild
    }

    /** *rd = v, then the PC moves by `inc`. */
    method WriteRd(rd: Isa.reg, v: word, inc: word)
      requires Valid()
      modifies regs
      ensures View() == WriteBack(old(View()), rd, v, U(old(regs[PC]) + inc))
    {
      regs[rd] := v;
      MovePc(inc);
    }

    method MovePc(inc: word)
      requires Valid()
      modifies regs
      ensures View() == old(View()).(regs := old(regs[..])[PC := U(old(regs[PC]) + inc)])
    {
      var pc: int := regs[PC];
      regs[PC] := U(pc + inc);
    }

    method RType(f: Fields) returns (v: Verdict)
      requires Valid()
      modifies regs
      ensures Reached(v, RunValue(old(View()), f, RValue(f.rfunc, old(regs[f.rs1]), old(regs[f.rs2]))))
    {
      var value := RTypeValue(f.rfunc, regs[f.rs1], regs[f.rs2]);
      if value.None? { return EndsProcess; }
      WriteRd(f.rd, value.value, 4);
      return Executed;
    }

    method IrType(f: Fields) returns (v: Verdict)
      requires Valid()
      modifies regs
      ensures Reached(v, RunValue(old(View()), f, IrValue(f, old(regs[f.rs1]))))
    {
      var rs1, imm, func := regs[f.rs1], f.iImm, f.func;
      var value: word;
      if f.rfunc == SRA {
        value := U(Ashr(S(rs1), f.rs2));
      } else if f.rfunc == SRL {
        value := Shr(rs1, f.rs2);
      } else if f.rfunc == SLL {
        value := Shl(rs1, f.rs2);
      } else if func == ADD {
        var sum: int := rs1 as int + imm as int;
        value := U(sum);
      } else if func == XOR {
        value := Xor(rs1, imm);
      } else if func == OR {
        value := Or(rs1, imm);
      } else if func == AND {
        value := And(rs1, imm);
      } else if func == SLT {
        value := if S(rs1) < S(imm) then 1 else 0;
      } else if func == SLTU {
        value := if rs1 < imm then 1 else 0;
      } else {
        return EndsProcess;
      }
      assert IrValue(f, rs1) == Some(value);
      WriteRd(f.rd, value, 4);
      return Executed;
    }

    method BType(f: Fields) returns (v: Verdict)
      requires Valid()
      modifies regs
      ensures Reached(v, RunBranch(old(View()), f))
    {
      var rs1, rs2 := regs[f.rs1], regs[f.rs2];
      var inc: word := 4;
      match f.func {
        case 0 => if rs1 == rs2 { inc := f.bImm; }
        case 1 => if rs1 != rs2 { inc := f.bImm; }
        case 4 => if S(rs1) < S(rs2) { inc := f.bImm; }
        case 5 => if S(rs1) >= S(rs2) { inc := f.bImm; }
        case 6 => if rs1 < rs2 { inc := f.bImm; }
        case 7 => if rs1 >= rs2 { inc := f.bImm; }
        case _ => return EndsProcess;
      }
      MovePc(inc);
      return Executed;
    }

    method JType(f: Fields)
      requires Valid()
      modifies regs
      ensures View() == WriteBack(old(View()), f.rd, Next(old(View())), U(old(regs[PC]) + f.jImm))
    {
      var pc: int := regs[PC];
      regs[f.rd] := U(pc + 4);
      MovePc(f.jImm);
    }

    /** The link is written before the base is read. */
    method IjType(f: Fields)
      requires Valid()
      modifies regs
      ensures Ran(View()) == RunJalr(old(View()), f)
    {
      var pc: int := regs[PC];
      regs[f.rd] := U(pc + 4);
      var base: int := regs[f.rs1];
      regs[PC] := U(base + f.iImm);
    }

    /** The program does not check the address; a load outside memory has no defined result. */
    method IlType(f: Fields) returns (v: Verdict)
      requires Valid()
      modifies regs
      ensures Reached(v, RunLoad(old(View()), f))
    {
      var base: int := regs[f.rs1];
      var addr := U(base + f.iImm);
      if LoadWidth(f.func) == 0 { return EndsProcess; }
      if addr + LoadWidth(f.func) > vmem.bytes.Length { return OutOfMemory; }
      var value := LoadValue(f.func, addr);
      WriteRd(f.rd, value, 4);
      return Executed;
    }

    /** The sign or zero extension of what a load reads. */
    method LoadValue(func: word, addr: nat) returns (value: word)
      requires LoadWidth(func) != 0 && addr + LoadWidth(func) <= vmem.bytes.Length
      ensures value == LoadedValue(func, vmem.bytes[..], addr)
    {
      match func {
        case 0 =>
          value := vmem.LoadByte(addr);
          if value >= 0x80 { value := Or(value, 0xFFFF_FF00); }
        case 1 =>
          value := vmem.LoadHalf(addr);
          if value >= 0x8000 { value := Or(value, 0xFFFF_0000); }
        case 2 => value := vmem.LoadWord(addr);
        case 4 => value := vmem.LoadByte(addr);
        case _ => value := vmem.LoadHalf(addr);
      }
    }

    method SType(f: Fields) returns (v: Verdict)
      requires Valid()
      modifies regs, vmem.bytes
      ensures Reached(v, RunStore(old(View()), f))
    {
      var base: int := regs[f.rs1];
      var value := regs[f.rs2];
      var addr := U(base + f.sImm);
      if StoreWidth(f.func) == 0 { return EndsProcess; }
      if addr + StoreWidth(f.func) > vmem.bytes.Length { return OutOfMemory; }
      match f.func {
        case 0 => vmem.StoreByte(addr, value);
        case 1 => vmem.StoreHalf(addr, value);
        case _ => vmem.StoreWord(addr, value);
      }
      assert regs[..] == old(regs[..]);
      MovePc(4);
      return Executed;
    }

    method DispatchOn(f: Fields) returns (v: Verdict)
      requires Valid()
      modifies regs, vmem.bytes
      ensures Reached(v, Dispatch(old(View()), f))
    {
      match f.opcode {
        case 0x33 => v := RType(f);
        case 0x13 => v := IrType(f);
        case 0x03 => v := IlType(f);
        case 0x23 => v := SType(f);
        case 0x63 => v := BType(f);
        case 0x6F => JType(f); v := Executed;
        case 0x67 => IjType(f); v := Executed;
        case 0x37 => WriteRd(f.rd, f.uImm, 4); v := Executed;
        case 0x17 =>
          var pc: int := regs[PC];
          WriteRd(f.rd, U(pc + f.uImm), 4);
          v := Executed;
        case 0x2F => v := if IsAtomicCode(f.afunc) then IsAtomic else EndsProcess;
        case 0x73 =>
          v := if f.iImm == 0 then CallsHost else if f.iImm == 1 then HitBreakpoint else EndsProcess;
        case _ => v := EndsProcess;
      }
    }

    /** One iteration of the loop. */
    method Iterate() returns (v: Verdict)
      requires Valid()
      modifies regs, vmem.bytes
      ensures Reached(v, Iteration(old(View())))
    {
      var pc := regs[PC];
      if pc + 4 > vmem.bytes.Length { return OutOfMemory; }
      regs[0] := 0;
      var ins := vmem.LoadWord(pc);
      assert View() == Cleared(old(View()));
      if IsCompressed(ins as bv32) { return EndsProcess; }
      v := DispatchOn(FieldsOf(ins as bv32));
    }

    /** vcore_run, when the exit flag is first read as set after `n` instructions. */
    method Run(n: nat) returns (v: Verdict)
      requires Valid() && n > 0
      modifies regs, vmem.bytes
      ensures Reached(v, RunLoop(old(View()), n))
    {
      ghost var trace := [View()];
      var i := 0;
      while i < n
        invariant 0 <= i <= n && |trace| == i + 1 && Trace(Turn, Continues, trace)
        invariant trace[0] == old(View()) && trace[i] == View()
      {
        ghost var before := trace;
        v := Iterate();
        if v != Executed {
          LoopResult(Turn, Continues, Finishes, trace, n, Turn(trace[i]));
          return;
        }
        trace := trace + [View()];
        TraceGrows(Turn, Continues, before, View());
        i := i + 1;
      }
      v := Executed;
      LoopResult(Turn, Continues, Finishes, trace, n, Finishes(trace[n]));
    }
  }
}
