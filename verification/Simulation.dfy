/** The interpreter simulates the ISA: instruction by instruction, and over whole runs. */
module Simulation {
  import opened Partial
  import opened Memory
  import opened Words
  import MulDiv
  import Isa
  import opened Cpu

  /** What the guest sees of the interpreter's state: register 0 reads as zero. */
  function Guest(h: Hart): (m: Isa.Machine)
    requires Valid(h)
    ensures Isa.Valid(m)
  {
    Isa.Machine(h.regs[..32][0 := 0], h.regs[PC], h.mem)
  }

  // ----- the decoders read the fields of the base formats

  lemma FieldsAgree(w: bv32)
    ensures OpcodeType(w) == Isa.Opcode(w) && RdOf(w) == Isa.Rd(w) && Rs1Of(w) == Isa.Rs1(w)
    ensures Rs2Of(w) == Isa.Rs2(w) && FuncOf(w) == Isa.F3(w)
  {}

  lemma FunctionBitsAgree(w: bv32)
    ensures RFunc(w) == Isa.F3(w) | (Isa.F7(w) << 4) && Isa.F3(w) < 8 && Isa.F7(w) < 128
  {}

  lemma ImmINegative(w: bv32)
    requires w & 0x80000000 != 0
    ensures IImm(w) == Isa.Sext12(Isa.ImmI(w))
  {}

  lemma ImmIPositive(w: bv32)
    requires w & 0x80000000 == 0
    ensures IImm(w) == Isa.Sext12(Isa.ImmI(w))
  {}

  lemma ImmIAgrees(w: bv32)
    ensures IImm(w) == Isa.Sext12(Isa.ImmI(w))
  {
    if w & 0x80000000 == 0 { ImmIPositive(w); } else { ImmINegative(w); }
  }

  lemma ImmSNegative(w: bv32)
    requires w & 0x80000000 != 0
    ensures SImm(w) == Isa.Sext12(Isa.ImmS(w))
  {}

  lemma ImmSPositive(w: bv32)
    requires w & 0x80000000 == 0
    ensures SImm(w) == Isa.Sext12(Isa.ImmS(w))
  {}

  lemma ImmSAgrees(w: bv32)
    ensures SImm(w) == Isa.Sext12(Isa.ImmS(w))
  {
    if w & 0x80000000 == 0 { ImmSPositive(w); } else { ImmSNegative(w); }
  }

  lemma ImmBNegative(w: bv32)
    requires w & 0x80000000 != 0
    ensures BImm(w) == Isa.Sext12(Isa.ImmB(w)) << 1
  {}

  lemma ImmBPositive(w: bv32)
    requires w & 0x80000000 == 0
    ensures BImm(w) == Isa.Sext12(Isa.ImmB(w)) << 1
  {}

  lemma ImmBAgrees(w: bv32)
    ensures BImm(w) == Isa.Sext12(Isa.ImmB(w)) << 1
  {
    if w & 0x80000000 == 0 { ImmBPositive(w); } else { ImmBNegative(w); }
  }

  lemma ImmJNegative(w: bv32)
    requires w & 0x80000000 != 0
    ensures JImm(w) == Isa.Sext20(Isa.ImmJ(w)) << 1
  {}

  lemma ImmJPositive(w: bv32)
    requires w & 0x80000000 == 0
    ensures JImm(w) == Isa.Sext20(Isa.ImmJ(w)) << 1
  {}

  lemma ImmJAgrees(w: bv32)
    ensures JImm(w) == Isa.Sext20(Isa.ImmJ(w)) << 1
  {
    if w & 0x80000000 == 0 { ImmJPositive(w); } else { ImmJNegative(w); }
  }

  lemma ImmUAgrees(w: bv32)
    ensures UImm(w) == Isa.ImmU(w) << 12
  {}

  /** The decoders invert the encodings of section 2.3: each recovers the sign-extended immediate. */
  lemma DecodersInvertEncodings(imm: Isa.imm12, wide: Isa.imm20, f3: bv32, rd: bv5, rs1: bv5, rs2: bv5, opcode: bv32)
    requires f3 < 8 && opcode < 128
    ensures IImm(Isa.FormatI(imm, f3, rd, rs1, opcode)) == Isa.Sext12(imm)
    ensures SImm(Isa.FormatS(imm, f3, rs1, rs2)) == Isa.Sext12(imm)
    ensures BImm(Isa.FormatB(imm, f3, rs1, rs2)) == Isa.Sext12(imm) << 1
    ensures JImm(Isa.FormatJ(wide, rd)) == Isa.Sext20(wide) << 1
    ensures UImm(Isa.FormatU(wide, rd, opcode)) == wide << 12
  {
    InvertI(imm, f3, rd, rs1, opcode);
    InvertS(imm, f3, rs1, rs2);
    InvertB(imm, f3, rs1, rs2);
    InvertJ(wide, rd);
    InvertU(wide, rd, opcode);
  }

  lemma InvertI(imm: Isa.imm12, f3: bv32, rd: bv5, rs1: bv5, opcode: bv32)
    requires f3 < 8 && opcode < 128
    ensures IImm(Isa.FormatI(imm, f3, rd, rs1, opcode)) == Isa.Sext12(imm)
  {
    Isa.FieldsI(imm, f3, rd, rs1, opcode);
    ImmIAgrees(Isa.FormatI(imm, f3, rd, rs1, opcode));
  }

  lemma InvertS(imm: Isa.imm12, f3: bv32, rs1: bv5, rs2: bv5)
    requires f3 < 8
    ensures SImm(Isa.FormatS(imm, f3, rs1, rs2)) == Isa.Sext12(imm)
  {
    Isa.FieldsS(imm, f3, rs1, rs2);
    ImmSAgrees(Isa.FormatS(imm, f3, rs1, rs2));
  }

  lemma InvertB(imm: Isa.imm12, f3: bv32, rs1: bv5, rs2: bv5)
    requires f3 < 8
    ensures BImm(Isa.FormatB(imm, f3, rs1, rs2)) == Isa.Sext12(imm) << 1
  {
    Isa.FieldsB(imm, f3, rs1, rs2);
    ImmBAgrees(Isa.FormatB(imm, f3, rs1, rs2));
  }

  lemma InvertJ(wide: Isa.imm20, rd: bv5)
    ensures JImm(Isa.FormatJ(wide, rd)) == Isa.Sext20(wide) << 1
  {
    Isa.FieldsJ(wide, rd);
    ImmJAgrees(Isa.FormatJ(wide, rd));
  }

  lemma InvertU(wide: Isa.imm20, rd: bv5, opcode: bv32)
    requires opcode < 128
    ensures UImm(Isa.FormatU(wide, rd, opcode)) == wide << 12
  {
    Isa.FieldsU(wide, rd, opcode);
    ImmUAgrees(Isa.FormatU(wide, rd, opcode));
  }

  // ----- operations

  /** The function code of an operation, func7 above func3. */
  function RCode(op: Isa.ROp): word {
    match op
    case ADD => ADD case SUB => SUB case SLL => SLL case SLT => SLT case SLTU => SLTU
    case XOR => XOR case SRL => SRL case SRA => SRA case OR => OR case AND => AND
    case MUL => MUL case MULH => MULH case MULHSU => MULHSU case MULHU => MULHU
    case DIV => DIV case DIVU => DIVU case REM => REM case REMU => REMU
  }

  predicate IsM(op: Isa.ROp) { op in {Isa.MUL, Isa.MULH, Isa.MULHSU, Isa.MULHU, Isa.DIV, Isa.DIVU, Isa.REM, Isa.REMU} }

  lemma RValueAgrees(op: Isa.ROp, a: word, b: word)
    ensures RValue(RCode(op), a, b) == Some(Isa.Alu(op, a, b))
  {
    if IsM(op) { MValueAgrees(op, a, b); } else { BaseValueAgrees(op, a, b); }
  }

  lemma BaseValueAgrees(op: Isa.ROp, a: word, b: word)
    requires !IsM(op)
    ensures RValue(RCode(op), a, b) == Some(Isa.Alu(op, a, b))
  {
    ShiftsAgree(a, b % 32);
  }

  lemma MValueAgrees(op: Isa.ROp, a: word, b: word)
    requires IsM(op)
    ensures RValue(RCode(op), a, b) == Some(Isa.Alu(op, a, b))
  {
    MulDiv.MatchesSpec(a, b);
  }

  function ICode(op: Isa.IOp): word {
    match op case ADDI => ADD case SLTI => SLT case SLTIU => SLTU case XORI => XOR case ORI => OR case ANDI => AND
  }

  function ShiftCode(op: Isa.ShiftOp): word { match op case SLLI => SLL case SRLI => SRL case SRAI => SRA }

  function LoadCode(op: Isa.LoadOp): word {
    match op case LB => 0 case LH => 1 case LW => 2 case LBU => 4 case LHU => 5
  }

  function StoreCode(op: Isa.StoreOp): word { match op case SB => 0 case SH => 1 case SW => 2 }
  function BranchCode(op: Isa.BranchOp): word {
    match op case BEQ => 0 case BNE => 1 case BLT => 4 case BGE => 5 case BLTU => 6 case BGEU => 7
  }

  // ----- one instruction

  /** The fields the interpreter extracts are those of instruction `i`. */
  predicate Carries(f: Fields, i: Isa.Instr) {
    match i
    case R(op, rd, rs1, rs2) => f.opcode == 0x33 && f.rfunc == RCode(op) && f.rd == rd && f.rs1 == rs1 && f.rs2 == rs2
    case I(op, rd, rs1, imm) =>
      && f.opcode == 0x13 && f.func == ICode(op) && f.rd == rd && f.rs1 == rs1 && f.iImm == imm
      && f.rfunc !in {SLL, SRL, SRA}
    case Shift(op, rd, rs1, shamt) =>
      f.opcode == 0x13 && f.rfunc == ShiftCode(op) && f.rd == rd && f.rs1 == rs1 && f.rs2 == shamt
    case Load(op, rd, rs1, imm) =>
      f.opcode == 0x03 && f.func == LoadCode(op) && f.rd == rd && f.rs1 == rs1 && f.iImm == imm
    case Store(op, rs1, rs2, imm) =>
      f.opcode == 0x23 && f.func == StoreCode(op) && f.rs1 == rs1 && f.rs2 == rs2 && f.sImm == imm
    case Branch(op, rs1, rs2, imm) =>
      f.opcode == 0x63 && f.func == BranchCode(op) && f.rs1 == rs1 && f.rs2 == rs2 && f.bImm == imm
    case Jal(rd, imm) => f.opcode == 0x6F && f.rd == rd && f.jImm == imm
    case Jalr(rd, rs1, imm) => f.opcode == 0x67 && f.rd == rd && f.rs1 == rs1 && f.iImm == imm
    case Lui(rd, imm) => f.opcode == 0x37 && f.rd == rd && f.uImm == imm
    case Auipc(rd, imm) => f.opcode == 0x17 && f.rd == rd && f.uImm == imm
  }

  /** Writing a register of the file and the PC is writing the guest's register and PC, with x0 discarding it. */
  lemma WriteBackAgrees(h: Hart, rd: Isa.reg, v: word, pc: word)
    requires Valid(h) && h.regs[0] == 0
    ensures Guest(WriteBack(h, rd, v, pc)) == Isa.Set(Guest(h), rd, v).(pc := pc)
  {
    assert Guest(WriteBack(h, rd, v, pc)).x == Isa.Set(Guest(h), rd, v).x;
  }

  lemma SimulatesR(h: Hart, f: Fields, i: Isa.Instr)
    requires Valid(h) && h.regs[0] == 0 && i.R? && Carries(f, i)
    ensures Dispatch(h, f).Ran? && Guest(Dispatch(h, f).hart) == Isa.Exec(Guest(h), i)
  {
    var a, b := h.regs[i.rs1], h.regs[i.rs2];
    RValueAgrees(i.rop, a, b);
    var v := Isa.Alu(i.rop, a, b);
    assert Dispatch(h, f) == Ran(WriteBack(h, i.rd, v, Next(h)));
    WriteBackAgrees(h, i.rd, v, Next(h));
  }

  lemma IValueAgrees(op: Isa.IOp, f: Fields, a: word)
    requires f.func == ICode(op) && f.rfunc !in {SLL, SRL, SRA}
    ensures IrValue(f, a) == Some(Isa.Alu(Isa.Register(op), a, f.iImm))
  {
    var imm := f.iImm;
    match op
    case ADDI => assert IrValue(f, a) == Some(U(a + imm));
    case SLTI => assert IrValue(f, a) == Some(if S(a) < S(imm) then 1 else 0);
    case SLTIU => assert IrValue(f, a) == Some(if a < imm then 1 else 0);
    case XORI => assert IrValue(f, a) == Some(Xor(a, imm));
    case ORI => assert IrValue(f, a) == Some(Or(a, imm));
    case ANDI => assert IrValue(f, a) == Some(And(a, imm));
  }

  lemma ShiftValueAgrees(op: Isa.ShiftOp, f: Fields, a: word)
    requires f.rfunc == ShiftCode(op)
    ensures IrValue(f, a) == Some(Isa.Alu(Isa.ShiftRegister(op), a, f.rs2))
  {
    assert f.rs2 % 32 == f.rs2;
    if op == Isa.SRAI { ShiftsAgree(a, f.rs2); }
  }

  lemma SimulatesImmediate(h: Hart, f: Fields, i: Isa.Instr)
    requires Valid(h) && h.regs[0] == 0 && (i.I? || i.Shift?) && Carries(f, i)
    ensures Dispatch(h, f).Ran? && Guest(Dispatch(h, f).hart) == Isa.Exec(Guest(h), i)
  {
    var a := h.regs[i.rs1];
    var v := if i.I? then Isa.Alu(Isa.Register(i.iop), a, i.imm) else Isa.Alu(Isa.ShiftRegister(i.sop), a, i.shamt);
    if i.I? { IValueAgrees(i.iop, f, a); } else { ShiftValueAgrees(i.sop, f, a); }
    assert Dispatch(h, f) == Ran(WriteBack(h, i.rd, v, Next(h)));
    WriteBackAgrees(h, i.rd, v, Next(h));
  }

  lemma LoadAgrees(op: Isa.LoadOp, mem: Bytes, addr: nat)
    requires Fits(mem, addr, Isa.LoadWidth(op))
    ensures LoadWidth(LoadCode(op)) == Isa.LoadWidth(op)
    ensures LoadedValue(LoadCode(op), mem, addr) == Isa.LoadValue(op, mem, addr)
  {
    match op
    case LB => SignExtension(Rb(mem, addr));
    case LH => SignExtension(Rh(mem, addr));
    case _ =>
  }

  lemma SimulatesMemory(h: Hart, f: Fields, i: Isa.Instr)
    requires Valid(h) && h.regs[0] == 0 && (i.Load? || i.Store?) && Carries(f, i) && Isa.InBounds(Guest(h), i)
    ensures Dispatch(h, f).Ran? && Guest(Dispatch(h, f).hart) == Isa.Exec(Guest(h), i)
  {
    var addr := Isa.Data(Guest(h), i).0;
    match i
    case Load(op, rd, rs1, imm) =>
      LoadAgrees(op, h.mem, addr);
      WriteBackAgrees(h, rd, Isa.LoadValue(op, h.mem, addr), Next(h));
    case Store(op, rs1, rs2, imm) =>
      assert Guest(Dispatch(h, f).hart).x == Guest(h).x;
  }

  lemma SimulatesControl(h: Hart, f: Fields, i: Isa.Instr)
    requires Valid(h) && h.regs[0] == 0 && (i.Branch? || i.Jal? || i.Lui? || i.Auipc?) && Carries(f, i)
    ensures Dispatch(h, f).Ran? && Guest(Dispatch(h, f).hart) == Isa.Exec(Guest(h), i)
  {
    match i
    case Branch(_, _, _, _) => assert Guest(Dispatch(h, f).hart).x == Guest(h).x;
    case Jal(rd, imm) => WriteBackAgrees(h, rd, Next(h), U(h.regs[PC] + imm));
    case Lui(rd, imm) => WriteBackAgrees(h, rd, imm, Next(h));
    case Auipc(rd, imm) => WriteBackAgrees(h, rd, U(h.regs[PC] + imm), Next(h));
  }

  /**
    When JALR agrees with the ISA: the target is even and, if the link register is also the base, the base
    already held the return address; or the two deviations happen to cancel out.
  */
  predicate JalrAgrees(m: Isa.Machine, i: Isa.Instr)
    requires Isa.Valid(m) && i.Jalr?
  {
    var base := m.x[i.rs1];
    var even := U(base + i.imm) % 2 == 0;
    if i.rd != i.rs1 then even
    else if even then base == U(m.pc + 4)
    else base == U(m.pc + 5)
  }

  /** Where the interpreter's JALR goes. */
  function JalrGoesTo(h: Hart, i: Isa.Instr): word
    requires Valid(h) && i.Jalr?
  {
    U((if i.rd == i.rs1 then Next(h) else h.regs[i.rs1]) + i.imm)
  }

  lemma JalrRuns(h: Hart, f: Fields, i: Isa.Instr)
    requires Valid(h) && i.Jalr? && Carries(f, i)
    ensures Dispatch(h, f) == Ran(WriteBack(h, i.rd, Next(h), JalrGoesTo(h, i)))
  {}

  /** JALR is executed as specified exactly under that condition. */
  lemma SimulatesJalr(h: Hart, f: Fields, i: Isa.Instr)
    requires Valid(h) && h.regs[0] == 0 && i.Jalr? && Carries(f, i)
    ensures Dispatch(h, f).Ran?
    ensures Guest(Dispatch(h, f).hart) == Isa.Exec(Guest(h), i) <==> JalrAgrees(Guest(h), i)
  {
    JalrRuns(h, f, i);
    WriteBackAgrees(h, i.rd, Next(h), JalrGoesTo(h, i));
    JalrCancels(h.regs[i.rs1], i.imm, h.regs[PC]);
  }

  lemma JalrCancels(base: word, imm: word, pc: word)
    ensures
      var t := U(base + imm);
      U(U(pc + 4) + imm) == t - t % 2 <==> base == if t % 2 == 0 then U(pc + 4) else U(pc + 5)
  {
    var t := U(base + imm);
    SumOfWrapped(pc + 4, imm);
    if t % 2 == 0 {
      SameSum(base, pc + 4, imm);
    } else {
      SameSum(base, pc + 5, imm);
      PredecessorOfOdd(pc + 4 + imm, t);
    }
  }

  lemma SumOfWrapped(a: int, b: int)
    ensures U(U(a) + b) == U(a + b)
  {}

  lemma SameSum(base: word, a: int, imm: int)
    ensures U(base + imm) == U(a + imm) <==> base == U(a)
  {}

  lemma PredecessorOfOdd(x: int, t: word)
    requires t % 2 == 1
    ensures U(x) == t - 1 <==> t == U(x + 1)
  {}

  /** What the ISA says must hold for the interpreter to execute `i` as specified. */
  predicate Faithful(m: Isa.Machine, i: Isa.Instr)
    requires Isa.Valid(m)
  {
    Isa.InBounds(m, i) && (i.Jalr? ==> JalrAgrees(m, i))
  }

  lemma SimulatesDispatch(h: Hart, f: Fields, i: Isa.Instr)
    requires Valid(h) && h.regs[0] == 0 && Carries(f, i) && Faithful(Guest(h), i)
    ensures Dispatch(h, f).Ran? && Guest(Dispatch(h, f).hart) == Isa.Exec(Guest(h), i)
  {
    if i.R? {
      SimulatesR(h, f, i);
    } else if i.I? || i.Shift? {
      SimulatesImmediate(h, f, i);
    } else if i.Load? || i.Store? {
      SimulatesMemory(h, f, i);
    } else if i.Jalr? {
      SimulatesJalr(h, f, i);
    } else {
      SimulatesControl(h, f, i);
    }
  }

  // ----- from instruction words to instructions

  lemma CodesAgree(op: Isa.ROp)
    ensures Isa.Int(Isa.R3(op) | (Isa.R7(op) << 4)) == RCode(op)
  {}

  // Each format twice: what decoding means for the bits, and what the bits mean for the interpreter.

  lemma BitsOfR(w: bv32, c: Isa.Code)
    requires Isa.Decode(w) == Some(c) && c.CodeR?
    ensures Isa.Opcode(w) == 0x33 && Isa.F3(w) == Isa.R3(c.rop) && Isa.F7(w) == Isa.R7(c.rop)
    ensures c == Isa.CodeR(c.rop, Isa.Rd(w), Isa.Rs1(w), Isa.Rs2(w))
  {
    Isa.RopOfInverse(Isa.F7(w), Isa.F3(w));
  }

  lemma CarriesR(w: bv32, op: Isa.ROp)
    requires Isa.Opcode(w) == 0x33 && Isa.F3(w) == Isa.R3(op) && Isa.F7(w) == Isa.R7(op)
    ensures Carries(FieldsOf(w), Isa.Meaning(Isa.CodeR(op, Isa.Rd(w), Isa.Rs1(w), Isa.Rs2(w))))
  {
    FieldsAgree(w);
    FunctionBitsAgree(w);
    CodesAgree(op);
  }

  lemma BitsOfI(w: bv32, c: Isa.Code)
    requires Isa.Decode(w) == Some(c) && c.CodeI?
    ensures Isa.Opcode(w) == 0x13 && Isa.F3(w) == Isa.I3(c.iop)
    ensures c == Isa.CodeI(c.iop, Isa.Rd(w), Isa.Rs1(w), Isa.ImmI(w))
  {}

  lemma CarriesI(w: bv32, op: Isa.IOp)
    requires Isa.Opcode(w) == 0x13 && Isa.F3(w) == Isa.I3(op)
    ensures Carries(FieldsOf(w), Isa.Meaning(Isa.CodeI(op, Isa.Rd(w), Isa.Rs1(w), Isa.ImmI(w))))
  {
    FieldsAgree(w);
    FunctionBitsAgree(w);
    ImmIAgrees(w);
    NotAShift(w);
  }

  /** Function codes are equal as integers only if they are equal as bits. */
  lemma IntIsInjective(x: bv32, y: bv32)
    ensures Isa.Int(x) == Isa.Int(y) ==> x == y
  {
    assert (Isa.Int(x) as bv32) == x && (Isa.Int(y) as bv32) == y;
  }

  lemma NotAShift(w: bv32)
    requires Isa.F3(w) != 1 && Isa.F3(w) != 5
    ensures Isa.Int(RFunc(w)) !in {SLL, SRL, SRA}
  {
    ShiftFields(w);
    IntIsInjective(RFunc(w), 0x001);
    IntIsInjective(RFunc(w), 0x005);
    IntIsInjective(RFunc(w), 0x205);
  }

  lemma ShiftFields(w: bv32)
    ensures RFunc(w) == 0x001 <==> Isa.F3(w) == 1 && Isa.F7(w) == 0
    ensures RFunc(w) == 0x005 <==> Isa.F3(w) == 5 && Isa.F7(w) == 0
    ensures RFunc(w) == 0x205 <==> Isa.F3(w) == 5 && Isa.F7(w) == 0x20
  {}

  lemma BitsOfShift(w: bv32, c: Isa.Code)
    requires Isa.Decode(w) == Some(c) && c.CodeShift?
    ensures Isa.Opcode(w) == 0x13 && Isa.F3(w) == Isa.Shift3(c.sop) && Isa.F7(w) == Isa.Shift7(c.sop)
    ensures c == Isa.CodeShift(c.sop, Isa.Rd(w), Isa.Rs1(w), Isa.Rs2(w))
  {}

  lemma CarriesShift(w: bv32, op: Isa.ShiftOp)
    requires Isa.Opcode(w) == 0x13 && Isa.F3(w) == Isa.Shift3(op) && Isa.F7(w) == Isa.Shift7(op)
    ensures Carries(FieldsOf(w), Isa.Meaning(Isa.CodeShift(op, Isa.Rd(w), Isa.Rs1(w), Isa.Rs2(w))))
  {
    FieldsAgree(w);
    FunctionBitsAgree(w);
    ShiftFields(w);
  }

  lemma BitsOfLoad(w: bv32, c: Isa.Code)
    requires Isa.Decode(w) == Some(c) && c.CodeLoad?
    ensures Isa.Opcode(w) == 0x03 && Isa.F3(w) == Isa.Load3(c.lop)
    ensures c == Isa.CodeLoad(c.lop, Isa.Rd(w), Isa.Rs1(w), Isa.ImmI(w))
  {}

  lemma CarriesLoad(w: bv32, op: Isa.LoadOp)
    requires Isa.Opcode(w) == 0x03 && Isa.F3(w) == Isa.Load3(op)
    ensures Carries(FieldsOf(w), Isa.Meaning(Isa.CodeLoad(op, Isa.Rd(w), Isa.Rs1(w), Isa.ImmI(w))))
  {
    FieldsAgree(w);
    ImmIAgrees(w);
  }

  lemma BitsOfStore(w: bv32, c: Isa.Code)
    requires Isa.Decode(w) == Some(c) && c.CodeStore?
    ensures Isa.Opcode(w) == 0x23 && Isa.F3(w) == Isa.Store3(c.wop)
    ensures c == Isa.CodeStore(c.wop, Isa.Rs1(w), Isa.Rs2(w), Isa.ImmS(w))
  {}

  lemma CarriesStore(w: bv32, op: Isa.StoreOp)
    requires Isa.Opcode(w) == 0x23 && Isa.F3(w) == Isa.Store3(op)
    ensures Carries(FieldsOf(w), Isa.Meaning(Isa.CodeStore(op, Isa.Rs1(w), Isa.Rs2(w), Isa.ImmS(w))))
  {
    FieldsAgree(w);
    ImmSAgrees(w);
  }

  lemma BitsOfBranch(w: bv32, c: Isa.Code)
    requires Isa.Decode(w) == Some(c) && c.CodeBranch?
    ensures Isa.Opcode(w) == 0x63 && Isa.F3(w) == Isa.Branch3(c.bop)
    ensures c == Isa.CodeBranch(c.bop, Isa.Rs1(w), Isa.Rs2(w), Isa.ImmB(w))
  {}

  lemma BranchFunction(w: bv32, op: Isa.BranchOp)
    requires Isa.F3(w) == Isa.Branch3(op)
    ensures FieldsOf(w).func == BranchCode(op)
  {
    FieldsAgree(w);
  }

  lemma BranchOperands(w: bv32)
    ensures FieldsOf(w).rs1 == Isa.Reg(Isa.Rs1(w)) && FieldsOf(w).rs2 == Isa.Reg(Isa.Rs2(w))
    ensures FieldsOf(w).bImm == Isa.Int(Isa.Sext12(Isa.ImmB(w)) << 1)
  {
    FieldsAgree(w);
    ImmBAgrees(w);
  }

  lemma BranchOpcode(w: bv32)
    requires Isa.Opcode(w) == 0x63
    ensures FieldsOf(w).opcode == 0x63
  {
    OpcodeIs(w, 0x63);
  }

  /** The parts of a branch make the branch. */
  lemma BranchParts(f: Fields, op: Isa.BranchOp, rs1: bv5, rs2: bv5, imm: Isa.imm12)
    requires f.opcode == 0x63 && f.func == BranchCode(op) && f.rs1 == Isa.Reg(rs1) && f.rs2 == Isa.Reg(rs2)
    requires f.bImm == Isa.Int(Isa.Sext12(imm) << 1)
    ensures Carries(f, Isa.Meaning(Isa.CodeBranch(op, rs1, rs2, imm)))
  {}

  lemma CarriesBranch(w: bv32, op: Isa.BranchOp)
    requires Isa.Opcode(w) == 0x63 && Isa.F3(w) == Isa.Branch3(op)
    ensures Carries(FieldsOf(w), Isa.Meaning(Isa.CodeBranch(op, Isa.Rs1(w), Isa.Rs2(w), Isa.ImmB(w))))
  {
    BranchOpcode(w);
    BranchFunction(w, op);
    BranchOperands(w);
    BranchParts(FieldsOf(w), op, Isa.Rs1(w), Isa.Rs2(w), Isa.ImmB(w));
  }

  lemma CarriesJalr(w: bv32)
    requires Isa.Opcode(w) == 0x67
    ensures Carries(FieldsOf(w), Isa.Meaning(Isa.CodeJalr(Isa.Rd(w), Isa.Rs1(w), Isa.ImmI(w))))
  {
    FieldsAgree(w);
    ImmIAgrees(w);
  }

  lemma CarriesJal(w: bv32)
    requires Isa.Opcode(w) == 0x6F
    ensures Carries(FieldsOf(w), Isa.Meaning(Isa.CodeJal(Isa.Rd(w), Isa.ImmJ(w))))
  {
    FieldsAgree(w);
    ImmJAgrees(w);
  }

  lemma UpperOperands(w: bv32)
    ensures FieldsOf(w).rd == Isa.Reg(Isa.Rd(w)) && FieldsOf(w).uImm == Isa.Int(Isa.ImmU(w) << 12)
  {
    FieldsAgree(w);
    ImmUAgrees(w);
  }

  /** The parts of an upper-immediate instruction make the instruction. */
  lemma LuiParts(f: Fields, rd: bv5, upper: Isa.imm20)
    requires f.opcode == 0x37 && f.rd == Isa.Reg(rd) && f.uImm == Isa.Int(upper << 12)
    ensures Carries(f, Isa.Meaning(Isa.CodeLui(rd, upper)))
  {}

  lemma AuipcParts(f: Fields, rd: bv5, upper: Isa.imm20)
    requires f.opcode == 0x17 && f.rd == Isa.Reg(rd) && f.uImm == Isa.Int(upper << 12)
    ensures Carries(f, Isa.Meaning(Isa.CodeAuipc(rd, upper)))
  {}

  lemma CarriesLui(w: bv32)
    requires Isa.Opcode(w) == 0x37
    ensures Carries(FieldsOf(w), Isa.Meaning(Isa.CodeLui(Isa.Rd(w), Isa.ImmU(w))))
  {
    OpcodeIs(w, 0x37);
    UpperOperands(w);
    LuiParts(FieldsOf(w), Isa.Rd(w), Isa.ImmU(w));
  }

  lemma CarriesAuipc(w: bv32)
    requires Isa.Opcode(w) == 0x17
    ensures Carries(FieldsOf(w), Isa.Meaning(Isa.CodeAuipc(Isa.Rd(w), Isa.ImmU(w))))
  {
    OpcodeIs(w, 0x17);
    UpperOperands(w);
    AuipcParts(FieldsOf(w), Isa.Rd(w), Isa.ImmU(w));
  }

  /** For every word that is an instruction, the interpreter's decoders extract that instruction. */
  lemma DecodersCarry(w: bv32, c: Isa.Code)
    requires Isa.Decode(w) == Some(c)
    ensures Carries(FieldsOf(w), Isa.Meaning(c))
  {
    match c
    case CodeR(op, _, _, _) => BitsOfR(w, c); CarriesR(w, op);
    case CodeI(op, _, _, _) => BitsOfI(w, c); CarriesI(w, op);
    case CodeShift(op, _, _, _) => BitsOfShift(w, c); CarriesShift(w, op);
    case CodeLoad(op, _, _, _) => BitsOfLoad(w, c); CarriesLoad(w, op);
    case CodeStore(op, _, _, _) => BitsOfStore(w, c); CarriesStore(w, op);
    case CodeBranch(op, _, _, _) => BitsOfBranch(w, c); CarriesBranch(w, op);
    case CodeJalr(_, _, _) => CarriesJalr(w);
    case CodeJal(_, _) => CarriesJal(w);
    case CodeLui(_, _) => CarriesLui(w);
    case CodeAuipc(_, _) => CarriesAuipc(w);
  }

  lemma InstructionsAreNotCompressed(w: bv32)
    requires Isa.Decode(w).Some?
    ensures !IsCompressed(w)
  {}

  // ----- fields of no instruction

  /** The operation a known function code stands for. */
  function OpOfCode(func: word): (op: Isa.ROp)
    requires KnownCode(func)
    ensures RCode(op) == func
  {
    if func == ADD then Isa.ADD else if func == SUB then Isa.SUB else if func == SLL then Isa.SLL
    else if func == SLT then Isa.SLT else if func == SLTU then Isa.SLTU else if func == XOR then Isa.XOR
    else if func == SRL then Isa.SRL else if func == SRA then Isa.SRA else if func == OR then Isa.OR
    else if func == AND then Isa.AND else if func == MUL then Isa.MUL else if func == MULH then Isa.MULH
    else if func == MULHSU then Isa.MULHSU else if func == MULHU then Isa.MULHU else if func == DIV then Isa.DIV
    else if func == DIVU then Isa.DIVU else if func == REM then Isa.REM else Isa.REMU
  }

  predicate KnownCode(func: word) {
    || func in {ADD, SUB, XOR, OR, AND, SLL, SRL, SRA, SLT, SLTU}
    || func in {MUL, MULH, MULHSU, MULHU, DIV, DIVU, REM, REMU}
  }

  lemma UnknownR(w: bv32)
    requires Isa.RopOf(Isa.F7(w), Isa.F3(w)).None?
    ensures !KnownCode(Isa.Int(RFunc(w)))
  {
    var func := Isa.Int(RFunc(w));
    if KnownCode(func) { NotThisCode(w, OpOfCode(func)); }
  }

  lemma NotThisCode(w: bv32, op: Isa.ROp)
    requires Isa.RopOf(Isa.F7(w), Isa.F3(w)).None?
    ensures Isa.Int(RFunc(w)) != RCode(op)
  {
    CodesAgree(op);
    var k := Isa.R3(op) | (Isa.R7(op) << 4);
    IntIsInjective(RFunc(w), k);
    FieldsAgree(w);
    FunctionBitsAgree(w);
    CodeIsInjective(Isa.F7(w), Isa.F3(w), Isa.R7(op), Isa.R3(op));
  }

  /** The combined function code identifies both fields. */
  lemma CodeIsInjective(f7: bv32, f3: bv32, g7: bv32, g3: bv32)
    requires f3 < 8 && f7 < 128 && g3 < 8 && g7 < 128
    ensures f3 | (f7 << 4) == g3 | (g7 << 4) ==> f7 == g7 && f3 == g3
  {}

  lemma UnknownValue(func: word, a: word, b: word)
    requires !KnownCode(func)
    ensures RValue(func, a, b).None?
  {}

  /** The fields of a word whose opcode and function bits are those of no instruction. */
  predicate Unknown(f: Fields) {
    if f.opcode == 0x33 then !KnownCode(f.rfunc)
    else if f.opcode == 0x13 then f.func in {1, 5} && f.rfunc !in {SLL, SRL, SRA}
    else if f.opcode == 0x03 then f.func in {3, 6, 7}
    else if f.opcode == 0x23 then f.func !in {0, 1, 2}
    else if f.opcode == 0x63 then f.func in {2, 3}
    else f.opcode !in {0x6F, 0x67, 0x37, 0x17, 0x2F, 0x73}
  }

  lemma UnknownFieldsExit(h: Hart, f: Fields)
    requires Valid(h) && Unknown(f)
    ensures Dispatch(h, f) == Exit
  {
    if f.opcode == 0x33 { UnknownValue(f.rfunc, h.regs[f.rs1], h.regs[f.rs2]); }
  }

  /** Small bit fields as integers. */
  lemma FuncCases(x: bv32)
    requires x < 8
    ensures Isa.Int(x) == if x == 0 then 0 else if x == 1 then 1 else if x == 2 then 2 else if x == 3 then 3
                          else if x == 4 then 4 else if x == 5 then 5 else if x == 6 then 6 else 7
  {}

  lemma OpcodeIs(w: bv32, k: bv32)
    ensures Isa.Int(OpcodeType(w)) == Isa.Int(k) <==> Isa.Opcode(w) == k
  {
    IntIsInjective(OpcodeType(w), k);
  }

  lemma UnknownOpcode(w: bv32)
    requires Isa.Opcode(w) != 0x33 && Isa.Opcode(w) != 0x13 && Isa.Opcode(w) != 0x03 && Isa.Opcode(w) != 0x23
    requires Isa.Opcode(w) != 0x63 && Isa.Opcode(w) != 0x6F && Isa.Opcode(w) != 0x67 && Isa.Opcode(w) != 0x37
    requires Isa.Opcode(w) != 0x17 && Isa.Opcode(w) != 0x2F && Isa.Opcode(w) != 0x73
    ensures FieldsOf(w).opcode !in {0x33, 0x13, 0x03, 0x23, 0x63, 0x6F, 0x67, 0x37, 0x17, 0x2F, 0x73}
  {
    OpcodeIs(w, 0x33); OpcodeIs(w, 0x13); OpcodeIs(w, 0x03); OpcodeIs(w, 0x23);
    OpcodeIs(w, 0x63); OpcodeIs(w, 0x6F); OpcodeIs(w, 0x67); OpcodeIs(w, 0x37);
    OpcodeIs(w, 0x17); OpcodeIs(w, 0x2F); OpcodeIs(w, 0x73);
  }

  lemma UnknownShift(w: bv32)
    requires (Isa.F3(w) == 1 || Isa.F3(w) == 5) && Isa.ShiftOf(Isa.F7(w), Isa.F3(w)).None?
    ensures Isa.Int(FuncOf(w)) in {1, 5} && Isa.Int(RFunc(w)) !in {SLL, SRL, SRA}
  {
    FieldsAgree(w);
    FunctionBitsAgree(w);
    ShiftFields(w);
    IntIsInjective(RFunc(w), 0x001);
    IntIsInjective(RFunc(w), 0x005);
    IntIsInjective(RFunc(w), 0x205);
  }

  lemma UnknownFunc(w: bv32)
    ensures Isa.LoadOf(Isa.F3(w)).None? ==> Isa.Int(FuncOf(w)) in {3, 6, 7}
    ensures Isa.StoreOf(Isa.F3(w)).None? ==> Isa.Int(FuncOf(w)) !in {0, 1, 2}
    ensures Isa.BranchOf(Isa.F3(w)).None? ==> Isa.Int(FuncOf(w)) in {2, 3}
    ensures Isa.IopOf(Isa.F3(w)).None? ==> Isa.F3(w) == 1 || Isa.F3(w) == 5
  {
    FieldsAgree(w);
    FunctionBitsAgree(w);
    FuncCases(Isa.F3(w));
  }

  lemma NoInstructionNoFields(w: bv32)
    requires Isa.Decode(w).None? && Isa.Opcode(w) != 0x67 && Isa.Opcode(w) != 0x2F && Isa.Opcode(w) != 0x73
    ensures Unknown(FieldsOf(w))
  {
    OpcodeIs(w, Isa.Opcode(w));
    UnknownFunc(w);
    if Isa.Opcode(w) == 0x33 {
      UnknownR(w);
    } else if Isa.Opcode(w) == 0x13 {
      UnknownShift(w);
    } else if Isa.Opcode(w) != 0x03 && Isa.Opcode(w) != 0x23 && Isa.Opcode(w) != 0x63 {
      UnknownOpcode(w);
    }
  }

  // ----- whole iterations

  lemma GuestIgnoresRegisterZero(h: Hart)
    requires Valid(h)
    ensures Guest(Cleared(h)) == Guest(h) && Cleared(h).regs[0] == 0
  {
    assert Guest(Cleared(h)).x == Guest(h).x;
  }

  /** The word at the PC, if the PC is inside memory. */
  function Fetched(h: Hart): bv32
    requires Valid(h) && Fits(h.mem, h.regs[PC], 4)
  {
    Rw(h.mem, h.regs[PC]) as bv32
  }

  /** The fields the interpreter dispatches on, for a word that is an instruction. */
  lemma FetchedFields(h: Hart, c: Isa.Code) returns (f: Fields)
    requires Valid(h) && Fits(h.mem, h.regs[PC], 4) && Isa.Decode(Fetched(h)) == Some(c)
    ensures Carries(f, Isa.Meaning(c)) && Iteration(h) == Dispatch(Cleared(h), f)
  {
    f := FieldsOf(Fetched(h));
    InstructionsAreNotCompressed(Fetched(h));
    DecodersCarry(Fetched(h), c);
    IterationDispatches(h);
  }

  lemma IterationDispatches(h: Hart)
    requires Valid(h) && Fits(h.mem, h.regs[PC], 4) && !IsCompressed(Fetched(h))
    ensures Iteration(h) == Dispatch(Cleared(h), FieldsOf(Fetched(h)))
  {}

  lemma FieldsSimulate(h: Hart, f: Fields, i: Isa.Instr)
    requires Valid(h) && Carries(f, i) && Isa.InBounds(Guest(h), i)
    ensures Dispatch(Cleared(h), f).Ran?
    ensures Guest(Dispatch(Cleared(h), f).hart) == Isa.Exec(Guest(h), i) <==> (i.Jalr? ==> JalrAgrees(Guest(h), i))
  {
    GuestIgnoresRegisterZero(h);
    if i.Jalr? { SimulatesJalr(Cleared(h), f, i); } else { SimulatesDispatch(Cleared(h), f, i); }
  }

  /**
    One iteration of the run loop on any word that is an RV32IM instruction with an in-bounds access does
    exactly what the ISA specifies; for JALR it does so if and only if JalrAgrees.
  */
  lemma IterationSimulates(h: Hart, c: Isa.Code)
    requires Valid(h) && Fits(h.mem, h.regs[PC], 4) && Isa.Decode(Fetched(h)) == Some(c)
    requires Isa.InBounds(Guest(h), Isa.Meaning(c))
    ensures Iteration(h).Ran?
    ensures Guest(Iteration(h).hart) == Isa.Exec(Guest(h), Isa.Meaning(c)) <==>
              (Isa.Meaning(c).Jalr? ==> JalrAgrees(Guest(h), Isa.Meaning(c)))
  {
    var f := FetchedFields(h, c);
    FieldsSimulate(h, f, Isa.Meaning(c));
  }

  /** For every RV32IM instruction: the same on its encoding. */
  lemma EncodingSimulates(h: Hart, c: Isa.Code)
    requires Valid(h) && Fits(h.mem, h.regs[PC], 4) && Fetched(h) == Isa.Encode(c)
    requires Isa.InBounds(Guest(h), Isa.Meaning(c))
    ensures Iteration(h).Ran?
    ensures Guest(Iteration(h).hart) == Isa.Exec(Guest(h), Isa.Meaning(c)) <==>
              (Isa.Meaning(c).Jalr? ==> JalrAgrees(Guest(h), Isa.Meaning(c)))
  {
    Isa.DecodeEncode(c);
    IterationSimulates(h, c);
  }

  /** A word is an instruction exactly if it is the encoding of one. */
  lemma InstructionsAreEncodings(w: bv32)
    ensures Isa.Decode(w).Some? <==> exists c :: Isa.Encode(c) == w
  {
    if Isa.Decode(w).Some? {
      Isa.EncodeDecode(w);
    } else if c :| Isa.Encode(c) == w {
      Isa.DecodeEncode(c);
    }
  }

  lemma FetchedIs(h: Hart, w: word, x: bv32)
    requires Valid(h) && Fits(h.mem, h.regs[PC], 4) && Rw(h.mem, h.regs[PC]) == w && x as int == w
    ensures Fetched(h) == x
  {
    assert (x as int) as bv32 == x;
  }

  lemma JalrDeviates(h: Hart, w: word, x: bv32, c: Isa.Code, i: Isa.Instr)
    requires Valid(h) && Fits(h.mem, h.regs[PC], 4) && Rw(h.mem, h.regs[PC]) == w && x as int == w
    requires Isa.Decode(x) == Some(c) && i == Isa.Meaning(c) && i.Jalr? && !JalrAgrees(Guest(h), i)
    ensures Isa.Decode(Fetched(h)) == Some(c) && Iteration(h).Ran?
    ensures Guest(Iteration(h).hart) != Isa.Exec(Guest(h), i)
  {
    FetchedIs(h, w, x);
    IterationSimulates(h, c);
  }

  /** A JALR whose link register is its base does not go where the ISA says: jalr x1, 0(x1) at 0 with 0x100 in x1. */
  lemma JalrThroughItsLinkDeviates(h: Hart)
    requires Valid(h) && h.regs[PC] == 0 && h.regs[1] == 0x100 && h.mem == [0xE7, 0x80, 0, 0]
    ensures Isa.Decode(Fetched(h)) == Some(Isa.CodeJalr(1, 1, 0)) && Iteration(h).Ran?
    ensures Guest(Iteration(h).hart) != Isa.Exec(Guest(h), Isa.Meaning(Isa.CodeJalr(1, 1, 0)))
  {
    JalrOfLink(0x0000_80E7);
    JalrDeviates(h, 0x80E7, 0x0000_80E7, Isa.CodeJalr(1, 1, 0), Isa.Jalr(1, 1, 0));
  }

  lemma JalrOfLink(x: bv32)
    requires x == 0x0000_80E7
    ensures Isa.Decode(x) == Some(Isa.CodeJalr(1, 1, 0)) && Isa.Meaning(Isa.CodeJalr(1, 1, 0)) == Isa.Jalr(1, 1, 0)
  {}

  /** A JALR to an odd target does not clear its low bit: jalr x1, 0(x2) at 0 with 0x101 in x2. */
  lemma JalrToAnOddTargetDeviates(h: Hart)
    requires Valid(h) && h.regs[PC] == 0 && h.regs[2] == 0x101 && h.mem == [0xE7, 0, 1, 0]
    ensures Isa.Decode(Fetched(h)) == Some(Isa.CodeJalr(1, 2, 0)) && Iteration(h).Ran?
    ensures Guest(Iteration(h).hart) != Isa.Exec(Guest(h), Isa.Meaning(Isa.CodeJalr(1, 2, 0)))
  {
    JalrOfOther(0x0001_00E7);
    JalrDeviates(h, 0x1_00E7, 0x0001_00E7, Isa.CodeJalr(1, 2, 0), Isa.Jalr(1, 2, 0));
  }

  lemma JalrOfOther(x: bv32)
    requires x == 0x0001_00E7
    ensures Isa.Decode(x) == Some(Isa.CodeJalr(1, 2, 0)) && Isa.Meaning(Isa.CodeJalr(1, 2, 0)) == Isa.Jalr(1, 2, 0)
  {}

  // ----- words that are no instruction

  /** The fields with which the interpreter executes words that are no RV32IM instruction. */
  predicate Tolerated(f: Fields) {
    || f.opcode == 0x67
    || (f.opcode == 0x2F && IsAtomicCode(f.afunc))
    || (f.opcode == 0x73 && f.iImm in {0, 1})
  }

  lemma DispatchExits(h: Hart, f: Fields)
    requires Valid(h) && (Unknown(f) || f.opcode in {0x67, 0x2F, 0x73})
    ensures Dispatch(h, f) == Exit <==> !Tolerated(f)
  {
    if Unknown(f) { UnknownFieldsExit(h, f); }
  }

  lemma OpcodeField(w: bv32)
    ensures FieldsOf(w).opcode == 0x67 <==> Isa.Opcode(w) == 0x67
    ensures FieldsOf(w).opcode == 0x2F <==> Isa.Opcode(w) == 0x2F
    ensures FieldsOf(w).opcode == 0x73 <==> Isa.Opcode(w) == 0x73
  {
    OpcodeIs(w, 0x67); OpcodeIs(w, 0x2F); OpcodeIs(w, 0x73);
  }

  lemma NoInstructionFields(w: bv32)
    requires Isa.Decode(w).None?
    ensures Unknown(FieldsOf(w)) || FieldsOf(w).opcode in {0x67, 0x2F, 0x73}
  {
    OpcodeField(w);
    if Isa.Opcode(w) != 0x67 && Isa.Opcode(w) != 0x2F && Isa.Opcode(w) != 0x73 { NoInstructionNoFields(w); }
  }

  lemma CompressedIsUnknown(w: bv32)
    requires IsCompressed(w)
    ensures FieldsOf(w).opcode !in {0x67, 0x2F, 0x73}
  {
    OpcodeField(w);
    CompressedOpcode(w);
  }

  lemma CompressedOpcode(w: bv32)
    requires IsCompressed(w)
    ensures Isa.Opcode(w) != 0x67 && Isa.Opcode(w) != 0x2F && Isa.Opcode(w) != 0x73
  {}

  /**
    A word that is no RV32IM instruction ends the process if and only if it has not the JALR opcode, is none of
    the eleven atomics and no SYSTEM word with immediate 0 or 1: those are executed.
  */
  lemma NoInstructionExits(h: Hart)
    requires Valid(h) && Fits(h.mem, h.regs[PC], 4) && Isa.Decode(Fetched(h)).None?
    ensures Iteration(h) == Exit <==> !Tolerated(FieldsOf(Fetched(h)))
  {
    if IsCompressed(Fetched(h)) {
      CompressedIsUnknown(Fetched(h));
    } else {
      NoInstructionFields(Fetched(h));
      DispatchExits(Cleared(h), FieldsOf(Fetched(h)));
      IterationDispatches(h);
    }
  }

  /** Under the JALR opcode every function code is executed as JALR. */
  lemma AnyFunctionIsJalr(h: Hart)
    requires Valid(h) && Fits(h.mem, h.regs[PC], 4) && Isa.Opcode(Fetched(h)) == 0x67
    ensures Iteration(h) == RunJalr(Cleared(h), FieldsOf(Fetched(h)))
  {
    OpcodeField(Fetched(h));
    if IsCompressed(Fetched(h)) { CompressedOpcode(Fetched(h)); }
    IterationDispatches(h);
  }

  /** Such words exist: this one has function code 1. */
  lemma JalrOpcodeIsNotDecoded()
    ensures Isa.Opcode(0x0000_1067) == 0x67 && Isa.Decode(0x0000_1067) == None
  {}

  // ----- whole runs

  /** The run loop's step, as long as it runs instructions. */
  function CodeStep(h: Hart): Option<Hart> {
    if Valid(h) && Iteration(h).Ran? then Some(Iteration(h).hart) else None
  }

  /** The ISA's step, for an instruction in memory to which the interpreter is faithful. */
  function IsaStep(m: Isa.Machine): Option<Isa.Machine> {
    if !Isa.Valid(m) || !Fits(m.mem, m.pc, 4) then None
    else match Isa.Decode(Rw(m.mem, m.pc) as bv32)
      case None => None
      case Some(c) => if Faithful(m, Isa.Meaning(c)) then Some(Isa.Exec(m, Isa.Meaning(c))) else None
  }

  function View(h: Hart): Isa.Machine { if Valid(h) then Guest(h) else Isa.Machine([], 0, h.mem) }

  lemma InstructionSimulates(h: Hart, c: Isa.Code, m: Isa.Machine)
    requires Valid(h) && Fits(h.mem, h.regs[PC], 4) && Isa.Decode(Fetched(h)) == Some(c)
    requires Faithful(Guest(h), Isa.Meaning(c)) && m == Isa.Exec(Guest(h), Isa.Meaning(c))
    ensures CodeStep(h).Some? && Valid(CodeStep(h).value) && Guest(CodeStep(h).value) == m
  {
    IterationSimulates(h, c);
  }

  lemma StepSimulates(h: Hart)
    requires IsaStep(View(h)).Some?
    ensures CodeStep(h).Some? && View(CodeStep(h).value) == IsaStep(View(h)).value
  {
    InstructionSimulates(h, Isa.Decode(Fetched(h)).value, IsaStep(View(h)).value);
  }

  /** Whole runs: wherever the ISA's run goes for `n` instructions, the interpreter's goes with it. */
  lemma RunSimulates(h: Hart, n: nat)
    requires Valid(h) && Iterate(IsaStep, Guest(h), n).Some?
    ensures Iterate(CodeStep, h, n).Some?
    ensures Valid(Iterate(CodeStep, h, n).value)
    ensures Guest(Iterate(CodeStep, h, n).value) == Iterate(IsaStep, Guest(h), n).value
  {
    forall k: Hart | IsaStep(View(k)).Some?
      ensures CodeStep(k).Some? && View(CodeStep(k).value) == IsaStep(View(k)).value
    {
      StepSimulates(k);
    }
    SimulationLifts(CodeStep, IsaStep, View, h, n);
    RunStaysValid(h, n);
  }

  lemma {:induction false} RunStaysValid(h: Hart, n: nat)
    requires Valid(h) && Iterate(CodeStep, h, n).Some?
    ensures Valid(Iterate(CodeStep, h, n).value)
    decreases n
  {
    if n > 0 { RunStaysValid(CodeStep(h).value, n - 1); }
  }
}
