/**
  The interpreter: decoders written with the masks and shifts of the program, and one iteration of the
  run loop as a function of the register file and memory. Register 32 of the file is the PC and
  register 0 is scratch that the loop clears before every instruction.
*/
module Cpu {
  import opened Partial
  import opened Memory
  import opened Words
  import MulDiv
  import Isa

  const REG_NUMS := 44
  const PC := 32

  // ----- decoders

  /** C's right shift of a signed 32-bit value, by the constant distances of the decoders. */
  function Ashr11(x: bv32): bv32 { if x & 0x80000000 != 0 then (x >> 11) | 0xFFE00000 else x >> 11 }
  function Ashr19(x: bv32): bv32 { if x & 0x80000000 != 0 then (x >> 19) | 0xFFFFE000 else x >> 19 }
  function Ashr20(x: bv32): bv32 { if x & 0x80000000 != 0 then (x >> 20) | 0xFFFFF000 else x >> 20 }

  predicate IsCompressed(x: bv32) { x & 0x3 != 0x3 }
  function OpcodeType(x: bv32): bv32 { x & 0x7F }
  function RdOf(x: bv32): bv5 { ((x & (0x1F << 7)) >> 7) as bv5 }
  function Rs1Of(x: bv32): bv5 { ((x & (0x1F << 15)) >> 15) as bv5 }
  function Rs2Of(x: bv32): bv5 { ((x & (0x1F << 20)) >> 20) as bv5 }
  function FuncOf(x: bv32): bv32 { (x & (0x7 << 12)) >> 12 }
  function RFunc(x: bv32): bv32 { ((x & (0x7 << 12)) >> 12) | ((x & (0x7F << 25)) >> 21) }
  function AFunc(x: bv32): bv32 { ((x & (0x7 << 12)) >> 12) | ((x & (0x1F << 27)) >> 23) }
  function IImm(x: bv32): bv32 { Ashr20(x & (0xFFF << 20)) }
  function SImm(x: bv32): bv32 { (RdOf(x) as bv32) | Ashr20(x & (0x7F << 25)) }
  function UImm(x: bv32): bv32 { x & (0xFFFFF << 12) }
  function BImm(x: bv32): bv32 {
    (((0xF << 8) & x) >> 7) | (((0x3F << 25) & x) >> 20) | (((0x1 << 7) & x) << 4) | Ashr19((1 << 31) & x)
  }
  function JImm(x: bv32): bv32 {
    (((x >> 21) & 0x3FF) << 1) | (((x >> 20) & 0x1) << 11) | (((x >> 12) & 0xFF) << 12) | (Ashr11(x) & 0xFFF00000)
  }

  /** Everything the interpreter extracts from an instruction word. */
  datatype Fields = Fields(
    opcode: word, func: word, rfunc: word, afunc: word, rd: Isa.reg, rs1: Isa.reg, rs2: Isa.reg,
    iImm: word, sImm: word, bImm: word, uImm: word, jImm: word)

  function FieldsOf(x: bv32): Fields {
    Fields(Isa.Int(OpcodeType(x)), Isa.Int(FuncOf(x)), Isa.Int(RFunc(x)), Isa.Int(AFunc(x)),
           Isa.Reg(RdOf(x)), Isa.Reg(Rs1Of(x)), Isa.Reg(Rs2Of(x)),
           Isa.Int(IImm(x)), Isa.Int(SImm(x)), Isa.Int(BImm(x)), Isa.Int(UImm(x)), Isa.Int(JImm(x)))
  }

  // function codes, func7:func3
  const ADD := 0x000
  const SUB := 0x200
  const XOR := 0x004
  const OR := 0x006
  const AND := 0x007
  const SLL := 0x001
  const SRL := 0x005
  const SRA := 0x205
  const SLT := 0x002
  const SLTU := 0x003
  const MUL := 0x010
  const MULH := 0x011
  const MULHSU := 0x012
  const MULHU := 0x013
  const DIV := 0x014
  const DIVU := 0x015
  const REM := 0x016
  const REMU := 0x017

  /** LR, SC, swap, add, and, or, xor, max, min, maxu, minu: func5:func3 as the interpreter tells them apart. */
  predicate IsAtomicCode(func: word) {
    func in {0x022, 0x032, 0x012, 0x002, 0x0C2, 0x0A2, 0x042, 0x142, 0x102, 0x1C2, 0x182}
  }

  const EBREAK: word := 0x0010_0073

  // ----- one iteration of the run loop

  datatype Hart = Hart(regs: seq<word>, mem: Bytes)

  predicate Valid(h: Hart) { |h.regs| == REG_NUMS }

  /** Execution changes contents, not sizes. */
  predicate SameShape(h: Hart, k: Hart) { |k.regs| == |h.regs| && |k.mem| == |h.mem| }

  datatype Outcome =
    | Ran(hart: Hart)          // the instruction was executed
    | Breakpoint(hart: Hart)   // EBREAK: all cores are told to halt, the PC stays
    | SystemCall               // ECALL, handled by the host
    | Atomic                   // an A-extension instruction
    | Exit                     // an instruction the interpreter does not know ends the process
    | Wild                     // an access outside guest memory, which the interpreter does not check

  /** The value an R-type instruction writes; the guards of the divisions are in MulDiv. */
  function RValue(func: word, rs1: word, rs2: word): Option<word> {
    if func == ADD then Some(U(rs1 + rs2))
    else if func == SUB then Some(U(rs1 - rs2))
    else if func == XOR then Some(Xor(rs1, rs2))
    else if func == OR then Some(Or(rs1, rs2))
    else if func == AND then Some(And(rs1, rs2))
    else if func == SLL then Some(Shl(rs1, rs2 % 32))
    else if func == SRL then Some(Shr(rs1, rs2 % 32))
    else if func == SRA then Some(U(Ashr(S(rs1), rs2 % 32)))
    else if func == SLT then Some(if S(rs1) < S(rs2) then 1 else 0)
    else if func == SLTU then Some(if rs1 < rs2 then 1 else 0)
    else if func == MUL then Some(MulDiv.Mul(rs1, rs2))
    else if func == MULH then Some(MulDiv.Mulh(rs1, rs2))
    else if func == MULHSU then Some(MulDiv.Mulhsu(rs1, rs2))
    else if func == MULHU then Some(MulDiv.Mulhu(rs1, rs2))
    else if func == DIV then Some(MulDiv.Div(rs1, rs2))
    else if func == DIVU then Some(MulDiv.Divu(rs1, rs2))
    else if func == REM then Some(MulDiv.Rem(rs1, rs2))
    else if func == REMU then Some(MulDiv.Remu(rs1, rs2))
    else None
  }

  /** The value a register-immediate instruction writes; the shifts are told apart by all function bits. */
  function IrValue(f: Fields, rs1: word): Option<word> {
    if f.rfunc == SRA then Some(U(Ashr(S(rs1), f.rs2)))
    else if f.rfunc == SRL then Some(Shr(rs1, f.rs2))
    else if f.rfunc == SLL then Some(Shl(rs1, f.rs2))
    else if f.func == ADD then Some(U(rs1 + f.iImm))
    else if f.func == XOR then Some(Xor(rs1, f.iImm))
    else if f.func == OR then Some(Or(rs1, f.iImm))
    else if f.func == AND then Some(And(rs1, f.iImm))
    else if f.func == SLT then Some(if S(rs1) < S(f.iImm) then 1 else 0)
    else if f.func == SLTU then Some(if rs1 < f.iImm then 1 else 0)
    else None
  }

  /** The PC increment of a branch. */
  function BranchInc(f: Fields, rs1: word, rs2: word): Option<word> {
    if f.func == 0 then Some(if rs1 == rs2 then f.bImm else 4)
    else if f.func == 1 then Some(if rs1 != rs2 then f.bImm else 4)
    else if f.func == 4 then Some(if S(rs1) < S(rs2) then f.bImm else 4)
    else if f.func == 5 then Some(if S(rs1) >= S(rs2) then f.bImm else 4)
    else if f.func == 6 then Some(if rs1 < rs2 then f.bImm else 4)
    else if f.func == 7 then Some(if rs1 >= rs2 then f.bImm else 4)
    else None
  }

  /** The address of the following instruction. */
  function Next(h: Hart): word
    requires Valid(h)
  {
    var pc: int := h.regs[PC];
    U(pc + 4)
  }

  /** Write `v` to the destination register, then set the PC. */
  function WriteBack(h: Hart, rd: Isa.reg, v: word, pc: word): (k: Hart)
    requires Valid(h)
    ensures SameShape(h, k)
  {
    h.(regs := h.regs[rd := v][PC := pc])
  }

  /** The width of a load, or zero for a function code that is none. */
  function LoadWidth(func: word): nat {
    if func == 0 || func == 4 then 1 else if func == 1 || func == 5 then 2 else if func == 2 then 4 else 0
  }

  function LoadedValue(func: word, mem: Bytes, addr: nat): word
    requires LoadWidth(func) != 0 && Fits(mem, addr, LoadWidth(func))
  {
    if func == 0 then var v := Rb(mem, addr); if v >= 0x80 then Or(v, 0xFFFF_FF00) else v
    else if func == 1 then var v := Rh(mem, addr); if v >= 0x8000 then Or(v, 0xFFFF_0000) else v
    else if func == 2 then Rw(mem, addr)
    else if func == 4 then Rb(mem, addr)
    else Rh(mem, addr)
  }

  function RunLoad(h: Hart, f: Fields): (r: Outcome)
    requires Valid(h)
    ensures r.Ran? || r.Breakpoint? ==> SameShape(h, r.hart)
  {
    var addr := U(h.regs[f.rs1] + f.iImm);
    if LoadWidth(f.func) == 0 then Exit
    else if !Fits(h.mem, addr, LoadWidth(f.func)) then Wild
    else Ran(WriteBack(h, f.rd, LoadedValue(f.func, h.mem, addr), Next(h)))
  }

  function StoreWidth(func: word): nat { if func == 0 then 1 else if func == 1 then 2 else if func == 2 then 4 else 0 }

  function Stored(func: word, mem: Bytes, addr: nat, v: word): (n: Bytes)
    requires StoreWidth(func) != 0 && Fits(mem, addr, StoreWidth(func))
    ensures |n| == |mem|
  {
    if func == 0 then Wb(mem, addr, v) else if func == 1 then Wh(mem, addr, v) else Ww(mem, addr, v)
  }

  function RunStore(h: Hart, f: Fields): (r: Outcome)
    requires Valid(h)
    ensures r.Ran? || r.Breakpoint? ==> SameShape(h, r.hart)
  {
    var addr := U(h.regs[f.rs1] + f.sImm);
    if StoreWidth(f.func) == 0 then Exit
    else if !Fits(h.mem, addr, StoreWidth(f.func)) then Wild
    else Ran(Hart(h.regs[PC := Next(h)], Stored(f.func, h.mem, addr, h.regs[f.rs2])))
  }

  function RunValue(h: Hart, f: Fields, value: Option<word>): (r: Outcome)
    requires Valid(h)
    ensures r.Ran? || r.Breakpoint? ==> SameShape(h, r.hart)
  {
    if value.None? then Exit else Ran(WriteBack(h, f.rd, value.value, Next(h)))
  }

  function RunBranch(h: Hart, f: Fields): (r: Outcome)
    requires Valid(h)
    ensures r.Ran? || r.Breakpoint? ==> SameShape(h, r.hart)
  {
    var inc := BranchInc(f, h.regs[f.rs1], h.regs[f.rs2]);
    if inc.None? then Exit else Ran(h.(regs := h.regs[PC := U(h.regs[PC] + inc.value)]))
  }

  /** JALR links before it reads the base register, and keeps bit 0 of the target. */
  function RunJalr(h: Hart, f: Fields): (r: Outcome)
    requires Valid(h)
    ensures r.Ran? || r.Breakpoint? ==> SameShape(h, r.hart)
  {
    var linked := h.regs[f.rd := Next(h)];
    Ran(h.(regs := linked[PC := U(linked[f.rs1] + f.iImm)]))
  }

  /** SYSTEM of the user build looks at the immediate alone. */
  function RunSystem(h: Hart, f: Fields): (r: Outcome)
    ensures r.Ran? || r.Breakpoint? ==> SameShape(h, r.hart)
  {
    if f.iImm == 0 then SystemCall else if f.iImm == 1 then Breakpoint(h) else Exit
  }

  function Dispatch(h: Hart, f: Fields): (r: Outcome)
    requires Valid(h)
    ensures r.Ran? || r.Breakpoint? ==> SameShape(h, r.hart)
  {
    if f.opcode == 0x33 then RunValue(h, f, RValue(f.rfunc, h.regs[f.rs1], h.regs[f.rs2]))
    else if f.opcode == 0x13 then RunValue(h, f, IrValue(f, h.regs[f.rs1]))
    else if f.opcode == 0x03 then RunLoad(h, f)
    else if f.opcode == 0x23 then RunStore(h, f)
    else if f.opcode == 0x63 then RunBranch(h, f)
    else if f.opcode == 0x6F then Ran(WriteBack(h, f.rd, Next(h), U(h.regs[PC] + f.jImm)))
    else if f.opcode == 0x67 then RunJalr(h, f)
    else if f.opcode == 0x37 then Ran(WriteBack(h, f.rd, f.uImm, Next(h)))
    else if f.opcode == 0x17 then Ran(WriteBack(h, f.rd, U(h.regs[PC] + f.uImm), Next(h)))
    else if f.opcode == 0x2F then (if IsAtomicCode(f.afunc) then Atomic else Exit)
    else if f.opcode == 0x73 then RunSystem(h, f)
    else Exit
  }

  /** Register 0 is cleared at the top of every iteration. */
  function Cleared(h: Hart): (k: Hart)
    requires Valid(h)
    ensures Valid(k) && SameShape(h, k)
  {
    h.(regs := h.regs[0 := 0])
  }

  /** Decode and execute one instruction word. */
  function Execute(h: Hart, ins: bv32): (r: Outcome)
    requires Valid(h)
    ensures r.Ran? || r.Breakpoint? ==> SameShape(h, r.hart)
  {
    if IsCompressed(ins) then Exit else Dispatch(h, FieldsOf(ins))
  }

  /** One iteration: clear register 0, fetch, decode, execute. */
  function Iteration(h: Hart): (r: Outcome)
    requires Valid(h)
    ensures r.Ran? || r.Breakpoint? ==> SameShape(h, r.hart)
  {
    var pc := h.regs[PC];
    if !Fits(h.mem, pc, 4) then Wild else Execute(Cleared(h), Rw(h.mem, pc) as bv32)
  }
}
