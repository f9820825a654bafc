/**
  Which words of the A extension the interpreter takes for atomic instructions, against the encodings of
  chapter 8 of the Unprivileged ISA. What the atomics do is not part of the model.
*/
module Atomics {
  import opened Memory
  import opened Cpu
  import Isa
  import opened Simulation

  datatype AmoOp = LR | SC | AMOSWAP | AMOADD | AMOXOR | AMOAND | AMOOR | AMOMIN | AMOMAX | AMOMINU | AMOMAXU

  /** The function code in the upper five bits. */
  function F5(w: bv32): bv32 { w >> 27 }

  function Code5(op: AmoOp): bv32 {
    match op
    case LR => 0x02
    case SC => 0x03
    case AMOSWAP => 0x01
    case AMOADD => 0x00
    case AMOXOR => 0x04
    case AMOAND => 0x0C
    case AMOOR => 0x08
    case AMOMIN => 0x10
    case AMOMAX => 0x14
    case AMOMINU => 0x18
    case AMOMAXU => 0x1C
  }

  /** A 32-bit atomic of that operation, whatever its registers and ordering bits. */
  predicate IsAmo(w: bv32, op: AmoOp) { Isa.Opcode(w) == 0x2F && Isa.F3(w) == 2 && F5(w) == Code5(op) }

  lemma AFuncJoins(w: bv32)
    ensures AFunc(w) == (F5(w) << 4) | Isa.F3(w)
  {}

  lemma CodeIs(w: bv32, five: bv32, code: bv32)
    requires five < 32 && code == (five << 4) | 2
    ensures AFunc(w) == code <==> Isa.F3(w) == 2 && F5(w) == five
  {
    AFuncJoins(w);
    Joined(F5(w), Isa.F3(w), five);
  }

  lemma Joined(a: bv32, b: bv32, five: bv32)
    requires a < 32 && b < 8 && five < 32
    ensures (a << 4) | b == (five << 4) | 2 <==> a == five && b == 2
  {}

  lemma CodeAsInt(w: bv32, five: bv32, code: bv32)
    requires five < 32 && code == (five << 4) | 2
    ensures FieldsOf(w).afunc == Isa.Int(code) <==> Isa.F3(w) == 2 && F5(w) == five
  {
    CodeIs(w, five, code);
    IntIsInjective(AFunc(w), code);
  }

  /** The function codes the interpreter knows. */
  predicate Known(five: bv32) {
    || five == 0 || five == 1 || five == 2 || five == 3 || five == 4 || five == 10
    || five == 12 || five == 16 || five == 20 || five == 24 || five == 28
  }

  lemma LowerCodes(w: bv32, code: word, three: bv32, five: bv32)
    requires code == FieldsOf(w).afunc && three == Isa.F3(w) && five == F5(w)
    ensures code in {0x002, 0x012, 0x022, 0x032, 0x042} <==>
            three == 2 && (five == 0 || five == 1 || five == 2 || five == 3 || five == 4)
  {
    CodeAsInt(w, 0, 0x002);
    CodeAsInt(w, 1, 0x012);
    CodeAsInt(w, 2, 0x022);
    CodeAsInt(w, 3, 0x032);
    CodeAsInt(w, 4, 0x042);
  }

  lemma MiddleCodes(w: bv32, code: word, three: bv32, five: bv32)
    requires code == FieldsOf(w).afunc && three == Isa.F3(w) && five == F5(w)
    ensures code in {0x0A2, 0x0C2, 0x102} <==> three == 2 && (five == 10 || five == 12 || five == 16)
  {
    CodeAsInt(w, 10, 0x0A2);
    CodeAsInt(w, 12, 0x0C2);
    CodeAsInt(w, 16, 0x102);
  }

  lemma UpperCodes(w: bv32, code: word, three: bv32, five: bv32)
    requires code == FieldsOf(w).afunc && three == Isa.F3(w) && five == F5(w)
    ensures code in {0x142, 0x182, 0x1C2} <==> three == 2 && (five == 20 || five == 24 || five == 28)
  {
    CodeAsInt(w, 20, 0x142);
    CodeAsInt(w, 24, 0x182);
    CodeAsInt(w, 28, 0x1C2);
  }

  lemma KnownCodes(w: bv32)
    ensures IsAtomicCode(FieldsOf(w).afunc) <==> Isa.F3(w) == 2 && Known(F5(w))
  {
    LowerCodes(w, FieldsOf(w).afunc, Isa.F3(w), F5(w));
    MiddleCodes(w, FieldsOf(w).afunc, Isa.F3(w), F5(w));
    UpperCodes(w, FieldsOf(w).afunc, Isa.F3(w), F5(w));
  }

  lemma AtomicOpcode(w: bv32)
    requires Isa.Opcode(w) == 0x2F
    ensures !IsCompressed(w) && FieldsOf(w).opcode == 0x2F
  {
    OpcodeField(w);
  }

  /** Under the opcode of the extension: executed as an atomic with a known code, the end of the process otherwise. */
  lemma AtomicsExactly(h: Hart)
    requires Valid(h) && Fits(h.mem, h.regs[PC], 4) && Isa.Opcode(Fetched(h)) == 0x2F
    ensures Iteration(h) == if Isa.F3(Fetched(h)) == 2 && Known(F5(Fetched(h))) then Atomic else Exit
  {
    AtomicOpcode(Fetched(h));
    KnownCodes(Fetched(h));
    IterationDispatches(h);
  }

  lemma KnownUnlessOr(op: AmoOp)
    ensures Known(Code5(op)) <==> op != AMOOR
  {}

  /**
    Of the extension's instructions all are executed but one: the interpreter's code for AMOOR is that of no
    instruction, so an AMOOR ends the process, and a word with that reserved code is executed in its place.
  */
  lemma AmoIsExecutedUnlessOr(h: Hart, op: AmoOp)
    requires Valid(h) && Fits(h.mem, h.regs[PC], 4) && IsAmo(Fetched(h), op)
    ensures if op == AMOOR then Iteration(h) == Exit else Iteration(h) == Atomic
  {
    AtomicsExactly(h);
    KnownUnlessOr(op);
  }

  /** amoor.w x3, x2, (x1) ends the process. */
  lemma AmoOrExits(h: Hart)
    requires Valid(h) && h.regs[PC] == 0 && h.mem == [0xAF, 0xA1, 0x20, 0x40]
    ensures IsAmo(Fetched(h), AMOOR) && Iteration(h) == Exit
  {
    FetchedIs(h, 0x4020_A1AF, 0x4020_A1AF);
    OrWord(0x4020_A1AF);
    AmoIsExecutedUnlessOr(h, AMOOR);
  }

  lemma OrWord(w: bv32)
    requires w == 0x4020_A1AF
    ensures IsAmo(w, AMOOR)
  {}
}
