/**
  The reference machine: RV32IM as chapters 2 and 7 of the Unprivileged ISA define it, with abstract
  instructions, their encodings in the base formats, and an x0 that is always zero.
*/
module Isa {
  import opened Partial
  import opened Memory
  import opened Words
  import MulDiv

  /** Immediates as the bits an instruction carries. */
  type imm12 = x: bv32 | x & 0xFFFFF000 == 0
  type imm20 = x: bv32 | x & 0xFFF00000 == 0

  datatype ROp =
    | ADD | SUB | SLL | SLT | SLTU | XOR | SRL | SRA | OR | AND
    | MUL | MULH | MULHSU | MULHU | DIV | DIVU | REM | REMU
  datatype IOp = ADDI | SLTI | SLTIU | XORI | ORI | ANDI
  datatype ShiftOp = SLLI | SRLI | SRAI
  datatype LoadOp = LB | LH | LW | LBU | LHU
  datatype StoreOp = SB | SH | SW
  datatype BranchOp = BEQ | BNE | BLT | BGE | BLTU | BGEU

  /** An instruction as its format carries it; branch and jump offsets omit their bit 0, which is zero. */
  datatype Code =
    | CodeR(rop: ROp, rd: bv5, rs1: bv5, rs2: bv5)
    | CodeI(iop: IOp, rd: bv5, rs1: bv5, imm: imm12)
    | CodeShift(sop: ShiftOp, rd: bv5, rs1: bv5, shamt: bv5)
    | CodeLoad(lop: LoadOp, rd: bv5, rs1: bv5, imm: imm12)
    | CodeStore(wop: StoreOp, rs1: bv5, rs2: bv5, imm: imm12)
    | CodeBranch(bop: BranchOp, rs1: bv5, rs2: bv5, imm: imm12)
    | CodeJal(rd: bv5, offset: imm20)
    | CodeJalr(rd: bv5, rs1: bv5, imm: imm12)
    | CodeLui(rd: bv5, upper: imm20)
    | CodeAuipc(rd: bv5, upper: imm20)

  // ----- encodings, section 2.2 to 2.6 and 7.1

  function R7(op: ROp): bv32 {
    match op
    case SUB | SRA => 0x20
    case ADD | SLL | SLT | SLTU | XOR | SRL | OR | AND => 0
    case _ => 1
  }

  function R3(op: ROp): bv32 {
    match op
    case ADD | SUB | MUL => 0
    case SLL | MULH => 1
    case SLT | MULHSU => 2
    case SLTU | MULHU => 3
    case XOR | DIV => 4
    case SRL | SRA | DIVU => 5
    case OR | REM => 6
    case AND | REMU => 7
  }

  function I3(op: IOp): bv32 {
    match op case ADDI => 0 case SLTI => 2 case SLTIU => 3 case XORI => 4 case ORI => 6 case ANDI => 7
  }

  function Shift3(op: ShiftOp): bv32 { if op == SLLI then 1 else 5 }
  function Shift7(op: ShiftOp): bv32 { if op == SRAI then 0x20 else 0 }

  function Load3(op: LoadOp): bv32 {
    match op case LB => 0 case LH => 1 case LW => 2 case LBU => 4 case LHU => 5
  }

  function Store3(op: StoreOp): bv32 { match op case SB => 0 case SH => 1 case SW => 2 }

  function Branch3(op: BranchOp): bv32 {
    match op case BEQ => 0 case BNE => 1 case BLT => 4 case BGE => 5 case BLTU => 6 case BGEU => 7
  }

  function FormatR(f7: bv32, f3: bv32, rd: bv5, rs1: bv5, rs2: bv5, opcode: bv32): bv32 {
    (f7 << 25) | ((rs2 as bv32) << 20) | ((rs1 as bv32) << 15) | (f3 << 12) | ((rd as bv32) << 7) | opcode
  }

  function FormatI(imm: imm12, f3: bv32, rd: bv5, rs1: bv5, opcode: bv32): bv32 {
    (imm << 20) | ((rs1 as bv32) << 15) | (f3 << 12) | ((rd as bv32) << 7) | opcode
  }

  function FormatS(imm: imm12, f3: bv32, rs1: bv5, rs2: bv5): bv32 {
    ((imm >> 5) << 25) | ((rs2 as bv32) << 20) | ((rs1 as bv32) << 15) | (f3 << 12) | ((imm & 0x1F) << 7) | 0x23
  }

  function FormatB(imm: imm12, f3: bv32, rs1: bv5, rs2: bv5): bv32 {
    ((imm >> 11) << 31) | (((imm >> 4) & 0x3F) << 25) | ((rs2 as bv32) << 20) | ((rs1 as bv32) << 15) |
    (f3 << 12) | ((imm & 0xF) << 8) | (((imm >> 10) & 1) << 7) | 0x63
  }

  function FormatU(upper: imm20, rd: bv5, opcode: bv32): bv32 {
    (upper << 12) | ((rd as bv32) << 7) | opcode
  }

  function FormatJ(offset: imm20, rd: bv5): bv32 {
    ((offset >> 19) << 31) | ((offset & 0x3FF) << 21) | (((offset >> 10) & 1) << 20) | (((offset >> 11) & 0xFF) << 12) |
    ((rd as bv32) << 7) | 0x6F
  }

  function Encode(i: Code): bv32 {
    match i
    case CodeR(op, rd, rs1, rs2) => FormatR(R7(op), R3(op), rd, rs1, rs2, 0x33)
    case CodeI(op, rd, rs1, imm) => FormatI(imm, I3(op), rd, rs1, 0x13)
    case CodeShift(op, rd, rs1, shamt) => FormatR(Shift7(op), Shift3(op), rd, rs1, shamt, 0x13)
    case CodeLoad(op, rd, rs1, imm) => FormatI(imm, Load3(op), rd, rs1, 0x03)
    case CodeStore(op, rs1, rs2, imm) => FormatS(imm, Store3(op), rs1, rs2)
    case CodeBranch(op, rs1, rs2, imm) => FormatB(imm, Branch3(op), rs1, rs2)
    case CodeJal(rd, offset) => FormatJ(offset, rd)
    case CodeJalr(rd, rs1, imm) => FormatI(imm, 0, rd, rs1, 0x67)
    case CodeLui(rd, upper) => FormatU(upper, rd, 0x37)
    case CodeAuipc(rd, upper) => FormatU(upper, rd, 0x17)
  }

  // ----- the words assemblers write

  /** `op x3, x1, x2` of the base set. */
  lemma RegisterWords()
    ensures Encode(CodeR(ADD, 3, 1, 2)) == 0x0020_81B3
    ensures Encode(CodeR(SUB, 3, 1, 2)) == 0x4020_81B3
    ensures Encode(CodeR(SLL, 3, 1, 2)) == 0x0020_91B3
    ensures Encode(CodeR(SLT, 3, 1, 2)) == 0x0020_A1B3
    ensures Encode(CodeR(SLTU, 3, 1, 2)) == 0x0020_B1B3
  {}

  lemma LogicWords()
    ensures Encode(CodeR(XOR, 3, 1, 2)) == 0x0020_C1B3
    ensures Encode(CodeR(SRL, 3, 1, 2)) == 0x0020_D1B3
    ensures Encode(CodeR(SRA, 3, 1, 2)) == 0x4020_D1B3
    ensures Encode(CodeR(OR, 3, 1, 2)) == 0x0020_E1B3
    ensures Encode(CodeR(AND, 3, 1, 2)) == 0x0020_F1B3
  {}

  /** And of the M extension. */
  lemma MultiplicationWords()
    ensures Encode(CodeR(MUL, 3, 1, 2)) == 0x0220_81B3
    ensures Encode(CodeR(MULH, 3, 1, 2)) == 0x0220_91B3
    ensures Encode(CodeR(MULHSU, 3, 1, 2)) == 0x0220_A1B3
    ensures Encode(CodeR(MULHU, 3, 1, 2)) == 0x0220_B1B3
  {}

  lemma DivisionWords()
    ensures Encode(CodeR(DIV, 3, 1, 2)) == 0x0220_C1B3
    ensures Encode(CodeR(DIVU, 3, 1, 2)) == 0x0220_D1B3
    ensures Encode(CodeR(REM, 3, 1, 2)) == 0x0220_E1B3
    ensures Encode(CodeR(REMU, 3, 1, 2)) == 0x0220_F1B3
  {}

  /** `op x1, x2, 5` and `op x1, x2, 3`. */
  lemma ImmediateWords()
    ensures Encode(CodeI(ADDI, 1, 2, 5)) == 0x0051_0093
    ensures Encode(CodeI(SLTI, 1, 2, 5)) == 0x0051_2093
    ensures Encode(CodeI(SLTIU, 1, 2, 5)) == 0x0051_3093
    ensures Encode(CodeI(XORI, 1, 2, 5)) == 0x0051_4093
    ensures Encode(CodeI(ORI, 1, 2, 5)) == 0x0051_6093
    ensures Encode(CodeI(ANDI, 1, 2, 5)) == 0x0051_7093
    ensures Encode(CodeShift(SLLI, 1, 2, 3)) == 0x0031_1093
    ensures Encode(CodeShift(SRLI, 1, 2, 3)) == 0x0031_5093
    ensures Encode(CodeShift(SRAI, 1, 2, 3)) == 0x4031_5093
  {}

  /** `op x5, 8(x6)` and `op x5, 40(x6)`. */
  lemma MemoryWords()
    ensures Encode(CodeLoad(LB, 5, 6, 8)) == 0x0083_0283
    ensures Encode(CodeLoad(LH, 5, 6, 8)) == 0x0083_1283
    ensures Encode(CodeLoad(LW, 5, 6, 8)) == 0x0083_2283
    ensures Encode(CodeLoad(LBU, 5, 6, 8)) == 0x0083_4283
    ensures Encode(CodeLoad(LHU, 5, 6, 8)) == 0x0083_5283
    ensures Encode(CodeStore(SB, 6, 5, 40)) == 0x0253_0423
    ensures Encode(CodeStore(SH, 6, 5, 40)) == 0x0253_1423
    ensures Encode(CodeStore(SW, 6, 5, 40)) == 0x0253_2423
  {}

  /** Branches by 2100 bytes; `jal x1` by 0x12834, `jalr x1, 4(x2)`, `lui` and `auipc x1, 0x12345`. */
  lemma BranchWords()
    ensures Encode(CodeBranch(BEQ, 1, 2, 0x41a)) == 0x0220_8AE3
    ensures Encode(CodeBranch(BNE, 1, 2, 0x41a)) == 0x0220_9AE3
    ensures Encode(CodeBranch(BLT, 1, 2, 0x41a)) == 0x0220_CAE3
    ensures Encode(CodeBranch(BGE, 1, 2, 0x41a)) == 0x0220_DAE3
    ensures Encode(CodeBranch(BLTU, 1, 2, 0x41a)) == 0x0220_EAE3
    ensures Encode(CodeBranch(BGEU, 1, 2, 0x41a)) == 0x0220_FAE3
  {}

  lemma JumpWords()
    ensures Encode(CodeJal(1, 0x941a)) == 0x0351_20EF
    ensures Encode(CodeJalr(1, 2, 4)) == 0x0041_00E7
    ensures Encode(CodeLui(1, 0x12345)) == 0x1234_50B7
    ensures Encode(CodeAuipc(1, 0x12345)) == 0x1234_5097
  {}

  // ----- decoding by plain bit fields

  function Opcode(w: bv32): bv32 { w & 0x7F }
  function F3(w: bv32): bv32 { (w >> 12) & 7 }
  function F7(w: bv32): bv32 { w >> 25 }
  function Rd(w: bv32): bv5 { ((w >> 7) & 0x1F) as bv5 }
  function Rs1(w: bv32): bv5 { ((w >> 15) & 0x1F) as bv5 }
  function Rs2(w: bv32): bv5 { ((w >> 20) & 0x1F) as bv5 }
  function ImmI(w: bv32): imm12 { w >> 20 }
  function ImmS(w: bv32): imm12 { ((w >> 25) << 5) | ((w >> 7) & 0x1F) }
  function ImmB(w: bv32): imm12 {
    ((w >> 31) << 11) | (((w >> 7) & 1) << 10) | (((w >> 25) & 0x3F) << 4) | ((w >> 8) & 0xF)
  }
  function ImmU(w: bv32): imm20 { w >> 12 }
  function ImmJ(w: bv32): imm20 {
    ((w >> 31) << 19) | (((w >> 12) & 0xFF) << 11) | (((w >> 20) & 1) << 10) | ((w >> 21) & 0x3FF)
  }

  function RopOf(f7: bv32, f3: bv32): Option<ROp> {
    if f7 == 0 then
      if f3 == 0 then Some(ADD) else if f3 == 1 then Some(SLL) else if f3 == 2 then Some(SLT)
      else if f3 == 3 then Some(SLTU) else if f3 == 4 then Some(XOR) else if f3 == 5 then Some(SRL)
      else if f3 == 6 then Some(OR) else if f3 == 7 then Some(AND) else None
    else if f7 == 0x20 then
      if f3 == 0 then Some(SUB) else if f3 == 5 then Some(SRA) else None
    else if f7 == 1 then
      if f3 == 0 then Some(MUL) else if f3 == 1 then Some(MULH) else if f3 == 2 then Some(MULHSU)
      else if f3 == 3 then Some(MULHU) else if f3 == 4 then Some(DIV) else if f3 == 5 then Some(DIVU)
      else if f3 == 6 then Some(REM) else if f3 == 7 then Some(REMU) else None
    else None
  }

  function IopOf(f3: bv32): Option<IOp> {
    if f3 == 0 then Some(ADDI) else if f3 == 2 then Some(SLTI) else if f3 == 3 then Some(SLTIU)
    else if f3 == 4 then Some(XORI) else if f3 == 6 then Some(ORI) else if f3 == 7 then Some(ANDI) else None
  }

  function ShiftOf(f7: bv32, f3: bv32): Option<ShiftOp> {
    if f3 == 1 && f7 == 0 then Some(SLLI)
    else if f3 == 5 && f7 == 0 then Some(SRLI)
    else if f3 == 5 && f7 == 0x20 then Some(SRAI)
    else None
  }

  function LoadOf(f3: bv32): Option<LoadOp> {
    if f3 == 0 then Some(LB) else if f3 == 1 then Some(LH) else if f3 == 2 then Some(LW)
    else if f3 == 4 then Some(LBU) else if f3 == 5 then Some(LHU) else None
  }

  function StoreOf(f3: bv32): Option<StoreOp> {
    if f3 == 0 then Some(SB) else if f3 == 1 then Some(SH) else if f3 == 2 then Some(SW) else None
  }

  function BranchOf(f3: bv32): Option<BranchOp> {
    if f3 == 0 then Some(BEQ) else if f3 == 1 then Some(BNE) else if f3 == 4 then Some(BLT)
    else if f3 == 5 then Some(BGE) else if f3 == 6 then Some(BLTU) else if f3 == 7 then Some(BGEU) else None
  }

  function Decode(w: bv32): Option<Code> {
    var opcode := Opcode(w);
    if opcode == 0x33 then
      match RopOf(F7(w), F3(w)) case Some(op) => Some(CodeR(op, Rd(w), Rs1(w), Rs2(w))) case None => None
    else if opcode == 0x13 then
      if F3(w) == 1 || F3(w) == 5 then
        match ShiftOf(F7(w), F3(w)) case Some(op) => Some(CodeShift(op, Rd(w), Rs1(w), Rs2(w))) case None => None
      else
        match IopOf(F3(w)) case Some(op) => Some(CodeI(op, Rd(w), Rs1(w), ImmI(w))) case None => None
    else if opcode == 0x03 then
      match LoadOf(F3(w)) case Some(op) => Some(CodeLoad(op, Rd(w), Rs1(w), ImmI(w))) case None => None
    else if opcode == 0x23 then
      match StoreOf(F3(w)) case Some(op) => Some(CodeStore(op, Rs1(w), Rs2(w), ImmS(w))) case None => None
    else if opcode == 0x63 then
      match BranchOf(F3(w)) case Some(op) => Some(CodeBranch(op, Rs1(w), Rs2(w), ImmB(w))) case None => None
    else if opcode == 0x6F then Some(CodeJal(Rd(w), ImmJ(w)))
    else if opcode == 0x67 && F3(w) == 0 then Some(CodeJalr(Rd(w), Rs1(w), ImmI(w)))
    else if opcode == 0x37 then Some(CodeLui(Rd(w), ImmU(w)))
    else if opcode == 0x17 then Some(CodeAuipc(Rd(w), ImmU(w)))
    else None
  }

  lemma FieldsR(f7: bv32, f3: bv32, rd: bv5, rs1: bv5, rs2: bv5, opcode: bv32)
    requires f7 < 128 && f3 < 8 && opcode < 128
    ensures
      var w := FormatR(f7, f3, rd, rs1, rs2, opcode);
      Opcode(w) == opcode && F3(w) == f3 && F7(w) == f7 && Rd(w) == rd && Rs1(w) == rs1 && Rs2(w) == rs2
  {}

  lemma FieldsI(imm: imm12, f3: bv32, rd: bv5, rs1: bv5, opcode: bv32)
    requires f3 < 8 && opcode < 128
    ensures
      var w := FormatI(imm, f3, rd, rs1, opcode);
      Opcode(w) == opcode && F3(w) == f3 && Rd(w) == rd && Rs1(w) == rs1 && ImmI(w) == imm
  {}

  lemma FieldsS(imm: imm12, f3: bv32, rs1: bv5, rs2: bv5)
    requires f3 < 8
    ensures
      var w := FormatS(imm, f3, rs1, rs2);
      Opcode(w) == 0x23 && F3(w) == f3 && Rs1(w) == rs1 && Rs2(w) == rs2 && ImmS(w) == imm
  {}

  lemma FieldsB(imm: imm12, f3: bv32, rs1: bv5, rs2: bv5)
    requires f3 < 8
    ensures
      var w := FormatB(imm, f3, rs1, rs2);
      Opcode(w) == 0x63 && F3(w) == f3 && Rs1(w) == rs1 && Rs2(w) == rs2 && ImmB(w) == imm
  {}

  lemma FieldsU(upper: imm20, rd: bv5, opcode: bv32)
    requires opcode < 128
    ensures var w := FormatU(upper, rd, opcode); Opcode(w) == opcode && Rd(w) == rd && ImmU(w) == upper
  {}

  lemma FieldsJ(offset: imm20, rd: bv5)
    ensures var w := FormatJ(offset, rd); Opcode(w) == 0x6F && Rd(w) == rd && ImmJ(w) == offset
  {}

  lemma DecodeEncodeR(op: ROp, rd: bv5, rs1: bv5, rs2: bv5)
    ensures Decode(FormatR(R7(op), R3(op), rd, rs1, rs2, 0x33)) == Some(CodeR(op, rd, rs1, rs2))
  {
    FieldsR(R7(op), R3(op), rd, rs1, rs2, 0x33);
  }

  lemma DecodeEncodeI(i: Code)
    requires i.CodeI? || i.CodeShift?
    ensures Decode(Encode(i)) == Some(i)
  {
    match i
    case CodeI(op, rd, rs1, imm) => FieldsI(imm, I3(op), rd, rs1, 0x13);
    case CodeShift(op, rd, rs1, shamt) => FieldsR(Shift7(op), Shift3(op), rd, rs1, shamt, 0x13);
  }

  lemma DecodeEncodeMemory(i: Code)
    requires i.CodeLoad? || i.CodeStore?
    ensures Decode(Encode(i)) == Some(i)
  {
    match i
    case CodeLoad(op, rd, rs1, imm) => FieldsI(imm, Load3(op), rd, rs1, 0x03);
    case CodeStore(op, rs1, rs2, imm) => FieldsS(imm, Store3(op), rs1, rs2);
  }

  lemma DecodeEncodeJump(i: Code)
    requires i.CodeBranch? || i.CodeJal? || i.CodeJalr?
    ensures Decode(Encode(i)) == Some(i)
  {
    match i
    case CodeBranch(op, rs1, rs2, imm) => FieldsB(imm, Branch3(op), rs1, rs2);
    case CodeJal(rd, offset) => FieldsJ(offset, rd);
    case CodeJalr(rd, rs1, imm) => FieldsI(imm, 0, rd, rs1, 0x67);
  }

  /** Every instruction survives encoding and decoding. */
  lemma DecodeEncode(i: Code)
    ensures Decode(Encode(i)) == Some(i)
  {
    match i
    case CodeR(op, rd, rs1, rs2) => DecodeEncodeR(op, rd, rs1, rs2);
    case CodeI(_, _, _, _) => DecodeEncodeI(i);
    case CodeShift(_, _, _, _) => DecodeEncodeI(i);
    case CodeLoad(_, _, _, _) => DecodeEncodeMemory(i);
    case CodeStore(_, _, _, _) => DecodeEncodeMemory(i);
    case CodeBranch(_, _, _, _) => DecodeEncodeJump(i);
    case CodeJal(_, _) => DecodeEncodeJump(i);
    case CodeJalr(_, _, _) => DecodeEncodeJump(i);
    case CodeLui(rd, upper) => FieldsU(upper, rd, 0x37);
    case CodeAuipc(rd, upper) => FieldsU(upper, rd, 0x17);
  }

  lemma RebuildR(w: bv32)
    ensures FormatR(F7(w), F3(w), Rd(w), Rs1(w), Rs2(w), Opcode(w)) == w
  {}

  lemma RebuildI(w: bv32)
    ensures FormatI(ImmI(w), F3(w), Rd(w), Rs1(w), Opcode(w)) == w
  {}

  lemma RebuildS(w: bv32)
    requires Opcode(w) == 0x23
    ensures FormatS(ImmS(w), F3(w), Rs1(w), Rs2(w)) == w
  {}

  lemma RebuildB(w: bv32)
    requires Opcode(w) == 0x63
    ensures FormatB(ImmB(w), F3(w), Rs1(w), Rs2(w)) == w
  {}

  lemma RebuildU(w: bv32)
    ensures FormatU(ImmU(w), Rd(w), Opcode(w)) == w
  {}

  lemma RebuildJ(w: bv32)
    requires Opcode(w) == 0x6F
    ensures FormatJ(ImmJ(w), Rd(w)) == w
  {}

  lemma EncodeDecodeR(w: bv32)
    requires Opcode(w) == 0x33 && Decode(w).Some?
    ensures Encode(Decode(w).value) == w
  {
    RebuildR(w);
    RopOfInverse(F7(w), F3(w));
  }

  lemma RopOfInverse(f7: bv32, f3: bv32)
    requires RopOf(f7, f3).Some?
    ensures R7(RopOf(f7, f3).value) == f7 && R3(RopOf(f7, f3).value) == f3
  {}

  lemma EncodeDecodeI(w: bv32)
    requires Opcode(w) == 0x13 && Decode(w).Some?
    ensures Encode(Decode(w).value) == w
  {
    RebuildR(w);
    RebuildI(w);
  }

  lemma EncodeDecodeMemory(w: bv32)
    requires (Opcode(w) == 0x03 || Opcode(w) == 0x23) && Decode(w).Some?
    ensures Encode(Decode(w).value) == w
  {
    if Opcode(w) == 0x03 { RebuildI(w); } else { RebuildS(w); }
  }

  lemma EncodeDecodeJump(w: bv32)
    requires (Opcode(w) == 0x63 || Opcode(w) == 0x6F || Opcode(w) == 0x67) && Decode(w).Some?
    ensures Encode(Decode(w).value) == w
  {
    if Opcode(w) == 0x63 { RebuildB(w); } else if Opcode(w) == 0x6F { RebuildJ(w); } else { RebuildI(w); }
  }

  lemma EncodeDecodeUpper(w: bv32)
    requires (Opcode(w) == 0x37 || Opcode(w) == 0x17) && Decode(w).Some?
    ensures Encode(Decode(w).value) == w
  {
    RebuildU(w);
  }

  /** Every word that decodes is the encoding of what it decodes to. */
  lemma EncodeDecode(w: bv32)
    requires Decode(w).Some?
    ensures Encode(Decode(w).value) == w
  {
    var opcode := Opcode(w);
    if opcode == 0x33 {
      EncodeDecodeR(w);
    } else if opcode == 0x13 {
      EncodeDecodeI(w);
    } else if opcode == 0x03 || opcode == 0x23 {
      EncodeDecodeMemory(w);
    } else if opcode == 0x37 || opcode == 0x17 {
      EncodeDecodeUpper(w);
    } else {
      EncodeDecodeJump(w);
    }
  }

  // ----- abstract instructions

  type reg = x: int | 0 <= x < 32

  /** Immediates are sign-extended words, offsets are in bytes. */
  datatype Instr =
    | R(rop: ROp, rd: reg, rs1: reg, rs2: reg)
    | I(iop: IOp, rd: reg, rs1: reg, imm: word)
    | Shift(sop: ShiftOp, rd: reg, rs1: reg, shamt: reg)
    | Load(lop: LoadOp, rd: reg, rs1: reg, imm: word)
    | Store(wop: StoreOp, rs1: reg, rs2: reg, imm: word)
    | Branch(bop: BranchOp, rs1: reg, rs2: reg, imm: word)
    | Jal(rd: reg, imm: word)
    | Jalr(rd: reg, rs1: reg, imm: word)
    | Lui(rd: reg, imm: word)
    | Auipc(rd: reg, imm: word)

  function Sext12(i: imm12): bv32 { if i & 0x800 != 0 then 0xFFFFF000 | i else i }
  function Sext20(i: imm20): bv32 { if i & 0x80000 != 0 then 0xFFF00000 | i else i }

  function Int(x: bv32): word { x as int }
  function Reg(x: bv5): reg { x as int }

  function Meaning(c: Code): Instr {
    match c
    case CodeR(op, rd, rs1, rs2) => R(op, Reg(rd), Reg(rs1), Reg(rs2))
    case CodeI(op, rd, rs1, imm) => I(op, Reg(rd), Reg(rs1), Int(Sext12(imm)))
    case CodeShift(op, rd, rs1, shamt) => Shift(op, Reg(rd), Reg(rs1), Reg(shamt))
    case CodeLoad(op, rd, rs1, imm) => Load(op, Reg(rd), Reg(rs1), Int(Sext12(imm)))
    case CodeStore(op, rs1, rs2, imm) => Store(op, Reg(rs1), Reg(rs2), Int(Sext12(imm)))
    case CodeBranch(op, rs1, rs2, imm) => Branch(op, Reg(rs1), Reg(rs2), Int(Sext12(imm) << 1))
    case CodeJal(rd, offset) => Jal(Reg(rd), Int(Sext20(offset) << 1))
    case CodeJalr(rd, rs1, imm) => Jalr(Reg(rd), Reg(rs1), Int(Sext12(imm)))
    case CodeLui(rd, upper) => Lui(Reg(rd), Int(upper << 12))
    case CodeAuipc(rd, upper) => Auipc(Reg(rd), Int(upper << 12))
  }

  // ----- semantics

  datatype Machine = Machine(x: seq<word>, pc: word, mem: Bytes)

  predicate Valid(m: Machine) { |m.x| == 32 && m.x[0] == 0 }

  /** A write to x0 is discarded. */
  function Set(m: Machine, r: reg, v: word): (n: Machine)
    requires Valid(m)
    ensures Valid(n)
  {
    if r == 0 then m else m.(x := m.x[r := v])
  }

  function Advance(m: Machine, distance: int): Machine { m.(pc := U(m.pc + distance)) }

  function Sext8(b: word): word
    requires b < 0x100
  {
    if b >= 0x80 then b + 0xFFFF_FF00 else b
  }

  function Sext16(h: word): word
    requires h < 0x1_0000
  {
    if h >= 0x8000 then h + 0xFFFF_0000 else h
  }

  function Alu(op: ROp, a: word, b: word): word {
    match op
    case ADD => U(a + b)
    case SUB => U(a - b)
    case SLL => Shl(a, b % 32)
    case SLT => if S(a) < S(b) then 1 else 0
    case SLTU => if a < b then 1 else 0
    case XOR => Xor(a, b)
    case SRL => Shr(a, b % 32)
    case SRA => Sra(a, b % 32)
    case OR => Or(a, b)
    case AND => And(a, b)
    case MUL => MulDiv.SpecMul(a, b)
    case MULH => MulDiv.SpecMulh(a, b)
    case MULHSU => MulDiv.SpecMulhsu(a, b)
    case MULHU => MulDiv.SpecMulhu(a, b)
    case DIV => MulDiv.SpecDiv(a, b)
    case DIVU => MulDiv.SpecDivu(a, b)
    case REM => MulDiv.SpecRem(a, b)
    case REMU => MulDiv.SpecRemu(a, b)
  }

  function Register(op: IOp): ROp {
    match op case ADDI => ADD case SLTI => SLT case SLTIU => SLTU case XORI => XOR case ORI => OR case ANDI => AND
  }

  function ShiftRegister(op: ShiftOp): ROp { match op case SLLI => SLL case SRLI => SRL case SRAI => SRA }

  predicate Taken(op: BranchOp, a: word, b: word) {
    match op
    case BEQ => a == b
    case BNE => a != b
    case BLT => S(a) < S(b)
    case BGE => S(a) >= S(b)
    case BLTU => a < b
    case BGEU => a >= b
  }

  function LoadWidth(op: LoadOp): nat { match op case LB | LBU => 1 case LH | LHU => 2 case LW => 4 }
  function StoreWidth(op: StoreOp): nat { match op case SB => 1 case SH => 2 case SW => 4 }

  /** The data bytes an instruction accesses: first address and width. */
  function Data(m: Machine, i: Instr): (nat, nat)
    requires Valid(m)
  {
    match i
    case Load(op, _, rs1, imm) => (U(m.x[rs1] + imm), LoadWidth(op))
    case Store(op, rs1, _, imm) => (U(m.x[rs1] + imm), StoreWidth(op))
    case _ => (0, 0)
  }

  predicate InBounds(m: Machine, i: Instr)
    requires Valid(m)
  {
    Fits(m.mem, Data(m, i).0, Data(m, i).1)
  }

  function LoadValue(op: LoadOp, mem: Bytes, a: nat): word
    requires Fits(mem, a, LoadWidth(op))
  {
    match op
    case LB => Sext8(Rb(mem, a))
    case LH => Sext16(Rh(mem, a))
    case LW => Rw(mem, a)
    case LBU => Rb(mem, a)
    case LHU => Rh(mem, a)
  }

  function StoreValue(op: StoreOp, mem: Bytes, a: nat, v: word): (n: Bytes)
    requires Fits(mem, a, StoreWidth(op))
    ensures |n| == |mem|
  {
    match op case SB => Wb(mem, a, v) case SH => Wh(mem, a, v) case SW => Ww(mem, a, v)
  }

  /** The target of a JALR has its lowest bit cleared. */
  function JalrTarget(base: word, imm: word): word { var t := U(base + imm); t - t % 2 }

  /** One instruction, as the ISA specifies it. */
  function Exec(m: Machine, i: Instr): (n: Machine)
    requires Valid(m) && InBounds(m, i)
    ensures Valid(n) && |n.mem| == |m.mem|
  {
    match i
    case R(op, rd, rs1, rs2) => Advance(Set(m, rd, Alu(op, m.x[rs1], m.x[rs2])), 4)
    case I(op, rd, rs1, imm) => Advance(Set(m, rd, Alu(Register(op), m.x[rs1], imm)), 4)
    case Shift(op, rd, rs1, shamt) => Advance(Set(m, rd, Alu(ShiftRegister(op), m.x[rs1], shamt)), 4)
    case Load(op, rd, _, _) => Advance(Set(m, rd, LoadValue(op, m.mem, Data(m, i).0)), 4)
    case Store(op, _, rs2, _) => Advance(m.(mem := StoreValue(op, m.mem, Data(m, i).0, m.x[rs2])), 4)
    case Branch(op, rs1, rs2, imm) => Advance(m, if Taken(op, m.x[rs1], m.x[rs2]) then imm else 4)
    case Jal(rd, imm) => Advance(Set(m, rd, U(m.pc + 4)), imm)
    case Jalr(rd, rs1, imm) => Set(m, rd, U(m.pc + 4)).(pc := JalrTarget(m.x[rs1], imm))
    case Lui(rd, imm) => Advance(Set(m, rd, imm), 4)
    case Auipc(rd, imm) => Advance(Set(m, rd, U(m.pc + imm)), 4)
  }
}
