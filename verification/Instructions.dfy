// Whole instructions: decoding the word that the formats of the RISC-V
// Unprivileged ISA (document version 20191213, sections 2.2 to 2.8, 5.2 to 5.3,
// 7.1 to 7.2, 8.2 to 8.4, 9.1 and 16.3 to 16.5) build gives the handler and the
// operands, for every operand and at every address.
module Instructions {
  import opened Bits
  import opened Words
  import opened Decode
  import opened Immediates
  import opened Masks

  // ---- Reading the opcode of a word ----

  lemma LongOpcode(op: U32, opcode: nat)
    requires HasOpcode(op, opcode) && opcode < 0x80 && opcode % 4 == 3
    ensures And(op, 0x7f) == opcode && InsnLen(op) == 4
  {
    hide And, Extract32, Low, Shr;
    OpcodeMask(op);
    LengthMask(op);
    Pow2Values();
    HighPowers();
    LowSmall(opcode, 7);
    SubField(op, 0, 7, 0, 2);
    Whole(opcode);
    SplitIsDivMod(opcode, 2);
  }

  lemma LongFunct3(op: U32, funct3: nat)
    requires HasFunct3(op, funct3) && funct3 < 8
    ensures And(op, FUNCT3_MASK) == 0x1000 * funct3
  {
    hide And, Extract32, Low;
    Funct3Mask(op);
    Pow2Values();
    LowSmall(funct3, 3);
  }

  // A fetched word whose low half is a 16-bit instruction.
  lemma ShortWord(pc: Word, op: U32, word: U32, quadrant: nat, funct3: nat)
    requires op % 0x1_0000 == word && IsShort(word, quadrant, funct3) && quadrant < 3 && funct3 < 8
    ensures DecodeInsn(pc, op) == Decode16(pc, word)
    ensures And(word, 0xe003) == quadrant + 0x2000 * funct3
  {
    hide And, Extract32, Low, Decode16, Decode32;
    LengthMask(op);
    LowHalf(op, 0, 2);
    ShortMask(word);
    Pow2Values();
    LowSmall(quadrant, 2);
    LowSmall(funct3, 3);
  }

  lemma RegField(op: U32, start: int, r: nat)
    requires FieldOk(start, 5) && r < 32 && Extract32(op, start, 5) == Low(r, 5)
    ensures RegAt(op, start) == r
  {
    hide Extract32, Low;
    Pow2Values();
    LowSmall(r, 5);
  }

  lemma CRegField(op: U32, start: int, r: nat)
    requires FieldOk(start, 3) && r < 8 && Extract32(op, start, 3) == Low(r, 3)
    ensures CRegAt(op, start) == 8 + r
  {
    hide Extract32, Low;
    Pow2Values();
    LowSmall(r, 3);
  }

  // A result for x0 is not computed.
  function Unless0(rd: Reg, insn: Insn): Trans {
    Straight(if rd == 0 then insn.(handler := DoEmpty) else insn)
  }

  // ---- I-type ----

  lemma ImmediateWord(opcode: nat, imm: I32, rd: Reg, funct3: nat, rs1: Reg)
    requires opcode < 0x80 && opcode % 4 == 3 && funct3 < 8 && -0x800 <= imm < 0x800
    ensures var op := EncodeI(imm, opcode, rd, funct3, rs1);
      && InsnLen(op) == 4 && And(op, 0x7f) == opcode && And(op, FUNCT3_MASK) == 0x1000 * funct3
      && RegAt(op, 7) == rd && RegAt(op, 15) == rs1 && ImmI(op) == imm
  {
    hide And, EncodeI, ImmI, Extract32;
    var op := EncodeI(imm, opcode, rd, funct3, rs1);
    DecodeEncodeI(imm, opcode, rd, funct3, rs1);
    LongOpcode(op, opcode);
    LongFunct3(op, funct3);
    RegField(op, 7, rd);
    RegField(op, 15, rs1);
  }

  // do_lb to do_lwu
  function LoadOf(funct3: nat): Option<Handler> {
    match funct3
    case 0 => Some(DoLoad(1, true)) case 1 => Some(DoLoad(2, true))
    case 2 => Some(DoLoad(4, true)) case 3 => Some(DoLoad(8, true))
    case 4 => Some(DoLoad(1, false)) case 5 => Some(DoLoad(2, false)) case 6 => Some(DoLoad(4, false))
    case _ => None
  }

  lemma LoadDecodes(pc: Word, imm: I32, rd: Reg, funct3: nat, rs1: Reg)
    requires -0x800 <= imm < 0x800 && LoadOf(funct3).Some?
    ensures DecodeInsn(pc, EncodeI(imm, 0x03, rd, funct3, rs1))
         == Unless0(rd, Insn(LoadOf(funct3).value, rs1, 0, rd, imm, 0))
  {
    hide And, Decode16, EncodeI, ImmI, Extract32, RegAt;
    ImmediateWord(0x03, imm, rd, funct3, rs1);
  }

  // addi, slti, sltiu, xori, ori, andi
  function ImmediateOp(funct3: nat): Option<AluOp> {
    match funct3
    case 0 => Some(Add) case 2 => Some(Slt) case 3 => Some(Sltu)
    case 4 => Some(BitXor) case 6 => Some(BitOr) case 7 => Some(BitAnd)
    case _ => None
  }

  lemma AluImmDecodes(pc: Word, imm: I32, rd: Reg, funct3: nat, rs1: Reg)
    requires -0x800 <= imm < 0x800 && ImmediateOp(funct3).Some?
    ensures DecodeInsn(pc, EncodeI(imm, 0x13, rd, funct3, rs1))
         == Unless0(rd, Insn(DoAluImm(ImmediateOp(funct3).value), rs1, 0, rd, imm, 0))
  {
    hide And, Decode16, EncodeI, ImmI, Extract32, RegAt;
    ImmediateWord(0x13, imm, rd, funct3, rs1);
  }

  // addiw
  lemma AddiwDecodes(pc: Word, imm: I32, rd: Reg, rs1: Reg)
    requires -0x800 <= imm < 0x800
    ensures DecodeInsn(pc, EncodeI(imm, 0x1b, rd, 0, rs1)) == Unless0(rd, Insn(DoAluImm(Addw), rs1, 0, rd, imm, 0))
  {
    hide And, Decode16, EncodeI, ImmI, Extract32, RegAt;
    ImmediateWord(0x1b, imm, rd, 0, rs1);
  }

  lemma JalrDecodes(pc: Word, imm: I32, rd: Reg, rs1: Reg)
    requires -0x800 <= imm < 0x800
    ensures DecodeInsn(pc, EncodeI(imm, 0x67, rd, 0, rs1)) == JumpReg(pc, 4, rd, rs1, imm)
  {
    hide And, Decode16, EncodeI, ImmI, Extract32, RegAt;
    ImmediateWord(0x67, imm, rd, 0, rs1);
  }

  // ---- Shifts by an immediate ----

  // The upper bits of a 12-bit immediate field.
  lemma UpperImmediate(op: U32, imm: I32, k: nat)
    requires Extract32(op, 20, 12) == Slice(imm, 11, 0) && 0 <= imm < 0x1000 && (k == 5 || k == 6)
    ensures Extract32(op, 20 + k, 12 - k) == if k == 5 then imm / 0x20 else imm / 0x40
  {
    hide Extract32, Low, Shr;
    Pow2Values();
    HighPowers();
    Whole(imm);
    LowSmall(imm, 12);
    SubField(op, 20, 12, k, 12 - k);
    SplitIsDivMod(imm, k);
    LowSmall(imm / Pow2(k), 12 - k);
  }

  lemma UpperBits(opcode: nat, imm: nat, rd: Reg, funct3: nat, rs1: Reg)
    requires imm < 0x800
    ensures And(EncodeI(imm, opcode, rd, funct3, rs1), I_11_X_MASK) == 0x400_0000 * (imm / 0x40)
    ensures And(EncodeI(imm, opcode, rd, funct3, rs1), FUNCT7_MASK) == 0x200_0000 * (imm / 0x20)
  {
    hide And, EncodeI, ImmI, Extract32, Slice;
    var op := EncodeI(imm, opcode, rd, funct3, rs1);
    DecodeEncodeI(imm, opcode, rd, funct3, rs1);
    UpperImmediate(op, imm, 5);
    UpperImmediate(op, imm, 6);
    ShiftMask(op);
    Funct7Mask(op);
  }

  // slli, srli and srai
  lemma ShiftDecodes(pc: Word, amount: nat, rd: Reg, rs1: Reg)
    requires amount < 64
    ensures DecodeInsn(pc, EncodeI(amount, 0x13, rd, 1, rs1)) == Unless0(rd, Insn(DoAluImm(Sll), rs1, 0, rd, amount, 0))
    ensures DecodeInsn(pc, EncodeI(amount, 0x13, rd, 5, rs1)) == Unless0(rd, Insn(DoAluImm(Srl), rs1, 0, rd, amount, 0))
    ensures DecodeInsn(pc, EncodeI(0x400 + amount, 0x13, rd, 5, rs1))
         == Unless0(rd, Insn(DoAluImm(Sra), rs1, 0, rd, 0x400 + amount, 0))
  {
    hide Decode32, DecodeInsn, EncodeI;
    OneShift(pc, amount, rd, 1, rs1);
    OneShift(pc, amount, rd, 5, rs1);
    OneShift(pc, 0x400 + amount, rd, 5, rs1);
  }

  lemma OneShift(pc: Word, imm: nat, rd: Reg, funct3: nat, rs1: Reg)
    requires imm < 64 || (funct3 == 5 && 0x400 <= imm < 0x440)
    requires funct3 == 1 || funct3 == 5
    ensures DecodeInsn(pc, EncodeI(imm, 0x13, rd, funct3, rs1))
         == Unless0(rd, Insn(DoAluImm(if funct3 == 1 then Sll else if imm < 64 then Srl else Sra), rs1, 0, rd, imm, 0))
  {
    hide And, Decode16, EncodeI, ImmI, Extract32, RegAt;
    ImmediateWord(0x13, imm, rd, funct3, rs1);
    UpperBits(0x13, imm, rd, funct3, rs1);
  }

  // slliw, srliw and sraiw
  lemma ShiftWDecodes(pc: Word, amount: nat, rd: Reg, rs1: Reg)
    requires amount < 32
    ensures DecodeInsn(pc, EncodeI(amount, 0x1b, rd, 1, rs1))
      == Unless0(rd, Insn(DoAluImm(Sllw), rs1, 0, rd, amount, 0))
    ensures DecodeInsn(pc, EncodeI(amount, 0x1b, rd, 5, rs1))
      == Unless0(rd, Insn(DoAluImm(Srlw), rs1, 0, rd, amount, 0))
    ensures DecodeInsn(pc, EncodeI(0x400 + amount, 0x1b, rd, 5, rs1))
         == Unless0(rd, Insn(DoAluImm(Sraw), rs1, 0, rd, 0x400 + amount, 0))
  {
    hide Decode32, DecodeInsn, EncodeI;
    OneShiftW(pc, amount, rd, 1, rs1);
    OneShiftW(pc, amount, rd, 5, rs1);
    OneShiftW(pc, 0x400 + amount, rd, 5, rs1);
  }

  lemma OneShiftW(pc: Word, imm: nat, rd: Reg, funct3: nat, rs1: Reg)
    requires imm < 32 || (funct3 == 5 && 0x400 <= imm < 0x420)
    requires funct3 == 1 || funct3 == 5
    ensures DecodeInsn(pc, EncodeI(imm, 0x1b, rd, funct3, rs1))
         == Unless0(rd, Insn(DoAluImm(if funct3 == 1 then Sllw else if imm < 32 then Srlw else Sraw),
                             rs1, 0, rd, imm, 0))
  {
    hide And, Decode16, EncodeI, ImmI, Extract32, RegAt;
    ImmediateWord(0x1b, imm, rd, funct3, rs1);
    UpperBits(0x1b, imm, rd, funct3, rs1);
  }

  // ---- S-, B-, U- and J-type ----

  // sb, sh, sw, sd
  lemma StoreDecodes(pc: Word, imm: I32, funct3: nat, rs1: Reg, rs2: Reg)
    requires -0x800 <= imm < 0x800 && funct3 < 4
    ensures DecodeInsn(pc, EncodeS(imm, 0x23, funct3, rs1, rs2))
         == Straight(Insn(DoStore([1, 2, 4, 8][funct3]), rs1, rs2, 0, imm, 0))
  {
    hide And, Decode16, EncodeS, ImmS, Extract32;
    var op := EncodeS(imm, 0x23, funct3, rs1, rs2);
    DecodeEncodeS(imm, 0x23, funct3, rs1, rs2);
    LongOpcode(op, 0x23);
    LongFunct3(op, funct3);
    RegField(op, 15, rs1);
    RegField(op, 20, rs2);
  }

  function BranchCond(funct3: nat): Option<Cond> {
    match funct3
    case 0 => Some(Eq) case 1 => Some(Ne) case 4 => Some(Lt)
    case 5 => Some(Ge) case 6 => Some(Ltu) case 7 => Some(Geu)
    case _ => None
  }

  lemma BranchDecodes(pc: Word, imm: I32, funct3: nat, rs1: Reg, rs2: Reg)
    requires -0x1000 <= imm < 0x1000 && imm % 2 == 0 && BranchCond(funct3).Some?
    ensures DecodeInsn(pc, EncodeB(imm, 0x63, funct3, rs1, rs2))
         == Branch(pc, BranchCond(funct3).value, 4, rs1, rs2, imm)
  {
    hide And, Decode16, EncodeB, ImmB, Extract32;
    var op := EncodeB(imm, 0x63, funct3, rs1, rs2);
    DecodeEncodeB(imm, 0x63, funct3, rs1, rs2);
    LongOpcode(op, 0x63);
    LongFunct3(op, funct3);
    RegField(op, 15, rs1);
    RegField(op, 20, rs2);
  }

  // lui and auipc
  lemma UpperDecodes(pc: Word, imm: I32, rd: Reg)
    requires imm % 0x1000 == 0
    ensures DecodeInsn(pc, EncodeU(imm, 0x37, rd)) == Straight(Insn(DoLui, 0, 0, rd, imm, 0))
    ensures DecodeInsn(pc, EncodeU(imm, 0x17, rd)) == Straight(Insn(DoAuipc, 0, 0, rd, imm, pc))
  {
    hide And, Decode16, EncodeU, ImmU, Extract32;
    DecodeEncodeU(imm, 0x37, rd);
    LongOpcode(EncodeU(imm, 0x37, rd), 0x37);
    RegField(EncodeU(imm, 0x37, rd), 7, rd);
    DecodeEncodeU(imm, 0x17, rd);
    LongOpcode(EncodeU(imm, 0x17, rd), 0x17);
    RegField(EncodeU(imm, 0x17, rd), 7, rd);
  }

  lemma JalDecodes(pc: Word, imm: I32, rd: Reg)
    requires -0x10_0000 <= imm < 0x10_0000 && imm % 2 == 0
    ensures DecodeInsn(pc, EncodeJ(imm, 0x6f, rd)) == Jump(pc, 4, rd, imm)
  {
    hide And, Decode16, EncodeJ, ImmJ, Extract32;
    DecodeEncodeJ(imm, 0x6f, rd);
    LongOpcode(EncodeJ(imm, 0x6f, rd), 0x6f);
    RegField(EncodeJ(imm, 0x6f, rd), 7, rd);
  }

  // ---- R-type ----

  // The operation that funct7 and funct3 name, for opcode 0x33.
  function RegisterOp(funct7: nat, funct3: nat): Option<AluOp> {
    if funct3 >= 8 then None
    else if funct7 == 0 then Some([Add, Sll, Slt, Sltu, BitXor, Srl, BitOr, BitAnd][funct3])
    else if funct7 == 1 then Some([Mul, Mulh, Mulhsu, Mulhu, Div, Divu, Rem, Remu][funct3])
    else if funct7 == 0x20 && funct3 == 0 then Some(Sub)
    else if funct7 == 0x20 && funct3 == 5 then Some(Sra)
    else None
  }

  // The same for opcode 0x3b.
  function RegisterOpW(funct7: nat, funct3: nat): Option<AluOp> {
    match (funct7, funct3)
    case (0, 0) => Some(Addw) case (0, 1) => Some(Sllw) case (0, 5) => Some(Srlw)
    case (0x20, 0) => Some(Subw) case (0x20, 5) => Some(Sraw)
    case (1, 0) => Some(Mulw) case (1, 4) => Some(Divw) case (1, 5) => Some(Divuw)
    case (1, 6) => Some(Remw) case (1, 7) => Some(Remuw)
    case _ => None
  }

  lemma RegisterWord(opcode: nat, rd: Reg, funct3: nat, rs1: Reg, rs2: Reg, funct7: nat)
    requires opcode < 0x80 && opcode % 4 == 3 && funct3 < 8 && funct7 < 0x80
    ensures var op := EncodeR(opcode, rd, funct3, rs1, rs2, funct7);
      && InsnLen(op) == 4 && And(op, 0x7f) == opcode && And(op, FUNCT3_MASK) == 0x1000 * funct3
      && And(op, FUNCT7_MASK) == 0x200_0000 * funct7
      && RegAt(op, 7) == rd && RegAt(op, 15) == rs1 && RegAt(op, 20) == rs2
  {
    hide And, EncodeR, Extract32, Low;
    var op := EncodeR(opcode, rd, funct3, rs1, rs2, funct7);
    DecodeEncodeR(opcode, rd, funct3, rs1, rs2, funct7);
    LongOpcode(op, opcode);
    LongFunct3(op, funct3);
    Funct7Mask(op);
    HighPowers();
    LowSmall(funct7, 7);
    RegField(op, 7, rd);
    RegField(op, 15, rs1);
    RegField(op, 20, rs2);
  }

  lemma RegisterDecodes(pc: Word, rd: Reg, funct3: nat, rs1: Reg, rs2: Reg, funct7: nat)
    requires RegisterOp(funct7, funct3).Some?
    ensures DecodeInsn(pc, EncodeR(0x33, rd, funct3, rs1, rs2, funct7))
         == Unless0(rd, Insn(DoAlu(RegisterOp(funct7, funct3).value), rs1, rs2, rd, 0, 0))
  {
    hide And, Decode16, EncodeR, RegAt;
    RegisterWord(0x33, rd, funct3, rs1, rs2, funct7);
  }

  lemma RegisterWDecodes(pc: Word, rd: Reg, funct3: nat, rs1: Reg, rs2: Reg, funct7: nat)
    requires RegisterOpW(funct7, funct3).Some?
    ensures DecodeInsn(pc, EncodeR(0x3b, rd, funct3, rs1, rs2, funct7))
         == Unless0(rd, Insn(DoAlu(RegisterOpW(funct7, funct3).value), rs1, rs2, rd, 0, 0))
  {
    hide And, Decode16, EncodeR, RegAt;
    RegisterWord(0x3b, rd, funct3, rs1, rs2, funct7);
  }

  // The atomic that the upper five bits of funct7 name; the lower two are aq
  // and rl.
  function AtomicOf(funct5: nat, size: nat): Option<Handler> {
    match funct5
    case 0x00 => Some(DoAmo(AmoAdd, size)) case 0x01 => Some(DoAmo(AmoSwap, size))
    case 0x03 => Some(DoStoreConditional(size)) case 0x04 => Some(DoAmo(AmoXor, size))
    case 0x08 => Some(DoAmo(AmoOr, size)) case 0x0c => Some(DoAmo(AmoAnd, size))
    case 0x10 => Some(DoAmo(AmoMin, size)) case 0x14 => Some(DoAmo(AmoMax, size))
    case 0x18 => Some(DoAmo(AmoMinu, size)) case 0x1c => Some(DoAmo(AmoMaxu, size))
    case _ => None
  }

  lemma AtomicWord(rd: Reg, funct3: nat, rs1: Reg, rs2: Reg, funct5: nat, order: nat)
    requires funct3 < 8 && funct5 < 32 && order < 4
    ensures var op := EncodeR(0x2f, rd, funct3, rs1, rs2, 4 * funct5 + order);
      && And(op, OP_27_31_MASK) == 0x800_0000 * funct5
      && And(op, OP_20_24_MASK) == 0x10_0000 * rs2
  {
    hide And, EncodeR, Extract32, Low, Shr;
    var op, funct7 := EncodeR(0x2f, rd, funct3, rs1, rs2, 4 * funct5 + order), 4 * funct5 + order;
    DecodeEncodeR(0x2f, rd, funct3, rs1, rs2, funct7);
    AtomicMasks(op);
    Pow2Values();
    HighPowers();
    LowSmall(funct7, 7);
    LowSmall(rs2, 5);
    SubField(op, 25, 7, 2, 5);
    SplitIsDivMod(funct7, 2);
    LowSmall(funct5, 5);
  }

  // sc and the AMOs, of words (funct3 2) and doublewords (funct3 3)
  lemma AtomicDecodes(pc: Word, rd: Reg, funct3: nat, rs1: Reg, rs2: Reg, funct5: nat, order: nat)
    requires (funct3 == 2 || funct3 == 3) && order < 4 && AtomicOf(funct5, 4).Some?
    ensures DecodeInsn(pc, EncodeR(0x2f, rd, funct3, rs1, rs2, 4 * funct5 + order))
         == Straight(Insn(AtomicOf(funct5, if funct3 == 2 then 4 else 8).value, rs1, rs2, rd, 0, 0))
  {
    hide And, Decode16, EncodeR, RegAt;
    RegisterWord(0x2f, rd, funct3, rs1, rs2, 4 * funct5 + order);
    AtomicWord(rd, funct3, rs1, rs2, funct5, order);
  }

  lemma LoadReservedDecodes(pc: Word, rd: Reg, funct3: nat, rs1: Reg, order: nat)
    requires (funct3 == 2 || funct3 == 3) && order < 4
    ensures DecodeInsn(pc, EncodeR(0x2f, rd, funct3, rs1, 0, 8 + order))
         == Straight(Insn(DoLoadReserved(if funct3 == 2 then 4 else 8), rs1, 0, rd, 0, 0))
  {
    hide And, Decode16, EncodeR, RegAt;
    RegisterWord(0x2f, rd, funct3, rs1, 0, 8 + order);
    AtomicWord(rd, funct3, rs1, 0, 2, order);
  }

  // ---- System ----

  // The csr field, as the immediate whose low twelve bits it is.
  function CsrImmediate(csr: nat): int {
    if csr < 0x800 then csr else csr - 0x1000
  }

  lemma CsrField(op: U32, csr: nat)
    requires csr < 0x1000 && Extract32(op, 20, 12) == Slice(CsrImmediate(csr), 11, 0)
    ensures Extract32(op, 20, 12) == csr
  {
    hide Extract32, Low, Shr, Pow2;
    var u := ToU32(CsrImmediate(csr));
    Pow2Values();
    Whole(u);
    SplitIsDivMod(u, 12);
  }

  // csrrw, csrrs, csrrc and their immediate forms
  function CsrOf(funct3: nat): Option<Handler> {
    match funct3
    case 1 => Some(DoCsr(Write, false)) case 2 => Some(DoCsr(Set, false)) case 3 => Some(DoCsr(Clear, false))
    case 5 => Some(DoCsr(Write, true)) case 6 => Some(DoCsr(Set, true)) case 7 => Some(DoCsr(Clear, true))
    case _ => None
  }

  lemma CsrDecodes(pc: Word, csr: nat, rd: Reg, funct3: nat, rs1: Reg)
    requires csr < 0x1000 && CsrOf(funct3).Some?
    ensures DecodeInsn(pc, EncodeI(CsrImmediate(csr), 0x73, rd, funct3, rs1))
         == Straight(Insn(CsrOf(funct3).value, rs1, 0, rd, csr, 0))
  {
    hide And, Decode16, EncodeI, Extract32, Slice, ImmI, RegAt;
    var op := EncodeI(CsrImmediate(csr), 0x73, rd, funct3, rs1);
    ImmediateWord(0x73, CsrImmediate(csr), rd, funct3, rs1);
    DecodeEncodeI(CsrImmediate(csr), 0x73, rd, funct3, rs1);
    CsrField(op, csr);
  }

  // Every word of opcode 0x73 and funct3 0 is an ecall to this decoder.
  lemma EcallDecodes(pc: Word, imm: I32, rd: Reg, rs1: Reg)
    requires -0x800 <= imm < 0x800
    ensures DecodeInsn(pc, EncodeI(imm, 0x73, rd, 0, rs1)) == Ecall(pc)
  {
    hide And, Decode16, EncodeI, ImmI, Extract32, RegAt;
    ImmediateWord(0x73, imm, rd, 0, rs1);
  }

  // fence and fence.i do nothing.
  lemma FenceDecodes(pc: Word, imm: I32, rd: Reg, funct3: nat, rs1: Reg)
    requires -0x800 <= imm < 0x800 && funct3 < 2
    ensures DecodeInsn(pc, EncodeI(imm, 0x0f, rd, funct3, rs1)) == Straight(BLANK)
  {
    hide And, Decode16, EncodeI, ImmI, Extract32, RegAt;
    ImmediateWord(0x0f, imm, rd, funct3, rs1);
  }
}
