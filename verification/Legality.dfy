// Which words are instructions: the opcode switches accept exactly the
// encodings of Instructions and ShortInstructions, and every other word becomes
// an illegal instruction.
module Legality {
  import opened Bits
  import opened BitFields
  import opened Words
  import opened Decode
  import opened Immediates
  import opened Masks
  import opened Instructions
  import opened ShortInstructions

  // ---- 32-bit words ----

  // By opcode, funct3, funct7 and rs2; the other fields are free.
  predicate LongLegal(opcode: nat, funct3: nat, funct7: nat, rs2: nat) {
    match opcode
    case 0x03 => LoadOf(funct3).Some?
    case 0x0f => funct3 < 2
    case 0x13 =>
      || ImmediateOp(funct3).Some?
      || (funct3 == 1 && funct7 / 2 == 0)
      || (funct3 == 5 && (funct7 / 2 == 0 || funct7 / 2 == 0x10))
    case 0x17 => true
    case 0x1b => funct3 == 0 || (funct3 == 1 && funct7 == 0) || (funct3 == 5 && (funct7 == 0 || funct7 == 0x20))
    case 0x23 => funct3 < 4
    case 0x2f => (funct3 == 2 || funct3 == 3) && (AtomicOf(funct7 / 4, 4).Some? || (funct7 / 4 == 2 && rs2 == 0))
    case 0x33 => RegisterOp(funct7, funct3).Some?
    case 0x37 => true
    case 0x3b => RegisterOpW(funct7, funct3).Some?
    case 0x63 => BranchCond(funct3).Some?
    case 0x67 => funct3 == 0
    case 0x6f => true
    case 0x73 => funct3 == 0 || CsrOf(funct3).Some?
    case _ => false
  }

  // What the masks select, in terms of four fields.
  lemma LongMasks(op: U32)
    ensures var f3, f7 := Extract32(op, 12, 3), Extract32(op, 25, 7);
      && And(op, FUNCT3_MASK) == 0x1000 * f3 && And(op, FUNCT7_MASK) == 0x200_0000 * f7 && f3 < 8 && f7 < 0x80
      && And(op, I_11_X_MASK) == 0x400_0000 * (f7 / 2)
      && And(op, OP_27_31_MASK) == 0x800_0000 * (f7 / 4)
      && And(op, OP_20_24_MASK) == 0x10_0000 * Extract32(op, 20, 5)
  {
    hide And, Extract32, Low, Shr, Pow2;
    var f7 := Extract32(op, 25, 7);
    Funct3Mask(op);
    Funct7Mask(op);
    ShiftMask(op);
    AtomicMasks(op);
    Pow2Values();
    HighPowers();
    FieldBits(op, 12, 3);
    FieldBits(op, 25, 7);
    SubField(op, 25, 7, 1, 6);
    SubField(op, 25, 7, 2, 5);
    SplitIsDivMod(f7, 1);
    SplitIsDivMod(f7, 2);
    LowSmall(f7 / 2, 6);
    LowSmall(f7 / 4, 5);
  }

  // The groups, one at a time, for masked values given by the fields.
  lemma ImmediateGroups(pc: Word, op: U32, f3: nat, f7: nat)
    requires f3 < 8 && f7 < 0x80 && And(op, FUNCT3_MASK) == 0x1000 * f3
    requires And(op, FUNCT7_MASK) == 0x200_0000 * f7 && And(op, I_11_X_MASK) == 0x400_0000 * (f7 / 2)
    ensures DecodeLoad(pc, op) == Illegal(pc) <==> !LongLegal(0x03, f3, f7, 0)
    ensures DecodeFence(pc, op) == Illegal(pc) <==> !LongLegal(0x0f, f3, f7, 0)
    ensures DecodeAluImm(pc, op) == Illegal(pc) <==> !LongLegal(0x13, f3, f7, 0)
    ensures DecodeAluImmW(pc, op) == Illegal(pc) <==> !LongLegal(0x1b, f3, f7, 0)
  {
    hide And, RegAt, ImmI;
  }

  lemma RegisterGroups(pc: Word, op: U32, f3: nat, f7: nat)
    requires f3 < 8 && f7 < 0x80 && And(op, FUNCT3_MASK) == 0x1000 * f3 && And(op, FUNCT7_MASK) == 0x200_0000 * f7
    ensures DecodeAlu(pc, op) == Illegal(pc) <==> !LongLegal(0x33, f3, f7, 0)
    ensures DecodeAluW(pc, op) == Illegal(pc) <==> !LongLegal(0x3b, f3, f7, 0)
  {
    hide And, RegAt;
  }

  lemma OtherGroups(pc: Word, op: U32, f3: nat)
    requires f3 < 8 && And(op, FUNCT3_MASK) == 0x1000 * f3
    ensures DecodeStore(pc, op) == Illegal(pc) <==> !LongLegal(0x23, f3, 0, 0)
    ensures DecodeBranch(pc, op) == Illegal(pc) <==> !LongLegal(0x63, f3, 0, 0)
    ensures DecodeSystem(pc, op) == Illegal(pc) <==> !LongLegal(0x73, f3, 0, 0)
  {
    hide And, RegAt, ImmS, ImmB, Extract32;
  }

  lemma AtomicGroup(pc: Word, op: U32, f3: nat, f7: nat, rs2: nat)
    requires f3 < 8 && f7 < 0x80 && And(op, FUNCT3_MASK) == 0x1000 * f3
    requires And(op, OP_27_31_MASK) == 0x800_0000 * (f7 / 4) && And(op, OP_20_24_MASK) == 0x10_0000 * rs2
    ensures DecodeAtomic(pc, op) == Illegal(pc) <==> !LongLegal(0x2f, f3, f7, rs2)
  {
    hide And, RegAt;
  }

  lemma LongIllegalExactly(pc: Word, op: U32)
    requires InsnLen(op) == 4
    ensures DecodeInsn(pc, op) == Illegal(pc)
       <==> !LongLegal(Extract32(op, 0, 7), Extract32(op, 12, 3), Extract32(op, 25, 7), Extract32(op, 20, 5))
  {
    hide And, Extract32, RegAt, ImmI, ImmU, ImmJ, LoadOf, ImmediateOp, AtomicOf, RegisterOp, RegisterOpW,
      BranchCond, CsrOf,
      DecodeLoad, DecodeFence, DecodeAluImm, DecodeAluImmW, DecodeStore, DecodeAtomic, DecodeAlu, DecodeAluW,
        DecodeBranch,
      DecodeSystem, Decode16;
    var f3, f7 := Extract32(op, 12, 3), Extract32(op, 25, 7);
    LongMasks(op);
    OpcodeMask(op);
    ImmediateGroups(pc, op, f3, f7);
    RegisterGroups(pc, op, f3, f7);
    OtherGroups(pc, op, f3);
    AtomicGroup(pc, op, f3, f7, Extract32(op, 20, 5));
  }

  // Every word is the R-format word of its own fields, so a legal word is one of
  // the encodings.
  lemma EveryWordHasFields(op: U32)
    ensures op == EncodeR(Extract32(op, 0, 7), Extract32(op, 7, 5), Extract32(op, 12, 3), Extract32(op, 15, 5),
                          Extract32(op, 20, 5), Extract32(op, 25, 7))
  {
    hide Cat, Low, Shr, Extract32, Pow2;
    TakeField(op, 0, 7);
    TakeField(op, 7, 5);
    TakeField(op, 12, 3);
    TakeField(op, 15, 5);
    TakeField(op, 20, 5);
    TakeField(op, 25, 7);
    Whole(op);
    NothingAbove(op);
  }

  lemma TakeField(op: U32, s: nat, l: nat)
    requires FieldOk(s, l)
    ensures Shr(op, s) == Cat(Extract32(op, s, l), l, Shr(op, s + l))
  {
    hide Cat, Low, Shr, Extract32;
    FieldBits(op, s, l);
    Split(Shr(op, s), l);
    ShrShr(op, s, l);
  }

  lemma NothingAbove(op: U32)
    ensures Shr(op, 32) == 0 && Trunc32(op) == op
  {
    hide Low, Shr;
    Pow2Values();
    SplitIsDivMod(op, 32);
  }

  // ---- 16-bit words ----

  // By quadrant, funct3 and the fields that can make a form illegal.
  predicate ShortLegal(word: U32) {
    var rd, rs2, bit12 := Extract32(word, 7, 5), Extract32(word, 2, 5), Extract32(word, 12, 1);
    match (Extract32(word, 0, 2), Extract32(word, 13, 3))
    case (0, 0) => Extract32(word, 5, 8) != 0
    case (0, 2) => true
    case (0, 3) => true
    case (0, 6) => true
    case (0, 7) => true
    case (1, 0) => true
    case (1, 1) => rd != 0
    case (1, 2) => rd != 0
    case (1, 3) => rd == 2 || (rd != 0 && ImmCLui(word) != 0)
    case (1, 4) => Extract32(word, 10, 2) != 3 || ShortOp(bit12, Extract32(word, 5, 2)).Some?
    case (1, 5) => true
    case (1, 6) => true
    case (1, 7) => true
    case (2, 0) => rd != 0
    case (2, 2) => rd != 0
    case (2, 3) => rd != 0
    case (2, 4) => rd != 0 || (bit12 == 1 && rs2 == 0)
    case (2, 6) => true
    case (2, 7) => true
    case _ => false
  }

  lemma ShortFields(word: U32)
    ensures Extract32(word, 0, 2) < 4 && Extract32(word, 13, 3) < 8 && Extract32(word, 12, 1) < 2
    ensures Extract32(word, 10, 2) < 4 && Extract32(word, 5, 2) < 4
  {
    hide Extract32, Low, Shr;
    Pow2Values();
    FieldBits(word, 0, 2);
    FieldBits(word, 13, 3);
    FieldBits(word, 12, 1);
    FieldBits(word, 10, 2);
    FieldBits(word, 5, 2);
  }

  lemma ArithLegal(pc: Word, word: U32)
    ensures DecodeCArith(pc, word) == Illegal(pc)
       <==> Extract32(word, 10, 2) == 3 && ShortOp(Extract32(word, 12, 1), Extract32(word, 5, 2)).None?
  {
    hide And, Extract32, CRegAt, ImmCShift, ImmCAddi;
    ShortFields(word);
    ShortGroupMask(word);
  }

  lemma MoveLegal(pc: Word, word: U32)
    ensures DecodeCMove(pc, word) == Illegal(pc)
       <==> RegAt(word, 7) == 0 && !(Extract32(word, 12, 1) == 1 && RegAt(word, 2) == 0)
  {
    hide And, Extract32;
    ShortFields(word);
    ShortFieldMasks(word);
    BothRegisters(word);
  }

  lemma ShortIllegalExactly(pc: Word, op: U32)
    requires InsnLen(op) == 2
    ensures DecodeInsn(pc, op) == Illegal(pc) <==> !ShortLegal(op % 0x1_0000)
  {
    hide And, Extract32, Decode32, Decode16, ShortLegal;
    LengthMask(op);
    LowHalf(op, 0, 2);
    Short16IllegalExactly(pc, op % 0x1_0000);
  }

  lemma Short16IllegalExactly(pc: Word, word: U32)
    requires Extract32(word, 0, 2) != 3
    ensures Decode16(pc, word) == Illegal(pc) <==> !ShortLegal(word)
  {
    hide And, Extract32, CRegAt, DecodeCArith, DecodeCMove, ShortOp, ImmCAddi4spn, ImmCAddi, ImmCShift, ImmCLw, ImmCLd,
      ImmCLwsp, ImmCLdsp, ImmCSwsp, ImmCSdsp, ImmCJ, ImmCBeqz, ImmCAddi16sp, ImmCLui;
    ShortMask(word);
    ShortFields(word);
    ShortFieldMasks(word);
    ArithLegal(pc, word);
    MoveLegal(pc, word);
  }
}
