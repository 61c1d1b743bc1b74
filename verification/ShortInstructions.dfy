// The 16-bit instructions, each in a fetched word op whose upper half belongs
// to whatever follows it in memory.
module ShortInstructions {
  import opened Bits
  import opened BitFields
  import opened Words
  import opened Decode
  import opened Immediates
  import opened Masks
  import opened Instructions

  predicate Begins(op: U32, word: U32) {
    op % 0x1_0000 == word
  }

  // ---- Quadrant 0 ----

  // c.addi4spn; without an immediate it is illegal, and so is the word 0.
  lemma CAddi4spnDecodes(pc: Word, op: U32, imm: I32, rd: nat)
    requires 0 <= imm < 0x400 && imm % 4 == 0 && rd < 8 && Begins(op, EncodeCAddi4spn(imm, 0, rd, 0))
    ensures DecodeInsn(pc, op) == Guarded(pc, imm == 0, Insn(DoAluImm(Add), 2, 0, 8 + rd, imm, 0))
  {
    hide And, Decode16, DecodeInsn, EncodeCAddi4spn, ImmCAddi4spn, Extract32, Low;
    var word := EncodeCAddi4spn(imm, 0, rd, 0);
    DecodeEncodeCAddi4spn(imm, 0, rd, 0);
    ShortWord(pc, op, word, 0, 0);
    CRegField(word, 2, rd);
    ShortFieldMasks(word);
    if Extract32(word, 5, 8) == 0 {
      NoImmediate(word);
    } else if imm == 0 {
      NoField(rd);
    }
    CAddi4spnCase(pc, word);
  }

  lemma CAddi4spnCase(pc: Word, word: U32)
    requires And(word, 0xe003) == 0
    ensures Decode16(pc, word)
         == Guarded(pc, And(word, 0x1fe0) == 0, Insn(DoAluImm(Add), 2, 0, CRegAt(word, 2), ImmCAddi4spn(word), 0))
  {
    hide And, ImmCAddi4spn, Extract32, CRegAt;
  }

  // The immediate of c.addi4spn is in bits 5 to 12, and is zero with them.
  lemma NoImmediate(word: U32)
    requires Extract32(word, 5, 8) == 0
    ensures ImmCAddi4spn(word) == 0
  {
    hide Extract32, Deposit32;
    SubField(word, 5, 8, 1, 1);
    SubField(word, 5, 8, 0, 1);
    SubField(word, 5, 8, 6, 2);
    SubField(word, 5, 8, 2, 4);
    NothingHasNoFields();
    DepositNothing(1, 31);
    DepositNothing(2, 30);
    DepositNothing(4, 28);
  }

  lemma NothingHasNoFields()
    ensures forall k: nat, n: nat {:trigger Low(Shr(0, k), n)} :: Low(Shr(0, k), n) == 0
    ensures ExShift(0, 2) == 0
  {
    forall k: nat, n: nat ensures Low(Shr(0, k), n) == 0 {
      LowOfNothing(n);
    }
  }

  lemma DepositNothing(start: int, length: int)
    requires FieldOk(start, length)
    ensures Deposit32(0, start, length, 0) == 0
  {
    hide Deposit32, Cat, Shr, Low;
    DepositMeaning(0, start, length, 0);
    NothingHasNoFields();
    CatIsSum(0, length, 0);
    CatIsSum(0, start, 0);
    LowOfNothing(length);
    LowOfNothing(start);
  }

  lemma NoField(rd: nat)
    ensures Extract32(EncodeCAddi4spn(0, 0, rd, 0), 5, 8) == 0
  {
    hide Extract32, Cat, Slice, Low, Shr;
    ZeroSlice(3, 3);
    ZeroSlice(2, 2);
    ZeroSlice(9, 6);
    ZeroSlice(5, 4);
    CatNothing(3);
    CatNothing(1);
    CatNothing(2);
    CatNothing(4);
    var w := Cat(0, 2, Cat(rd, 3, 0));
    Whole(w);
    NextField(w, 0, 0, 2, Cat(rd, 3, 0));
    NextField(w, 2, rd, 3, 0);
    CatNothing(8);
    NextField(w, 5, 0, 8, 0);
    LowOfNothing(8);
  }

  lemma CatNothing(n: nat)
    ensures Cat(0, n, 0) == 0
  {
    CatIsSum(0, n, 0);
    LowOfNothing(n);
  }

  lemma CLwDecodes(pc: Word, op: U32, imm: I32, rd: nat, rs1: nat)
    requires 0 <= imm < 0x80 && imm % 4 == 0 && rd < 8 && rs1 < 8 && Begins(op, EncodeCLw(imm, 0, rd, rs1, 2))
    ensures DecodeInsn(pc, op) == Straight(Insn(DoLoad(4, true), 8 + rs1, 0, 8 + rd, imm, 0))
  {
    hide And, DecodeInsn, Extract32, Low, RegAt, CRegAt, Illegal, EncodeCLw, ImmCLw, TransCAddi, TransCLui,
      DecodeCArith, DecodeCMove;
    var word := EncodeCLw(imm, 0, rd, rs1, 2);
    DecodeEncodeCLw(imm, 0, rd, rs1, 2);
    ShortWord(pc, op, word, 0, 2);
    CRegField(word, 2, rd);
    CRegField(word, 7, rs1);
  }

  lemma CLdDecodes(pc: Word, op: U32, imm: I32, rd: nat, rs1: nat)
    requires 0 <= imm < 0x100 && imm % 8 == 0 && rd < 8 && rs1 < 8 && Begins(op, EncodeCLd(imm, 0, rd, rs1, 3))
    ensures DecodeInsn(pc, op) == Straight(Insn(DoLoad(8, true), 8 + rs1, 0, 8 + rd, imm, 0))
  {
    hide And, DecodeInsn, Extract32, Low, RegAt, CRegAt, Illegal, EncodeCLd, ImmCLd, TransCAddi, TransCLui,
      DecodeCArith, DecodeCMove;
    var word := EncodeCLd(imm, 0, rd, rs1, 3);
    DecodeEncodeCLd(imm, 0, rd, rs1, 3);
    ShortWord(pc, op, word, 0, 3);
    CRegField(word, 2, rd);
    CRegField(word, 7, rs1);
  }

  lemma CSwDecodes(pc: Word, op: U32, imm: I32, rs2: nat, rs1: nat)
    requires 0 <= imm < 0x80 && imm % 4 == 0 && rs2 < 8 && rs1 < 8 && Begins(op, EncodeCLw(imm, 0, rs2, rs1, 6))
    ensures DecodeInsn(pc, op) == Straight(Insn(DoStore(4), 8 + rs1, 8 + rs2, 0, imm, 0))
  {
    hide And, DecodeInsn, Extract32, Low, RegAt, CRegAt, Illegal, EncodeCLw, ImmCLw, TransCAddi, TransCLui,
      DecodeCArith, DecodeCMove;
    var word := EncodeCLw(imm, 0, rs2, rs1, 6);
    DecodeEncodeCLw(imm, 0, rs2, rs1, 6);
    ShortWord(pc, op, word, 0, 6);
    CRegField(word, 2, rs2);
    CRegField(word, 7, rs1);
  }

  lemma CSdDecodes(pc: Word, op: U32, imm: I32, rs2: nat, rs1: nat)
    requires 0 <= imm < 0x100 && imm % 8 == 0 && rs2 < 8 && rs1 < 8 && Begins(op, EncodeCLd(imm, 0, rs2, rs1, 7))
    ensures DecodeInsn(pc, op) == Straight(Insn(DoStore(8), 8 + rs1, 8 + rs2, 0, imm, 0))
  {
    hide And, DecodeInsn, Extract32, Low, RegAt, CRegAt, Illegal, EncodeCLd, ImmCLd, TransCAddi, TransCLui,
      DecodeCArith, DecodeCMove;
    var word := EncodeCLd(imm, 0, rs2, rs1, 7);
    DecodeEncodeCLd(imm, 0, rs2, rs1, 7);
    ShortWord(pc, op, word, 0, 7);
    CRegField(word, 2, rs2);
    CRegField(word, 7, rs1);
  }

  // ---- Quadrant 1 ----

  // c.addi and c.nop
  lemma CAddiDecodes(pc: Word, op: U32, imm: I32, rd: Reg)
    requires -0x20 <= imm < 0x20 && Begins(op, EncodeCAddi(imm, 1, rd, 0))
    ensures DecodeInsn(pc, op) == Unless0(rd, Insn(DoAluImm(Add), rd, 0, rd, imm, 0))
  {
    hide And, DecodeInsn, Extract32, Low, RegAt, CRegAt, Illegal, EncodeCAddi, ImmCAddi, TransCLui, DecodeCArith,
      DecodeCMove;
    var word := EncodeCAddi(imm, 1, rd, 0);
    DecodeEncodeCAddi(imm, 1, rd, 0);
    ShortWord(pc, op, word, 1, 0);
    RegField(word, 7, rd);
  }

  lemma CAddiwDecodes(pc: Word, op: U32, imm: I32, rd: Reg)
    requires -0x20 <= imm < 0x20 && Begins(op, EncodeCAddi(imm, 1, rd, 1))
    ensures DecodeInsn(pc, op) == Guarded(pc, rd == 0, Insn(DoAluImm(Addw), rd, 0, rd, imm, 0))
  {
    hide And, DecodeInsn, Extract32, Low, RegAt, CRegAt, Illegal, EncodeCAddi, ImmCAddi, TransCAddi, TransCLui,
      DecodeCArith, DecodeCMove;
    var word := EncodeCAddi(imm, 1, rd, 1);
    DecodeEncodeCAddi(imm, 1, rd, 1);
    ShortWord(pc, op, word, 1, 1);
    RegField(word, 7, rd);
  }

  lemma CLiDecodes(pc: Word, op: U32, imm: I32, rd: Reg)
    requires -0x20 <= imm < 0x20 && Begins(op, EncodeCAddi(imm, 1, rd, 2))
    ensures DecodeInsn(pc, op) == Guarded(pc, rd == 0, Insn(DoAluImm(Add), 0, 0, rd, imm, 0))
  {
    hide And, DecodeInsn, Extract32, Low, RegAt, CRegAt, Illegal, EncodeCAddi, ImmCAddi, TransCAddi, TransCLui,
      DecodeCArith, DecodeCMove;
    var word := EncodeCAddi(imm, 1, rd, 2);
    DecodeEncodeCAddi(imm, 1, rd, 2);
    ShortWord(pc, op, word, 1, 2);
    RegField(word, 7, rd);
  }

  lemma CAddi16spDecodes(pc: Word, op: U32, imm: I32)
    requires -0x200 <= imm < 0x200 && imm % 0x10 == 0 && Begins(op, EncodeCAddi16sp(imm, 1, 2, 3))
    ensures DecodeInsn(pc, op) == Straight(Insn(DoAluImm(Add), 2, 0, 2, imm, 0))
  {
    hide And, DecodeInsn, Extract32, Low, RegAt, CRegAt, Illegal, EncodeCAddi16sp, ImmCAddi16sp, TransCAddi,
      TransCLui, DecodeCArith, DecodeCMove;
    var word := EncodeCAddi16sp(imm, 1, 2, 3);
    DecodeEncodeCAddi16sp(imm, 1, 2, 3);
    ShortWord(pc, op, word, 1, 3);
    ShortFieldMasks(word);
    Pow2Values();
    LowSmall(2, 5);
  }

  lemma CLuiDecodes(pc: Word, op: U32, imm: I32, rd: Reg)
    requires -0x2_0000 <= imm < 0x2_0000 && imm % 0x1000 == 0 && rd != 2 && Begins(op, EncodeCLui(imm, 1, rd, 3))
    ensures DecodeInsn(pc, op) == Guarded(pc, rd == 0 || imm == 0, Insn(DoLui, 0, 0, rd, imm, 0))
  {
    hide And, DecodeInsn, Extract32, Low, RegAt, CRegAt, Illegal, EncodeCLui, ImmCLui, TransCAddi, DecodeCArith,
      DecodeCMove;
    var word := EncodeCLui(imm, 1, rd, 3);
    DecodeEncodeCLui(imm, 1, rd, 3);
    ShortWord(pc, op, word, 1, 3);
    ShortFieldMasks(word);
    Pow2Values();
    LowSmall(rd, 5);
    RegField(word, 7, rd);
  }

  // Bits 7 to 11 of the forms with a three-bit register: rd' and a two-bit
  // function code.
  lemma SplitRegister(word: U32, group: nat, rd: nat)
    requires group < 4 && rd < 8 && Extract32(word, 7, 5) == Low(8 * group + rd, 5)
    ensures CRegAt(word, 7) == 8 + rd && Extract32(word, 10, 2) == group
  {
    hide Extract32, Low, Shr, Pow2, CRegAt;
    var r := 8 * group + rd;
    Pow2Values();
    LowSmall(r, 5);
    SubField(word, 7, 5, 0, 3);
    SubField(word, 7, 5, 3, 2);
    Whole(r);
    SplitIsDivMod(r, 3);
    LowSmall(group, 2);
    LowSmall(rd, 3);
    CRegField(word, 7, rd);
  }

  // c.srli and c.srai
  lemma CShiftRightDecodes(pc: Word, op: U32, amount: nat, rd: nat, group: nat)
    requires amount < 0x40 && rd < 8 && group < 2 && Begins(op, EncodeCShift(amount, 1, 8 * group + rd, 4))
    ensures DecodeInsn(pc, op)
         == Straight(Insn(DoAluImm(if group == 0 then Srl else Sra), 8 + rd, 0, 8 + rd, amount, 0))
  {
    hide And, DecodeInsn, Extract32, Low, RegAt, CRegAt, Illegal, EncodeCShift, ImmCShift, TransCAddi, TransCLui,
      DecodeCMove;
    var word := EncodeCShift(amount, 1, 8 * group + rd, 4);
    DecodeEncodeCShift(amount, 1, 8 * group + rd, 4);
    ShortWord(pc, op, word, 1, 4);
    SplitRegister(word, group, rd);
  }

  lemma CAndiDecodes(pc: Word, op: U32, imm: I32, rd: nat)
    requires -0x20 <= imm < 0x20 && rd < 8 && Begins(op, EncodeCAddi(imm, 1, 8 * 2 + rd, 4))
    ensures DecodeInsn(pc, op) == Straight(Insn(DoAluImm(BitAnd), 8 + rd, 0, 8 + rd, imm, 0))
  {
    hide And, DecodeInsn, Extract32, Low, RegAt, CRegAt, Illegal, EncodeCAddi, ImmCAddi, TransCAddi, TransCLui,
      DecodeCMove;
    var word := EncodeCAddi(imm, 1, 8 * 2 + rd, 4);
    DecodeEncodeCAddi(imm, 1, 8 * 2 + rd, 4);
    ShortWord(pc, op, word, 1, 4);
    SplitRegister(word, 2, rd);
  }

  // c.sub, c.xor, c.or, c.and, c.subw and c.addw
  function ShortOp(bit12: nat, code: nat): Option<AluOp> {
    match (bit12, code)
    case (0, 0) => Some(Sub) case (0, 1) => Some(BitXor) case (0, 2) => Some(BitOr)
    case (0, 3) => Some(BitAnd) case (1, 0) => Some(Subw) case (1, 1) => Some(Addw)
    case _ => None
  }

  lemma GroupField(word: U32, code: nat, rs2: nat, bit12: nat)
    requires code < 4 && rs2 < 8 && bit12 < 2
    requires Extract32(word, 2, 5) == Low(8 * code + rs2, 5) && Extract32(word, 12, 1) == Low(bit12, 1)
    ensures CRegAt(word, 2) == 8 + rs2 && And(word, 0x1060) == 0x20 * code + 0x1000 * bit12
  {
    hide Extract32, Low, Shr, Pow2, CRegAt, And;
    var r := 8 * code + rs2;
    Pow2Values();
    LowSmall(r, 5);
    LowSmall(bit12, 1);
    SubField(word, 2, 5, 0, 3);
    SubField(word, 2, 5, 3, 2);
    Whole(r);
    SplitIsDivMod(r, 3);
    LowSmall(code, 2);
    LowSmall(rs2, 3);
    CRegField(word, 2, rs2);
    ShortGroupMask(word);
  }

  lemma CRegisterDecodes(pc: Word, op: U32, rd: nat, rs2: nat, bit12: nat, code: nat)
    requires rd < 8 && rs2 < 8 && ShortOp(bit12, code).Some?
      && Begins(op, EncodeCR(1, 8 * code + rs2, 8 * 3 + rd, bit12, 4))
    ensures DecodeInsn(pc, op) == Straight(Insn(DoAlu(ShortOp(bit12, code).value), 8 + rd, 8 + rs2, 8 + rd, 0, 0))
  {
    hide And, DecodeInsn, Extract32, Low, RegAt, CRegAt, Illegal, EncodeCR, TransCAddi, TransCLui, DecodeCMove;
    var word := EncodeCR(1, 8 * code + rs2, 8 * 3 + rd, bit12, 4);
    DecodeEncodeCR(1, 8 * code + rs2, 8 * 3 + rd, bit12, 4);
    ShortWord(pc, op, word, 1, 4);
    SplitRegister(word, 3, rd);
    GroupField(word, code, rs2, bit12);
  }

  lemma CJDecodes(pc: Word, op: U32, imm: I32)
    requires -0x800 <= imm < 0x800 && imm % 2 == 0 && Begins(op, EncodeCJ(imm, 1, 5))
    ensures DecodeInsn(pc, op) == Jump(pc, 2, 0, imm)
  {
    hide And, DecodeInsn, Extract32, Low, RegAt, CRegAt, Illegal, EncodeCJ, ImmCJ, TransCAddi, TransCLui,
      DecodeCArith, DecodeCMove;
    var word := EncodeCJ(imm, 1, 5);
    DecodeEncodeCJ(imm, 1, 5);
    ShortWord(pc, op, word, 1, 5);
  }

  lemma CBeqzDecodes(pc: Word, op: U32, imm: I32, rs1: nat)
    requires -0x100 <= imm < 0x100 && imm % 2 == 0 && rs1 < 8 && Begins(op, EncodeCBeqz(imm, 1, rs1, 6))
    ensures DecodeInsn(pc, op) == Branch(pc, Eq, 2, 8 + rs1, 0, imm)
  {
    hide And, DecodeInsn, Extract32, Low, RegAt, CRegAt, Illegal, EncodeCBeqz, ImmCBeqz, TransCAddi, TransCLui,
      DecodeCArith, DecodeCMove;
    var word := EncodeCBeqz(imm, 1, rs1, 6);
    DecodeEncodeCBeqz(imm, 1, rs1, 6);
    ShortWord(pc, op, word, 1, 6);
    CRegField(word, 7, rs1);
  }

  lemma CBnezDecodes(pc: Word, op: U32, imm: I32, rs1: nat)
    requires -0x100 <= imm < 0x100 && imm % 2 == 0 && rs1 < 8 && Begins(op, EncodeCBeqz(imm, 1, rs1, 7))
    ensures DecodeInsn(pc, op) == Branch(pc, Ne, 2, 8 + rs1, 0, imm)
  {
    hide And, DecodeInsn, Extract32, Low, RegAt, CRegAt, Illegal, EncodeCBeqz, ImmCBeqz, TransCAddi, TransCLui,
      DecodeCArith, DecodeCMove;
    var word := EncodeCBeqz(imm, 1, rs1, 7);
    DecodeEncodeCBeqz(imm, 1, rs1, 7);
    ShortWord(pc, op, word, 1, 7);
    CRegField(word, 7, rs1);
  }

  // ---- Quadrant 2 ----

  lemma CSlliDecodes(pc: Word, op: U32, amount: nat, rd: Reg)
    requires amount < 0x40 && Begins(op, EncodeCShift(amount, 2, rd, 0))
    ensures DecodeInsn(pc, op) == Guarded(pc, rd == 0, Insn(DoAluImm(Sll), rd, 0, rd, amount, 0))
  {
    hide And, DecodeInsn, Extract32, Low, RegAt, CRegAt, Illegal, EncodeCShift, ImmCShift, TransCAddi, TransCLui,
      DecodeCArith, DecodeCMove;
    var word := EncodeCShift(amount, 2, rd, 0);
    DecodeEncodeCShift(amount, 2, rd, 0);
    ShortWord(pc, op, word, 2, 0);
    RegField(word, 7, rd);
  }

  lemma CLwspDecodes(pc: Word, op: U32, imm: I32, rd: Reg)
    requires 0 <= imm < 0x100 && imm % 4 == 0 && Begins(op, EncodeCLwsp(imm, 2, rd, 2))
    ensures DecodeInsn(pc, op) == Guarded(pc, rd == 0, Insn(DoLoad(4, true), 2, 0, rd, imm, 0))
  {
    hide And, DecodeInsn, Extract32, Low, RegAt, CRegAt, Illegal, EncodeCLwsp, ImmCLwsp, TransCAddi, TransCLui,
      DecodeCArith, DecodeCMove;
    var word := EncodeCLwsp(imm, 2, rd, 2);
    DecodeEncodeCLwsp(imm, 2, rd, 2);
    ShortWord(pc, op, word, 2, 2);
    RegField(word, 7, rd);
  }

  lemma CLdspDecodes(pc: Word, op: U32, imm: I32, rd: Reg)
    requires 0 <= imm < 0x200 && imm % 8 == 0 && Begins(op, EncodeCLdsp(imm, 2, rd, 3))
    ensures DecodeInsn(pc, op) == Guarded(pc, rd == 0, Insn(DoLoad(8, true), 2, 0, rd, imm, 0))
  {
    hide And, DecodeInsn, Extract32, Low, RegAt, CRegAt, Illegal, EncodeCLdsp, ImmCLdsp, TransCAddi, TransCLui,
      DecodeCArith, DecodeCMove;
    var word := EncodeCLdsp(imm, 2, rd, 3);
    DecodeEncodeCLdsp(imm, 2, rd, 3);
    ShortWord(pc, op, word, 2, 3);
    RegField(word, 7, rd);
  }

  lemma CSwspDecodes(pc: Word, op: U32, imm: I32, rs2: Reg)
    requires 0 <= imm < 0x100 && imm % 4 == 0 && Begins(op, EncodeCSwsp(imm, 2, rs2, 6))
    ensures DecodeInsn(pc, op) == Straight(Insn(DoStore(4), 2, rs2, 0, imm, 0))
  {
    hide And, DecodeInsn, Extract32, Low, RegAt, CRegAt, Illegal, EncodeCSwsp, ImmCSwsp, TransCAddi, TransCLui,
      DecodeCArith, DecodeCMove;
    var word := EncodeCSwsp(imm, 2, rs2, 6);
    DecodeEncodeCSwsp(imm, 2, rs2, 6);
    ShortWord(pc, op, word, 2, 6);
    RegField(word, 2, rs2);
  }

  lemma CSdspDecodes(pc: Word, op: U32, imm: I32, rs2: Reg)
    requires 0 <= imm < 0x200 && imm % 8 == 0 && Begins(op, EncodeCSdsp(imm, 2, rs2, 7))
    ensures DecodeInsn(pc, op) == Straight(Insn(DoStore(8), 2, rs2, 0, imm, 0))
  {
    hide And, DecodeInsn, Extract32, Low, RegAt, CRegAt, Illegal, EncodeCSdsp, ImmCSdsp, TransCAddi, TransCLui,
      DecodeCArith, DecodeCMove;
    var word := EncodeCSdsp(imm, 2, rs2, 7);
    DecodeEncodeCSdsp(imm, 2, rs2, 7);
    ShortWord(pc, op, word, 2, 7);
    RegField(word, 2, rs2);
  }

  // c.jr, c.mv, c.ebreak, c.jalr and c.add, by bit 12 and the two registers.
  function MoveOf(pc: Word, bit12: nat, rd: Reg, rs2: Reg): Trans {
    if bit12 == 0 then
      if rs2 == 0 then (if rd == 0 then Illegal(pc) else JumpReg(pc, 2, 0, rd, 0))
      else Guarded(pc, rd == 0, Insn(DoAluImm(Add), rs2, 0, rd, 0, 0))
    else if rd == 0 && rs2 == 0 then Straight(BLANK)
    else if rs2 == 0 then JumpReg(pc, 2, 1, rd, 0)
    else Guarded(pc, rd == 0, Insn(DoAlu(Add), rd, rs2, rd, 0, 0))
  }

  // Bits 2 to 11 are zero exactly when both registers are.
  lemma BothRegisters(word: U32)
    ensures Extract32(word, 2, 10) == Extract32(word, 2, 5) + 0x20 * Extract32(word, 7, 5)
  {
    hide Extract32, Low, Shr;
    var f := Extract32(word, 2, 10);
    Pow2Values();
    ExtractMeaning(word, 2, 10);
    SubField(word, 2, 10, 0, 5);
    SubField(word, 2, 10, 5, 5);
    Whole(f);
    SplitIsDivMod(f, 5);
    LowSmall(Shr(f, 5), 5);
  }

  lemma MoveFields(word: U32, bit12: nat, rd: Reg, rs2: Reg)
    requires bit12 < 2 && Extract32(word, 12, 1) == Low(bit12, 1)
    requires Extract32(word, 7, 5) == Low(rd, 5) && Extract32(word, 2, 5) == Low(rs2, 5)
    ensures Extract32(word, 12, 1) == bit12
    ensures And(word, 0x007c) == 0 <==> rs2 == 0
    ensures And(word, 0x0ffc) == 0 <==> rs2 == 0 && rd == 0
  {
    hide And, Extract32, Low;
    ShortFieldMasks(word);
    BothRegisters(word);
    Pow2Values();
    LowSmall(rd, 5);
    LowSmall(rs2, 5);
    LowSmall(bit12, 1);
  }

  lemma CMoveDecodes(pc: Word, op: U32, bit12: nat, rd: Reg, rs2: Reg)
    requires bit12 < 2 && Begins(op, EncodeCR(2, rs2, rd, bit12, 4))
    ensures DecodeInsn(pc, op) == MoveOf(pc, bit12, rd, rs2)
  {
    hide And, DecodeInsn, Extract32, Low, RegAt, CRegAt, Illegal, EncodeCR, TransCAddi, TransCLui, DecodeCArith;
    var word := EncodeCR(2, rs2, rd, bit12, 4);
    DecodeEncodeCR(2, rs2, rd, bit12, 4);
    ShortWord(pc, op, word, 2, 4);
    RegField(word, 7, rd);
    RegField(word, 2, rs2);
    MoveFields(word, bit12, rd, rs2);
  }
}
