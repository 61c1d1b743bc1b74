// Every compressed instruction other than the jumps and branches is the 32-bit
// instruction it abbreviates: both words decode to the same instruction, so all
// that is proved of the long form holds of the short one.
module Expansion {
  import opened Bits
  import opened Words
  import opened Decode
  import opened Machine
  import opened Immediates
  import opened Instructions
  import opened ShortInstructions
  import opened Executed

  lemma LoadsAndStores(pc: Word, op: U32, imm: I32, r: nat, base: nat)
    requires r < 8 && base < 8
    ensures 0 <= imm < 0x80 && imm % 4 == 0 && Begins(op, EncodeCLw(imm, 0, r, base, 2)) ==>
      DecodeInsn(pc, op) == DecodeInsn(pc, EncodeI(imm, 0x03, 8 + r, 2, 8 + base))
    ensures 0 <= imm < 0x100 && imm % 8 == 0 && Begins(op, EncodeCLd(imm, 0, r, base, 3)) ==>
      DecodeInsn(pc, op) == DecodeInsn(pc, EncodeI(imm, 0x03, 8 + r, 3, 8 + base))
    ensures 0 <= imm < 0x80 && imm % 4 == 0 && Begins(op, EncodeCLw(imm, 0, r, base, 6)) ==>
      DecodeInsn(pc, op) == DecodeInsn(pc, EncodeS(imm, 0x23, 2, 8 + base, 8 + r))
    ensures 0 <= imm < 0x100 && imm % 8 == 0 && Begins(op, EncodeCLd(imm, 0, r, base, 7)) ==>
      DecodeInsn(pc, op) == DecodeInsn(pc, EncodeS(imm, 0x23, 3, 8 + base, 8 + r))
  {
    hide DecodeInsn, EncodeCLw, EncodeCLd, EncodeI, EncodeS;
    if 0 <= imm < 0x100 {
      LoadDecodes(pc, imm, 8 + r, 2, 8 + base);
      LoadDecodes(pc, imm, 8 + r, 3, 8 + base);
      StoreDecodes(pc, imm, 2, 8 + base, 8 + r);
      StoreDecodes(pc, imm, 3, 8 + base, 8 + r);
      if imm < 0x80 && imm % 4 == 0 && Begins(op, EncodeCLw(imm, 0, r, base, 2)) {
        CLwDecodes(pc, op, imm, r, base);
      }
      if imm % 8 == 0 && Begins(op, EncodeCLd(imm, 0, r, base, 3)) {
        CLdDecodes(pc, op, imm, r, base);
      }
      if imm < 0x80 && imm % 4 == 0 && Begins(op, EncodeCLw(imm, 0, r, base, 6)) {
        CSwDecodes(pc, op, imm, r, base);
      }
      if imm % 8 == 0 && Begins(op, EncodeCLd(imm, 0, r, base, 7)) {
        CSdDecodes(pc, op, imm, r, base);
      }
    }
  }

  // c.lwsp, c.ldsp, c.swsp and c.sdsp address by x2.
  lemma StackLoads(pc: Word, op: U32, imm: I32, r: Reg)
    requires r != 0
    ensures 0 <= imm < 0x100 && imm % 4 == 0 && Begins(op, EncodeCLwsp(imm, 2, r, 2)) ==>
      DecodeInsn(pc, op) == DecodeInsn(pc, EncodeI(imm, 0x03, r, 2, 2))
    ensures 0 <= imm < 0x200 && imm % 8 == 0 && Begins(op, EncodeCLdsp(imm, 2, r, 3)) ==>
      DecodeInsn(pc, op) == DecodeInsn(pc, EncodeI(imm, 0x03, r, 3, 2))
  {
    hide DecodeInsn, EncodeCLwsp, EncodeCLdsp, EncodeI;
    if 0 <= imm < 0x200 {
      LoadDecodes(pc, imm, r, 2, 2);
      LoadDecodes(pc, imm, r, 3, 2);
      if imm < 0x100 && imm % 4 == 0 && Begins(op, EncodeCLwsp(imm, 2, r, 2)) {
        CLwspDecodes(pc, op, imm, r);
      }
      if imm % 8 == 0 && Begins(op, EncodeCLdsp(imm, 2, r, 3)) {
        CLdspDecodes(pc, op, imm, r);
      }
    }
  }

  lemma StackStores(pc: Word, op: U32, imm: I32, r: Reg)
    ensures 0 <= imm < 0x100 && imm % 4 == 0 && Begins(op, EncodeCSwsp(imm, 2, r, 6)) ==>
      DecodeInsn(pc, op) == DecodeInsn(pc, EncodeS(imm, 0x23, 2, 2, r))
    ensures 0 <= imm < 0x200 && imm % 8 == 0 && Begins(op, EncodeCSdsp(imm, 2, r, 7)) ==>
      DecodeInsn(pc, op) == DecodeInsn(pc, EncodeS(imm, 0x23, 3, 2, r))
  {
    hide DecodeInsn, EncodeCSwsp, EncodeCSdsp, EncodeS;
    if 0 <= imm < 0x200 {
      StoreDecodes(pc, imm, 2, 2, r);
      StoreDecodes(pc, imm, 3, 2, r);
      if imm < 0x100 && imm % 4 == 0 && Begins(op, EncodeCSwsp(imm, 2, r, 6)) {
        CSwspDecodes(pc, op, imm, r);
      }
      if imm % 8 == 0 && Begins(op, EncodeCSdsp(imm, 2, r, 7)) {
        CSdspDecodes(pc, op, imm, r);
      }
    }
  }

  // c.addi, c.addiw, c.li and c.andi
  lemma SmallImmediates(pc: Word, op: U32, imm: I32, r: Reg)
    requires -0x20 <= imm < 0x20 && r != 0
    ensures Begins(op, EncodeCAddi(imm, 1, r, 0)) ==>
      DecodeInsn(pc, op) == DecodeInsn(pc, EncodeI(imm, 0x13, r, 0, r))
    ensures Begins(op, EncodeCAddi(imm, 1, r, 1)) ==>
      DecodeInsn(pc, op) == DecodeInsn(pc, EncodeI(imm, 0x1b, r, 0, r))
    ensures Begins(op, EncodeCAddi(imm, 1, r, 2)) ==>
      DecodeInsn(pc, op) == DecodeInsn(pc, EncodeI(imm, 0x13, r, 0, 0))
    ensures r < 8 && Begins(op, EncodeCAddi(imm, 1, 8 * 2 + r, 4)) ==>
      DecodeInsn(pc, op) == DecodeInsn(pc, EncodeI(imm, 0x13, 8 + r, 7, 8 + r))
  {
    hide DecodeInsn, EncodeCAddi, EncodeI;
    AluImmDecodes(pc, imm, r, 0, r);
    AddiwDecodes(pc, imm, r, r);
    AluImmDecodes(pc, imm, r, 0, 0);
    if Begins(op, EncodeCAddi(imm, 1, r, 0)) {
      CAddiDecodes(pc, op, imm, r);
    }
    if Begins(op, EncodeCAddi(imm, 1, r, 1)) {
      CAddiwDecodes(pc, op, imm, r);
    }
    if Begins(op, EncodeCAddi(imm, 1, r, 2)) {
      CLiDecodes(pc, op, imm, r);
    }
    if r < 8 && Begins(op, EncodeCAddi(imm, 1, 8 * 2 + r, 4)) {
      AluImmDecodes(pc, imm, 8 + r, 7, 8 + r);
      CAndiDecodes(pc, op, imm, r);
    }
  }

  // c.addi16sp and c.addi4spn
  lemma StackAddresses(pc: Word, op: U32, imm: I32, r: nat)
    requires r < 8
    ensures -0x200 <= imm < 0x200 && imm % 0x10 == 0 && Begins(op, EncodeCAddi16sp(imm, 1, 2, 3)) ==>
      DecodeInsn(pc, op) == DecodeInsn(pc, EncodeI(imm, 0x13, 2, 0, 2))
    ensures 0 < imm < 0x400 && imm % 4 == 0 && Begins(op, EncodeCAddi4spn(imm, 0, r, 0)) ==>
      DecodeInsn(pc, op) == DecodeInsn(pc, EncodeI(imm, 0x13, 8 + r, 0, 2))
  {
    hide DecodeInsn, EncodeCAddi16sp, EncodeCAddi4spn, EncodeI;
    if -0x200 <= imm < 0x400 {
      AluImmDecodes(pc, imm, 2, 0, 2);
      AluImmDecodes(pc, imm, 8 + r, 0, 2);
      if imm < 0x200 && imm % 0x10 == 0 && Begins(op, EncodeCAddi16sp(imm, 1, 2, 3)) {
        CAddi16spDecodes(pc, op, imm);
      }
      if 0 < imm && imm % 4 == 0 && Begins(op, EncodeCAddi4spn(imm, 0, r, 0)) {
        CAddi4spnDecodes(pc, op, imm, r);
      }
    }
  }

  // c.lui
  lemma UpperImmediate(pc: Word, op: U32, imm: I32, r: Reg)
    requires -0x2_0000 <= imm < 0x2_0000 && imm % 0x1000 == 0 && imm != 0 && r != 0 && r != 2
    requires Begins(op, EncodeCLui(imm, 1, r, 3))
    ensures DecodeInsn(pc, op) == DecodeInsn(pc, EncodeU(imm, 0x37, r))
  {
    hide DecodeInsn, EncodeCLui, EncodeU;
    CLuiDecodes(pc, op, imm, r);
    UpperDecodes(pc, imm, r);
  }

  // c.slli and c.srli
  lemma LogicalShifts(pc: Word, op: U32, amount: nat, r: Reg)
    requires amount < 0x40 && r != 0
    ensures Begins(op, EncodeCShift(amount, 2, r, 0)) ==>
      DecodeInsn(pc, op) == DecodeInsn(pc, EncodeI(amount, 0x13, r, 1, r))
    ensures r < 8 && Begins(op, EncodeCShift(amount, 1, r, 4)) ==>
      DecodeInsn(pc, op) == DecodeInsn(pc, EncodeI(amount, 0x13, 8 + r, 5, 8 + r))
  {
    hide DecodeInsn, EncodeCShift, EncodeI;
    ShiftDecodes(pc, amount, r, r);
    if Begins(op, EncodeCShift(amount, 2, r, 0)) {
      CSlliDecodes(pc, op, amount, r);
    }
    if r < 8 && Begins(op, EncodeCShift(amount, 1, r, 4)) {
      ShiftDecodes(pc, amount, 8 + r, 8 + r);
      CShiftRightDecodes(pc, op, amount, r, 0);
    }
  }

  // c.srai records the amount without the bit that marks srai, and computes the
  // same.
  lemma ArithmeticShift(pc: Word, op: U32, amount: nat, r: nat, m: Machine)
    requires amount < 0x40 && r < 8 && Begins(op, EncodeCShift(amount, 1, 8 * 1 + r, 4))
    ensures Computes(Run(pc, op, m), m, 8 + r, Sra, m.gpr[8 + r], amount)
  {
    hide DecodeInsn, EncodeCShift, Exec, Computes;
    CShiftRightDecodes(pc, op, amount, r, 1);
    ImmediateRuns(8 + r, Sra, 8 + r, amount, m);
  }

  // opcode, funct3 and funct7 of the long form of c.sub to c.addw
  function LongForm(bit12: nat, code: nat): (nat, nat, nat) {
    match (bit12, code)
    case (0, 0) => (0x33, 0, 0x20)
    case (0, 1) => (0x33, 4, 0)
    case (0, 2) => (0x33, 6, 0)
    case (0, _) => (0x33, 7, 0)
    case (_, 0) => (0x3b, 0, 0x20)
    case _ => (0x3b, 0, 0)
  }

  lemma Registers(pc: Word, op: U32, rd: nat, rs2: nat, bit12: nat, code: nat)
    requires rd < 8 && rs2 < 8 && ShortOp(bit12, code).Some?
    requires Begins(op, EncodeCR(1, 8 * code + rs2, 8 * 3 + rd, bit12, 4))
    ensures var (opcode, funct3, funct7) := LongForm(bit12, code);
      DecodeInsn(pc, op) == DecodeInsn(pc, EncodeR(opcode, 8 + rd, funct3, 8 + rd, 8 + rs2, funct7))
  {
    hide DecodeInsn, EncodeCR, EncodeR;
    CRegisterDecodes(pc, op, rd, rs2, bit12, code);
    var (opcode, funct3, funct7) := LongForm(bit12, code);
    if opcode == 0x33 {
      RegisterDecodes(pc, 8 + rd, funct3, 8 + rd, 8 + rs2, funct7);
    } else {
      RegisterWDecodes(pc, 8 + rd, funct3, 8 + rd, 8 + rs2, funct7);
    }
  }

  // c.mv is addi rd, rs2, 0 here, and c.add is add rd, rd, rs2.
  lemma MoveAndAdd(pc: Word, op: U32, rd: Reg, rs2: Reg)
    requires rd != 0 && rs2 != 0
    ensures Begins(op, EncodeCR(2, rs2, rd, 0, 4)) ==>
      DecodeInsn(pc, op) == DecodeInsn(pc, EncodeI(0, 0x13, rd, 0, rs2))
    ensures Begins(op, EncodeCR(2, rs2, rd, 1, 4)) ==>
      DecodeInsn(pc, op) == DecodeInsn(pc, EncodeR(0x33, rd, 0, rd, rs2, 0))
  {
    hide DecodeInsn, EncodeCR, EncodeR, EncodeI;
    AluImmDecodes(pc, 0, rd, 0, rs2);
    RegisterDecodes(pc, rd, 0, rd, rs2, 0);
    if Begins(op, EncodeCR(2, rs2, rd, 0, 4)) {
      CMoveDecodes(pc, op, 0, rd, rs2);
    }
    if Begins(op, EncodeCR(2, rs2, rd, 1, 4)) {
      CMoveDecodes(pc, op, 1, rd, rs2);
    }
  }
}
