// What the decoder guarantees about every instruction it produces, for every
// address and every fetched word.
module DecodeFacts {
  import opened Bits
  import opened Words
  import opened Decode
  import opened Machine

  // The handlers whose writes to x0 the decoder filters out.
  predicate GuardsX0(h: Handler) {
    h.DoAlu? || h.DoAluImm? || h.DoLoad?
  }

  predicate Direct(h: Handler) {
    h.DoJal? || h.DoBranch?
  }

  ghost predicate Sound(t: Trans, pc: Word) {
    var i := t.insn;
    && t.exit == IsExit(i.handler)
    && (t.exit || i.handler.DoAuipc? ==> i.pc == pc)
    && (i.handler.DoCsr? ==> i.pc == 0)
    && t.next0 == (if Direct(i.handler) then Some(Plus(pc, i.imm)) else None)
    && t.next1 == (if i.handler.DoBranch? then Some(Plus(pc, i.handler.len)) else None)
    && (Direct(i.handler) ==> i.imm % 2 == 0 && i.handler.len % 2 == 0)
    && (GuardsX0(i.handler) ==> i.rd != 0)
  }

  // ex_shift by at least one bit makes an even number.
  lemma ShiftedIsEven(x: U32, n: nat)
    requires n > 0
    ensures ExShift(x, n) % 2 == 0
  {
    hide Low, Cat;
    CatUnfold(0, n, x);
    LowUnfold(Shl(x, n), 32);
    SignKeepsParity(Trunc32(Shl(x, n)));
  }

  lemma SignKeepsParity(x: U32)
    ensures ToI32(x) % 2 == x % 2
  {
  }

  lemma OffsetsAreEven(op: U32)
    ensures ImmB(op) % 2 == 0 && ImmJ(op) % 2 == 0 && ImmCJ(op) % 2 == 0 && ImmCBeqz(op) % 2 == 0
  {
    hide ExShift, Deposit32, Extract32, Sx;
    forall x: U32 ensures ExShift(x, 1) % 2 == 0 {
      ShiftedIsEven(x, 1);
    }
  }

  // The forms all decoders are built from.
  lemma SoundForms(pc: Word, op: U32)
    ensures Sound(Illegal(pc), pc) && Sound(Straight(BLANK), pc) && Sound(Ecall(pc), pc)
    ensures forall alu :: Sound(TransR(op, alu), pc)
    ensures forall h: Handler :: h.DoAluImm? || h.DoLoad? ==> Sound(TransI(op, h), pc)
    ensures forall size :: Sound(TransS(op, size), pc)
  {
    hide RegAt, ImmI, ImmS;
  }

  predicate Plain(i: Insn) {
    && !IsExit(i.handler)
    && !i.handler.DoAuipc?
    && !i.handler.DoCsr?
    && (GuardsX0(i.handler) ==> i.rd != 0)
  }

  lemma SoundStraight(pc: Word)
    ensures forall i: Insn :: Plain(i) ==> Sound(Straight(i), pc)
  {
  }

  lemma SoundBranch(pc: Word, cond: Cond, len: int, rs1: Reg, rs2: Reg, imm: I32)
    requires imm % 2 == 0 && len % 2 == 0
    ensures Sound(Branch(pc, cond, len, rs1, rs2, imm), pc)
  {
    hide Plus;
  }

  lemma SoundJump(pc: Word, len: int, rd: Reg, imm: I32)
    requires imm % 2 == 0 && len % 2 == 0
    ensures Sound(Jump(pc, len, rd, imm), pc)
  {
    hide Plus;
  }

  lemma SoundJumpReg(pc: Word, len: int, rd: Reg, rs1: Reg, imm: I32)
    ensures Sound(JumpReg(pc, len, rd, rs1, imm), pc)
  {
  }

  lemma SoundBranchForm(pc: Word, op: U32, cond: Cond)
    ensures Sound(TransB(pc, op, cond), pc)
  {
    hide Sound, Branch, RegAt, ImmB, ImmJ, ImmCJ, ImmCBeqz;
    OffsetsAreEven(op);
    SoundBranch(pc, cond, 4, RegAt(op, 15), RegAt(op, 20), ImmB(op));
  }

  lemma SoundAtomicForms(pc: Word, op: U32)
    ensures forall h: Handler :: h.DoAmo? || h.DoStoreConditional? ==> Sound(TransAtomic(op, h), pc)
    ensures forall size :: Sound(TransLoadReserved(op, size), pc)
    ensures forall c, i :: Sound(TransCsr(op, c, i), pc)
  {
    hide RegAt, Extract32;
  }

  lemma SoundCArith(pc: Word, op: U32)
    ensures Sound(DecodeCArith(pc, op), pc)
  {
    hide And, Sound, Straight, Illegal, CRegAt, Extract32, ImmCShift, ImmCAddi;
    SoundForms(pc, op);
    SoundStraight(pc);
  }

  lemma SoundCMove(pc: Word, op: U32)
    ensures Sound(DecodeCMove(pc, op), pc)
  {
    hide And, Sound, Straight, Illegal, JumpReg, RegAt, Extract32;
    SoundForms(pc, op);
    SoundStraight(pc);
    SoundJumpReg(pc, 2, 0, RegAt(op, 7), 0);
    SoundJumpReg(pc, 2, 1, RegAt(op, 7), 0);
  }

  lemma Sound16(pc: Word, op: U32)
    ensures Sound(Decode16(pc, op), pc)
  {
    hide And, Sound, Straight, Illegal, Branch, Jump, RegAt, ImmB, ImmJ, CRegAt, DecodeCArith, DecodeCMove,
      ImmCAddi4spn,
      ImmCLw, ImmCLd, ImmCAddi, ImmCAddi16sp, ImmCLui, ImmCShift, ImmCJ, ImmCBeqz, ImmCLdsp, ImmCLwsp,
      ImmCSwsp, ImmCSdsp;
    OffsetsAreEven(op);
    SoundForms(pc, op);
    SoundStraight(pc);
    SoundCArith(pc, op);
    SoundCMove(pc, op);
    SoundJump(pc, 2, 0, ImmCJ(op));
    SoundBranch(pc, Eq, 2, CRegAt(op, 7), 0, ImmCBeqz(op));
    SoundBranch(pc, Ne, 2, CRegAt(op, 7), 0, ImmCBeqz(op));
  }

  lemma SoundGroup(pc: Word, op: U32, a: Option<AluOp>, b: Option<AluOp>, c: Option<AluOp>)
    ensures Sound(DecodeGroup(pc, op, a, b, c), pc)
  {
    hide And, Sound, TransR, TransI, TransS, Illegal, Straight;
    SoundForms(pc, op);
  }

  lemma SoundAlu(pc: Word, op: U32)
    ensures Sound(DecodeAlu(pc, op), pc)
  {
    hide DecodeGroup, And, Sound, TransR, TransI, TransS, Illegal, Straight;
    SoundForms(pc, op);
    forall a, b, c ensures Sound(DecodeGroup(pc, op, a, b, c), pc) {
      SoundGroup(pc, op, a, b, c);
    }
  }

  lemma SoundAluW(pc: Word, op: U32)
    ensures Sound(DecodeAluW(pc, op), pc)
  {
    hide DecodeGroup, And, Sound, TransR, TransI, TransS, Illegal, Straight;
    SoundForms(pc, op);
    forall a, b, c ensures Sound(DecodeGroup(pc, op, a, b, c), pc) {
      SoundGroup(pc, op, a, b, c);
    }
  }

  lemma SoundAluImm(pc: Word, op: U32)
    ensures Sound(DecodeAluImm(pc, op), pc)
  {
    hide And, Sound, TransR, TransI, TransS, Illegal, Straight;
    SoundForms(pc, op);
  }

  lemma SoundAluImmW(pc: Word, op: U32)
    ensures Sound(DecodeAluImmW(pc, op), pc)
  {
    hide And, Sound, TransR, TransI, TransS, Illegal, Straight;
    SoundForms(pc, op);
  }

  lemma SoundLoad(pc: Word, op: U32)
    ensures Sound(DecodeLoad(pc, op), pc)
  {
    hide And, Sound, TransR, TransI, TransS, Illegal, Straight;
    SoundForms(pc, op);
  }

  lemma SoundStore(pc: Word, op: U32)
    ensures Sound(DecodeStore(pc, op), pc)
  {
    hide And, Sound, TransR, TransI, TransS, Illegal, Straight;
    SoundForms(pc, op);
  }

  lemma SoundFence(pc: Word, op: U32)
    ensures Sound(DecodeFence(pc, op), pc)
  {
    hide And, Sound, TransR, TransI, TransS, Illegal, Straight;
    SoundForms(pc, op);
  }

  lemma SoundBranches(pc: Word, op: U32)
    ensures Sound(DecodeBranch(pc, op), pc)
  {
    hide TransB, And, Sound, TransR, TransI, TransS, Illegal, Straight;
    SoundForms(pc, op);
    forall cond ensures Sound(TransB(pc, op, cond), pc) {
      SoundBranchForm(pc, op, cond);
    }
  }

  lemma SoundAmo(pc: Word, op: U32, size: nat)
    ensures Sound(DecodeAmo(pc, op, size), pc)
  {
    hide TransAtomic, TransLoadReserved, And, Sound, TransR, TransI, TransS, Illegal, Straight;
    SoundForms(pc, op);
    SoundAtomicForms(pc, op);
  }

  lemma SoundAtomic(pc: Word, op: U32)
    ensures Sound(DecodeAtomic(pc, op), pc)
  {
    hide DecodeAmo, And, Sound, TransR, TransI, TransS, Illegal, Straight;
    SoundForms(pc, op);
    SoundAmo(pc, op, 4);
    SoundAmo(pc, op, 8);
  }

  lemma SoundSystem(pc: Word, op: U32)
    ensures Sound(DecodeSystem(pc, op), pc)
  {
    hide TransCsr, Ecall, And, Sound, TransR, TransI, TransS, Illegal, Straight;
    SoundForms(pc, op);
    SoundAtomicForms(pc, op);
  }

  lemma SoundUpper(pc: Word, op: U32)
    ensures Sound(Straight(Insn(DoAuipc, 0, 0, RegAt(op, 7), ImmU(op), pc)), pc)
    ensures Sound(Straight(Insn(DoLui, 0, 0, RegAt(op, 7), ImmU(op), 0)), pc)
  {
    hide RegAt, ImmU, Plus;
  }

  lemma SoundJumps(pc: Word, op: U32)
    ensures Sound(Jump(pc, 4, RegAt(op, 7), ImmJ(op)), pc)
    ensures Sound(JumpReg(pc, 4, RegAt(op, 7), RegAt(op, 15), ImmI(op)), pc)
    ensures Sound(Straight(Insn(DoAuipc, 0, 0, RegAt(op, 7), ImmU(op), pc)), pc)
    ensures Sound(Straight(Insn(DoLui, 0, 0, RegAt(op, 7), ImmU(op), 0)), pc)
  {
    hide Sound, Straight, RegAt, ImmB, ImmI, ImmJ, ImmU, ImmCJ, ImmCBeqz, Jump, JumpReg;
    SoundUpper(pc, op);
    OffsetsAreEven(op);
    SoundJump(pc, 4, RegAt(op, 7), ImmJ(op));
    SoundJumpReg(pc, 4, RegAt(op, 7), RegAt(op, 15), ImmI(op));
  }

  lemma Sound32(pc: Word, op: U32)
    ensures Sound(Decode32(pc, op), pc)
  {
    hide RegAt, ImmI, ImmJ, ImmU, Jump, JumpReg, DecodeLoad, DecodeStore, DecodeAtomic, DecodeAlu,
      DecodeAluW, DecodeAluImm, DecodeAluImmW, DecodeBranch, DecodeSystem, DecodeFence,
      And, Sound, TransR, TransI, TransS, Illegal, Straight;
    SoundForms(pc, op);
    SoundJumps(pc, op);
    SoundLoad(pc, op);
    SoundFence(pc, op);
    SoundAluImm(pc, op);
    SoundAluImmW(pc, op);
    SoundStore(pc, op);
    SoundAtomic(pc, op);
    SoundAlu(pc, op);
    SoundAluW(pc, op);
    SoundBranches(pc, op);
    SoundSystem(pc, op);
  }

  // Every instruction: only jumps, branches, ecall and illegal end a block;
  // those and auipc carry their own address; the recorded successors are the
  // ones a direct jump or branch can reach, at even offsets; and no filtered
  // handler has destination x0.
  lemma DecodeSound(pc: Word, op: U32)
    ensures Sound(DecodeInsn(pc, op), pc)
  {
    hide Plus, And, Decode16, Decode32;
    Sound16(pc, op % 0x1_0000);
    Sound32(pc, op);
  }
}
