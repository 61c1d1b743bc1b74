// The decoder of arch/riscv/translate.c: field extraction, and the two opcode
// switches that choose a handler, the block-ending flag and the recorded
// successor addresses.
module Decode {
  import opened Bits
  import opened BitFields
  import opened Words

  datatype AluOp =
    | Add | Sub | Sll | Slt | Sltu | BitXor | Srl | Sra | BitOr | BitAnd
    | Addw | Subw | Sllw | Srlw | Sraw
    | Mul | Mulh | Mulhsu | Mulhu | Div | Divu | Rem | Remu
    | Mulw | Divw | Divuw | Remw | Remuw

  datatype Cond = Eq | Ne | Lt | Ge | Ltu | Geu

  datatype CsrOp = Write | Set | Clear

  datatype AmoOp =
    | AmoAdd | AmoSwap | AmoXor | AmoOr | AmoAnd
    | AmoMin | AmoMax | AmoMinu | AmoMaxu

  // The handler functions of arch/riscv/cpu.c.  len is the instruction's own
  // length (do_jal and do_c_jal, do_beq and do_c_beq); size counts bytes.
  datatype Handler =
    | DoEmpty
    | DoIllegal
    | DoEcall
    | DoAuipc
    | DoLui
    | DoJal(len: int)
    | DoJalr(len: int)
    | DoBranch(cond: Cond, len: int)
    | DoAlu(op: AluOp)
    | DoAluImm(op: AluOp)
    | DoLoad(size: nat, signed: bool)
    | DoStore(size: nat)
    | DoCsr(csrOp: CsrOp, immediate: bool)
    | DoLoadReserved(size: nat)
    | DoStoreConditional(size: nat)
    | DoAmo(amoOp: AmoOp, size: nat)

  // insn_t; imm and csr share one field.
  datatype Insn = Insn(handler: Handler, rs1: Reg, rs2: Reg, rd: Reg, imm: int, pc: Word)

  // What one trans_* call leaves behind: the instruction, ctx->exit, and the
  // addresses it wrote through ctx->pc_next.
  datatype Trans = Trans(insn: Insn, exit: bool, next0: Option<Word>, next1: Option<Word>)

  // A slot of the freshly mapped, zero-filled instruction buffer.
  const BLANK := Insn(DoEmpty, 0, 0, 0, 0, 0)

  // ---- Field extraction ----

  function RegAt(op: U32, start: int): Reg
    requires FieldOk(start, 5)
  {
    ExtractMeaning(op, start, 5);
    Pow2Values();
    Extract32(op, start, 5)
  }

  // ex_rvc_register on a three-bit field
  function CRegAt(op: U32, start: int): (r: Reg)
    requires FieldOk(start, 3)
    ensures 8 <= r < 16
  {
    ExtractMeaning(op, start, 3);
    Pow2Values();
    8 + Extract32(op, start, 3)
  }

  // ex_shift_1, 2, 3, 4 and 12
  function ExShift(imm: U32, amount: nat): I32 {
    ToI32(Trunc32(Shl(imm, amount)))
  }

  // A uint32_t argument built from an int32_t.
  function Sx(op: U32, start: int, length: int): U32
    requires FieldOk(start, length)
  {
    ToU32(Sextract32(op, start, length))
  }

  function ImmCAddi4spn(op: U32): I32 {
    ExShift(Deposit32(Deposit32(Deposit32(Extract32(op, 6, 1), 1, 31, Extract32(op, 5, 1)), 2, 30,
      Extract32(op, 11, 2)), 4, 28, Extract32(op, 7, 4)), 2)
  }

  // c.lw and c.sw
  function ImmCLw(op: U32): I32 {
    ExShift(Deposit32(Deposit32(Extract32(op, 6, 1), 1, 31, Extract32(op, 10, 3)), 4, 28, Extract32(op, 5, 1)), 2)
  }

  // c.ld and c.sd
  function ImmCLd(op: U32): I32 {
    ExShift(Deposit32(Extract32(op, 10, 3), 3, 29, Extract32(op, 5, 2)), 3)
  }

  // c.addi, c.addiw, c.li and c.andi
  function ImmCAddi(op: U32): I32 {
    ToI32(Deposit32(Extract32(op, 2, 5), 5, 27, Sx(op, 12, 1)))
  }

  function ImmCAddi16sp(op: U32): I32 {
    ExShift(Deposit32(Deposit32(Deposit32(Deposit32(Extract32(op, 6, 1), 1, 31,
      Extract32(op, 2, 1)), 2, 30, Extract32(op, 5, 1)), 3, 29, Extract32(op, 3, 2)), 5, 27, Sx(op, 12, 1)), 4)
  }

  function ImmCLui(op: U32): I32 {
    ExShift(Deposit32(Extract32(op, 2, 5), 5, 27, Sx(op, 12, 1)), 12)
  }

  // c.srli, c.srai and c.slli
  function ImmCShift(op: U32): I32 {
    ToI32(Deposit32(Extract32(op, 2, 5), 5, 27, Extract32(op, 12, 1)))
  }

  function ImmCJ(op: U32): I32 {
    ExShift(Deposit32(Deposit32(Deposit32(Deposit32(Deposit32(Deposit32(Deposit32(Extract32(op, 3, 3), 3, 29,
      Extract32(op, 11, 1)), 4, 28, Extract32(op, 2, 1)), 5, 27, Extract32(op, 7, 1)), 6, 26,
      Extract32(op, 6, 1)), 7, 25, Extract32(op, 9, 2)), 9, 23, Extract32(op, 8, 1)), 10, 22, Sx(op, 12, 1)), 1)
  }

  // c.beqz and c.bnez
  function ImmCBeqz(op: U32): I32 {
    ExShift(Deposit32(Deposit32(Deposit32(Deposit32(Extract32(op, 3, 2), 2, 30,
      Extract32(op, 10, 2)), 4, 28, Extract32(op, 2, 1)), 5, 27, Extract32(op, 5, 2)), 7, 25, Sx(op, 12, 1)), 1)
  }

  function ImmCLdsp(op: U32): I32 {
    ExShift(Deposit32(Deposit32(Extract32(op, 5, 2), 2, 30, Extract32(op, 12, 1)), 3, 29, Extract32(op, 2, 3)), 3)
  }

  function ImmCLwsp(op: U32): I32 {
    ExShift(Deposit32(Deposit32(Extract32(op, 4, 3), 3, 29, Extract32(op, 12, 1)), 4, 28, Extract32(op, 2, 2)), 2)
  }

  function ImmCSwsp(op: U32): I32 {
    ExShift(Deposit32(Extract32(op, 9, 4), 4, 28, Extract32(op, 7, 2)), 2)
  }

  function ImmCSdsp(op: U32): I32 {
    ExShift(Deposit32(Extract32(op, 10, 3), 3, 29, Extract32(op, 7, 3)), 3)
  }

  function ImmI(op: U32): I32 {
    Sextract32(op, 20, 12)
  }

  function ImmS(op: U32): I32 {
    ToI32(Deposit32(Extract32(op, 7, 5), 5, 27, Sx(op, 25, 7)))
  }

  function ImmB(op: U32): I32 {
    ExShift(Deposit32(Deposit32(Deposit32(Extract32(op, 8, 4), 4, 28, Extract32(op, 25, 6)), 10, 22,
      Extract32(op, 7, 1)), 11, 21, Sx(op, 31, 1)), 1)
  }

  function ImmU(op: U32): I32 {
    ExShift(Sx(op, 12, 20), 12)
  }

  function ImmJ(op: U32): I32 {
    ExShift(Deposit32(Deposit32(Deposit32(Extract32(op, 21, 10), 10, 22, Extract32(op, 20, 1)), 11, 21,
      Extract32(op, 12, 8)), 19, 13, Sx(op, 31, 1)), 1)
  }

  // ---- trans_* ----

  // A handler that does not end the block.
  function Straight(insn: Insn): Trans {
    Trans(insn, false, None, None)
  }

  function Illegal(pc: Word): Trans {
    Trans(BLANK.(handler := DoIllegal, pc := pc), true, None, None)
  }

  function Ecall(pc: Word): Trans {
    Trans(BLANK.(handler := DoEcall, pc := pc), true, None, None)
  }

  function Jump(pc: Word, len: int, rd: Reg, imm: I32): Trans {
    Trans(Insn(DoJal(len), 0, 0, rd, imm, pc), true, Some(Plus(pc, imm)), None)
  }

  function JumpReg(pc: Word, len: int, rd: Reg, rs1: Reg, imm: I32): Trans {
    Trans(Insn(DoJalr(len), rs1, 0, rd, imm, pc), true, None, None)
  }

  function Branch(pc: Word, cond: Cond, len: int, rs1: Reg, rs2: Reg, imm: I32): Trans {
    Trans(Insn(DoBranch(cond, len), rs1, rs2, 0, imm, pc), true, Some(Plus(pc, imm)), Some(Plus(pc, len)))
  }

  // gen_trans_r: writes to x0 become do_empty.
  function TransR(op: U32, alu: AluOp): Trans {
    var insn := Insn(DoAlu(alu), RegAt(op, 15), RegAt(op, 20), RegAt(op, 7), 0, 0);
    Straight(if insn.rd == 0 then insn.(handler := DoEmpty) else insn)
  }

  // gen_trans_i
  function TransI(op: U32, handler: Handler): Trans {
    var insn := Insn(handler, RegAt(op, 15), 0, RegAt(op, 7), ImmI(op), 0);
    Straight(if insn.rd == 0 then insn.(handler := DoEmpty) else insn)
  }

  // gen_trans_s
  function TransS(op: U32, size: nat): Trans {
    Straight(Insn(DoStore(size), RegAt(op, 15), RegAt(op, 20), 0, ImmS(op), 0))
  }

  // gen_trans_b
  function TransB(pc: Word, op: U32, cond: Cond): Trans {
    Branch(pc, cond, 4, RegAt(op, 15), RegAt(op, 20), ImmB(op))
  }

  // gen_trans_csr; insn->pc is not set.
  function TransCsr(op: U32, csrOp: CsrOp, immediate: bool): Trans {
    Straight(Insn(DoCsr(csrOp, immediate), RegAt(op, 15), 0, RegAt(op, 7), Extract32(op, 20, 12), 0))
  }

  function TransLoadReserved(op: U32, size: nat): Trans {
    Straight(Insn(DoLoadReserved(size), RegAt(op, 15), 0, RegAt(op, 7), 0, 0))
  }

  function TransAtomic(op: U32, handler: Handler): Trans {
    Straight(Insn(handler, RegAt(op, 15), RegAt(op, 20), RegAt(op, 7), 0, 0))
  }

  // A compressed form that is illegal under guard, otherwise insn.
  function Guarded(pc: Word, guard: bool, insn: Insn): Trans {
    if guard then Illegal(pc) else Straight(insn)
  }

  // ---- decode_insn16 ----

  function TransCAddi(op: U32): Trans {
    var rd := RegAt(op, 7);
    var insn := Insn(DoAluImm(Add), rd, 0, rd, ImmCAddi(op), 0);
    Straight(if rd == 0 then insn.(handler := DoEmpty) else insn)
  }

  function TransCLui(pc: Word, op: U32): Trans {
    var rd, imm := RegAt(op, 7), ImmCLui(op);
    Guarded(pc, rd == 0 || rd == 2 || imm == 0, Insn(DoLui, 0, 0, rd, imm, 0))
  }

  function CAlu(op: U32, alu: AluOp): Trans {
    Straight(Insn(DoAlu(alu), CRegAt(op, 7), CRegAt(op, 2), CRegAt(op, 7), 0, 0))
  }

  // case 0x8001
  function DecodeCArith(pc: Word, op: U32): Trans {
    var r := CRegAt(op, 7);
    match Extract32(op, 10, 2)
    case 0 => Straight(Insn(DoAluImm(Srl), r, 0, r, ImmCShift(op), 0))
    case 1 => Straight(Insn(DoAluImm(Sra), r, 0, r, ImmCShift(op), 0))
    case 2 => Straight(Insn(DoAluImm(BitAnd), r, 0, r, ImmCAddi(op), 0))
    case _ =>
      match And(op, 0x1060)
      case 0x0000 => CAlu(op, Sub)
      case 0x0020 => CAlu(op, BitXor)
      case 0x0040 => CAlu(op, BitOr)
      case 0x0060 => CAlu(op, BitAnd)
      case 0x1000 => CAlu(op, Subw)
      case 0x1020 => CAlu(op, Addw)
      case _ => Illegal(pc)
  }

  // case 0x8002
  function DecodeCMove(pc: Word, op: U32): Trans {
    var rd, rs2 := RegAt(op, 7), RegAt(op, 2);
    if Extract32(op, 12, 1) == 0 then
      if And(op, 0x007c) == 0 then
        (if rd == 0 then Illegal(pc) else JumpReg(pc, 2, 0, rd, 0))
      else
        Guarded(pc, rd == 0 || rs2 == 0, Insn(DoAluImm(Add), rs2, 0, rd, 0, 0))
    else if And(op, 0x0ffc) == 0 then
      Straight(BLANK)
    else if And(op, 0x007c) == 0 then
      (if rd == 0 then Illegal(pc) else JumpReg(pc, 2, 1, rd, 0))
    else
      Guarded(pc, rd == 0 || rs2 == 0, Insn(DoAlu(Add), rd, rs2, rd, 0, 0))
  }

  function Decode16(pc: Word, op: U32): Trans {
    var rd := RegAt(op, 7);
    match And(op, 0xe003)
    case 0x0000 =>
      if And(op, 0x1fe0) == 0 then Illegal(pc)
      else Straight(Insn(DoAluImm(Add), 2, 0, CRegAt(op, 2), ImmCAddi4spn(op), 0))
    case 0x0001 => TransCAddi(op)
    case 0x0002 => Guarded(pc, rd == 0, Insn(DoAluImm(Sll), rd, 0, rd, ImmCShift(op), 0))
    case 0x2001 => Guarded(pc, rd == 0, Insn(DoAluImm(Addw), rd, 0, rd, ImmCAddi(op), 0))
    case 0x4000 => Straight(Insn(DoLoad(4, true), CRegAt(op, 7), 0, CRegAt(op, 2), ImmCLw(op), 0))
    case 0x4001 => Guarded(pc, rd == 0, Insn(DoAluImm(Add), 0, 0, rd, ImmCAddi(op), 0))
    case 0x4002 => Guarded(pc, rd == 0, Insn(DoLoad(4, true), 2, 0, rd, ImmCLwsp(op), 0))
    case 0x6000 => Straight(Insn(DoLoad(8, true), CRegAt(op, 7), 0, CRegAt(op, 2), ImmCLd(op), 0))
    case 0x6001 =>
      if And(op, 0x0f80) == 0x0100 then Straight(Insn(DoAluImm(Add), 2, 0, 2, ImmCAddi16sp(op), 0))
      else TransCLui(pc, op)
    case 0x6002 => Guarded(pc, rd == 0, Insn(DoLoad(8, true), 2, 0, rd, ImmCLdsp(op), 0))
    case 0x8001 => DecodeCArith(pc, op)
    case 0x8002 => DecodeCMove(pc, op)
    case 0xa001 => Jump(pc, 2, 0, ImmCJ(op))
    case 0xc000 => Straight(Insn(DoStore(4), CRegAt(op, 7), CRegAt(op, 2), 0, ImmCLw(op), 0))
    case 0xc002 => Straight(Insn(DoStore(4), 2, RegAt(op, 2), 0, ImmCSwsp(op), 0))
    case 0xc001 => Branch(pc, Eq, 2, CRegAt(op, 7), 0, ImmCBeqz(op))
    case 0xe000 => Straight(Insn(DoStore(8), CRegAt(op, 7), CRegAt(op, 2), 0, ImmCLd(op), 0))
    case 0xe001 => Branch(pc, Ne, 2, CRegAt(op, 7), 0, ImmCBeqz(op))
    case 0xe002 => Straight(Insn(DoStore(8), 2, RegAt(op, 2), 0, ImmCSdsp(op), 0))
    case _ => Illegal(pc)
  }

  // ---- decode_insn32 ----

  const FUNCT3_MASK := 0x0000_7000
  const FUNCT7_MASK := 0xfe00_0000
  const OP_27_31_MASK := 0xf800_0000
  const OP_20_24_MASK := 0x01f0_0000
  const I_11_X_MASK := 0xfc00_0000

  function DecodeLoad(pc: Word, op: U32): Trans {
    match And(op, FUNCT3_MASK)
    case 0x0000 => TransI(op, DoLoad(1, true))
    case 0x1000 => TransI(op, DoLoad(2, true))
    case 0x2000 => TransI(op, DoLoad(4, true))
    case 0x3000 => TransI(op, DoLoad(8, true))
    case 0x4000 => TransI(op, DoLoad(1, false))
    case 0x5000 => TransI(op, DoLoad(2, false))
    case 0x6000 => TransI(op, DoLoad(4, false))
    case _ => Illegal(pc)
  }

  // pause, fence and fence.i are all do_empty.
  function DecodeFence(pc: Word, op: U32): Trans {
    match And(op, FUNCT3_MASK)
    case 0x0000 => Straight(BLANK)
    case 0x1000 => Straight(BLANK)
    case _ => Illegal(pc)
  }

  function DecodeAluImm(pc: Word, op: U32): Trans {
    match And(op, FUNCT3_MASK)
    case 0x0000 => TransI(op, DoAluImm(Add))
    case 0x1000 => if And(op, I_11_X_MASK) == 0 then TransI(op, DoAluImm(Sll)) else Illegal(pc)
    case 0x2000 => TransI(op, DoAluImm(Slt))
    case 0x3000 => TransI(op, DoAluImm(Sltu))
    case 0x4000 => TransI(op, DoAluImm(BitXor))
    case 0x5000 =>
      if And(op, I_11_X_MASK) == 0 then TransI(op, DoAluImm(Srl))
      else if And(op, I_11_X_MASK) == 0x4000_0000 then TransI(op, DoAluImm(Sra))
      else Illegal(pc)
    case 0x6000 => TransI(op, DoAluImm(BitOr))
    case 0x7000 => TransI(op, DoAluImm(BitAnd))
    case _ => Illegal(pc)
  }

  function DecodeAluImmW(pc: Word, op: U32): Trans {
    match And(op, FUNCT3_MASK)
    case 0x0000 => TransI(op, DoAluImm(Addw))
    case 0x1000 => if And(op, FUNCT7_MASK) == 0 then TransI(op, DoAluImm(Sllw)) else Illegal(pc)
    case 0x5000 =>
      if And(op, FUNCT7_MASK) == 0 then TransI(op, DoAluImm(Srlw))
      else if And(op, FUNCT7_MASK) == 0x4000_0000 then TransI(op, DoAluImm(Sraw))
      else Illegal(pc)
    case _ => Illegal(pc)
  }

  function DecodeStore(pc: Word, op: U32): Trans {
    match And(op, FUNCT3_MASK)
    case 0x0000 => TransS(op, 1)
    case 0x1000 => TransS(op, 2)
    case 0x2000 => TransS(op, 4)
    case 0x3000 => TransS(op, 8)
    case _ => Illegal(pc)
  }

  function DecodeAmo(pc: Word, op: U32, size: nat): Trans {
    match And(op, OP_27_31_MASK)
    case 0x0000_0000 => TransAtomic(op, DoAmo(AmoAdd, size))
    case 0x0800_0000 => TransAtomic(op, DoAmo(AmoSwap, size))
    case 0x1000_0000 => if And(op, OP_20_24_MASK) == 0 then TransLoadReserved(op, size) else Illegal(pc)
    case 0x1800_0000 => TransAtomic(op, DoStoreConditional(size))
    case 0x2000_0000 => TransAtomic(op, DoAmo(AmoXor, size))
    case 0x4000_0000 => TransAtomic(op, DoAmo(AmoOr, size))
    case 0x6000_0000 => TransAtomic(op, DoAmo(AmoAnd, size))
    case 0x8000_0000 => TransAtomic(op, DoAmo(AmoMin, size))
    case 0xa000_0000 => TransAtomic(op, DoAmo(AmoMax, size))
    case 0xc000_0000 => TransAtomic(op, DoAmo(AmoMinu, size))
    case 0xe000_0000 => TransAtomic(op, DoAmo(AmoMaxu, size))
    case _ => Illegal(pc)
  }

  function DecodeAtomic(pc: Word, op: U32): Trans {
    match And(op, FUNCT3_MASK)
    case 0x2000 => DecodeAmo(pc, op, 4)
    case 0x3000 => DecodeAmo(pc, op, 8)
    case _ => Illegal(pc)
  }

  // The register-register group: base operation, the one selected by bit 30,
  // and the one of the M extension; None where the group has none.
  function DecodeGroup(pc: Word, op: U32, base: Option<AluOp>, alternate: Option<AluOp>,
      multiply: Option<AluOp>): Trans {
    match And(op, FUNCT7_MASK)
    case 0x0000_0000 => if base.Some? then TransR(op, base.value) else Illegal(pc)
    case 0x4000_0000 => if alternate.Some? then TransR(op, alternate.value) else Illegal(pc)
    case 0x0200_0000 => if multiply.Some? then TransR(op, multiply.value) else Illegal(pc)
    case _ => Illegal(pc)
  }

  function DecodeAlu(pc: Word, op: U32): Trans {
    match And(op, FUNCT3_MASK)
    case 0x0000 => DecodeGroup(pc, op, Some(Add), Some(Sub), Some(Mul))
    case 0x1000 => DecodeGroup(pc, op, Some(Sll), None, Some(Mulh))
    case 0x2000 => DecodeGroup(pc, op, Some(Slt), None, Some(Mulhsu))
    case 0x3000 => DecodeGroup(pc, op, Some(Sltu), None, Some(Mulhu))
    case 0x4000 => DecodeGroup(pc, op, Some(BitXor), None, Some(Div))
    case 0x5000 => DecodeGroup(pc, op, Some(Srl), Some(Sra), Some(Divu))
    case 0x6000 => DecodeGroup(pc, op, Some(BitOr), None, Some(Rem))
    case 0x7000 => DecodeGroup(pc, op, Some(BitAnd), None, Some(Remu))
    case _ => Illegal(pc)
  }

  function DecodeAluW(pc: Word, op: U32): Trans {
    match And(op, FUNCT3_MASK)
    case 0x0000 => DecodeGroup(pc, op, Some(Addw), Some(Subw), Some(Mulw))
    case 0x1000 => DecodeGroup(pc, op, Some(Sllw), None, None)
    case 0x4000 => DecodeGroup(pc, op, None, None, Some(Divw))
    case 0x5000 => DecodeGroup(pc, op, Some(Srlw), Some(Sraw), Some(Divuw))
    case 0x6000 => DecodeGroup(pc, op, None, None, Some(Remw))
    case 0x7000 => DecodeGroup(pc, op, None, None, Some(Remuw))
    case _ => Illegal(pc)
  }

  function DecodeBranch(pc: Word, op: U32): Trans {
    match And(op, FUNCT3_MASK)
    case 0x0000 => TransB(pc, op, Eq)
    case 0x1000 => TransB(pc, op, Ne)
    case 0x4000 => TransB(pc, op, Lt)
    case 0x5000 => TransB(pc, op, Ge)
    case 0x6000 => TransB(pc, op, Ltu)
    case 0x7000 => TransB(pc, op, Geu)
    case _ => Illegal(pc)
  }

  function DecodeSystem(pc: Word, op: U32): Trans {
    match And(op, FUNCT3_MASK)
    case 0x0000 => Ecall(pc)
    case 0x1000 => TransCsr(op, Write, false)
    case 0x2000 => TransCsr(op, Set, false)
    case 0x3000 => TransCsr(op, Clear, false)
    case 0x5000 => TransCsr(op, Write, true)
    case 0x6000 => TransCsr(op, Set, true)
    case 0x7000 => TransCsr(op, Clear, true)
    case _ => Illegal(pc)
  }

  function Decode32(pc: Word, op: U32): Trans {
    match And(op, 0x7f)
    case 0x03 => DecodeLoad(pc, op)
    case 0x0f => DecodeFence(pc, op)
    case 0x13 => DecodeAluImm(pc, op)
    case 0x17 => Straight(Insn(DoAuipc, 0, 0, RegAt(op, 7), ImmU(op), pc))
    case 0x1b => DecodeAluImmW(pc, op)
    case 0x23 => DecodeStore(pc, op)
    case 0x2f => DecodeAtomic(pc, op)
    case 0x33 => DecodeAlu(pc, op)
    case 0x37 => Straight(Insn(DoLui, 0, 0, RegAt(op, 7), ImmU(op), 0))
    case 0x3b => DecodeAluW(pc, op)
    case 0x63 => DecodeBranch(pc, op)
    case 0x67 =>
      if And(op, FUNCT3_MASK) == 0 then JumpReg(pc, 4, RegAt(op, 7), RegAt(op, 15), ImmI(op))
      else Illegal(pc)
    case 0x6f => Jump(pc, 4, RegAt(op, 7), ImmJ(op))
    case 0x73 => DecodeSystem(pc, op)
    case _ => Illegal(pc)
  }

  // insn_len
  function InsnLen(op: U32): int {
    if And(op, 3) == 3 then 4 else 2
  }

  // One pass of the loop in decode: a two-byte instruction is decoded from the
  // low half of the fetched word.
  function DecodeInsn(pc: Word, op: U32): Trans {
    if InsnLen(op) == 2 then Decode16(pc, op % 0x1_0000) else Decode32(pc, op)
  }
}
