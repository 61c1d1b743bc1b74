// What each encoded instruction does when it is executed: from the word in
// memory, through decoder and handler, to registers, pc and memory.  Every
// result is stated in terms of the machine before, and by the laws of AluLaws.
module Executed {
  import opened Bits
  import opened BitFields
  import opened Words
  import opened Decode
  import opened Machine
  import opened Blocks
  import opened Reference
  import opened Masks
  import opened Immediates
  import opened Instructions
  import opened ShortInstructions
  import opened HandlerFacts
  import opened AluLaws

  // Decoding the word at pc and calling its handler.
  function Run(pc: Word, word: U32, m: Machine): Outcome {
    Exec(DecodeInsn(pc, word).insn, m)
  }

  function WithReg(m: Machine, rd: Reg, v: Word): Machine {
    m.(gpr := m.gpr[rd := v])
  }

  // ---- Arithmetic ----

  // rd alone is written, with the result of op on a and b; x0 is not.
  ghost predicate Computes(o: Outcome, m: Machine, rd: Reg, op: AluOp, a: Word, b: Word) {
    if rd == 0 then o == Next(m)
    else if Traps(op, a, b) then o == Halted(HostFault)
    else exists v: Word :: Meets(op, a, b, v) && o == Next(WithReg(m, rd, v))
  }

  lemma AluWrites(op: AluOp, rd: Reg, a: Word, b: Word, m: Machine)
    requires rd != 0
    ensures Computes(ExecAlu(op, rd, a, b, m), m, rd, op, a, b)
  {
    hide Alu, Meets, Traps;
    AluMeets(op, a, b);
  }

  // add to remu
  lemma RegisterExecutes(pc: Word, rd: Reg, funct3: nat, rs1: Reg, rs2: Reg, funct7: nat, m: Machine)
    requires RegisterOp(funct7, funct3).Some?
    ensures var word := EncodeR(0x33, rd, funct3, rs1, rs2, funct7);
      Computes(Run(pc, word, m), m, rd, RegisterOp(funct7, funct3).value, m.gpr[rs1], m.gpr[rs2])
  {
    hide DecodeInsn, EncodeR, ExecAlu, RegisterOp, Computes;
    RegisterDecodes(pc, rd, funct3, rs1, rs2, funct7);
    if rd == 0 {
      NothingComputed(m, RegisterOp(funct7, funct3).value, m.gpr[rs1], m.gpr[rs2]);
    } else {
      AluWrites(RegisterOp(funct7, funct3).value, rd, m.gpr[rs1], m.gpr[rs2], m);
    }
  }

  lemma NothingComputed(m: Machine, op: AluOp, a: Word, b: Word)
    ensures Computes(Next(m), m, 0, op, a, b)
  {
  }

  // addw to remuw
  lemma RegisterWExecutes(pc: Word, rd: Reg, funct3: nat, rs1: Reg, rs2: Reg, funct7: nat, m: Machine)
    requires RegisterOpW(funct7, funct3).Some?
    ensures var word := EncodeR(0x3b, rd, funct3, rs1, rs2, funct7);
      Computes(Run(pc, word, m), m, rd, RegisterOpW(funct7, funct3).value, m.gpr[rs1], m.gpr[rs2])
  {
    hide DecodeInsn, EncodeR, ExecAlu, RegisterOpW, Computes;
    RegisterWDecodes(pc, rd, funct3, rs1, rs2, funct7);
    if rd == 0 {
      NothingComputed(m, RegisterOpW(funct7, funct3).value, m.gpr[rs1], m.gpr[rs2]);
    } else {
      AluWrites(RegisterOpW(funct7, funct3).value, rd, m.gpr[rs1], m.gpr[rs2], m);
    }
  }

  // An instruction with an immediate operand, once decoded.
  lemma ImmediateRuns(rd: Reg, op: AluOp, rs1: Reg, imm: I32, m: Machine)
    ensures var i := Unless0(rd, Insn(DoAluImm(op), rs1, 0, rd, imm, 0)).insn;
      Computes(Exec(i, m), m, rd, op, m.gpr[rs1], imm % TWO64)
  {
    hide ExecAlu, Computes;
    if rd == 0 {
      NothingComputed(m, op, m.gpr[rs1], imm % TWO64);
    } else {
      AluWrites(op, rd, m.gpr[rs1], imm % TWO64, m);
    }
  }

  // addi, slti, sltiu, xori, ori and andi
  lemma AluImmExecutes(pc: Word, imm: I32, rd: Reg, funct3: nat, rs1: Reg, m: Machine)
    requires -0x800 <= imm < 0x800 && ImmediateOp(funct3).Some?
    ensures var word := EncodeI(imm, 0x13, rd, funct3, rs1);
      Computes(Run(pc, word, m), m, rd, ImmediateOp(funct3).value, m.gpr[rs1], imm % TWO64)
  {
    hide DecodeInsn, EncodeI, Exec, ImmediateOp, Computes;
    AluImmDecodes(pc, imm, rd, funct3, rs1);
    ImmediateRuns(rd, ImmediateOp(funct3).value, rs1, imm, m);
  }

  lemma AddiwExecutes(pc: Word, imm: I32, rd: Reg, rs1: Reg, m: Machine)
    requires -0x800 <= imm < 0x800
    ensures Computes(Run(pc, EncodeI(imm, 0x1b, rd, 0, rs1), m), m, rd, Addw, m.gpr[rs1], imm % TWO64)
  {
    hide DecodeInsn, EncodeI, Exec, Computes;
    AddiwDecodes(pc, imm, rd, rs1);
    ImmediateRuns(rd, Addw, rs1, imm, m);
  }

  // Only the low bits of a shift amount count, so that the bit that tells srai
  // from srli does not.
  lemma AmountOnly(o: Outcome, m: Machine, rd: Reg, op: AluOp, a: Word, amount: nat)
    requires (op.Sra? && amount < 64) || (op.Sraw? && amount < 32)
    requires Computes(o, m, rd, op, a, (0x400 + amount) % TWO64)
    ensures Computes(o, m, rd, op, a, amount)
  {
    hide Pow2, Signed, SignedLow32;
    assert (0x400 + amount) % TWO64 == 0x400 + amount;
    assert (0x400 + amount) % 64 == amount % 64 && (0x400 + amount) % 32 == amount % 32;
    if rd != 0 {
      var v: Word :| Meets(op, a, 0x400 + amount, v) && o == Next(WithReg(m, rd, v));
      assert Meets(op, a, amount, v);
    }
  }

  // slli, srli and srai
  lemma ShiftExecutes(pc: Word, amount: nat, rd: Reg, rs1: Reg, m: Machine)
    requires amount < 64
    ensures Computes(Run(pc, EncodeI(amount, 0x13, rd, 1, rs1), m), m, rd, Sll, m.gpr[rs1], amount)
    ensures Computes(Run(pc, EncodeI(amount, 0x13, rd, 5, rs1), m), m, rd, Srl, m.gpr[rs1], amount)
    ensures Computes(Run(pc, EncodeI(0x400 + amount, 0x13, rd, 5, rs1), m), m, rd, Sra, m.gpr[rs1], amount)
  {
    hide DecodeInsn, EncodeI, Exec, Computes;
    ShiftDecodes(pc, amount, rd, rs1);
    ImmediateRuns(rd, Sll, rs1, amount, m);
    ImmediateRuns(rd, Srl, rs1, amount, m);
    ImmediateRuns(rd, Sra, rs1, 0x400 + amount, m);
    AmountOnly(Run(pc, EncodeI(0x400 + amount, 0x13, rd, 5, rs1), m), m, rd, Sra, m.gpr[rs1], amount);
  }

  // slliw, srliw and sraiw
  lemma ShiftWExecutes(pc: Word, amount: nat, rd: Reg, rs1: Reg, m: Machine)
    requires amount < 32
    ensures Computes(Run(pc, EncodeI(amount, 0x1b, rd, 1, rs1), m), m, rd, Sllw, m.gpr[rs1], amount)
    ensures Computes(Run(pc, EncodeI(amount, 0x1b, rd, 5, rs1), m), m, rd, Srlw, m.gpr[rs1], amount)
    ensures Computes(Run(pc, EncodeI(0x400 + amount, 0x1b, rd, 5, rs1), m), m, rd, Sraw, m.gpr[rs1], amount)
  {
    hide DecodeInsn, EncodeI, Exec, Computes;
    ShiftWDecodes(pc, amount, rd, rs1);
    ImmediateRuns(rd, Sllw, rs1, amount, m);
    ImmediateRuns(rd, Srlw, rs1, amount, m);
    ImmediateRuns(rd, Sraw, rs1, 0x400 + amount, m);
    AmountOnly(Run(pc, EncodeI(0x400 + amount, 0x1b, rd, 5, rs1), m), m, rd, Sraw, m.gpr[rs1], amount);
  }

  // lui and auipc, which write x0 too.
  lemma UpperExecutes(pc: Word, imm: I32, rd: Reg, m: Machine)
    requires imm % 0x1000 == 0
    ensures Run(pc, EncodeU(imm, 0x37, rd), m) == Next(WithReg(m, rd, imm % TWO64))
    ensures Run(pc, EncodeU(imm, 0x17, rd), m) == Next(WithReg(m, rd, (pc + imm) % TWO64))
  {
    hide DecodeInsn, EncodeU;
    UpperDecodes(pc, imm, rd);
  }

  // ---- Jumps and branches ----

  // The machine after the link register has been written.
  function Linked(m: Machine, rd: Reg, v: Word): Machine {
    if rd == 0 then m else WithReg(m, rd, v)
  }

  // The even address at or just below x.
  function Even(x: Word): Word {
    if x % 2 == 0 then x else x - 1
  }

  lemma JalExecutes(pc: Word, imm: I32, rd: Reg, m: Machine)
    requires -0x10_0000 <= imm < 0x10_0000 && imm % 2 == 0
    ensures Run(pc, EncodeJ(imm, 0x6f, rd), m) == Next(Linked(m, rd, (pc + 4) % TWO64).(pc := (pc + imm) % TWO64))
  {
    hide DecodeInsn, EncodeJ;
    JalDecodes(pc, imm, rd);
  }

  // The link is written first, so that with rd == rs1 the jump is relative to it.
  lemma JalrExecutes(pc: Word, imm: I32, rd: Reg, rs1: Reg, m: Machine)
    requires -0x800 <= imm < 0x800
    ensures var base := if rd == rs1 && rd != 0 then (pc + 4) % TWO64 else m.gpr[rs1];
      Run(pc, EncodeI(imm, 0x67, rd, 0, rs1), m)
      == Next(Linked(m, rd, (pc + 4) % TWO64).(pc := Even((base + imm) % TWO64)))
  {
    hide DecodeInsn, EncodeI;
    JalrDecodes(pc, imm, rd, rs1);
  }

  // c.j
  lemma CJExecutes(pc: Word, op: U32, imm: I32, m: Machine)
    requires -0x800 <= imm < 0x800 && imm % 2 == 0 && Begins(op, EncodeCJ(imm, 1, 5))
    ensures Run(pc, op, m) == Next(m.(pc := (pc + imm) % TWO64))
  {
    hide DecodeInsn, EncodeCJ;
    CJDecodes(pc, op, imm);
  }

  lemma JumpRuns(pc: Word, rd: Reg, rs1: Reg, m: Machine)
    ensures var base := if rd == rs1 && rd != 0 then (pc + 2) % TWO64 else m.gpr[rs1];
      Exec(JumpReg(pc, 2, rd, rs1, 0).insn, m) == Next(Linked(m, rd, (pc + 2) % TWO64).(pc := Even(base)))
  {
    hide Wrap, Even;
    var base := if rd == rs1 && rd != 0 then Plus(pc, 2) else m.gpr[rs1];
    SmallWord(base);
    EvenIs(base);
    WrapIs(pc + 2);
  }

  lemma EvenIs(x: Word)
    ensures Even(x) == x - x % 2
  {
  }

  lemma WrapIs(x: int)
    ensures Wrap(x) == x % TWO64
  {
  }

  // c.jr and c.jalr; c.jalr links to x1 before it reads its register.
  lemma CJumpExecutes(pc: Word, op: U32, bit12: nat, rs1: Reg, m: Machine)
    requires bit12 < 2 && rs1 != 0 && Begins(op, EncodeCR(2, 0, rs1, bit12, 4))
    ensures bit12 == 0 ==> Run(pc, op, m) == Next(m.(pc := Even(m.gpr[rs1])))
    ensures bit12 == 1 ==>
      var base := if rs1 == 1 then (pc + 2) % TWO64 else m.gpr[rs1];
      Run(pc, op, m) == Next(WithReg(m, 1, (pc + 2) % TWO64).(pc := Even(base)))
  {
    hide DecodeInsn, EncodeCR, Exec, JumpReg, Even;
    CMoveDecodes(pc, op, bit12, rs1, 0);
    JumpRuns(pc, bit12, rs1, m);
  }

  // When a branch goes: by the exact difference of its operands, signed for blt
  // and bge.
  predicate Goes(funct3: nat, a: Word, b: Word) {
    match funct3
    case 0 => a - b == 0
    case 1 => a - b != 0
    case 4 => Signed(a) - Signed(b) < 0
    case 5 => Signed(a) - Signed(b) >= 0
    case 6 => a - b < 0
    case _ => a - b >= 0
  }

  lemma BranchExecutes(pc: Word, imm: I32, funct3: nat, rs1: Reg, rs2: Reg, m: Machine)
    requires -0x1000 <= imm < 0x1000 && imm % 2 == 0 && BranchCond(funct3).Some?
    ensures var step := if Goes(funct3, m.gpr[rs1], m.gpr[rs2]) then imm else 4;
      Run(pc, EncodeB(imm, 0x63, funct3, rs1, rs2), m) == Next(m.(pc := (pc + step) % TWO64))
  {
    hide DecodeInsn, EncodeB, Signed;
    BranchDecodes(pc, imm, funct3, rs1, rs2);
  }

  // Of beq a b, blt a b and blt b a exactly one goes, and so with bltu.
  lemma ExactlyOneGoes(a: Word, b: Word)
    ensures var eq, lt, gt := Goes(0, a, b), Goes(4, a, b), Goes(4, b, a);
      (eq && !lt && !gt) || (!eq && lt && !gt) || (!eq && !lt && gt)
    ensures var eq, lt, gt := Goes(0, a, b), Goes(6, a, b), Goes(6, b, a);
      (eq && !lt && !gt) || (!eq && lt && !gt) || (!eq && !lt && gt)
  {
  }

  // c.beqz and c.bnez
  lemma CBranchExecutes(pc: Word, op: U32, imm: I32, rs1: nat, funct3: nat, m: Machine)
    requires -0x100 <= imm < 0x100 && imm % 2 == 0 && rs1 < 8 && (funct3 == 6 || funct3 == 7)
    requires Begins(op, EncodeCBeqz(imm, 1, rs1, funct3)) && m.gpr[0] == 0
    ensures var step := if (m.gpr[8 + rs1] == 0) == (funct3 == 6) then imm else 2;
      Run(pc, op, m) == Next(m.(pc := (pc + step) % TWO64))
  {
    hide DecodeInsn, EncodeCBeqz, Signed;
    if funct3 == 6 {
      CBeqzDecodes(pc, op, imm, rs1);
    } else {
      CBnezDecodes(pc, op, imm, rs1);
    }
  }

  // ---- Memory ----

  predicate Mapped(mem: Memory, a: Word, k: nat) {
    (a + k) % TWO64 in mem
  }

  // A load needs all its bytes and nothing else.
  lemma {:induction false} LoadNeedsAll(mem: Memory, a: Word, n: nat)
    ensures LoadBytes(mem, a, n).Some? <==> forall k :: 0 <= k < n ==> Mapped(mem, a, k)
    decreases n
  {
    hide Mapped, Plus;
    if n > 0 {
      var next := Plus(a, 1);
      LoadNeedsAll(mem, next, n - 1);
      MappedFirst(mem, a);
      forall k | 0 < k < n ensures Mapped(mem, a, k) <==> Mapped(mem, next, k - 1) {
        MappedNext(mem, a, k);
      }
      assert forall k :: 0 <= k < n - 1 ==> (Mapped(mem, next, k) <==> Mapped(mem, a, k + 1));
    }
  }

  lemma MappedFirst(mem: Memory, a: Word)
    ensures Mapped(mem, a, 0) <==> a in mem
  {
  }

  lemma MappedNext(mem: Memory, a: Word, k: nat)
    requires k > 0
    ensures Mapped(mem, a, k) <==> Mapped(mem, Plus(a, 1), k - 1)
  {
    NextAddress(a, k);
  }

  // The k-th byte of what is loaded is the byte k addresses up.
  lemma {:induction false} LoadedByte(mem: Memory, a: Word, n: nat, k: nat)
    requires k < n && LoadBytes(mem, a, n).Some?
    ensures Mapped(mem, a, k) && (LoadBytes(mem, a, n).value / Pow2(8 * k)) % 256 == mem[(a + k) % TWO64]
    decreases n
  {
    hide Pow2, LoadBytes, Plus;
    var next := Plus(a, 1);
    LoadUnfold(mem, a, n);
    var high := LoadBytes(mem, next, n - 1).value;
    if k > 0 {
      LoadedByte(mem, next, n - 1, k - 1);
      NextAddress(a, k);
      ByteAbove(mem[a], high, k);
    } else {
      LowestByte(mem[a], high);
    }
  }

  lemma LoadUnfold(mem: Memory, a: Word, n: nat)
    requires n > 0 && LoadBytes(mem, a, n).Some?
    ensures a in mem && LoadBytes(mem, Plus(a, 1), n - 1).Some?
    ensures LoadBytes(mem, a, n).value == mem[a] + 256 * LoadBytes(mem, Plus(a, 1), n - 1).value
  {
  }

  lemma LowestByte(low: Byte, high: nat)
    ensures ((low + 256 * high) / Pow2(0)) % 256 == low
  {
    DivModUnique(low + 256 * high, 256, high, low);
  }

  lemma NextAddress(a: Word, k: nat)
    requires k > 0
    ensures (Plus(a, 1) + (k - 1)) % TWO64 == (a + k) % TWO64 && (a + 0) % TWO64 == a
  {
  }

  lemma ByteAbove(low: Byte, high: nat, k: nat)
    requires k > 0
    ensures (low + 256 * high) / Pow2(8 * k) == high / Pow2(8 * (k - 1))
  {
    hide Pow2, Shr;
    var x := low + 256 * high;
    ShrIsQuotient(x, 8 * k);
    ShrShr(x, 8, 8 * (k - 1));
    ShrIsQuotient(x, 8);
    Pow2Values();
    DivModUnique(x, 256, high, low);
    ShrIsQuotient(high, 8 * (k - 1));
  }

  lemma ShrIsQuotient(x: nat, n: nat)
    ensures Shr(x, n) == x / Pow2(n)
  {
    hide Pow2, Shr, Low;
    SplitIsDivMod(x, n);
  }

  lemma {:induction false} LoadBound(mem: Memory, a: Word, n: nat)
    ensures LoadBytes(mem, a, n).Some? ==> LoadBytes(mem, a, n).value < Pow2(8 * n)
    decreases n
  {
    hide Pow2;
    Pow2Values();
    if n > 0 {
      LoadBound(mem, Plus(a, 1), n - 1);
      Pow2Four(8 * (n - 1));
      Pow2Four(8 * (n - 1) + 4);
    }
  }

  // Bytes of an access by the low bits of its funct3.
  function Width(funct3: nat): nat {
    match funct3 % 4
    case 0 => 1
    case 1 => 2
    case 2 => 4
    case _ => 8
  }

  // w is x, of n bytes, zero- or sign-extended.
  ghost predicate Extends(w: Word, x: nat, n: nat, signed: bool)
    requires n > 0
  {
    && Congruent(w, x, Pow2(8 * n))
    && if signed then -1 * Pow2(8 * n - 1) <= Signed(w) < Pow2(8 * n - 1) else 0 <= w < Pow2(8 * n)
  }

  // rd alone is written, with the extended bytes; an unmapped byte faults.
  ghost predicate Loads(o: Outcome, m: Machine, rd: Reg, addr: Word, n: nat, signed: bool)
    requires n > 0
  {
    var loaded := LoadBytes(m.mem, addr, n);
    if loaded.None? then o == Halted(HostFault)
    else exists w: Word :: Extends(w, loaded.value, n, signed) && o == Next(WithReg(m, rd, w))
  }

  lemma ExtendsSigned(x: nat, n: nat)
    requires 0 < n <= 8 && x < Pow2(8 * n)
    ensures Extends(Wrap(SignedBytes(x, n)), x, n, true)
    ensures Extends(Wrap(x), x, n, false)
  {
    hide Pow2, SignedBytes;
    var p := Pow2(8 * n);
    Pow2Values();
    HalfOf64();
    Pow2Unfold(8 * n);
    SignedLoadRange(x, n);
    BytesDivideWords(n);
    WordResidue(SignedBytes(x, n), p);
    WordResidue(x, p);
    SignedOfWrap(SignedBytes(x, n));
    if SignedBytes(x, n) != x {
      OneLess(x, p);
    }
    SameResidue(SignedBytes(x, n), x, p);
  }

  lemma BytesDivideWords(n: nat)
    requires 0 < n <= 8
    ensures Pow2(8 * n) <= TWO64 && TWO64 % Pow2(8 * n) == 0 && Pow2(8 * n - 1) <= 0x8000_0000_0000_0000
  {
    hide Pow2;
    Pow2Values();
    Pow2Add(8 * n, 64 - 8 * n);
    Pow2Unfold(8 * n);
    var p, q := Pow2(8 * n), Pow2(64 - 8 * n);
    MulAtLeast(q, p);
    DivModUnique(TWO64, p, q, 0);
  }

  // Wrapping to a word keeps the residue modulo a divisor of 2^64.
  lemma WordResidue(x: int, p: nat)
    requires p > 0 && TWO64 % p == 0
    ensures Congruent(Wrap(x), x, p)
  {
    var q, d := x / TWO64, TWO64 / p;
    assert TWO64 == p * d;
    assert Wrap(x) - x == -q * TWO64;
    Reassociate(p, d, -q);
    DivModUnique(Wrap(x) - x, p, d * -q, 0);
  }

  lemma SameResidue(x: int, y: int, p: nat)
    requires p > 0 && TWO64 % p == 0 && (x == y || x == y - p) && Congruent(Wrap(x), x, p)
    ensures Congruent(Wrap(x), y, p)
  {
    var w := Wrap(x);
    var q := (w - x) / p;
    assert w - x == p * q;
    if x != y {
      WideDistribute(p, q);
      DivModUnique(w - y, p, q - 1, 0);
    }
  }

  lemma WideDistribute(p: int, q: int)
    ensures p * (q - 1) == p * q - p
  {
  }

  lemma LoadWrites(addr: Word, n: nat, signed: bool, rd: Reg, m: Machine)
    requires 0 < n <= 8
    ensures Loads(ExecLoad(addr, n, signed, rd, m), m, rd, addr, n, signed)
  {
    hide LoadBytes, Pow2, SignedBytes, Extends;
    if LoadBytes(m.mem, addr, n).Some? {
      var x := LoadBytes(m.mem, addr, n).value;
      LoadBound(m.mem, addr, n);
      ExtendsSigned(x, n);
    }
  }

  // lb, lh, lw and ld sign-extend; lbu, lhu and lwu, funct3 4 to 6, do not.
  lemma LoadExecutes(pc: Word, imm: I32, rd: Reg, funct3: nat, rs1: Reg, m: Machine)
    requires -0x800 <= imm < 0x800 && funct3 < 7
    ensures var o := Run(pc, EncodeI(imm, 0x03, rd, funct3, rs1), m);
      if rd == 0 then o == Next(m) else Loads(o, m, rd, (m.gpr[rs1] + imm) % TWO64, Width(funct3), funct3 < 4)
  {
    hide DecodeInsn, EncodeI, ExecLoad, Loads;
    LoadDecodes(pc, imm, rd, funct3, rs1);
    LoadWrites((m.gpr[rs1] + imm) % TWO64, Width(funct3), funct3 < 4, rd, m);
  }

  // Memory alone is written: the n bytes from addr up hold the low bytes of v,
  // and every other byte is as before; an unmapped byte faults.
  ghost predicate Stores(o: Outcome, m: Machine, addr: Word, n: nat, v: Word) {
    if LoadBytes(m.mem, addr, n).None? then o == Halted(HostFault)
    else
      && o.Next? && o.m == m.(mem := o.m.mem)
      && LoadBytes(o.m.mem, addr, n) == Some(v % Pow2(8 * n))
      && o.m.mem.Keys == m.mem.Keys
      && forall a: Word :: a in m.mem && !Covered(a, addr, n) ==> o.m.mem[a] == m.mem[a]
  }

  lemma StoreWrites(addr: Word, n: nat, v: Word, m: Machine)
    requires n <= 8
    ensures Stores(ExecStore(addr, n, v, m), m, addr, n, v)
  {
    hide LoadBytes, StoreBytes, Pow2, Covered;
    StoreNeedsTheSameBytes(m.mem, addr, n, v);
    LoadAfterStore(m.mem, addr, n, v);
    StoreKeepsOthers(m.mem, addr, n, v, 0);
    forall a: Word {
      StoreKeepsOthers(m.mem, addr, n, v, a);
    }
  }

  lemma StoreExecutes(pc: Word, imm: I32, funct3: nat, rs1: Reg, rs2: Reg, m: Machine)
    requires -0x800 <= imm < 0x800 && funct3 < 4
    ensures Stores(Run(pc, EncodeS(imm, 0x23, funct3, rs1, rs2), m), m, (m.gpr[rs1] + imm) % TWO64, Width(funct3),
                   m.gpr[rs2])
  {
    hide DecodeInsn, EncodeS, ExecStore, Stores;
    StoreDecodes(pc, imm, funct3, rs1, rs2);
    StoreWrites((m.gpr[rs1] + imm) % TWO64, Width(funct3), m.gpr[rs2], m);
  }

  // A load with the base and offset of a store returns what was stored: all of
  // a doubleword, and the low bytes of the narrower ones, extended.
  lemma StoreThenLoad(pc: Word, imm: I32, width: nat, load: nat, rs1: Reg, rs2: Reg, rd: Reg, m: Machine)
    requires -0x800 <= imm < 0x800 && width < 4 && load < 7 && load % 4 == width && rd != 0
    ensures var stored := Run(pc, EncodeS(imm, 0x23, width, rs1, rs2), m);
      stored.Next? ==>
        var loaded := Run(pc, EncodeI(imm, 0x03, rd, load, rs1), stored.m);
        && loaded.Next?
        && Extends(loaded.m.gpr[rd], m.gpr[rs2] % Pow2(8 * Width(width)), Width(width), load < 4)
        && (width == 3 ==> loaded.m.gpr[rd] == m.gpr[rs2])
  {
    hide DecodeInsn, EncodeS, EncodeI, Exec, LoadBytes, Covered, Pow2, Extends;
    var stored := Run(pc, EncodeS(imm, 0x23, width, rs1, rs2), m);
    StoreExecutes(pc, imm, width, rs1, rs2, m);
    if stored.Next? {
      LoadExecutes(pc, imm, rd, load, rs1, stored.m);
      if width == 3 {
        WholeWord(Run(pc, EncodeI(imm, 0x03, rd, load, rs1), stored.m).m.gpr[rd], m.gpr[rs2]);
      }
    }
  }

  lemma WholeWord(w: Word, v: Word)
    requires Extends(w, v % Pow2(64), 8, true)
    ensures w == v
  {
    hide Pow2, Signed;
    Pow2Values();
    assert (w - v) % TWO64 == 0;
  }

  // ---- Atomics ----

  ghost predicate Exchanges(o: Outcome, m: Machine, rd: Reg, addr: Word, n: nat, op: AmoOp, y: Word)
    requires n > 0
  {
    var loaded := LoadBytes(m.mem, addr, n);
    if loaded.None? then o == Halted(HostFault)
    else
      && o.Next? && o.m == m.(gpr := o.m.gpr, mem := o.m.mem) && SameButReg(m.gpr, o.m.gpr, rd)
      && Extends(o.m.gpr[rd], loaded.value, n, true)
      && LoadBytes(o.m.mem, addr, n).Some?
      && AmoMeets(op, n, loaded.value, y % Pow2(8 * n), LoadBytes(o.m.mem, addr, n).value)
      && o.m.mem.Keys == m.mem.Keys
      && forall a: Word :: a in m.mem && !Covered(a, addr, n) ==> o.m.mem[a] == m.mem[a]
  }

  lemma AmoRuns(i: Insn, op: AmoOp, n: nat, m: Machine)
    requires 0 < n <= 8
    ensures Exchanges(ExecAmo(i, op, n, m), m, i.rd, m.gpr[i.rs1], n, op, m.gpr[i.rs2])
  {
    hide LoadBytes, AmoResult, AmoMeets, Extends, SignedBytes, Pow2, Covered, ExecAmo, SameButReg;
    var addr := m.gpr[i.rs1];
    AmoExchanges(i, op, n, m, 0);
    AmoFaults(i, op, n, m);
    if LoadBytes(m.mem, addr, n).Some? {
      var x := LoadBytes(m.mem, addr, n).value;
      LoadBound(m.mem, addr, n);
      ExtendsSigned(x, n);
      LowBytes(m.gpr[i.rs2], Pow2(8 * n));
      AmoLaws(op, n, x, m.gpr[i.rs2] % Pow2(8 * n));
      forall a: Word {
        AmoExchanges(i, op, n, m, a);
      }
    }
  }

  lemma LowBytes(v: nat, p: nat)
    requires p > 0
    ensures 0 <= v % p < p
  {
  }

  lemma AmoFaults(i: Insn, op: AmoOp, n: nat, m: Machine)
    ensures ExecAmo(i, op, n, m).Halted? ==> ExecAmo(i, op, n, m) == Halted(HostFault)
  {
    hide LoadBytes, StoreBytes, AmoResult, SignedBytes, Pow2;
  }

  // The AMO that the upper five bits of funct7 name.
  function AmoOf(funct5: nat): Option<AmoOp> {
    match funct5
    case 0x00 => Some(AmoAdd) case 0x01 => Some(AmoSwap) case 0x04 => Some(AmoXor)
    case 0x08 => Some(AmoOr) case 0x0c => Some(AmoAnd) case 0x10 => Some(AmoMin)
    case 0x14 => Some(AmoMax) case 0x18 => Some(AmoMinu) case 0x1c => Some(AmoMaxu)
    case _ => None
  }

  lemma AmoExecutes(pc: Word, rd: Reg, funct3: nat, rs1: Reg, rs2: Reg, funct5: nat, order: nat, m: Machine)
    requires (funct3 == 2 || funct3 == 3) && order < 4 && AmoOf(funct5).Some?
    ensures Exchanges(Run(pc, EncodeR(0x2f, rd, funct3, rs1, rs2, 4 * funct5 + order), m), m, rd, m.gpr[rs1],
                      Width(funct3), AmoOf(funct5).value, m.gpr[rs2])
  {
    hide DecodeInsn, EncodeR, ExecAmo, Exchanges;
    AtomicDecodes(pc, rd, funct3, rs1, rs2, funct5, order);
    var n := if funct3 == 2 then 4 else 8;
    AmoRuns(Insn(DoAmo(AmoOf(funct5).value, n), rs1, rs2, rd, 0, 0), AmoOf(funct5).value, n, m);
  }

  // lr loads, sign-extended, and writes x0 too.
  lemma LoadReservedExecutes(pc: Word, rd: Reg, funct3: nat, rs1: Reg, order: nat, m: Machine)
    requires (funct3 == 2 || funct3 == 3) && order < 4
    ensures Loads(Run(pc, EncodeR(0x2f, rd, funct3, rs1, 0, 8 + order), m), m, rd, m.gpr[rs1], Width(funct3), true)
  {
    hide DecodeInsn, EncodeR, ExecLoad, Loads;
    LoadReservedDecodes(pc, rd, funct3, rs1, order);
    LoadWrites(m.gpr[rs1], Width(funct3), true, rd, m);
  }

  // sc stores, and answers 0.
  lemma StoreConditionalExecutes(pc: Word, rd: Reg, funct3: nat, rs1: Reg, rs2: Reg, order: nat, m: Machine)
    requires (funct3 == 2 || funct3 == 3) && order < 4
    ensures var o := Run(pc, EncodeR(0x2f, rd, funct3, rs1, rs2, 4 * 3 + order), m);
      exists s ::
        Stores(s, m, m.gpr[rs1], Width(funct3), m.gpr[rs2]) && o == if s.Next? then Next(WithReg(s.m, rd, 0)) else s
  {
    hide DecodeInsn, EncodeR, StoreBytes, Stores;
    AtomicDecodes(pc, rd, funct3, rs1, rs2, 3, order);
    var s := ExecStore(m.gpr[rs1], Width(funct3), m.gpr[rs2], m);
    StoreWrites(m.gpr[rs1], Width(funct3), m.gpr[rs2], m);
    assert Stores(s, m, m.gpr[rs1], Width(funct3), m.gpr[rs2]);
  }

  // ---- System ----

  // The floating-point and vector CSRs of the source.
  predicate HasCsr(csr: nat) {
    csr == 0x001 || csr == 0x002 || csr == 0x003 || csr == 0x008 || csr == 0x009 || csr == 0x00a || csr == 0x00f
    || csr == 0xc20 || csr == 0xc21 || csr == 0xc22
  }

  // Bit k after csrrw, csrrs and csrrc (funct3 1 to 3, and 5 to 7).
  function CsrBit(funct3: nat, before: nat, operand: nat): nat {
    match funct3 % 4
    case 1 => operand
    case 2 => if operand == 1 then 1 else before
    case _ => if operand == 1 then 0 else before
  }

  ghost predicate CsrRuns(o: Outcome, m: Machine, csr: nat, rd: Reg, funct3: nat, operand: Word) {
    && o.Next? && o.m == m.(gpr := o.m.gpr, csr := o.m.csr) && SameButReg(m.gpr, o.m.gpr, rd)
    && o.m.gpr[rd] == CsrValue(m.csr, csr)
    && (forall n :: n != csr ==> CsrValue(o.m.csr, n) == CsrValue(m.csr, n))
    && forall k: nat :: k < 64 ==>
         Bit(CsrValue(o.m.csr, csr), k) == CsrBit(funct3, Bit(CsrValue(m.csr, csr), k), Bit(operand, k))
  }

  // An access to any other CSR raises and sets pc to 0, the register field is
  // the operand of the immediate forms.
  lemma CsrExecutes(pc: Word, csr: nat, rd: Reg, funct3: nat, rs1: Reg, m: Machine)
    requires csr < 0x1000 && CsrOf(funct3).Some?
    ensures var o := Run(pc, EncodeI(CsrImmediate(csr), 0x73, rd, funct3, rs1), m);
      var operand := if funct3 >= 5 then rs1 else m.gpr[rs1];
      if HasCsr(csr) then CsrRuns(o, m, csr, rd, funct3, operand)
      else o == Next(m.(exception := IllegalInst, pc := 0))
  {
    hide DecodeInsn, EncodeI, ExecCsr, CsrRuns;
    CsrDecodes(pc, csr, rd, funct3, rs1);
    var op := if funct3 % 4 == 1 then Write else if funct3 % 4 == 2 then Set else Clear;
    var i := Insn(DoCsr(op, funct3 >= 5), rs1, 0, rd, csr, 0);
    if HasCsr(csr) {
      CsrAccess(i, op, funct3, m);
    } else {
      OtherCsr(i, op, funct3 >= 5, m);
    }
  }

  lemma OtherCsr(i: Insn, op: CsrOp, immediate: bool, m: Machine)
    requires i.imm >= 0 && !HasCsr(i.imm)
    ensures ExecCsr(i, op, immediate, m) == Next(m.(exception := IllegalInst, pc := i.pc))
  {
  }

  lemma CsrAccess(i: Insn, op: CsrOp, funct3: nat, m: Machine)
    requires i.imm >= 0 && HasCsr(i.imm) && CsrOf(funct3) == Some(DoCsr(op, funct3 >= 5))
    ensures CsrRuns(ExecCsr(i, op, funct3 >= 5, m), m, i.imm, i.rd, funct3, if funct3 >= 5 then i.rs1 else m.gpr[i.rs1])
  {
    hide ExecCsr, CsrValue, Bit, SameButReg;
    var o := ExecCsr(i, op, funct3 >= 5, m);
    var operand: Word := if funct3 >= 5 then i.rs1 else m.gpr[i.rs1];
    CsrExchanges(i, op, funct3 >= 5, m, 0);
    forall k: nat | k < 64
      ensures Bit(CsrValue(o.m.csr, i.imm), k) == CsrBit(funct3, Bit(CsrValue(m.csr, i.imm), k), Bit(operand, k))
    {
      CsrExchanges(i, op, funct3 >= 5, m, k);
    }
  }

  // ecall leaves everything but pc and the pending exception.
  lemma EcallExecutes(pc: Word, imm: I32, rd: Reg, rs1: Reg, m: Machine)
    requires -0x800 <= imm < 0x800
    ensures Run(pc, EncodeI(imm, 0x73, rd, 0, rs1), m) == Next(m.(exception := UserEcall, pc := pc))
  {
    hide DecodeInsn, EncodeI;
    EcallDecodes(pc, imm, rd, rs1);
  }

  lemma FenceExecutes(pc: Word, imm: I32, rd: Reg, funct3: nat, rs1: Reg, m: Machine)
    requires -0x800 <= imm < 0x800 && funct3 < 2
    ensures Run(pc, EncodeI(imm, 0x0f, rd, funct3, rs1), m) == Next(m)
  {
    hide DecodeInsn, EncodeI;
    FenceDecodes(pc, imm, rd, funct3, rs1);
  }

  lemma IllegalExecutes(pc: Word, word: U32, m: Machine)
    requires DecodeInsn(pc, word) == Illegal(pc)
    ensures Run(pc, word, m) == Next(m.(exception := IllegalInst, pc := pc))
  {
    hide DecodeInsn;
  }

  // ---- In the reference interpreter ----

  // With no exception pending, a step of the reference is the run of the word
  // at pc, and the next address is 4 on, or 2 for a compressed instruction,
  // unless the instruction has set pc or raised.
  lemma ReferenceRuns(sys: Kernel, m: Machine, word: U32)
    requires m.exception == NoException && Fetch(m.mem, m.pc) == Some(word)
    ensures RefStep(sys, Next(m)) ==
      match Run(m.pc, word, m)
      case Halted(why) => Halted(why)
      case Next(m1) =>
        if m1.gpr[0] != 0 then Halted(AssertFailed)
        else if IsExit(DecodeInsn(m.pc, word).insn.handler) || m1.exception != NoException then Next(m1)
        else Next(m1.(pc := (m.pc + if word % 4 == 3 then 4 else 2) % TWO64))
  {
    hide DecodeInsn, Exec, InsnLen, Fetch;
    FetchStep(sys, m, word);
    OwnAddresses(Fetched(m.pc, word));
    LengthIs(word);
  }

  lemma LengthIs(word: U32)
    ensures InsnLen(word) == if word % 4 == 3 then 4 else 2
  {
    hide And, Extract32, Low, Shr, Pow2;
    LengthMask(word);
    ExtractMeaning(word, 0, 2);
    Pow2Values();
    assert word / 1 == word;
  }

  // An ecall instruction, if the kernel returns, puts the answer in x10 and goes
  // on behind itself: the served machine differs from m in nothing else but the
  // memory and the count of calls.
  lemma EcallReturns(sys: Kernel, m: Machine, m1: Machine, imm: I32, rd: Reg, rs1: Reg)
    requires m.exception == NoException && m.gpr[0] == 0 && -0x800 <= imm < 0x800
    requires Fetch(m.mem, m.pc) == Some(EncodeI(imm, 0x73, rd, 0, rs1))
    ensures var answer := sys(m.calls, m.gpr, m.mem);
      var pending := RefStep(sys, Next(m));
      && pending == Next(m.(exception := UserEcall))
      && (answer == SysExit ==> RefStep(sys, pending) == Halted(GuestExit))
      && (answer.SysReturn? && Served(m, m1, answer.value, answer.mem) ==>
            RefStep(sys, pending) == RefStep(sys, Next(m1)))
  {
    hide DecodeInsn, EncodeI, RefStep, Fetch;
    ReferenceRuns(sys, m, EncodeI(imm, 0x73, rd, 0, rs1));
    EcallExecutes(m.pc, imm, rd, rs1, m);
    EcallIsServed(sys, m.(exception := UserEcall), m1);
  }
}
