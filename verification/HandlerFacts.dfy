// What the memory and arithmetic handlers promise about each other: a load
// returns what a store wrote, the two halves of a product make the product,
// and quotient and remainder make the dividend.
module HandlerFacts {
  import opened Bits
  import opened Words
  import opened Decode
  import opened Machine
  import WideMul

  // ---- Memory ----

  lemma CoveredStep(a: Word, addr: Word, n: nat)
    requires 0 < n <= 8
    ensures Covered(a, addr, n) <==> a == addr || Covered(a, Plus(addr, 1), n - 1)
    ensures !Covered(addr, Plus(addr, 1), n - 1)
  {
    assert Plus(addr, 1) == if addr + 1 == TWO64 then 0 else addr + 1;
    assert Wrap(a - addr) == if a >= addr then a - addr else a - addr + TWO64;
  }

  // A store maps nothing and changes only the bytes it covers.
  lemma {:induction false} StoreKeepsOthers(mem: Memory, addr: Word, n: nat, v: nat, a: Word)
    requires n <= 8
    ensures StoreBytes(mem, addr, n, v).Some? ==>
      var after := StoreBytes(mem, addr, n, v).value;
      && after.Keys == mem.Keys
      && (a in mem && !Covered(a, addr, n) ==> after[a] == mem[a])
    decreases n
  {
    hide Covered, Plus;
    if n > 0 && addr in mem {
      CoveredStep(a, addr, n);
      StoreKeepsOthers(mem[addr := v % 256], Plus(addr, 1), n - 1, v / 256, a);
      assert mem[addr := v % 256].Keys == mem.Keys;
    }
  }

  // A load of the stored bytes returns the value, truncated to their number.
  lemma {:induction false} LoadAfterStore(mem: Memory, addr: Word, n: nat, v: nat)
    requires n <= 8
    ensures StoreBytes(mem, addr, n, v).Some? ==>
      LoadBytes(StoreBytes(mem, addr, n, v).value, addr, n) == Some(v % Pow2(8 * n))
    decreases n
  {
    hide Pow2, Covered, Plus;
    if n == 0 {
      Pow2Values();
    } else if StoreBytes(mem, addr, n, v).Some? {
      var written := mem[addr := v % 256];
      LoadAfterStore(written, Plus(addr, 1), n - 1, v / 256);
      CoveredStep(addr, addr, n);
      StoreKeepsOthers(written, Plus(addr, 1), n - 1, v / 256, addr);
      OneMoreByte(v, n);
    }
  }

  lemma OneMoreByte(v: nat, n: nat)
    requires n > 0
    ensures v % Pow2(8 * n) == v % 256 + 256 * ((v / 256) % Pow2(8 * (n - 1)))
  {
    hide Pow2, Low, Shr;
    var k := 8 * (n - 1);
    Pow2Values();
    SplitIsDivMod(v, 8);
    SplitIsDivMod(v, 8 + k);
    LowGrow(v, 8, k);
    CatIsSum(v, 8, Low(Shr(v, 8), k));
    SplitIsDivMod(Shr(v, 8), k);
  }

  // A store succeeds exactly when a load of the same bytes does.
  lemma {:induction false} StoreNeedsTheSameBytes(mem: Memory, addr: Word, n: nat, v: nat)
    ensures StoreBytes(mem, addr, n, v).Some? <==> LoadBytes(mem, addr, n).Some?
    decreases n
  {
    if n > 0 && addr in mem {
      var written := mem[addr := v % 256];
      StoreNeedsTheSameBytes(written, Plus(addr, 1), n - 1, v / 256);
      SameDomainLoads(mem, written, Plus(addr, 1), n - 1);
    }
  }

  lemma {:induction false} SameDomainLoads(m: Memory, m': Memory, addr: Word, n: nat)
    requires m.Keys == m'.Keys
    ensures LoadBytes(m, addr, n).Some? <==> LoadBytes(m', addr, n).Some?
    decreases n
  {
    if n > 0 {
      assert addr in m <==> addr in m.Keys;
      assert addr in m' <==> addr in m'.Keys;
      SameDomainLoads(m, m', Plus(addr, 1), n - 1);
    }
  }

  lemma LoadNothing(mem: Memory, a: Word)
    ensures LoadBytes(mem, a, 0) == Some(0)
  {
  }

  lemma LoadOneMore(mem: Memory, a: Word, n: nat)
    requires a in mem && LoadBytes(mem, Plus(a, 1), n).Some?
    ensures LoadBytes(mem, a, n + 1) == Some(mem[a] + 256 * LoadBytes(mem, Plus(a, 1), n).value)
  {
  }

  lemma StoreNothing(mem: Memory, a: Word, v: nat)
    ensures StoreBytes(mem, a, 0, v) == Some(mem)
  {
  }

  lemma StoreOneMore(mem: Memory, a: Word, n: nat, v: nat)
    requires a in mem
    ensures StoreBytes(mem, a, n + 1, v) == StoreBytes(mem[a := v % 256], Plus(a, 1), n, v / 256)
  {
  }

  // The value of a signed load: the representative of the loaded bytes in the
  // signed range.
  lemma SignedLoadRange(v: nat, n: nat)
    requires n > 0 && v < Pow2(8 * n)
    ensures -1 * Pow2(8 * n - 1) <= SignedBytes(v, n) < Pow2(8 * n - 1)
    ensures SignedBytes(v, n) == v || SignedBytes(v, n) == v - Pow2(8 * n)
  {
    assert Pow2(8 * n) == 2 * Pow2(8 * n - 1);
  }

  // ---- Multiplication ----

  // mul and mulh hold the exact signed product.
  lemma ProductHalves(a: Word, b: Word)
    ensures Signed(Alu(Mulh, a, b).value) * TWO64 + Alu(Mul, a, b).value == Signed(a) * Signed(b)
  {
    var product := Signed(a) * Signed(b);
    ProductRange(Signed(a), Signed(b));
    HighHalf(product);
  }

  lemma ProductRange(x: int, y: int)
    requires -0x8000_0000_0000_0000 <= x < 0x8000_0000_0000_0000
    requires -0x8000_0000_0000_0000 <= y < 0x8000_0000_0000_0000
    ensures -0x8000_0000_0000_0000 * TWO64 <= x * y < 0x8000_0000_0000_0000 * TWO64
  {
    WideMul.SignedProductBound(x, y, 0x8000_0000_0000_0000, 0x8000_0000_0000_0000);
  }

  lemma HighHalf(product: int)
    requires -0x8000_0000_0000_0000 * TWO64 <= product < 0x8000_0000_0000_0000 * TWO64
    ensures Signed(Wrap(product / TWO64)) * TWO64 + Wrap(product) == product
  {
  }

  // mulhu and mul hold the exact unsigned product.
  lemma UnsignedProductHalves(a: Word, b: Word)
    ensures Alu(Mulhu, a, b).value * TWO64 + Alu(Mul, a, b).value == a * b
  {
    WideMul.MulBound(a, b, TWO64 - 1, TWO64 - 1);
    UnsignedHigh(a * b);
    SignedProductResidue(a, b);
  }

  lemma UnsignedHigh(product: nat)
    requires product <= (TWO64 - 1) * (TWO64 - 1)
    ensures Wrap(product / TWO64) * TWO64 + Wrap(product) == product
  {
  }

  lemma SignedProductResidue(a: Word, b: Word)
    ensures (Signed(a) * Signed(b)) % TWO64 == (a * b) % TWO64
  {
    var s := if Signed(a) == a then 0 else 1;
    var t := if Signed(b) == b then 0 else 1;
    assert Signed(a) == a - s * TWO64 && Signed(b) == b - t * TWO64;
    var k := -t * a - s * b + s * t * TWO64;
    assert Signed(a) * Signed(b) == a * b + k * TWO64;
    DivModUnique(a * b + k * TWO64, TWO64, (a * b) / TWO64 + k, (a * b) % TWO64);
  }

  // ---- Division ----

  // C's division: the remainder is smaller than the divisor and has the sign
  // of the dividend.
  predicate Divides(a: int, b: int, q: int, r: int) {
    && a == b * q + r
    && (if b > 0 then -b < r < b else b < r < -b)
    && (a >= 0 ==> r >= 0)
    && (a <= 0 ==> r <= 0)
  }

  lemma EuclideanDivision(n: nat, b: int) returns (q: int, r: int, p: int)
    requires b != 0
    ensures q == n / b && r == n % b && p == b * q && b * -q == -p
    ensures n == p + r && 0 <= r && (if b > 0 then r < b else r < -b)
  {
    q, r := n / b, n % b;
    p := b * q;
  }

  lemma TruncatedDivision(a: int, b: int)
    requires b != 0
    ensures Divides(a, b, TruncDiv(a, b), TruncRem(a, b))
  {
    var q, r, p := EuclideanDivision(if a >= 0 then a else -a, b);
    if a >= 0 {
      assert TruncDiv(a, b) == q;
    } else {
      assert TruncDiv(a, b) == -q;
    }
  }

  // Quotient and remainder fit the signed range unless the quotient overflows.
  lemma QuotientFits(a: int, b: int, h: int)
    requires h > 0 && -h <= a < h && b != 0 && !(a == -h && b == -1)
    ensures -h <= TruncDiv(a, b) < h && -h <= TruncRem(a, b) < h
  {
    TruncatedDivision(a, b);
    var n, d := if a >= 0 then a else -a, if b > 0 then b else -b;
    QuotientShrinks(n, d);
    QuotientOfNegative(n, b);
  }

  lemma QuotientShrinks(n: nat, d: nat)
    requires d > 0
    ensures 0 <= n / d <= n && 0 <= n % d <= n && n % d < d
    ensures n > 0 && d > 1 ==> n / d < n
  {
    var q := n / d;
    assert n == d * q + n % d;
    if q > 0 {
      WideMul.MulBound(1, q, d, q);
      if d > 1 { WideMul.MulBound(2, q, d, q); }
    }
  }

  lemma QuotientOfNegative(n: nat, b: int)
    requires b != 0
    ensures b < 0 ==> n / b == -(n / -b) && n % b == n % -b
  {
    if b < 0 {
      assert n == -b * (n / -b) + n % -b;
      assert n == b * -(n / -b) + n % -b;
    }
  }

  // div and rem trap on a zero divisor and on overflow and nowhere else;
  // otherwise they are quotient and remainder of the signed operands.
  lemma SignedDivision(a: Word, b: Word)
    ensures Alu(Div, a, b).None? <==> Alu(Rem, a, b).None?
    ensures Alu(Div, a, b).None? <==> b == 0 || (a == 0x8000_0000_0000_0000 && b == TWO64 - 1)
    ensures Alu(Div, a, b).Some? ==>
      Divides(Signed(a), Signed(b), Signed(Alu(Div, a, b).value), Signed(Alu(Rem, a, b).value))
  {
    hide TruncDiv, TruncRem, Divides;
    if Alu(Div, a, b).Some? {
      TruncatedDivision(Signed(a), Signed(b));
      QuotientFits(Signed(a), Signed(b), 0x8000_0000_0000_0000);
      SignedOfWrap(TruncDiv(Signed(a), Signed(b)));
      SignedOfWrap(TruncRem(Signed(a), Signed(b)));
    }
  }

  lemma SignedOfWrap(x: int)
    requires -0x8000_0000_0000_0000 <= x < 0x8000_0000_0000_0000
    ensures Signed(Wrap(x)) == x
  {
  }

  lemma UnsignedDivision(a: Word, b: Word)
    ensures Alu(Divu, a, b).None? <==> b == 0
    ensures Alu(Remu, a, b).None? <==> b == 0
    ensures b != 0 ==> Divides(a, b, Alu(Divu, a, b).value, Alu(Remu, a, b).value)
  {
    hide Divides, TruncDiv, TruncRem;
    if b != 0 {
      TruncatedDivision(a, b);
      UnsignedFits(a, b);
    }
  }

  lemma UnsignedFits(a: nat, b: nat)
    requires b > 0
    ensures 0 <= TruncDiv(a, b) <= a && 0 <= TruncRem(a, b) <= a
  {
    QuotientShrinks(a, b);
  }

  // ---- Bits, shifts and words ----

  function Bit(x: nat, k: nat): nat {
    Shr(x, k) % 2
  }

  lemma {:induction false} BitwiseBits(a: nat, b: nat, k: nat)
    ensures Bit(And(a, b), k) == if Bit(a, k) == 1 && Bit(b, k) == 1 then 1 else 0
    ensures Bit(Or(a, b), k) == if Bit(a, k) == 1 || Bit(b, k) == 1 then 1 else 0
    ensures Bit(Xor(a, b), k) == if Bit(a, k) != Bit(b, k) then 1 else 0
  {
    hide And, Or, Xor, Shr;
    BitwiseStep(a, b);
    ShrUnfold(a, k);
    ShrUnfold(b, k);
    ShrUnfold(And(a, b), k);
    ShrUnfold(Or(a, b), k);
    ShrUnfold(Xor(a, b), k);
    if k > 0 {
      BitwiseBits(a / 2, b / 2, k - 1);
    }
  }

  lemma BitwiseStep(a: nat, b: nat)
    ensures And(a, b) == (if a % 2 == 1 && b % 2 == 1 then 1 else 0) + 2 * And(a / 2, b / 2)
    ensures Or(a, b) == (if a % 2 == 1 || b % 2 == 1 then 1 else 0) + 2 * Or(a / 2, b / 2)
    ensures Xor(a, b) == (if a % 2 != b % 2 then 1 else 0) + 2 * Xor(a / 2, b / 2)
  {
  }

  // Shifts multiply and divide by a power of two, rounding down.
  lemma ShiftsScale(a: Word, b: Word)
    ensures var p := Pow2(b % 64);
      && Alu(Sll, a, b).value == (a * p) % TWO64
      && Alu(Srl, a, b).value == a / p
      && Signed(Alu(Sra, a, b).value) == Signed(a) / p
  {
    hide Shr, Shl, Pow2, ShiftRightSigned, Alu;
    var s := b % 64;
    AluShifts(a, b);
    ScaleUp(a, s);
    SplitIsDivMod(a, s);
    FloorShift(Signed(a), s);
    FloorShrinks(Signed(a), Pow2(s));
    SignedOfWrap(ShiftRightSigned(Signed(a), s));
  }

  lemma AluShifts(a: Word, b: Word)
    ensures Alu(Sll, a, b) == Some(Wrap(Shl(a, b % 64)))
    ensures Alu(Srl, a, b) == Some(Shr(a, b % 64))
    ensures Alu(Sra, a, b) == Some(Wrap(ShiftRightSigned(Signed(a), b % 64)))
  {
    hide Shr, Shl, ShiftRightSigned, Signed, Wrap;
  }

  lemma ScaleUp(a: nat, s: nat)
    ensures Shl(a, s) == a * Pow2(s)
  {
    hide Cat, Low, Shr, Pow2;
    CatIsSum(0, s, a);
    SplitIsDivMod(0, s);
  }

  lemma FloorShift(x: int, s: nat)
    ensures ShiftRightSigned(x, s) == x / Pow2(s)
  {
    hide Shr, Pow2;
    if x >= 0 {
      SplitIsDivMod(x, s);
    } else {
      SplitIsDivMod(-1 - x, s);
      FloorOfNegative(-1 - x, Pow2(s));
    }
  }

  lemma FloorOfNegative(c: nat, p: nat)
    requires p > 0
    ensures (-1 - c) / p == -1 - c / p
  {
    var q, r, prod := EuclideanDivision(c, p);
    WideMul.Distribute(-1, -q, p);
    DivModUnique(-1 - c, p, -1 - q, p - 1 - r);
  }

  lemma FloorShrinks(x: int, p: nat)
    requires -0x8000_0000_0000_0000 <= x < 0x8000_0000_0000_0000 && p >= 1
    ensures -0x8000_0000_0000_0000 <= x / p < 0x8000_0000_0000_0000
  {
    var q := x / p;
    assert x == p * q + x % p;
    if q >= 1 {
      MulAtLeast(q, p);
      WideMul.MulBound(1, q, p, q);
    } else if q <= -1 {
      WideMul.MulBound(1, -q, p, -q);
      if -q > -x { WideMul.MulBound(1, -q - 1, p, -q - 1); WideMul.Distribute(-q - 1, 1, p); }
    }
  }

  // addw, subw and mulw give the sign-extended low half of the result.
  lemma WordOps(a: Word, b: Word)
    ensures SignExtends(Alu(Addw, a, b).value, a + b)
    ensures SignExtends(Alu(Subw, a, b).value, a - b)
    ensures SignExtends(Alu(Mulw, a, b).value, a * b)
  {
    hide Alu, SignExtends, ToI32, ToU32, Wrap;
    AluWords(a, b, a * b);
    LowHalfExtends(a + b);
    LowHalfExtends(a - b);
    LowHalfExtends(a * b);
  }

  lemma AluWords(a: Word, b: Word, product: int)
    requires product == a * b
    ensures Alu(Addw, a, b) == Some(Wrap(ToI32(ToU32(a + b))))
    ensures Alu(Subw, a, b) == Some(Wrap(ToI32(ToU32(a - b))))
    ensures Alu(Mulw, a, b) == Some(Wrap(ToI32(ToU32(product))))
  {
    hide ToI32, ToU32, Wrap;
  }

  predicate SignExtends(w: Word, x: int) {
    -0x8000_0000 <= Signed(w) < 0x8000_0000 && (Signed(w) - x) % 0x1_0000_0000 == 0
  }

  lemma LowHalfExtends(x: int)
    ensures SignExtends(Wrap(ToI32(ToU32(x))), x)
  {
    var q := x / 0x1_0000_0000;
    assert x == 0x1_0000_0000 * q + x % 0x1_0000_0000;
  }

  // ---- Branches ----

  function Negation(cond: Cond): Cond {
    match cond
    case Eq => Ne
    case Ne => Eq
    case Lt => Ge
    case Ge => Lt
    case Ltu => Geu
    case Geu => Ltu
  }

  // Of a branch and its negation, one goes to the target and the other falls
  // through, and nothing else happens.
  lemma BranchesAreComplementary(i: Insn, cond: Cond, len: int, m: Machine)
    ensures var go, stay := m.(pc := Plus(i.pc, i.imm)), m.(pc := Plus(i.pc, len));
      var r := Exec(i.(handler := DoBranch(cond, len)), m);
      var r' := Exec(i.(handler := DoBranch(Negation(cond), len)), m);
      (r == Next(go) && r' == Next(stay)) || (r == Next(stay) && r' == Next(go))
  {
    hide Plus;
  }

  // ---- CSRs ----

  predicate SameButReg(g: Gpr, g': Gpr, rd: Reg) {
    forall r :: 0 <= r < 32 && r != rd ==> g'[r] == g[r]
  }

  // A CSR access leaves the old value in rd, changes that CSR bit by bit, and
  // touches no other register, CSR or memory.
  lemma CsrExchanges(i: Insn, op: CsrOp, immediate: bool, m: Machine, k: nat)
    requires i.imm in IMPLEMENTED_CSRS && k < 64
    ensures ExecCsr(i, op, immediate, m).Next?
    ensures var m' := ExecCsr(i, op, immediate, m).m;
      var old_, new_ := CsrValue(m.csr, i.imm), CsrValue(m'.csr, i.imm);
      var operand := if immediate then i.rs1 else m.gpr[i.rs1];
      && m'.gpr[i.rd] == old_ && SameButReg(m.gpr, m'.gpr, i.rd)
      && m' == m.(gpr := m'.gpr, csr := m'.csr)
      && (forall n :: n != i.imm ==> CsrValue(m'.csr, n) == CsrValue(m.csr, n))
      && Bit(new_, k) == match op
         case Write => Bit(operand, k)
         case Set => if Bit(operand, k) == 1 then 1 else Bit(old_, k)
         case Clear => if Bit(operand, k) == 1 then 0 else Bit(old_, k)
  {
    hide And, Or, Bit, Pow2;
    Pow2Values();
    var old_ := CsrValue(m.csr, i.imm);
    var operand: Word := if immediate then i.rs1 else m.gpr[i.rs1];
    BitwiseBits(old_, operand, k);
    BitwiseBits(old_, TWO64 - 1 - operand, k);
    ComplementBit(operand, k, 64);
    BitIsBit(old_, k);
    BitIsBit(operand, k);
  }

  lemma BitIsBit(x: nat, k: nat)
    ensures Bit(x, k) == 0 || Bit(x, k) == 1
  {
  }

  lemma {:induction false} ComplementBit(x: nat, k: nat, n: nat)
    requires k < n && x < Pow2(n)
    ensures Bit(Pow2(n) - 1 - x, k) == 1 - Bit(x, k)
  {
    hide Shr;
    ShrUnfold(x, k);
    ShrUnfold(Pow2(n) - 1 - x, k);
    if k > 0 {
      assert (Pow2(n) - 1 - x) / 2 == Pow2(n - 1) - 1 - x / 2;
      ComplementBit(x / 2, k - 1, n - 1);
    }
  }

  // ---- Atomics ----

  // An AMO needs its bytes mapped and nothing else; it then leaves the
  // sign-extended old value in rd and the operation's result, truncated to the
  // access, in memory, and touches no other register or byte.
  lemma AmoExchanges(i: Insn, op: AmoOp, size: nat, m: Machine, a: Word)
    requires size <= 8
    ensures ExecAmo(i, op, size, m).Next? <==> LoadBytes(m.mem, m.gpr[i.rs1], size).Some?
    ensures ExecAmo(i, op, size, m).Next? ==>
      var m', addr := ExecAmo(i, op, size, m).m, m.gpr[i.rs1];
      var loaded := LoadBytes(m.mem, addr, size).value;
      && m'.gpr[i.rd] == Wrap(SignedBytes(loaded, size)) && SameButReg(m.gpr, m'.gpr, i.rd)
      && m' == m.(gpr := m'.gpr, mem := m'.mem)
      && LoadBytes(m'.mem, addr, size)
         == Some(AmoResult(op, size, loaded, m.gpr[i.rs2] % Pow2(8 * size)) % Pow2(8 * size))
      && m'.mem.Keys == m.mem.Keys
      && (a in m.mem && !Covered(a, addr, size) ==> m'.mem[a] == m.mem[a])
  {
    hide LoadBytes, StoreBytes, SignedBytes, AmoResult, Pow2, Covered;
    var addr := m.gpr[i.rs1];
    if LoadBytes(m.mem, addr, size).Some? {
      var loaded := LoadBytes(m.mem, addr, size).value;
      var result := AmoResult(op, size, loaded, m.gpr[i.rs2] % Pow2(8 * size));
      StoreNeedsTheSameBytes(m.mem, addr, size, result);
      LoadAfterStore(m.mem, addr, size, result);
      StoreKeepsOthers(m.mem, addr, size, result, a);
    }
  }

  // The minimum and maximum operations pick one of their operands, in the order
  // of the signed or of the unsigned values.
  lemma AmoPicks(n: nat, x: nat, y: nat)
    ensures var r := AmoResult(AmoMin, n, x, y);
      (r == x || r == y) && SignedBytes(r, n) <= SignedBytes(x, n) && SignedBytes(r, n) <= SignedBytes(y, n)
    ensures var r := AmoResult(AmoMax, n, x, y);
      (r == x || r == y) && SignedBytes(r, n) >= SignedBytes(x, n) && SignedBytes(r, n) >= SignedBytes(y, n)
    ensures var r := AmoResult(AmoMinu, n, x, y); (r == x || r == y) && r <= x && r <= y
    ensures var r := AmoResult(AmoMaxu, n, x, y); (r == x || r == y) && r >= x && r >= y
  {
    hide SignedBytes;
  }
}
