// What each arithmetic operation computes, said without the function that
// computes it: congruences, scalings, comparisons by the exact difference, bit
// by bit, and quotient and remainder.
module AluLaws {
  import opened Bits
  import opened Words
  import opened Decode
  import opened Machine
  import opened HandlerFacts
  import WideMul

  // ---- Signed values ----

  // x is the two's-complement value of the low n bits of a.
  predicate IsSigned(x: int, a: int, n: nat)
    requires n > 0
  {
    -1 * Pow2(n - 1) <= x < Pow2(n - 1) && (x - a) % Pow2(n) == 0
  }

  lemma SignedIsSigned(a: Word)
    ensures IsSigned(Signed(a), a, 64)
    ensures IsSigned(SignedLow32(a), a, 32)
  {
    hide Pow2;
    Pow2Values();
    HalfOf64();
    LowSigned(a);
  }

  lemma HalfOf64()
    ensures Pow2(63) == 0x8000_0000_0000_0000
  {
    Pow2Values();
    Pow2Unfold(64);
  }

  lemma LowSigned(a: Word)
    ensures -0x8000_0000 <= SignedLow32(a) < 0x8000_0000
    ensures (SignedLow32(a) - a) % 0x1_0000_0000 == 0
  {
    var q := a / 0x1_0000_0000;
    assert a == 0x1_0000_0000 * q + a % 0x1_0000_0000;
  }

  // ---- The laws ----

  predicate Congruent(x: int, y: int, modulus: int)
    requires modulus > 0
  {
    (x - y) % modulus == 0
  }

  // The operands on which the host divides by zero or overflows.
  predicate Traps(op: AluOp, a: Word, b: Word) {
    match op
    case Div => b == 0 || (a == 0x8000_0000_0000_0000 && b == 0xffff_ffff_ffff_ffff)
    case Rem => b == 0 || (a == 0x8000_0000_0000_0000 && b == 0xffff_ffff_ffff_ffff)
    case Divu => b == 0
    case Remu => b == 0
    case Divw => LowIs(b, 0) || (LowIs(a, 0x8000_0000) && LowIs(b, 0xffff_ffff))
    case Remw => LowIs(b, 0) || (LowIs(a, 0x8000_0000) && LowIs(b, 0xffff_ffff))
    case Divuw => LowIs(b, 0)
    case Remuw => LowIs(b, 0)
    case _ => false
  }

  predicate LowIs(a: Word, x: nat) {
    a % 0x1_0000_0000 == x
  }

  predicate BitsMatch(a: nat, b: nat, v: nat, k: nat, op: AluOp) {
    match op
    case BitXor => Bit(v, k) == (if Bit(a, k) != Bit(b, k) then 1 else 0)
    case BitOr => Bit(v, k) == (if Bit(a, k) == 1 || Bit(b, k) == 1 then 1 else 0)
    case _ => Bit(v, k) == (if Bit(a, k) == 1 && Bit(b, k) == 1 then 1 else 0)
  }

  ghost predicate IsQuotient(a: int, b: int, q: int) {
    exists r :: Divides(a, b, q, r)
  }

  ghost predicate IsRemainder(a: int, b: int, r: int) {
    exists q :: Divides(a, b, q, r)
  }

  // v is the result of op on a and b. The word forms of the shifts to the left
  // and of the logical ones to the right, divuw and remuw zero-extend.
  ghost predicate Meets(op: AluOp, a: Word, b: Word, v: Word) {
    match op
    case Add => Congruent(v, a + b, TWO64)
    case Sub => Congruent(v, a - b, TWO64)
    case Sll => Congruent(v, a * Pow2(b % 64), TWO64)
    case Slt => v == if Signed(a) - Signed(b) < 0 then 1 else 0
    case Sltu => v == if a - b < 0 then 1 else 0
    case Srl => v == a / Pow2(b % 64)
    case Sra => Signed(v) == Signed(a) / Pow2(b % 64)
    case Addw => SignExtends(v, a + b)
    case Subw => SignExtends(v, a - b)
    case Sllw => v < 0x1_0000_0000 && Congruent(v, a * Pow2(b % 32), 0x1_0000_0000)
    case Srlw => v == (a % 0x1_0000_0000) / Pow2(b % 32)
    case Sraw => Signed(v) == SignedLow32(a) / Pow2(b % 32)
    case Mul => Congruent(v, a * b, TWO64)
    case Mulh => Signed(v) == (Signed(a) * Signed(b)) / TWO64
    case Mulhsu => Signed(v) == (Signed(a) * b) / TWO64
    case Mulhu => v == (a * b) / TWO64
    case Div => IsQuotient(Signed(a), Signed(b), Signed(v))
    case Rem => IsRemainder(Signed(a), Signed(b), Signed(v))
    case Divu => IsQuotient(a, b, v)
    case Remu => IsRemainder(a, b, v)
    case Mulw => SignExtends(v, a * b)
    case Divw => IsQuotient(SignedLow32(a), SignedLow32(b), Signed(v))
    case Remw => IsRemainder(SignedLow32(a), SignedLow32(b), Signed(v))
    case Divuw => IsQuotient(a % 0x1_0000_0000, b % 0x1_0000_0000, v)
    case Remuw => IsRemainder(a % 0x1_0000_0000, b % 0x1_0000_0000, v)
    case _ => forall k: nat :: BitsMatch(a, b, v, k, op)
  }

  // ---- The proofs, group by group ----

  lemma WrapCongruent(x: int)
    ensures Congruent(Wrap(x), x, TWO64)
  {
    assert x == TWO64 * (x / TWO64) + x % TWO64;
  }

  predicate IsSum(op: AluOp) {
    op.Add? || op.Sub? || op.Slt? || op.Sltu? || op.Addw? || op.Subw?
  }

  lemma SumLaws(op: AluOp, a: Word, b: Word)
    requires IsSum(op)
    ensures Alu(op, a, b).Some? && Meets(op, a, b, Alu(op, a, b).value)
  {
    hide Wrap, Congruent, SignExtends, ToI32, ToU32;
    WrapCongruent(a + b);
    WrapCongruent(a - b);
    LowHalfExtends(a + b);
    LowHalfExtends(a - b);
  }

  predicate IsBitwise(op: AluOp) {
    op.BitXor? || op.BitOr? || op.BitAnd?
  }

  lemma BitLaws(op: AluOp, a: Word, b: Word)
    requires IsBitwise(op)
    ensures Alu(op, a, b).Some? && Meets(op, a, b, Alu(op, a, b).value)
  {
    hide And, Or, Xor, Bit;
    forall k: nat ensures BitsMatch(a, b, Alu(op, a, b).value, k, op) {
      BitwiseBits(a, b, k);
    }
  }

  predicate IsShift(op: AluOp) {
    op.Sll? || op.Srl? || op.Sra?
  }

  lemma ShiftLaws(op: AluOp, a: Word, b: Word)
    requires IsShift(op)
    ensures Alu(op, a, b).Some? && Meets(op, a, b, Alu(op, a, b).value)
  {
    hide Alu, Pow2, Congruent, Signed;
    AluShifts(a, b);
    ShiftsScale(a, b);
    WrapCongruent(a * Pow2(b % 64));
  }

  predicate IsWordShift(op: AluOp) {
    op.Sllw? || op.Srlw? || op.Sraw?
  }

  lemma AluWordShifts(a: Word, b: Word)
    ensures Alu(Sllw, a, b) == Some(ToU32(Shl(Low32(a), b % 32)))
    ensures Alu(Srlw, a, b) == Some(Shr(Low32(a), b % 32))
    ensures Alu(Sraw, a, b) == Some(Wrap(ShiftRightSigned(SignedLow32(a), b % 32)))
  {
    hide Shr, Shl, ShiftRightSigned, Wrap;
  }

  // Scaling the low half modulo 2^32.
  lemma LowScales(a: Word, p: nat)
    ensures Congruent((a % 0x1_0000_0000 * p) % 0x1_0000_0000, a * p, 0x1_0000_0000)
  {
    var M := 0x1_0000_0000;
    var low, q := a % M, a / M;
    assert a == M * q + low;
    WideMul.Distribute(M * q, low, p);
    Reassociate(M, q, p);
    var y := low * p;
    assert y == M * (y / M) + y % M;
    assert y % M - a * p == M * (-(y / M) - q * p);
    DivModUnique(y % M - a * p, M, -(y / M) - q * p, 0);
  }

  lemma WordShiftLaws(op: AluOp, a: Word, b: Word)
    requires IsWordShift(op)
    ensures Alu(op, a, b).Some? && Meets(op, a, b, Alu(op, a, b).value)
  {
    hide Alu, Shr, Shl, Pow2, ShiftRightSigned, Congruent, Signed, SignedLow32;
    var s := b % 32;
    AluWordShifts(a, b);
    ScaleUp(Low32(a), s);
    LowScales(a, Pow2(s));
    SplitIsDivMod(Low32(a), s);
    FloorShift(SignedLow32(a), s);
    SignedOfWrap(ShiftRightSigned(SignedLow32(a), s));
  }

  predicate IsProduct(op: AluOp) {
    op.Mul? || op.Mulh? || op.Mulhsu? || op.Mulhu? || op.Mulw?
  }

  lemma HighHalves(x: int)
    requires -0x8000_0000_0000_0000 * TWO64 <= x < 0x8000_0000_0000_0000 * TWO64
    ensures Signed(Wrap(x / TWO64)) == x / TWO64
  {
  }

  lemma HighUnsigned(x: nat)
    requires x < TWO64 * TWO64
    ensures Wrap(x / TWO64) == x / TWO64
  {
  }

  lemma AluProducts(a: Word, b: Word, s: int, m: int, u: nat)
    requires s == Signed(a) * Signed(b) && m == Signed(a) * b && u == a * b
    ensures Alu(Mul, a, b) == Some(Wrap(s)) && Alu(Mulh, a, b) == Some(Wrap(s / TWO64))
    ensures Alu(Mulhsu, a, b) == Some(Wrap(m / TWO64)) && Alu(Mulhu, a, b) == Some(Wrap(u / TWO64))
    ensures Alu(Mulw, a, b) == Some(Wrap(ToI32(ToU32(u))))
  {
    hide Wrap, Signed, ToI32, ToU32;
  }

  lemma ProductLaws(op: AluOp, a: Word, b: Word)
    requires IsProduct(op)
    ensures Alu(op, a, b).Some? && Meets(op, a, b, Alu(op, a, b).value)
  {
    hide Alu, Signed, Wrap, Congruent, SignExtends, ToI32, ToU32;
    var s, m, u := Signed(a) * Signed(b), Signed(a) * b, a * b;
    AluProducts(a, b, s, m, u);
    HighWords(a, b, s, m, u);
    LowHalfExtends(u);
    SignedProductResidue(a, b);
    LowProduct(s, u);
  }

  lemma HighWords(a: Word, b: Word, s: int, m: int, u: nat)
    requires s == Signed(a) * Signed(b) && m == Signed(a) * b && u == a * b
    ensures Signed(Wrap(s / TWO64)) == s / TWO64 && Signed(Wrap(m / TWO64)) == m / TWO64
    ensures Wrap(u / TWO64) == u / TWO64
  {
    hide Signed, Wrap;
    SignedBounds(a);
    SignedBounds(b);
    ProductRange(Signed(a), Signed(b));
    MixedRange(Signed(a), b);
    WideMul.MulBound(a, b, TWO64 - 1, TWO64 - 1);
    HighHalves(s);
    HighHalves(m);
    HighUnsigned(u);
  }

  lemma SignedBounds(a: Word)
    ensures -0x8000_0000_0000_0000 <= Signed(a) < 0x8000_0000_0000_0000
  {
  }

  lemma MixedRange(x: int, b: Word)
    requires -0x8000_0000_0000_0000 <= x < 0x8000_0000_0000_0000
    ensures -0x8000_0000_0000_0000 * TWO64 <= x * b < 0x8000_0000_0000_0000 * TWO64
  {
    if x >= 0 {
      WideMul.MulBound(x, b, 0x7fff_ffff_ffff_ffff, TWO64 - 1);
    } else {
      WideMul.MulBound(-x, b, 0x8000_0000_0000_0000, TWO64 - 1);
    }
  }

  lemma LowProduct(s: int, u: int)
    requires s % TWO64 == u % TWO64
    ensures Congruent(Wrap(s), u, TWO64)
  {
    WrapCongruent(u);
  }

  predicate IsDivision(op: AluOp) {
    op.Div? || op.Rem? || op.Divu? || op.Remu? || op.Divw? || op.Remw? || op.Divuw? || op.Remuw?
  }

  lemma WideDivisionLaws(op: AluOp, a: Word, b: Word)
    requires op.Div? || op.Rem? || op.Divu? || op.Remu?
    ensures Alu(op, a, b).None? <==> Traps(op, a, b)
    ensures Alu(op, a, b).Some? ==> Meets(op, a, b, Alu(op, a, b).value)
  {
    hide Alu, Divides, Signed;
    SignedDivision(a, b);
    UnsignedDivision(a, b);
  }

  // The 32-bit divisions are those of the low halves.
  lemma AluWordDivisions(a: Word, b: Word)
    ensures var x, y := SignedLow32(a), SignedLow32(b);
      && Alu(Divw, a, b) == Divide(x, y, -0x8000_0000, false)
      && Alu(Remw, a, b) == Divide(x, y, -0x8000_0000, true)
      && Alu(Divuw, a, b) == Divide(Low32(a), Low32(b), -1, false)
      && Alu(Remuw, a, b) == Divide(Low32(a), Low32(b), -1, true)
  {
    hide Divide, SignedLow32, Low32;
  }

  lemma NarrowDivision(x: int, y: int)
    requires -0x8000_0000 <= x < 0x8000_0000
    ensures Divide(x, y, -0x8000_0000, false).None? <==> y == 0 || (x == -0x8000_0000 && y == -1)
    ensures Divide(x, y, -0x8000_0000, true).None? <==> y == 0 || (x == -0x8000_0000 && y == -1)
    ensures Divide(x, y, -0x8000_0000, false).Some? ==>
      Divides(x, y, Signed(Divide(x, y, -0x8000_0000, false).value), Signed(Divide(x, y, -0x8000_0000, true).value))
  {
    hide TruncDiv, TruncRem, Divides, Signed, Wrap;
    if y != 0 && !(x == -0x8000_0000 && y == -1) {
      TruncatedDivision(x, y);
      QuotientFits(x, y, 0x8000_0000);
      SignedOfWrap(TruncDiv(x, y));
      SignedOfWrap(TruncRem(x, y));
    }
  }

  lemma NarrowUnsigned(x: nat, y: nat)
    requires x < TWO64
    ensures Divide(x, y, -1, false).None? <==> y == 0
    ensures Divide(x, y, -1, true).None? <==> y == 0
    ensures y != 0 ==> Divides(x, y, Divide(x, y, -1, false).value, Divide(x, y, -1, true).value)
  {
    hide TruncDiv, TruncRem, Divides, Wrap;
    if y != 0 {
      TruncatedDivision(x, y);
      UnsignedFits(x, y);
      SmallWord(TruncDiv(x, y));
      SmallWord(TruncRem(x, y));
    }
  }

  lemma LowValues(a: Word)
    ensures SignedLow32(a) == 0 <==> LowIs(a, 0)
    ensures SignedLow32(a) == -0x8000_0000 <==> LowIs(a, 0x8000_0000)
    ensures SignedLow32(a) == -1 <==> LowIs(a, 0xffff_ffff)
    ensures Low32(a) == a % 0x1_0000_0000 && (Low32(a) == 0 <==> LowIs(a, 0))
  {
  }

  lemma NarrowDivisionLaws(op: AluOp, a: Word, b: Word)
    requires op.Divw? || op.Remw? || op.Divuw? || op.Remuw?
    ensures Alu(op, a, b).None? <==> Traps(op, a, b)
    ensures Alu(op, a, b).Some? ==> Meets(op, a, b, Alu(op, a, b).value)
  {
    hide Alu, Divide, Divides, Signed, SignedLow32, LowIs, Low32;
    AluWordDivisions(a, b);
    LowSigned(a);
    LowValues(a);
    LowValues(b);
    NarrowDivision(SignedLow32(a), SignedLow32(b));
    NarrowUnsigned(Low32(a), Low32(b));
  }

  // Every operation traps exactly where it must, and otherwise meets its law.
  lemma AluMeets(op: AluOp, a: Word, b: Word)
    ensures Alu(op, a, b).None? <==> Traps(op, a, b)
    ensures Alu(op, a, b).Some? ==> Meets(op, a, b, Alu(op, a, b).value)
  {
    hide Alu, Meets;
    if IsSum(op) {
      SumLaws(op, a, b);
    } else if IsBitwise(op) {
      BitLaws(op, a, b);
    } else if IsShift(op) {
      ShiftLaws(op, a, b);
    } else if IsWordShift(op) {
      WordShiftLaws(op, a, b);
    } else if IsProduct(op) {
      ProductLaws(op, a, b);
    } else if op.Div? || op.Rem? || op.Divu? || op.Remu? {
      WideDivisionLaws(op, a, b);
    } else {
      NarrowDivisionLaws(op, a, b);
    }
  }

  // sub undoes add, and add undoes sub.
  lemma SubUndoesAdd(a: Word, b: Word)
    ensures Alu(Sub, Alu(Add, a, b).value, b) == Some(a)
    ensures Alu(Add, Alu(Sub, a, b).value, b) == Some(a)
  {
    assert Wrap(a + b) == if a + b < TWO64 then a + b else a + b - TWO64;
    assert Wrap(a - b) == if a >= b then a - b else a - b + TWO64;
  }

  // ---- Atomics ----

  // r is what an n-byte AMO leaves in memory, from the loaded value x and the
  // register operand y, both of n bytes.
  ghost predicate AmoMeets(op: AmoOp, n: nat, x: nat, y: nat, r: nat)
    requires n > 0
  {
    match op
    case AmoAdd => Congruent(r, x + y, Pow2(8 * n))
    case AmoSwap => r == y
    case AmoXor => forall k: nat :: BitsMatch(x, y, r, k, BitXor)
    case AmoOr => forall k: nat :: BitsMatch(x, y, r, k, BitOr)
    case AmoAnd => forall k: nat :: BitsMatch(x, y, r, k, BitAnd)
    case AmoMin =>
      (r == x || r == y) && SignedBytes(r, n) <= SignedBytes(x, n) && SignedBytes(r, n) <= SignedBytes(y, n)
    case AmoMax =>
      (r == x || r == y) && SignedBytes(r, n) >= SignedBytes(x, n) && SignedBytes(r, n) >= SignedBytes(y, n)
    case AmoMinu => (r == x || r == y) && r <= x && r <= y
    case AmoMaxu => (r == x || r == y) && r >= x && r >= y
  }

  lemma SignedBytesIsSigned(z: nat, n: nat)
    requires n > 0 && z < Pow2(8 * n)
    ensures IsSigned(SignedBytes(z, n), z, 8 * n)
  {
    hide Pow2;
    SignedLoadRange(z, n);
    if SignedBytes(z, n) != z {
      OneLess(z, Pow2(8 * n));
    }
  }

  lemma OneLess(z: int, p: int)
    requires p > 0
    ensures (z - p - z) % p == 0
  {
    DivModUnique(-p, p, -1, 0);
  }

  // The value an AMO stores, truncated to the access.
  lemma AmoLaws(op: AmoOp, n: nat, x: nat, y: nat)
    requires n > 0 && x < Pow2(8 * n) && y < Pow2(8 * n)
    ensures AmoMeets(op, n, x, y, AmoResult(op, n, x, y) % Pow2(8 * n))
  {
    hide Pow2, SignedBytes, And, Or, Xor, Bit;
    var p, r := Pow2(8 * n), AmoResult(op, n, x, y);
    if op.AmoAdd? {
      TruncatedIsCongruent(x + y, p);
    } else {
      OrBound(x, y, 8 * n);
      XorBound(x, y, 8 * n);
      assert r < p;
      AmoPicks(n, x, y);
      forall k: nat ensures op.AmoXor? ==> BitsMatch(x, y, r, k, BitXor)
        ensures op.AmoOr? ==> BitsMatch(x, y, r, k, BitOr)
        ensures op.AmoAnd? ==> BitsMatch(x, y, r, k, BitAnd)
      {
        BitwiseBits(x, y, k);
      }
      SmallMod(r, p);
    }
  }

  lemma SmallMod(r: nat, p: nat)
    requires r < p
    ensures r % p == r
  {
    DivModUnique(r, p, 0, r);
  }

  lemma TruncatedIsCongruent(x: int, p: int)
    requires p > 0
    ensures Congruent(x % p, x, p)
  {
    var q := x / p;
    assert x == p * q + x % p;
    DivModUnique(x % p - x, p, -q, 0);
  }
}
