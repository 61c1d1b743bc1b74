// Words as numbers, the C operators on them, and the bit-field helpers of
// include/rvvk.h.  Every operator is defined bit by bit, so a word is the
// string of its bits and the laws are those of splitting and joining strings:
// Low keeps the low n bits, Shr drops them, Cat joins two strings.
module Bits {

  function Pow2(n: nat): (r: nat)
    ensures r >= 1
  {
    if n == 0 then 1 else 2 * Pow2(n - 1)
  }

  lemma Pow2Values()
    ensures Pow2(0) == 1 && Pow2(1) == 2 && Pow2(2) == 4 && Pow2(3) == 8 && Pow2(4) == 0x10
    ensures Pow2(5) == 0x20 && Pow2(6) == 0x40 && Pow2(7) == 0x80 && Pow2(8) == 0x100 && Pow2(9) == 0x200
    ensures Pow2(10) == 0x400 && Pow2(11) == 0x800 && Pow2(12) == 0x1000 && Pow2(16) == 0x1_0000
    ensures Pow2(17) == 0x2_0000 && Pow2(20) == 0x10_0000 && Pow2(31) == 0x8000_0000 && Pow2(32) == 0x1_0000_0000
    ensures Pow2(52) == 0x10_0000_0000_0000 && Pow2(64) == 0x1_0000_0000_0000_0000
  {
    Pow2Four(0);
    Pow2Four(1);
    Pow2Four(4);
    Pow2Four(8);
    Pow2Four(12);
    Pow2Four(5);
    Pow2Four(6);
    Pow2Four(7);
    Pow2Four(16);
    Pow2Sixteen(15);
    Pow2Sixteen(16);
    Pow2Sixteen(32);
    Pow2Four(48);
    Pow2Sixteen(48);
  }

  lemma Pow2Four(n: nat)
    ensures Pow2(n + 4) == 16 * Pow2(n)
  {
    assert Pow2(n + 4) == 2 * Pow2(n + 3);
    assert Pow2(n + 2) == 2 * Pow2(n + 1);
  }

  lemma Pow2Sixteen(n: nat)
    ensures Pow2(n + 16) == 0x1_0000 * Pow2(n)
  {
    Pow2Four(n);
    Pow2Four(n + 4);
    Pow2Four(n + 8);
    Pow2Four(n + 12);
  }

  // n one bits
  function Ones(n: nat): (r: nat)
    ensures r == Pow2(n) - 1
  {
    if n == 0 then 0 else 1 + 2 * Ones(n - 1)
  }

  // The low n bits of x.
  function Low(x: nat, n: nat): (r: nat)
    ensures r < Pow2(n) && r <= x
  {
    if n == 0 then 0 else x % 2 + 2 * Low(x / 2, n - 1)
  }

  // x >> n
  function Shr(x: nat, n: nat): (r: nat)
    ensures r <= x
  {
    if n == 0 then x else Shr(x / 2, n - 1)
  }

  // The low n bits of lo, with hi above them.
  function Cat(lo: nat, n: nat, hi: nat): nat {
    if n == 0 then hi else lo % 2 + 2 * Cat(lo / 2, n - 1, hi)
  }

  // x << n, before truncation to a word
  function Shl(x: nat, n: nat): nat {
    Cat(0, n, x)
  }

  // a & b
  function And(a: nat, b: nat): (r: nat)
    ensures r <= a && r <= b
  {
    if a == 0 || b == 0 then 0
    else (if a % 2 == 1 && b % 2 == 1 then 1 else 0) + 2 * And(a / 2, b / 2)
  }

  // a | b
  function Or(a: nat, b: nat): nat
    decreases a + b
  {
    if a == 0 then b else if b == 0 then a
    else (if a % 2 == 1 || b % 2 == 1 then 1 else 0) + 2 * Or(a / 2, b / 2)
  }

  // a ^ b
  function Xor(a: nat, b: nat): nat
    decreases a + b
  {
    if a == 0 then b else if b == 0 then a
    else (if a % 2 != b % 2 then 1 else 0) + 2 * Xor(a / 2, b / 2)
  }

  lemma {:induction false} OrBound(a: nat, b: nat, n: nat)
    requires a < Pow2(n) && b < Pow2(n)
    ensures Or(a, b) < Pow2(n)
    decreases n
  {
    if a != 0 && b != 0 {
      OrBound(a / 2, b / 2, n - 1);
    }
  }

  lemma {:induction false} XorBound(a: nat, b: nat, n: nat)
    requires a < Pow2(n) && b < Pow2(n)
    ensures Xor(a, b) < Pow2(n)
    decreases n
  {
    if a != 0 && b != 0 {
      XorBound(a / 2, b / 2, n - 1);
    }
  }

  // ---- One bit at a time ----

  lemma BitAndRest(bit: nat, rest: nat)
    requires bit < 2
    ensures (bit + 2 * rest) / 2 == rest && (bit + 2 * rest) % 2 == bit
  {
  }

  lemma LowUnfold(x: nat, n: nat)
    ensures Low(x, n) == if n == 0 then 0 else x % 2 + 2 * Low(x / 2, n - 1)
  {
  }

  lemma ShrUnfold(x: nat, k: nat)
    ensures Shr(x, k) == if k == 0 then x else Shr(x / 2, k - 1)
  {
  }

  lemma CatUnfold(lo: nat, n: nat, hi: nat)
    ensures Cat(lo, n, hi) == if n == 0 then hi else lo % 2 + 2 * Cat(lo / 2, n - 1, hi)
  {
  }

  lemma Pow2Unfold(n: nat)
    ensures Pow2(n) == if n == 0 then 1 else 2 * Pow2(n - 1)
  {
  }

  // ---- Splitting and joining ----

  lemma {:induction false} CatBound(lo: nat, n: nat, hi: nat, k: nat)
    requires hi < Pow2(k)
    ensures Cat(lo, n, hi) < Pow2(n + k)
  {
    if n != 0 {
      CatBound(lo / 2, n - 1, hi, k);
    }
  }

  // Splitting at any position loses nothing.
  lemma {:induction false} Split(x: nat, n: nat)
    ensures Cat(x, n, Shr(x, n)) == x
    ensures Cat(Low(x, n), n, Shr(x, n)) == x
  {
    hide Low, Shr, Cat, Pow2;
    LowUnfold(x, n);
    ShrUnfold(x, n);
    CatUnfold(x, n, Shr(x, n));
    CatUnfold(Low(x, n), n, Shr(x, n));
    if n != 0 {
      BitAndRest(x % 2, Low(x / 2, n - 1));
      Split(x / 2, n - 1);
    }
  }

  // Joining and splitting at the same position gives the parts back.
  lemma {:induction false} CatParts(lo: nat, n: nat, hi: nat)
    ensures Shr(Cat(lo, n, hi), n) == hi
    ensures Low(Cat(lo, n, hi), n) == Low(lo, n)
  {
    hide Low, Shr, Cat, Pow2;
    var x := Cat(lo, n, hi);
    CatUnfold(lo, n, hi);
    ShrUnfold(x, n);
    LowUnfold(x, n);
    LowUnfold(lo, n);
    if n != 0 {
      BitAndRest(lo % 2, Cat(lo / 2, n - 1, hi));
      CatParts(lo / 2, n - 1, hi);
    }
  }

  lemma {:induction false} CatLow(lo: nat, n: nat, hi: nat, m: nat)
    requires n <= m
    ensures Cat(Low(lo, m), n, hi) == Cat(lo, n, hi)
  {
    if n != 0 {
      CatLow(lo / 2, n - 1, hi, m - 1);
    }
  }

  lemma {:induction false} ShrShr(x: nat, a: nat, b: nat)
    ensures Shr(Shr(x, a), b) == Shr(x, a + b)
  {
    if a != 0 {
      ShrShr(x / 2, a - 1, b);
    }
  }

  lemma {:induction false} LowLow(x: nat, a: nat, b: nat)
    ensures Low(Low(x, a), b) == Low(x, if a < b then a else b)
  {
    hide Low, Pow2;
    LowUnfold(x, a);
    LowUnfold(x, b);
    LowUnfold(Low(x, a), b);
    if a != 0 && b != 0 {
      BitAndRest(x % 2, Low(x / 2, a - 1));
      LowLow(x / 2, a - 1, b - 1);
    }
  }

  lemma {:induction false} LowSmall(x: nat, n: nat)
    requires x < Pow2(n)
    ensures Low(x, n) == x && Shr(x, n) == 0
  {
    if n != 0 {
      LowSmall(x / 2, n - 1);
    }
  }

  // Growing the kept part by the next k bits.
  lemma {:induction false} LowGrow(x: nat, n: nat, k: nat)
    ensures Low(x, n + k) == Cat(x, n, Low(Shr(x, n), k))
  {
    if n != 0 {
      LowGrow(x / 2, n - 1, k);
    }
  }

  lemma {:induction false} ShrLow(x: nat, n: nat, m: nat)
    requires n <= m
    ensures Shr(Low(x, m), n) == Low(Shr(x, n), m - n)
  {
    if n != 0 {
      ShrLow(x / 2, n - 1, m - 1);
    }
  }

  lemma {:induction false} ShrCat(lo: nat, n: nat, hi: nat, k: nat)
    ensures k <= n ==> Shr(Cat(lo, n, hi), k) == Cat(Shr(lo, k), n - k, hi)
    ensures Shr(Cat(lo, n, hi), n + k) == Shr(hi, k)
  {
    CatParts(lo, n, hi);
    ShrShr(Cat(lo, n, hi), n, k);
    if k != 0 && k <= n {
      ShrCat(lo / 2, n - 1, hi, k - 1);
    }
  }

  lemma {:induction false} LowCat(lo: nat, n: nat, hi: nat, k: nat)
    ensures k <= n ==> Low(Cat(lo, n, hi), k) == Low(lo, k)
    ensures Low(Cat(lo, n, hi), n + k) == Cat(lo, n, Low(hi, k))
  {
    CatParts(lo, n, hi);
    LowGrow(Cat(lo, n, hi), n, k);
    CatLow(Cat(lo, n, hi), n, Low(hi, k), n);
    CatLow(lo, n, Low(hi, k), n);
    if k <= n {
      LowLow(Cat(lo, n, hi), n, k);
      LowLow(lo, n, k);
    }
  }

  // Two words with the same halves are the same word.
  lemma SameParts(x: nat, y: nat, n: nat)
    requires Low(x, n) == Low(y, n) && Shr(x, n) == Shr(y, n)
    ensures x == y
  {
    Split(x, n);
    Split(y, n);
  }

  // ---- Arithmetic meaning ----

  lemma {:induction false} CatIsSum(lo: nat, n: nat, hi: nat)
    ensures Cat(lo, n, hi) == Low(lo, n) + Pow2(n) * hi
  {
    hide Low, Cat, Pow2;
    CatUnfold(lo, n, hi);
    LowUnfold(lo, n);
    Pow2Unfold(n);
    if n != 0 {
      CatIsSum(lo / 2, n - 1, hi);
      Reassociate(2, Pow2(n - 1), hi);
    }
  }

  // x >> n is the quotient and the low bits are the remainder by 2^n.
  lemma SplitIsDivMod(x: nat, n: nat)
    ensures x == Pow2(n) * Shr(x, n) + Low(x, n)
    ensures Shr(x, n) == x / Pow2(n) && Low(x, n) == x % Pow2(n)
  {
    Split(x, n);
    CatIsSum(x, n, Shr(x, n));
    DivModUnique(x, Pow2(n), Shr(x, n), Low(x, n));
  }

  lemma Reassociate(a: int, b: int, c: int)
    ensures a * (b * c) == (a * b) * c == b * (a * c)
  {
  }

  lemma {:induction false} Pow2Add(a: nat, b: nat)
    ensures Pow2(a + b) == Pow2(a) * Pow2(b)
  {
    if a != 0 {
      Pow2Add(a - 1, b);
      Reassociate(2, Pow2(a - 1), Pow2(b));
    }
  }

  lemma MulAtLeast(k: int, d: int)
    requires k >= 1 && d >= 0
    ensures k * d >= d
  {
  }

  lemma QuotientUnique(d: int, q: int, r: int, q': int, r': int)
    requires 0 <= r < d && 0 <= r' < d
    requires d * q + r == d * q' + r'
    ensures q == q' && r == r'
  {
    assert d * (q - q') == r' - r;
    if q > q' {
      MulAtLeast(q - q', d);
    } else if q < q' {
      MulAtLeast(q' - q, d);
    }
  }

  lemma DivModUnique(x: int, d: int, q: int, r: int)
    requires 0 <= r < d
    requires x == d * q + r
    ensures x / d == q && x % d == r
  {
    QuotientUnique(d, q, r, x / d, x % d);
  }

  // ---- uint32_t and int32_t ----

  const TWO32 := 0x1_0000_0000
  type U32 = x: int | 0 <= x < TWO32
  type I32 = x: int | -0x8000_0000 <= x < 0x8000_0000

  function ToU32(x: int): U32 {
    x % TWO32
  }

  function ToI32(x: U32): I32 {
    if x < 0x8000_0000 then x else x - TWO32
  }

  function Trunc32(x: nat): (r: U32) {
    Pow2Values();
    Low(x, 32)
  }

  lemma OrBound32(a: U32, b: U32)
    ensures Or(a, b) < TWO32
  {
    Pow2Values();
    OrBound(a, b, 32);
  }

  // ---- include/rvvk.h ----

  // The assertion at the head of the three helpers.
  predicate FieldOk(start: int, length: int) {
    start >= 0 && length > 0 && length <= 32 - start
  }

  function FieldMask(length: nat): U32
    requires length <= 32
  {
    Shr(0xFFFF_FFFF, 32 - length)
  }

  function Extract32(value: U32, start: int, length: int): U32
    requires FieldOk(start, length)
  {
    And(Shr(value, start), FieldMask(length))
  }

  // The right shift of a negative int32_t is arithmetic.
  function Sextract32(value: U32, start: int, length: int): I32
    requires FieldOk(start, length)
  {
    var shifted := ToI32(Trunc32(Shl(value, 32 - length - start)));
    assert 1 <= Pow2(32 - length);
    ShiftRightSigned(shifted, 32 - length)
  }

  function Deposit32(value: U32, start: int, length: int, fieldval: U32): U32
    requires FieldOk(start, length)
  {
    var mask := Trunc32(Shl(FieldMask(length), start));
    var r := Or(And(value, 0xFFFF_FFFF - mask), And(Trunc32(Shl(fieldval, start)), mask));
    OrBound32(And(value, 0xFFFF_FFFF - mask), And(Trunc32(Shl(fieldval, start)), mask));
    r
  }

  // Arithmetic right shift of a signed value.
  function ShiftRightSigned(x: int, n: nat): (r: int)
    ensures if x >= 0 then 0 <= r <= x else x <= r < 0
  {
    if x >= 0 then Shr(x, n) else -1 - Shr(-1 - x, n)
  }

  // The bits w of a word of M values, as a signed number.
  function SignedOf(w: int, M: int): int {
    if 2 * w < M then w else w - M
  }
}
