// The double-width products of arch/riscv/cpu.c:324-353, built from
// half-width products.  The width is 2 * h bits for any h, so the 64-bit
// (h = 32) and the 32-bit (h = 16) builds are both instances.
module WideMul {
  import opened Bits

  lemma Distribute(a: int, b: int, c: int)
    ensures (a + b) * c == a * c + b * c
    ensures c * (a + b) == c * a + c * b
  {
  }

  // The product of two two-digit numbers in base B.
  lemma TwoDigitProduct(B: int, x1: int, x0: int, y1: int, y0: int)
    ensures (B * x1 + x0) * (B * y1 + y0)
         == (B * B) * (x1 * y1) + B * (x1 * y0 + x0 * y1) + x0 * y0
  {
    var Y := B * y1 + y0;
    Distribute(B * x1, x0, Y);
    Distribute(B * y1, y0, B * x1);
    Distribute(B * y1, y0, x0);
    Distribute(x1 * y0, x0 * y1, B);
    assert (B * x1) * (B * y1) == (B * B) * (x1 * y1) by {
      Reassociate(B * x1, B, y1);
      Reassociate(B, x1, y1);
      Reassociate(B, B, x1 * y1);
    }
    assert (B * x1) * y0 == B * (x1 * y0) by { Reassociate(B, x1, y0); }
    assert x0 * (B * y1) == B * (x0 * y1) by { Reassociate(x0, B, y1); }
  }

  lemma MulBound(a: int, b: int, m: int, n: int)
    requires 0 <= a <= m && 0 <= b <= n
    ensures 0 <= a * b <= m * n
  {
    Distribute(a, m - a, b);
    Distribute(b, n - b, m);
    assert 0 <= (m - a) * b && 0 <= m * (n - b) && 0 <= a * b;
  }

  // Column sums of the schoolbook product: no carry is lost.
  lemma Columns(B: int, p11: int, p10: int, p01: int, p00: int,
                a1: int, a0: int, b1: int, b0: int, c1: int, c0: int, s1: int, s0: int)
    requires p10 == B * a1 + a0 && p01 == B * b1 + b0 && p00 == B * c1 + c0
    requires c1 + a0 + b0 == B * s1 + s0
    ensures (B * B) * p11 + B * (p10 + p01) + p00
         == (B * B) * (p11 + a1 + b1 + s1) + (B * s0 + c0)
    ensures p00 + B * p10 + B * p01 == (B * B) * (a1 + b1 + s1) + (B * s0 + c0)
  {
    var M := B * B;
    assert B * p10 == M * a1 + B * a0 by { Distribute(B * a1, a0, B); Reassociate(B, B, a1); }
    assert B * p01 == M * b1 + B * b0 by { Distribute(B * b1, b0, B); Reassociate(B, B, b1); }
    assert B * (B * s1 + s0) == M * s1 + B * s0 by { Distribute(B * s1, s0, B); Reassociate(B, B, s1); }
    assert B * (c1 + a0 + b0) == B * c1 + B * a0 + B * b0 by {
      Distribute(c1 + a0, b0, B);
      Distribute(c1, a0, B);
    }
    Distribute(p10, p01, B);
    Distribute(p11 + a1 + b1, s1, M);
    Distribute(p11 + a1, b1, M);
    Distribute(p11, a1, M);
    Distribute(a1 + b1, s1, M);
    Distribute(a1, b1, M);
  }

  lemma DigitsBound(B: int, d1: int, d0: int)
    requires 0 <= d1 < B && 0 <= d0 < B
    ensures 0 <= B * d1 + d0 < B * B
  {
    MulBound(B, d1, B, B - 1);
    Distribute(B - 1, 1, B);
  }

  // A word has two half-words.
  lemma Halves(x: nat, h: nat)
    requires x < Pow2(2 * h)
    ensures Pow2(2 * h) == Pow2(h) * Pow2(h)
    ensures x == Pow2(h) * Shr(x, h) + Low(x, h)
    ensures Shr(x, h) < Pow2(h)
  {
    Pow2Add(h, h);
    SplitIsDivMod(x, h);
    var B, q := Pow2(h), Shr(x, h);
    if q >= B {
      MulBound(B, B, B, q);
      assert false;
    }
  }

  // Unsigned: hi and lo are the two words of the exact product.
  method Wmulu(x: nat, y: nat, h: nat) returns (hi: nat, lo: nat)
    requires x < Pow2(2 * h) && y < Pow2(2 * h)
    ensures hi < Pow2(2 * h) && lo < Pow2(2 * h)
    ensures hi * Pow2(2 * h) + lo == x * y
  {
    hide Low, Shr, Pow2;
    var M := Pow2(2 * h);
    var x0, x1 := Low(x, h), Shr(x, h);
    var y0, y1 := Low(y, h), Shr(y, h);
    var p11, p01 := x1 * y1, x0 * y1;
    var p10, p00 := x1 * y0, x0 * y0;
    HalfProductsFit(x, y, h);
    var c := Shr(Shr(p00, h) + Low(p10, h) + Low(p01, h), h);
    lo := (p00 + (p10 * Pow2(h)) % M + (p01 * Pow2(h)) % M) % M;
    hi := (p11 + Shr(p10, h) + Shr(p01, h) + c) % M;
    Exact(x, y, h, p11, p01, p10, p00, hi, lo);
  }

  // None of the four half products overflows a word, so the multiplications
  // above need no truncation.
  lemma HalfProductsFit(x: nat, y: nat, h: nat)
    requires x < Pow2(2 * h) && y < Pow2(2 * h)
    ensures 0 <= Shr(x, h) * Shr(y, h) < Pow2(2 * h) && 0 <= Low(x, h) * Shr(y, h) < Pow2(2 * h)
    ensures 0 <= Shr(x, h) * Low(y, h) < Pow2(2 * h) && 0 <= Low(x, h) * Low(y, h) < Pow2(2 * h)
  {
    Halves(x, h);
    Halves(y, h);
    HalfProductFits(Shr(x, h), Shr(y, h), h);
    HalfProductFits(Low(x, h), Shr(y, h), h);
    HalfProductFits(Shr(x, h), Low(y, h), h);
    HalfProductFits(Low(x, h), Low(y, h), h);
  }

  lemma HalfProductFits(a: nat, b: nat, h: nat)
    requires a < Pow2(h) && b < Pow2(h)
    ensures 0 <= a * b < Pow2(2 * h)
  {
    Pow2Add(h, h);
    var B := Pow2(h);
    MulBound(a, b, B - 1, B - 1);
    Distribute(B, -1, B - 1);
    Distribute(B, -1, B);
  }

  // Truncating the shifted partial products does not change the low word.
  lemma TruncatedSum(a: int, b: int, c: int, M: int)
    requires M > 0
    ensures (a + b % M + c % M) % M == (a + b + c) % M
  {
    var t := a + b + c;
    var k := b / M + c / M;
    Distribute(b / M, c / M, M);
    assert a + b % M + c % M == t - M * k;
    Distribute(t / M, -k, M);
    DivModUnique(t - M * k, M, t / M - k, t % M);
  }

  // The two words that the half products give.
  lemma Exact(x: nat, y: nat, h: nat, p11: nat, p01: nat, p10: nat, p00: nat, hi: nat, lo: nat)
    requires x < Pow2(2 * h) && y < Pow2(2 * h)
    requires p11 == Shr(x, h) * Shr(y, h) && p01 == Low(x, h) * Shr(y, h)
    requires p10 == Shr(x, h) * Low(y, h) && p00 == Low(x, h) * Low(y, h)
    requires lo == (p00 + (p10 * Pow2(h)) % Pow2(2 * h) + (p01 * Pow2(h)) % Pow2(2 * h)) % Pow2(2 * h)
    requires hi == (p11 + Shr(p10, h) + Shr(p01, h) + Shr(Shr(p00, h) + Low(p10, h) + Low(p01, h), h)) % Pow2(2 * h)
    ensures hi * Pow2(2 * h) + lo == x * y
  {
    hide Low, Shr, Pow2;
    var B, M := Pow2(h), Pow2(2 * h);
    var s := Shr(p00, h) + Low(p10, h) + Low(p01, h);
    var top, bottom := p11 + Shr(p10, h) + Shr(p01, h) + Shr(s, h), B * Low(s, h) + Low(p00, h);
    HalvesProduct(x, y, h);
    ColumnsOfHalves(p11, p10, p01, p00, h);
    LowWord(p00, p10, p01, B, M, Shr(p10, h) + Shr(p01, h) + Shr(s, h), bottom);
    HighWord(x, y, M, top, bottom);
  }

  lemma HalvesProduct(x: nat, y: nat, h: nat)
    requires x < Pow2(2 * h) && y < Pow2(2 * h)
    ensures x * y == Pow2(2 * h) * (Shr(x, h) * Shr(y, h))
                     + Pow2(h) * (Shr(x, h) * Low(y, h) + Low(x, h) * Shr(y, h)) + Low(x, h) * Low(y, h)
  {
    hide Low, Shr, Pow2;
    Halves(x, h);
    Halves(y, h);
    TwoDigitProduct(Pow2(h), Shr(x, h), Low(x, h), Shr(y, h), Low(y, h));
  }

  // Adding the half products column by column.
  lemma ColumnsOfHalves(p11: nat, p10: nat, p01: nat, p00: nat, h: nat)
    ensures var B, M := Pow2(h), Pow2(2 * h);
      var s := Shr(p00, h) + Low(p10, h) + Low(p01, h);
      var hi, lo := p11 + Shr(p10, h) + Shr(p01, h) + Shr(s, h), B * Low(s, h) + Low(p00, h);
      && 0 <= lo < M
      && M * p11 + B * (p10 + p01) + p00 == M * hi + lo
      && p00 + B * p10 + B * p01 == M * (Shr(p10, h) + Shr(p01, h) + Shr(s, h)) + lo
  {
    hide Low, Shr, Pow2;
    var B := Pow2(h);
    var s := Shr(p00, h) + Low(p10, h) + Low(p01, h);
    Pow2Add(h, h);
    SplitIsDivMod(p10, h);
    SplitIsDivMod(p01, h);
    SplitIsDivMod(p00, h);
    SplitIsDivMod(s, h);
    Columns(B, p11, p10, p01, p00, Shr(p10, h), Low(p10, h), Shr(p01, h), Low(p01, h),
            Shr(p00, h), Low(p00, h), Shr(s, h), Low(s, h));
    DigitsBound(B, Low(s, h), Low(p00, h));
  }

  lemma LowWord(p00: int, p10: int, p01: int, B: int, M: int, k: int, lo: int)
    requires 0 <= lo < M && p00 + B * p10 + B * p01 == M * k + lo
    ensures (p00 + (p10 * B) % M + (p01 * B) % M) % M == lo
  {
    TruncatedSum(p00, p10 * B, p01 * B, M);
    DivModUnique(M * k + lo, M, k, lo);
  }

  lemma HighWord(x: nat, y: nat, M: int, hi: int, lo: int)
    requires x < M && y < M && 0 <= lo < M && hi >= 0 && x * y == M * hi + lo
    ensures hi % M == hi && (hi % M) * M + lo == x * y
  {
    MulBound(x, y, M - 1, M - 1);
    if hi >= M {
      MulBound(M, M, M, hi);
      Distribute(M, -1, M - 1);
      Distribute(M, -1, M);
      assert false;
    }
    DivModUnique(hi, M, 0, hi);
  }

  // ---- Signed forms ----

  predicate FitsSigned(x: int, M: int) {
    -M <= 2 * x < M
  }

  // The bits of a signed word, and back.
  function Unsigned(x: int, M: int): int {
    if x < 0 then x + M else x
  }

  // Signed times signed: the two words are the exact product.
  method Wmul(x: int, y: int, h: nat) returns (hi: int, lo: nat)
    requires h > 0
    requires FitsSigned(x, Pow2(2 * h)) && FitsSigned(y, Pow2(2 * h))
    ensures lo < Pow2(2 * h) && FitsSigned(hi, Pow2(2 * h))
    ensures hi * Pow2(2 * h) + lo == x * y
  {
    hide Pow2;
    var M := Pow2(2 * h);
    hi, lo := Wmulu(Unsigned(x, M), Unsigned(y, M), h);
    ghost var top := hi;
    if x < 0 {
      hi := (hi - y) % M;
    }
    if y < 0 {
      hi := (hi - x) % M;
    }
    hi := SignedOf(hi, M);
    MultipleOfFour(h);
    HighCorrected(x, y, M, top, lo);
  }

  // Signed times unsigned.
  method Wmulsu(x: int, y: nat, h: nat) returns (hi: int, lo: nat)
    requires h > 0
    requires FitsSigned(x, Pow2(2 * h)) && y < Pow2(2 * h)
    ensures lo < Pow2(2 * h) && FitsSigned(hi, Pow2(2 * h))
    ensures hi * Pow2(2 * h) + lo == x * y
  {
    hide Pow2;
    var M := Pow2(2 * h);
    hi, lo := Wmulu(Unsigned(x, M), y, h);
    ghost var top := hi;
    if x < 0 {
      hi := (hi - y) % M;
    }
    hi := SignedOf(hi, M);
    MultipleOfFour(h);
    HighCorrectedMixed(x, y, M, top, lo);
  }

  lemma MultipleOfFour(h: nat)
    requires h > 0
    ensures Pow2(2 * h) % 4 == 0
  {
    hide Pow2;
    Pow2Unfold(2 * h);
    Pow2Unfold(2 * h - 1);
    var q := Pow2(2 * h - 2);
    assert Pow2(2 * h) == 4 * q;
  }

  // Subtracting modulo M and reading the word as signed gives the value itself
  // when that value is a signed word.
  lemma SignedOfResidue(t: int, M: int)
    requires M > 0 && FitsSigned(t, M)
    ensures SignedOf(t % M, M) == t
  {
    if t >= 0 {
      DivModUnique(t, M, 0, t);
    } else {
      DivModUnique(t, M, -1, t + M);
    }
  }

  lemma ResidueSteps(a: int, b: int, M: int)
    requires M > 0
    ensures (a % M - b) % M == (a - b) % M
    ensures (a - M) % M == a % M
    ensures 0 <= a < M ==> a % M == a
  {
    Distribute((a - b) / M, -(a / M), M);
    DivModUnique(a % M - b, M, (a - b) / M - a / M, (a - b) % M);
    Distribute(a / M, -1, M);
    DivModUnique(a - M, M, a / M - 1, a % M);
    if 0 <= a < M {
      DivModUnique(a, M, 0, a);
    }
  }

  lemma HighCorrected(x: int, y: int, M: int, top: int, lo: int)
    requires M > 0 && M % 4 == 0 && FitsSigned(x, M) && FitsSigned(y, M)
    requires 0 <= top < M && 0 <= lo < M
    requires top * M + lo == Unsigned(x, M) * Unsigned(y, M)
    ensures var once := if x < 0 then (top - y) % M else top;
      var twice := if y < 0 then (once - x) % M else once;
      FitsSigned(SignedOf(twice, M), M) && SignedOf(twice, M) * M + lo == x * y
  {
    var a, b, c := if x < 0 then y else 0, if y < 0 then x else 0, if x < 0 && y < 0 then M else 0;
    var t := top - a - b - c;
    SignCorrection(x, y, M, top, lo);
    SignedHalf(x, y, M, t, lo);
    SignedOfResidue(t, M);
    ResidueSteps(top, a, M);
    ResidueSteps(top - a, b, M);
    ResidueSteps(top - a - b, 0, M);
  }

  lemma HighCorrectedMixed(x: int, y: int, M: int, top: int, lo: int)
    requires M > 0 && M % 4 == 0 && FitsSigned(x, M) && 0 <= y < M
    requires 0 <= top < M && 0 <= lo < M
    requires top * M + lo == Unsigned(x, M) * y
    ensures var once := if x < 0 then (top - y) % M else top;
      FitsSigned(SignedOf(once, M), M) && SignedOf(once, M) * M + lo == x * y
  {
    var t := if x < 0 then top - y else top;
    assert t * M + lo == x * y by {
      Distribute(x, M, y);
      Distribute(top, -y, M);
    }
    MixedHalf(x, y, M, t, lo);
    SignedOfResidue(t, M);
    ResidueSteps(top, 0, M);
  }

  // (x + M)(y + M) = xy + (x + y) M + M M, and its two one-sided cases.
  lemma SignCorrection(x: int, y: int, M: int, top: int, lo: int)
    requires top * M + lo == Unsigned(x, M) * Unsigned(y, M)
    ensures (top - (if x < 0 then y else 0) - (if y < 0 then x else 0) - (if x < 0 && y < 0 then M else 0)) * M + lo
         == x * y
  {
    var u, v := if x < 0 then M else 0, if y < 0 then M else 0;
    Distribute(x, u, y + v);
    Distribute(y, v, x);
    Distribute(y, v, u);
    var a, b, c := if x < 0 then y else 0, if y < 0 then x else 0, if x < 0 && y < 0 then M else 0;
    Distribute(top - a - b, -c, M);
    Distribute(top - a, -b, M);
    Distribute(top, -a, M);
  }

  // A quotient of a product of two signed words is a signed word.
  lemma SignedHalf(x: int, y: int, M: int, t: int, lo: int)
    requires M > 0 && M % 4 == 0 && FitsSigned(x, M) && FitsSigned(y, M) && 0 <= lo < M
    requires t * M + lo == x * y
    ensures FitsSigned(t, M)
  {
    var k := M / 4;
    SignedProductBound(x, y, 2 * k, 2 * k);
    Reassociate(2 * k, 2, k);
    assert (2 * k) * (2 * k) == k * M;
    QuotientBound(t, M, lo, k);
  }

  lemma MixedHalf(x: int, y: int, M: int, t: int, lo: int)
    requires M > 0 && M % 4 == 0 && FitsSigned(x, M) && 0 <= y < M && 0 <= lo < M
    requires t * M + lo == x * y
    ensures FitsSigned(t, M)
  {
    var k := M / 4;
    if x >= 0 {
      MulBound(x, y, 2 * k - 1, M);
      QuotientBound(t, M, lo, 2 * k - 1);
    } else {
      MulBound(-x, y, 2 * k, M - 1);
      Distribute(M, -1, 2 * k);
      NegativeQuotient(t, M, lo, 2 * k);
    }
  }

  // From t M + lo within k M of zero, t is within k of zero.
  lemma QuotientBound(t: int, M: int, lo: int, k: int)
    requires M > 0 && 0 <= lo < M && k >= 0
    requires -(k * M) <= t * M + lo <= k * M
    ensures -k - 1 <= t <= k
  {
    if t > k {
      Distribute(t, -k, M);
      MulAtLeast(t - k, M);
    } else if t < -k - 1 {
      Distribute(-t, -k, M);
      Distribute(-t - k, -1, M);
      MulAtLeast(-t - k - 1, M);
    }
  }

  lemma NegativeQuotient(t: int, M: int, lo: int, k: int)
    requires M > 0 && 0 <= lo < M && k >= 0
    requires -(k * M) <= t * M + lo <= 0
    ensures -k <= t <= 0
  {
    if t > 0 {
      MulAtLeast(t, M);
    } else if t < -k {
      Distribute(-t, -k, M);
      MulAtLeast(-t - k, M);
    }
  }

  lemma SignedProductBound(x: int, y: int, b: int, c: int)
    requires -b <= x <= b && -c <= y <= c
    ensures -(b * c) <= x * y <= b * c
  {
    MulBound(if x < 0 then -x else x, if y < 0 then -y else y, b, c);
  }
}
