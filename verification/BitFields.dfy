// The laws of extract32, sextract32 and deposit32 (include/rvvk.h:117-139),
// for every start, length and value the helpers accept.
module BitFields {
  import opened Bits

  lemma {:induction false} ShrOnes(n: nat, k: nat)
    requires k <= n
    ensures Shr(Ones(n), k) == Ones(n - k)
  {
    if k != 0 {
      assert Ones(n) / 2 == Ones(n - 1);
      ShrOnes(n - 1, k - 1);
    }
  }

  lemma MaskIsOnes(length: nat)
    requires length <= 32
    ensures FieldMask(length) == Ones(length)
  {
    Pow2Values();
    ShrOnes(32, 32 - length);
  }

  lemma {:induction false} AndOnes(x: nat, n: nat)
    ensures And(x, Ones(n)) == Low(x, n)
  {
    if n != 0 {
      assert Ones(n) / 2 == Ones(n - 1) && Ones(n) % 2 == 1;
      AndOnes(x / 2, n - 1);
      if x == 0 {
        LowSmall(0, n);
      }
    }
  }

  // extract32 returns the length bits of value that begin at start.
  lemma ExtractMeaning(value: U32, start: int, length: int)
    requires FieldOk(start, length)
    ensures Extract32(value, start, length) == Low(Shr(value, start), length)
    ensures Extract32(value, start, length) == (value / Pow2(start)) % Pow2(length)
  {
    MaskIsOnes(length);
    AndOnes(Shr(value, start), length);
    SplitIsDivMod(value, start);
    SplitIsDivMod(Shr(value, start), length);
  }

  lemma FieldBits(value: U32, start: int, length: int)
    requires FieldOk(start, length)
    ensures Extract32(value, start, length) == Low(Shr(value, start), length)
  {
    hide Extract32, Low, Shr, Pow2;
    ExtractMeaning(value, start, length);
  }

  lemma {:induction false} CatOnes(s: nat, l: nat, w: nat)
    requires s + l <= w
    ensures Cat(0, s, Ones(l)) <= Ones(w)
  {
    Pow2Grows(s + l, w);
    CatBound(0, s, Ones(l), l);
  }

  lemma {:induction false} Pow2Grows(a: nat, b: nat)
    requires a <= b
    ensures Pow2(a) <= Pow2(b)
  {
    if a < b {
      Pow2Grows(a, b - 1);
    }
  }

  // One bit of `(v & ~mask) | (f & mask)`.
  lemma MergeBit(v: nat, f: nat, mask: nat, w: nat)
    requires 0 < w && mask <= Ones(w)
    ensures mask / 2 <= Ones(w - 1)
    ensures Or(And(v, Ones(w) - mask), And(f, mask))
         == (if mask % 2 == 0 then v % 2 else f % 2)
          + 2 * Or(And(v / 2, Ones(w - 1) - mask / 2), And(f / 2, mask / 2))
  {
    var keep := Ones(w) - mask;
    assert keep / 2 == Ones(w - 1) - mask / 2 && keep % 2 == 1 - mask % 2;
    AndBit(v, keep);
    AndBit(f, mask);
    OrBit(And(v, keep), And(f, mask));
  }

  lemma AndBit(a: nat, b: nat)
    ensures And(a, b) / 2 == And(a / 2, b / 2)
    ensures And(a, b) % 2 == if a % 2 == 1 && b % 2 == 1 then 1 else 0
  {
  }

  lemma OrBit(a: nat, b: nat)
    ensures Or(a, b) == (if a % 2 == 1 || b % 2 == 1 then 1 else 0) + 2 * Or(a / 2, b / 2)
  {
  }

  // w bits, each taken from f where mask has a one and from v elsewhere.
  function Select(v: nat, f: nat, mask: nat, w: nat): nat {
    if w == 0 then 0
    else (if mask % 2 == 0 then v % 2 else f % 2) + 2 * Select(v / 2, f / 2, mask / 2, w - 1)
  }

  lemma SelectUnfold(v: nat, f: nat, mask: nat, w: nat)
    ensures Select(v, f, mask, w) ==
      if w == 0 then 0 else (if mask % 2 == 0 then v % 2 else f % 2) + 2 * Select(v / 2, f / 2, mask / 2, w - 1)
  {
  }

  lemma NothingMerges(v: nat, f: nat, mask: nat)
    requires v == 0 && mask <= Ones(0)
    ensures Or(And(v, Ones(0) - mask), And(f, mask)) == 0
  {
  }

  // The masked merge is that selection.
  lemma {:induction false} MergeIsSelect(v: nat, f: nat, mask: nat, w: nat)
    requires v < Pow2(w) && mask <= Ones(w)
    ensures Or(And(v, Ones(w) - mask), And(f, mask)) == Select(v, f, mask, w)
    decreases w
  {
    hide And, Or, Ones, Pow2, Select;
    Pow2Unfold(w);
    SelectUnfold(v, f, mask, w);
    if w == 0 {
      NothingMerges(v, f, mask);
    } else {
      MergeBit(v, f, mask, w);
      MergeIsSelect(v / 2, f / 2, mask / 2, w - 1);
    }
  }

  // Selecting with the mask of a field splices that field in.
  lemma {:induction false} SelectIsSplice(v: nat, g: nat, s: nat, l: nat, w: nat)
    requires s + l <= w && v < Pow2(w)
    ensures Select(v, g, Cat(0, s, Ones(l)), w) == Cat(v, s, Cat(Shr(g, s), l, Shr(v, s + l)))
    decreases w
  {
    if s == 0 {
      SelectLowField(v, g, l, w);
    } else {
      SelectIsSplice(v / 2, g / 2, s - 1, l, w - 1);
      BitAndRest(0, Cat(0, s - 1, Ones(l)));
    }
  }

  lemma {:induction false} SelectLowField(v: nat, g: nat, l: nat, w: nat)
    requires l <= w && v < Pow2(w)
    ensures Select(v, g, Ones(l), w) == Cat(g, l, Shr(v, l))
    decreases w
  {
    if l == 0 {
      SelectNothing(v, g, w);
    } else {
      SelectLowField(v / 2, g / 2, l - 1, w - 1);
      BitAndRest(1, Ones(l - 1));
    }
  }

  lemma {:induction false} SelectNothing(v: nat, f: nat, w: nat)
    requires v < Pow2(w)
    ensures Select(v, f, 0, w) == v
  {
    if w != 0 {
      SelectNothing(v / 2, f / 2, w - 1);
    }
  }

  // deposit32 keeps the bits below and above the field and writes the low
  // length bits of fieldval into it.
  lemma DepositMeaning(value: U32, start: int, length: int, fieldval: U32)
    requires FieldOk(start, length)
    ensures Deposit32(value, start, length, fieldval)
         == Cat(value, start, Cat(fieldval, length, Shr(value, start + length)))
  {
    hide And, Or, Cat, Shr, Low, Select, Ones;
    var mask, field := Cat(0, start, Ones(length)), Trunc32(Shl(fieldval, start));
    MaskIsOnes(length);
    MaskInPlace(start, length);
    AllOnes();
    MergeIsSelect(value, field, mask, 32);
    SelectIsSplice(value, field, start, length, 32);
    FieldInPlace(fieldval, start, length, Shr(value, start + length));
  }

  lemma AllOnes()
    ensures Ones(32) == 0xFFFF_FFFF && Pow2(32) == TWO32
  {
    Pow2Values();
  }

  lemma FieldInPlace(fieldval: U32, start: nat, length: nat, above: nat)
    requires start + length <= 32
    ensures Cat(Shr(Trunc32(Shl(fieldval, start)), start), length, above) == Cat(fieldval, length, above)
  {
    ShrLow(Shl(fieldval, start), start, 32);
    CatParts(0, start, fieldval);
    CatLow(fieldval, length, above, 32 - start);
  }

  lemma MaskInPlace(start: nat, length: nat)
    requires start + length <= 32
    ensures Trunc32(Shl(Ones(length), start)) == Cat(0, start, Ones(length)) <= Ones(32)
  {
    hide Cat, Low, Shr, Ones, Pow2;
    CatOnes(start, length, 32);
    LowSmall(Cat(0, start, Ones(length)), 32);
  }

  // Reading the field back gives the value modulo 2^length.
  lemma ExtractAfterDeposit(value: U32, start: int, length: int, fieldval: U32)
    requires FieldOk(start, length)
    ensures Extract32(Deposit32(value, start, length, fieldval), start, length) == fieldval % Pow2(length)
  {
    var inner := Cat(fieldval, length, Shr(value, start + length));
    DepositMeaning(value, start, length, fieldval);
    ExtractMeaning(Deposit32(value, start, length, fieldval), start, length);
    CatParts(value, start, inner);
    CatParts(fieldval, length, Shr(value, start + length));
    SplitIsDivMod(fieldval, length);
  }

  // Every field that lies outside the deposited one keeps its value.
  lemma DepositKeepsOutside(value: U32, start: int, length: int, fieldval: U32, s: int, l: int)
    requires FieldOk(start, length) && FieldOk(s, l)
    requires s + l <= start || start + length <= s
    ensures Extract32(Deposit32(value, start, length, fieldval), s, l) == Extract32(value, s, l)
  {
    hide Cat, Low, Shr, Pow2, Extract32, Deposit32;
    var d := Deposit32(value, start, length, fieldval);
    var inner := Cat(fieldval, length, Shr(value, start + length));
    DepositMeaning(value, start, length, fieldval);
    FieldBits(d, s, l);
    FieldBits(value, s, l);
    if s + l <= start {
      ShrCat(value, start, inner, s);
      LowCat(Shr(value, s), start - s, inner, l);
    } else {
      SpliceAbove(value, fieldval, start, length, s - start - length);
    }
  }

  lemma SpliceAbove(value: nat, fieldval: nat, start: nat, length: nat, k: nat)
    ensures Shr(Cat(value, start, Cat(fieldval, length, Shr(value, start + length))), start + length + k)
         == Shr(value, start + length + k)
  {
    hide Cat, Low, Shr, Pow2;
    var inner := Cat(fieldval, length, Shr(value, start + length));
    ShrCat(value, start, inner, length + k);
    ShrCat(fieldval, length, Shr(value, start + length), k);
    ShrShr(value, start + length, k);
  }

  // A word is determined by its field and the bits outside it.
  lemma SameFields(x: U32, y: U32, s: nat, l: nat)
    requires s + l <= 32
    requires Low(x, s) == Low(y, s)
    requires Low(Shr(x, s), l) == Low(Shr(y, s), l)
    requires Shr(x, s + l) == Shr(y, s + l)
    ensures x == y
  {
    ShrShr(x, s, l);
    ShrShr(y, s, l);
    SameParts(Shr(x, s), Shr(y, s), l);
    SameParts(x, y, s);
  }

  // The three parts of a word after a deposit.
  lemma DepositParts(value: U32, start: int, length: int, fieldval: U32)
    requires FieldOk(start, length)
    ensures var d := Deposit32(value, start, length, fieldval);
      && Low(d, start) == Low(value, start)
      && Low(Shr(d, start), length) == Low(fieldval, length)
      && Shr(d, start + length) == Shr(value, start + length)
  {
    var inner := Cat(fieldval, length, Shr(value, start + length));
    DepositMeaning(value, start, length, fieldval);
    CatParts(value, start, inner);
    CatParts(fieldval, length, Shr(value, start + length));
    ShrCat(value, start, inner, length);
  }

  // A deposit above position n leaves the low n bits; one below position n
  // leaves everything from n up.
  lemma DepositFrame(value: U32, start: int, length: int, fieldval: U32, n: nat)
    requires FieldOk(start, length)
    ensures n <= start ==> Low(Deposit32(value, start, length, fieldval), n) == Low(value, n)
    ensures start + length <= n ==> Shr(Deposit32(value, start, length, fieldval), n) == Shr(value, n)
  {
    hide Cat, Low, Shr, Pow2, Extract32, Deposit32;
    var d := Deposit32(value, start, length, fieldval);
    DepositParts(value, start, length, fieldval);
    if n <= start {
      LowLow(d, start, n);
      LowLow(value, start, n);
    }
    if start + length <= n {
      ShrShr(d, start + length, n - start - length);
      ShrShr(value, start + length, n - start - length);
    }
  }

  // Deposits into disjoint fields commute.
  lemma DepositsCommute(value: U32, s1: int, l1: int, f1: U32, s2: int, l2: int, f2: U32)
    requires FieldOk(s1, l1) && FieldOk(s2, l2) && s1 + l1 <= s2
    ensures Deposit32(Deposit32(value, s1, l1, f1), s2, l2, f2)
         == Deposit32(Deposit32(value, s2, l2, f2), s1, l1, f1)
  {
    hide Cat, Low, Shr, Pow2, Extract32, Deposit32;
    var v1, v2 := Deposit32(value, s1, l1, f1), Deposit32(value, s2, l2, f2);
    var x, y := Deposit32(v1, s2, l2, f2), Deposit32(v2, s1, l1, f1);
    DepositParts(value, s1, l1, f1);
    DepositParts(value, s2, l2, f2);
    DepositParts(v1, s2, l2, f2);
    DepositParts(v2, s1, l1, f1);
    // below s2 both are v1; from s2 up both are v2
    DepositMeaning(v2, s1, l1, f1);
    DepositMeaning(value, s1, l1, f1);
    LowSpliced(v2, value, s1, l1, f1, s2);
    DepositFrame(v2, s1, l1, f1, s2);
    DepositFrame(v2, s1, l1, f1, s2 + l2);
    DepositFrame(value, s1, l1, f1, s2 + l2);
    SameFields(x, y, s2, l2);
  }

  // Splicing the same field into words that agree below n gives words that
  // agree below n.
  lemma LowSpliced(x: U32, y: U32, s: int, l: int, f: U32, n: nat)
    requires FieldOk(s, l) && s + l <= n
    requires Low(x, n) == Low(y, n)
    ensures Low(Deposit32(x, s, l, f), n) == Low(Deposit32(y, s, l, f), n)
  {
    hide Cat, Low, Shr, Pow2, Extract32, Deposit32;
    LowOfDeposit(x, s, l, f, n);
    LowOfDeposit(y, s, l, f, n);
    LowLow(x, n, s);
    LowLow(y, n, s);
    ShrLow(x, s + l, n);
    ShrLow(y, s + l, n);
    CatLow(x, s, Cat(f, l, Low(Shr(x, s + l), n - s - l)), s);
    CatLow(y, s, Cat(f, l, Low(Shr(y, s + l), n - s - l)), s);
  }

  lemma LowOfDeposit(x: U32, s: int, l: int, f: U32, n: nat)
    requires FieldOk(s, l) && s + l <= n
    ensures Low(Deposit32(x, s, l, f), n) == Cat(x, s, Cat(f, l, Low(Shr(x, s + l), n - s - l)))
  {
    hide Cat, Low, Shr, Pow2, Deposit32;
    DepositMeaning(x, s, l, f);
    LowCat(x, s, Cat(f, l, Shr(x, s + l)), n - s);
    LowCat(f, l, Shr(x, s + l), n - s - l);
  }

  // ---- Sign extension ----

  // Two's-complement value of an n-bit string.
  function SignedValue(x: nat, n: nat): int
    requires n > 0
  {
    if Shr(x, n - 1) % 2 == 0 then Low(x, n) else Low(x, n) - Pow2(n)
  }

  // sextract32 is the two's-complement value of the extracted field.
  lemma SextractMeaning(value: U32, start: int, length: int)
    requires FieldOk(start, length)
    ensures Sextract32(value, start, length) == SignedValue(Extract32(value, start, length), length)
  {
    ExtractMeaning(value, start, length);
    ShiftedUp(value, start, length);
    ArithShiftOfTop(Trunc32(Shl(value, 32 - length - start)), length);
  }

  // Shifting left until the field ends at bit 31 leaves the field on top.
  lemma ShiftedUp(value: U32, start: int, length: int)
    requires FieldOk(start, length)
    ensures Shr(Trunc32(Shl(value, 32 - length - start)), 32 - length) == Low(Shr(value, start), length)
  {
    hide Cat, Low, Shr, Pow2;
    var a := 32 - length - start;
    ShrLow(Shl(value, a), 32 - length, 32);
    ShrCat(0, a, value, start);
  }

  // Arithmetic right shift of a word is the signed value of its top bits.
  lemma ArithShiftOfTop(x: U32, length: nat)
    requires 0 < length <= 32
    ensures ShiftRightSigned(ToI32(x), 32 - length) == SignedValue(Shr(x, 32 - length), length)
  {
    var k := 32 - length;
    TopIsWhole(x, length);
    SignBit(x);
    ShrShr(x, k, length - 1);
    if x >= 0x8000_0000 {
      AllOnes();
      ShrComplement(x, 32, k);
    }
  }

  lemma TopIsWhole(x: U32, length: nat)
    requires length <= 32
    ensures Low(Shr(x, 32 - length), length) == Shr(x, 32 - length)
  {
    AllOnes();
    LowSmall(x, 32);
    ShrLow(x, 32 - length, 32);
  }

  lemma SignBit(x: U32)
    ensures Shr(x, 31) == if x >= 0x8000_0000 then 1 else 0
  {
    Pow2Values();
    SplitIsDivMod(x, 31);
    assert Pow2(32) == 2 * Pow2(31);
  }

  lemma {:induction false} ShrComplement(x: nat, n: nat, k: nat)
    requires k <= n && x < Pow2(n)
    ensures Shr(x, k) <= Ones(n - k)
    ensures Shr(Ones(n) - x, k) == Ones(n - k) - Shr(x, k)
  {
    if k != 0 {
      assert (Ones(n) - x) / 2 == Ones(n - 1) - x / 2;
      ShrComplement(x / 2, n - 1, k - 1);
    }
  }
}
