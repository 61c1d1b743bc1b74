// The masks of the opcode switches, as the fields they select.
module Masks {
  import opened Bits
  import opened BitFields
  import opened Decode

  lemma AndBelow(a: nat, b: nat, x: nat, y: nat)
    requires x < 2 && y < 2
    ensures And(2 * a + x, 2 * b + y) == 2 * And(a, b) + (if x == 1 && y == 1 then 1 else 0)
  {
    var p, q := 2 * a + x, 2 * b + y;
    assert p / 2 == a && q / 2 == b && p % 2 == x && q % 2 == y;
    if p != 0 && q != 0 {
    } else {
      assert p == 0 ==> a == 0;
      assert q == 0 ==> b == 0;
    }
  }

  // A mask in two parts selects both.
  lemma {:induction false} AndCat(x: nat, m: nat, n: nat, h: nat)
    ensures And(x, Cat(m, n, h)) == Cat(And(x, Low(m, n)), n, And(Shr(x, n), h))
  {
    hide And, Cat, Low, Shr, Pow2;
    CatUnfold(m, n, h);
    LowUnfold(m, n);
    ShrUnfold(x, n);
    AndNothing(x);
    if n == 0 {
      CatUnfold(And(x, Low(m, n)), n, And(Shr(x, n), h));
    } else {
      AndCat(x / 2, m / 2, n - 1, h);
      AndBelow(x / 2, Cat(m / 2, n - 1, h), x % 2, m % 2);
      AndBelow(x / 2, Low(m / 2, n - 1), x % 2, m % 2);
      var bit := if x % 2 == 1 && m % 2 == 1 then 1 else 0;
      CatEven(And(x / 2, Low(m / 2, n - 1)), n - 1, And(Shr(x / 2, n - 1), h), bit);
    }
  }

  lemma CatEven(a: nat, n: nat, h: nat, bit: nat)
    requires bit < 2
    ensures Cat(2 * a + bit, n + 1, h) == 2 * Cat(a, n, h) + bit
  {
    hide Cat;
    CatUnfold(2 * a + bit, n + 1, h);
    assert (2 * a + bit) / 2 == a && (2 * a + bit) % 2 == bit;
  }

  lemma AndNothing(x: nat)
    ensures And(x, 0) == 0
  {
  }

  // A mask of l ones from bit s up.
  lemma MaskedField(op: U32, s: nat, l: nat)
    requires FieldOk(s, l)
    ensures And(op, Pow2(s) * Ones(l)) == Pow2(s) * Extract32(op, s, l)
  {
    hide And, Cat, Low, Shr, Pow2, Ones;
    AndCat(op, 0, s, Ones(l));
    CatIsSum(0, s, Ones(l));
    LowOfNothing(s);
    AndNothing(op);
    AndOnes(Shr(op, s), l);
    ExtractMeaning(op, s, l);
    CatIsSum(0, s, Extract32(op, s, l));
  }

  lemma LowOfNothing(n: nat)
    ensures Low(0, n) == 0
  {
    hide Low, Shr;
    SplitIsDivMod(0, n);
  }

  // A field within a field.
  lemma SubField(op: U32, s: nat, l: nat, k: nat, n: nat)
    requires FieldOk(s, l) && n > 0 && k + n <= l
    ensures Extract32(op, s + k, n) == Low(Shr(Extract32(op, s, l), k), n)
  {
    hide Low, Shr, Extract32, Pow2;
    FieldBits(op, s + k, n);
    FieldBits(op, s, l);
    ShrShr(op, s, k);
    ShrLow(Shr(op, s), k, l);
    LowLow(Shr(op, s + k), l - k, n);
  }

  // The low half of a word has the same fields.
  lemma LowHalf(op: U32, s: nat, l: nat)
    requires l > 0 && s + l <= 16
    ensures Extract32(op, s, l) == Extract32(op % 0x1_0000, s, l)
  {
    hide Low, Shr, Extract32;
    Pow2Values();
    SplitIsDivMod(op, 16);
    FieldBits(op, s, l);
    FieldBits(op % 0x1_0000, s, l);
    ShrLow(op, s, 16);
    LowLow(Shr(op, s), 16 - s, l);
  }

  // ---- The masks of translate.c ----

  lemma OpcodeMask(op: U32)
    ensures And(op, 0x7f) == Extract32(op, 0, 7)
  {
    hide And, Extract32;
    OnesValues();
    Pow2Values();
    MaskedField(op, 0, 7);
  }

  lemma LengthMask(op: U32)
    ensures And(op, 3) == Extract32(op, 0, 2)
  {
    hide And, Extract32;
    OnesValues();
    Pow2Values();
    MaskedField(op, 0, 2);
  }

  lemma Funct3Mask(op: U32)
    ensures And(op, FUNCT3_MASK) == 0x1000 * Extract32(op, 12, 3)
  {
    hide And, Extract32;
    OnesValues();
    Pow2Values();
    MaskedField(op, 12, 3);
  }

  lemma Funct7Mask(op: U32)
    ensures And(op, FUNCT7_MASK) == 0x200_0000 * Extract32(op, 25, 7)
  {
    hide And, Extract32;
    OnesValues();
    HighPowers();
    MaskedField(op, 25, 7);
  }

  lemma ShiftMask(op: U32)
    ensures And(op, I_11_X_MASK) == 0x400_0000 * Extract32(op, 26, 6)
  {
    hide And, Extract32;
    OnesValues();
    HighPowers();
    MaskedField(op, 26, 6);
  }

  lemma AtomicMasks(op: U32)
    ensures And(op, OP_27_31_MASK) == 0x800_0000 * Extract32(op, 27, 5)
    ensures And(op, OP_20_24_MASK) == 0x10_0000 * Extract32(op, 20, 5)
  {
    hide And, Extract32;
    OnesValues();
    HighPowers();
    Pow2Values();
    MaskedField(op, 27, 5);
    MaskedField(op, 20, 5);
  }

  // The switch of decode_insn16: the low two bits and bits 13 to 15.
  lemma ShortMask(op: U32)
    ensures And(op, 0xe003) == Extract32(op, 0, 2) + 0x2000 * Extract32(op, 13, 3)
  {
    hide And, Extract32, Cat, Low, Shr;
    OnesValues();
    HighPowers();
    AndCat(op, 3, 13, 7);
    CatIsSum(3, 13, 7);
    LowSmall(3, 13);
    LengthMask(op);
    AndOnes(Shr(op, 13), 3);
    FieldBits(op, 13, 3);
    FieldBits(op, 0, 2);
    Pow2Values();
    CatIsSum(And(op, 3), 13, And(Shr(op, 13), 7));
    LowSmall(And(op, 3), 13);
  }

  lemma ShortFieldMasks(op: U32)
    ensures And(op, 0x1fe0) == 0x20 * Extract32(op, 5, 8)
    ensures And(op, 0x0f80) == 0x80 * Extract32(op, 7, 5)
    ensures And(op, 0x007c) == 4 * Extract32(op, 2, 5)
    ensures And(op, 0x0ffc) == 4 * Extract32(op, 2, 10)
  {
    hide And, Extract32;
    OnesValues();
    HighPowers();
    Pow2Values();
    MaskedField(op, 5, 8);
    MaskedField(op, 7, 5);
    MaskedField(op, 2, 5);
    MaskedField(op, 2, 10);
  }

  // The switch of the register-register group of case 0x8001.
  lemma ShortGroupMask(op: U32)
    ensures And(op, 0x1060) == 0x20 * Extract32(op, 5, 2) + 0x1000 * Extract32(op, 12, 1)
  {
    hide And, Extract32, Cat, Low, Shr;
    OnesValues();
    Pow2Values();
    AndCat(op, 0x60, 12, 1);
    CatIsSum(0x60, 12, 1);
    LowSmall(0x60, 12);
    MaskedField(op, 5, 2);
    AndOnes(Shr(op, 12), 1);
    FieldBits(op, 12, 1);
    CatIsSum(And(op, 0x60), 12, And(Shr(op, 12), 1));
    LowSmall(And(op, 0x60), 12);
  }

  lemma HighPowers()
    ensures Pow2(7) == 0x80 && Pow2(13) == 0x2000
    ensures Pow2(25) == 0x200_0000 && Pow2(26) == 0x400_0000 && Pow2(27) == 0x800_0000
  {
    Pow2Values();
    assert Pow2(7) == 2 * Pow2(6) && Pow2(13) == 2 * Pow2(12);
    Pow2Add(20, 5);
    assert Pow2(26) == 2 * Pow2(25) && Pow2(27) == 2 * Pow2(26);
  }

  lemma OnesValues()
    ensures Ones(1) == 1 && Ones(2) == 3 && Ones(3) == 7 && Ones(5) == 0x1f && Ones(6) == 0x3f
    ensures Ones(7) == 0x7f && Ones(8) == 0xff && Ones(10) == 0x3ff
  {
  }
}
