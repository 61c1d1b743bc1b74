// Immediate decoding undoes encoding.  The encoders lay the bits of an
// immediate out as the RISC-V Unprivileged ISA (document version 20191213)
// draws the formats in sections 2.3 and 16.3 to 16.5; the decoders are the
// extract functions of arch/riscv/translate.c.
module Immediates {
  import opened Bits
  import opened BitFields
  import opened Decode

  // imm[hi:lo]
  function Slice(imm: int, hi: nat, lo: nat): nat
    requires lo <= hi
  {
    Low(Shr(ToU32(imm), lo), hi - lo + 1)
  }

  lemma ZeroSlice(hi: nat, lo: nat)
    requires lo <= hi
    ensures Slice(0, hi, lo) == 0
  {
    hide Low, Shr;
    SplitIsDivMod(0, lo);
    SplitIsDivMod(0, hi - lo + 1);
  }

  // Reading the next field of a word laid out from the low end.
  lemma NextField(w: nat, off: nat, f: nat, n: nat, rest: nat)
    requires n > 0 && off + n <= 32
    requires Shr(w, off) == Cat(f, n, rest)
    ensures Extract32(Trunc32(w), off, n) == Low(f, n)
    ensures Shr(w, off + n) == rest
  {
    ExtractMeaning(Trunc32(w), off, n);
    ShrLow(w, off, 32);
    LowLow(Shr(w, off), 32 - off, n);
    CatParts(f, n, rest);
    ShrShr(w, off, n);
  }

  // The next field is imm[hi:lo].
  lemma NextSlice(w: nat, off: nat, imm: int, hi: nat, lo: nat, rest: nat)
    requires lo <= hi && off + hi - lo + 1 <= 32
    requires Shr(w, off) == Cat(Slice(imm, hi, lo), hi - lo + 1, rest)
    ensures Extract32(Trunc32(w), off, hi - lo + 1) == Low(Shr(ToU32(imm), lo), hi - lo + 1)
    ensures Shr(w, off + hi - lo + 1) == rest
  {
    hide Cat, Low, Shr, Extract32, Trunc32;
    NextField(w, off, Slice(imm, hi, lo), hi - lo + 1, rest);
    LowLow(Shr(ToU32(imm), lo), hi - lo + 1, hi - lo + 1);
  }

  lemma Whole(w: nat)
    ensures Shr(w, 0) == w
  {
  }

  lemma {:induction false} CatZero(x: nat, n: nat)
    ensures Cat(x, n, 0) == Low(x, n)
  {
    if n != 0 {
      CatZero(x / 2, n - 1);
    }
  }

  // Depositing into all bits above s a value whose own bits below s are the
  // whole word.
  lemma DepositOnTop(low: U32, s: nat, f: U32)
    requires s < 32 && low < Pow2(s)
    ensures Deposit32(low, s, 32 - s, f) == Cat(low, s, Low(f, 32 - s))
  {
    hide Cat, Low, Shr, Pow2, Deposit32;
    DepositMeaning(low, s, 32 - s, f);
    Pow2Values();
    LowSmall(low, 32);
    CatZero(f, 32 - s);
  }

  // The decoders collect the bits of imm above position z: the next n bits
  // extend what has been collected.
  lemma Grow(imm: int, z: nat, s: nat, n: nat)
    requires z + s + n <= 32 && 0 < s && 0 < n
    ensures Low(Shr(ToU32(imm), z), s) < TWO32
    ensures Deposit32(Low(Shr(ToU32(imm), z), s), s, 32 - s, Low(Shr(ToU32(imm), z + s), n))
         == Low(Shr(ToU32(imm), z), s + n)
  {
    hide Cat, Low, Shr, Deposit32;
    var x := Shr(ToU32(imm), z);
    var f := Low(Shr(ToU32(imm), z + s), n);
    DepositOnTop(Low(x, s), s, f);
    ShrShr(ToU32(imm), z, s);
    LowLow(Shr(x, s), n, 32 - s);
    CatLow(x, s, f, s);
    LowGrow(x, s, n);
  }

  lemma ComplementHalf(ones: nat, c: nat)
    requires c <= 1 + 2 * ones
    ensures (1 + 2 * ones - c) / 2 == ones - c / 2
    ensures (1 + 2 * ones - c) % 2 == 1 - c % 2
  {
  }

  // n low bits of Ones(m) - c
  lemma {:induction false} LowComplement(c: nat, m: nat, n: nat)
    requires n <= m && c < Pow2(m)
    ensures Low(Ones(m) - c, n) == Ones(n) - Low(c, n)
  {
    hide Low, Pow2;
    LowUnfold(Ones(m) - c, n);
    LowUnfold(c, n);
    if n != 0 {
      OnesIsOdd(m - 1);
      OnesIsOdd(n - 1);
      ComplementHalf(Ones(m - 1), c);
      LowComplement(c / 2, m - 1, n - 1);
    }
  }

  // A negative int32_t is the complement of -1 - x.
  lemma Complement(x: I32)
    requires x < 0
    ensures ToU32(x) == Ones(32) - (-1 - x) && -1 - x < Pow2(31) && Ones(32) < TWO32
  {
    Pow2Values();
  }

  // The arithmetic shift agrees with the logical one on every bit the logical
  // shift still has.
  lemma ArithShiftBits(x: I32, k: nat, n: nat)
    requires k + n <= 32
    ensures -0x8000_0000 <= ShiftRightSigned(x, k) < 0x8000_0000
    ensures Low(ToU32(ShiftRightSigned(x, k)), n) == Low(Shr(ToU32(x), k), n)
  {
    hide Low, Shr, Ones, Pow2;
    if x < 0 {
      Complement(x);
      Complement(-1 - Shr(-1 - x, k));
      ComplementBits(-1 - x, k, n);
    }
  }

  lemma ComplementBits(c: nat, k: nat, n: nat)
    requires k + n <= 32 && c < Pow2(31)
    ensures c <= Ones(32)
    ensures Low(Ones(32) - Shr(c, k), n) == Low(Shr(Ones(32) - c, k), n)
  {
    hide Low, Shr, Ones, Pow2;
    Pow2Grows(31, 32);
    ShrComplement(c, 32, k);
    ShrSmall(c, k, 32);
    LowComplement(Shr(c, k), 32 - k, n);
    LowComplement(Shr(c, k), 32, n);
  }

  lemma {:induction false} ShrSmall(x: nat, k: nat, m: nat)
    requires k <= m && x < Pow2(m)
    ensures Shr(x, k) < Pow2(m - k)
  {
    if k != 0 {
      ShrSmall(x / 2, k - 1, m - 1);
    }
  }

  lemma ArithShiftTwice(x: int, a: nat, b: nat)
    ensures ShiftRightSigned(ShiftRightSigned(x, a), b) == ShiftRightSigned(x, a + b)
  {
    hide Shr;
    ShrShr(if x >= 0 then x else -1 - x, a, b);
  }

  // x is a signed number of n + 1 bits.
  predicate InSigned(x: int, n: nat) {
    -1 * Pow2(n) <= x < Pow2(n)
  }

  // A string of l bits that sign-extends to x.
  lemma SignedField(x: int, l: nat)
    requires 0 < l <= 32 && InSigned(x, l - 1)
    ensures -0x8000_0000 <= x < 0x8000_0000
    ensures SignedValue(Low(ToU32(x), l), l) == x
  {
    hide Low, Shr, Pow2;
    Pow2Values();
    Pow2Grows(l - 1, 31);
    LowLow(ToU32(x), l, l);
    ShrLow(ToU32(x), l - 1, l);
    if x >= 0 {
      SmallField(x, l);
    } else {
      NegativeField(x, l);
    }
  }

  lemma NegativeField(x: int, l: nat)
    requires 0 < l <= 32 && -1 * Pow2(l - 1) <= x < 0 && -0x8000_0000 <= x
    ensures SignedValue(Low(ToU32(x), l), l) == x
  {
    hide Low, Shr, Pow2, ToU32, Ones;
    var c, u := -1 - x, ToU32(x);
    Complement(x);
    Pow2Values();
    SmallField(c, l);
    LowComplement(c, 32, l);
    assert Low(u, l) == Ones(l) - c == Pow2(l) + x;
    LowLow(u, l, l);
    ShrLow(u, l - 1, l);
    ShrComplement(c, 32, l - 1);
    TopBitOfOnes(32 - l);
    assert Shr(Low(u, l), l - 1) == 1;
  }

  lemma SmallField(c: nat, l: nat)
    requires l > 0 && c < Pow2(l - 1)
    ensures Low(c, l) == c && Shr(c, l - 1) == 0
  {
    LowSmall(c, l - 1);
    LowSmall(c, l) by { assert Pow2(l) == 2 * Pow2(l - 1); }
  }

  lemma TopBitOfOnes(n: nat)
    ensures Low(0, 1) == 0 && Low(Ones(n + 1), 1) == 1
  {
    hide Low, Shr, Pow2, Ones;
    OnesIsOdd(n);
    LowestBit(0);
    LowestBit(Ones(n + 1));
  }

  lemma OnesIsOdd(n: nat)
    ensures Ones(n + 1) == 1 + 2 * Ones(n)
  {
  }

  lemma LowestBit(x: nat)
    ensures Low(x, 1) == x % 2
  {
    assert Low(x / 2, 0) == 0;
  }

  // imm is a multiple of 2^z, so its low z bits are zero.
  lemma MultipleHasZeros(imm: int, z: nat)
    requires z <= 32 && imm % Pow2(z) == 0
    ensures Low(ToU32(imm), z) == 0
  {
    hide Low;
    Pow2Add(z, 32 - z);
    Pow2Values();
    ResidueOfMultiple(imm, Pow2(z), Pow2(32 - z));
    SplitIsDivMod(ToU32(imm), z);
  }

  lemma ResidueOfMultiple(x: int, p: nat, m: nat)
    requires p > 0 && m > 0 && x % p == 0
    ensures p * m > 0
    ensures (x % (p * m)) % p == 0
  {
    MulAtLeast(m, p);
    var t, q := x / (p * m), x / p;
    Reassociate(p, m, t);
    assert p * q - p * (m * t) == p * (q - m * t);
    DivModUnique(x % (p * m), p, q - m * t, 0);
  }

  // Shifting back: the collected bits above z, followed by z zeros.
  lemma ShiftBack(imm: I32, z: nat)
    requires z < 32 && imm % Pow2(z) == 0
    ensures -0x8000_0000 <= ShiftRightSigned(imm, z) < 0x8000_0000
    ensures ExShift(ToU32(ShiftRightSigned(imm, z)), z) == imm
  {
    hide Cat, Low, Shr, ShiftRightSigned, Pow2, ToU32, ToI32, Trunc32, Shl;
    var u, x := ToU32(imm), ToU32(ShiftRightSigned(imm, z));
    ArithShiftBits(imm, z, 32 - z);
    MultipleHasZeros(imm, z);
    WordShr(u, z);
    WordBack(u, x, z);
    WordAndBack(imm);
  }

  lemma WordBack(u: U32, x: U32, z: nat)
    requires z < 32 && Low(x, 32 - z) == Shr(u, z) && Low(u, z) == 0
    ensures Trunc32(Shl(x, z)) == u
  {
    hide Cat, Low, Shr, Pow2;
    LowCat(0, z, x, 32 - z);
    Split(u, z);
    LowOfZero(z);
    CatLow(u, z, Shr(u, z), z);
  }

  lemma WordAndBack(imm: I32)
    ensures ToI32(ToU32(imm)) == imm
  {
  }

  lemma LowOfZero(z: nat)
    ensures Low(0, z) == 0
  {
  }

  lemma WordShr(u: U32, z: nat)
    requires z <= 32
    ensures Low(Shr(u, z), 32 - z) == Shr(u, z)
  {
    Pow2Values();
    ShrSmall(u, z, 32);
    LowSmall(Shr(u, z), 32 - z);
  }

  // The last deposit of a signed immediate: z dropped bits, s collected bits,
  // and l bits of the word at p that hold imm[z+s+l-1 : z+s].
  lemma FinishSigned(w: nat, imm: I32, z: nat, s: nat, l: nat, p: nat)
    requires 0 < l && z + s + l <= 32 && p + l <= 32 && z < 32 && s < 32
    requires InSigned(imm, z + s + l - 1) && imm % Pow2(z) == 0
    requires Extract32(Trunc32(w), p, l) == Low(Shr(ToU32(imm), z + s), l)
    ensures s == 0 ==> Sextract32(Trunc32(w), p, l) == ShiftRightSigned(imm, z)
    ensures s == 0 ==> ExShift(Sx(Trunc32(w), p, l), z) == imm
    ensures Low(Shr(ToU32(imm), z), s) < TWO32
    ensures s > 0 ==> ExShift(Deposit32(Low(Shr(ToU32(imm), z), s), s, 32 - s, Sx(Trunc32(w), p, l)), z) == imm
    ensures s > 0 && z == 0 ==> ToI32(Deposit32(Low(Shr(ToU32(imm), z), s), s, 32 - s, Sx(Trunc32(w), p, l))) == imm
  {
    hide Cat, Low, Shr, Deposit32, Extract32, Sextract32, Trunc32, ExShift, SignedValue;
    TopOfSigned(w, imm, z, s, l, p);
    ShiftBack(imm, z);
    if s > 0 {
      SignedJoin(imm, z, s);
      if z == 0 {
        Unshifted(imm);
      }
    }
  }

  lemma Unshifted(imm: I32)
    ensures ShiftRightSigned(imm, 0) == imm && ToI32(ToU32(imm)) == imm
  {
  }

  // sextract32 reads the top part of a signed immediate.
  lemma TopOfSigned(w: nat, imm: I32, z: nat, s: nat, l: nat, p: nat)
    requires 0 < l && z + s + l <= 32 && p + l <= 32
    requires InSigned(imm, z + s + l - 1)
    requires Extract32(Trunc32(w), p, l) == Low(Shr(ToU32(imm), z + s), l)
    ensures Sextract32(Trunc32(w), p, l) == ShiftRightSigned(imm, z + s)
  {
    hide Low, Shr, Extract32, Sextract32, Trunc32, SignedValue;
    SextractMeaning(Trunc32(w), p, l);
    ArithShiftBits(imm, z + s, l);
    ShrSmall(if imm >= 0 then imm else -1 - imm, z + s, z + s + l - 1);
    SignedField(ShiftRightSigned(imm, z + s), l);
  }

  lemma SignedJoin(imm: I32, z: nat, s: nat)
    requires z + s <= 32 && 0 < s < 32
    ensures -0x8000_0000 <= ShiftRightSigned(imm, z) < 0x8000_0000
    ensures -0x8000_0000 <= ShiftRightSigned(imm, z + s) < 0x8000_0000
    ensures Low(Shr(ToU32(imm), z), s) < TWO32
    ensures Deposit32(Low(Shr(ToU32(imm), z), s), s, 32 - s, ToU32(ShiftRightSigned(imm, z + s)))
         == ToU32(ShiftRightSigned(imm, z))
  {
    hide Cat, Low, Shr, Deposit32, ShiftRightSigned;
    var low, f := Low(Shr(ToU32(imm), z), s), ToU32(ShiftRightSigned(imm, z + s));
    ArithShiftBits(imm, z, s);
    ArithShiftBits(imm, z + s, 0);
    var y := ShiftRightSigned(imm, z);
    DepositOnTop(low, s, f);
    ArithShiftTwice(imm, z, s);
    ArithShiftBits(y, s, 32 - s);
    WordShr(ToU32(y), s);
    Split(ToU32(y), s);
  }

  lemma NonNegativeShift(imm: I32, z: nat)
    requires imm >= 0
    ensures ToU32(imm) == imm && Shr(imm, z) < TWO32 && ToU32(ShiftRightSigned(imm, z)) == Shr(imm, z)
  {
    hide Shr;
  }

  // The same for an unsigned immediate, whose last deposit is a plain one.
  lemma FinishUnsigned(imm: I32, z: nat, n: nat)
    requires z + n <= 31 && 0 <= imm < Pow2(z + n) && imm % Pow2(z) == 0
    ensures Low(Shr(ToU32(imm), z), n) < TWO32
    ensures ExShift(Low(Shr(ToU32(imm), z), n), z) == imm
    ensures z == 0 ==> ToI32(Low(Shr(ToU32(imm), z), n)) == imm
  {
    hide Cat, Low, Shr, ExShift, Pow2, ShiftRightSigned;
    NonNegativeShift(imm, z);
    ShrSmall(imm, z, z + n);
    LowSmall(Shr(imm, z), n);
    ShiftBack(imm, z);
    if z == 0 {
      Unshifted(imm);
    }
  }

  predicate HasOpcode(word: U32, opcode: nat) {
    Extract32(word, 0, 7) == Low(opcode, 7)
  }

  predicate HasFunct3(word: U32, funct3: nat) {
    Extract32(word, 12, 3) == Low(funct3, 3)
  }

  // A 16-bit word of the given quadrant and funct3.
  predicate IsShort(word: U32, op: nat, funct3: nat) {
    word < 0x1_0000 && Extract32(word, 0, 2) == Low(op, 2) && Extract32(word, 13, 3) == Low(funct3, 3)
  }

  // No field lies above bit 15.
  lemma FitsShort(w: nat)
    requires Shr(w, 16) == 0
    ensures Trunc32(w) < 0x1_0000
  {
    hide Low, Shr;
    Pow2Values();
    SplitIsDivMod(w, 16);
    SplitIsDivMod(w, 32);
  }

  // I-type: imm[11:0] | rs1 | funct3 | rd | opcode
  function EncodeI(imm: I32, opcode: nat, rd: nat, funct3: nat, rs1: nat): U32 {
    Trunc32(Cat(opcode, 7, Cat(rd, 5, Cat(funct3, 3, Cat(rs1, 5, Cat(Slice(imm, 11, 0), 12, 0))))))
  }

  lemma DecodeEncodeI(imm: I32, opcode: nat, rd: nat, funct3: nat, rs1: nat)
    requires -0x800 <= imm < 0x800
    ensures var word := EncodeI(imm, opcode, rd, funct3, rs1);
      ImmI(word) == imm && Extract32(word, 7, 5) == Low(rd, 5) && Extract32(word, 15, 5) == Low(rs1, 5)
    ensures HasOpcode(EncodeI(imm, opcode, rd, funct3, rs1), opcode)
      && HasFunct3(EncodeI(imm, opcode, rd, funct3, rs1), funct3)
    ensures Extract32(EncodeI(imm, opcode, rd, funct3, rs1), 20, 12) == Slice(imm, 11, 0)
  {
    hide Cat, Low, Shr, Pow2, Extract32, Deposit32, Sextract32, Trunc32;
    var w4 := Cat(Slice(imm, 11, 0), 12, 0);
    var w3 := Cat(rs1, 5, w4);
    var w2 := Cat(funct3, 3, w3);
    var w1 := Cat(rd, 5, w2);
    var w := Cat(opcode, 7, w1);
    Pow2Values();
    Whole(w);
    NextField(w, 0, opcode, 7, w1);
    NextField(w, 7, rd, 5, w2);
    NextField(w, 12, funct3, 3, w3);
    NextField(w, 15, rs1, 5, w4);
    NextSlice(w, 20, imm, 11, 0, 0);
    FinishSigned(w, imm, 0, 0, 12, 20);
    Unshifted(imm);
  }

  // R-type: funct7 | rs2 | rs1 | funct3 | rd | opcode
  function EncodeR(opcode: nat, rd: nat, funct3: nat, rs1: nat, rs2: nat, funct7: nat): U32 {
    Trunc32(Cat(opcode, 7, Cat(rd, 5, Cat(funct3, 3, Cat(rs1, 5, Cat(rs2, 5, Cat(funct7, 7, 0)))))))
  }

  lemma DecodeEncodeR(opcode: nat, rd: nat, funct3: nat, rs1: nat, rs2: nat, funct7: nat)
    ensures var word := EncodeR(opcode, rd, funct3, rs1, rs2, funct7);
      && HasOpcode(word, opcode) && HasFunct3(word, funct3)
      && Extract32(word, 7, 5) == Low(rd, 5) && Extract32(word, 15, 5) == Low(rs1, 5)
      && Extract32(word, 20, 5) == Low(rs2, 5) && Extract32(word, 25, 7) == Low(funct7, 7)
  {
    hide Cat, Low, Shr, Pow2, Extract32, Deposit32, Sextract32, Trunc32;
    var w5 := Cat(funct7, 7, 0);
    var w4 := Cat(rs2, 5, w5);
    var w3 := Cat(rs1, 5, w4);
    var w2 := Cat(funct3, 3, w3);
    var w1 := Cat(rd, 5, w2);
    var w := Cat(opcode, 7, w1);
    Whole(w);
    NextField(w, 0, opcode, 7, w1);
    NextField(w, 7, rd, 5, w2);
    NextField(w, 12, funct3, 3, w3);
    NextField(w, 15, rs1, 5, w4);
    NextField(w, 20, rs2, 5, w5);
    NextField(w, 25, funct7, 7, 0);
  }

  // CR: funct4 (as bit 12 below funct3) | rd | rs2 | op
  function EncodeCR(op: nat, rs2: nat, rd: nat, bit12: nat, funct3: nat): U32 {
    Trunc32(Cat(op, 2, Cat(rs2, 5, Cat(rd, 5, Cat(bit12, 1, Cat(funct3, 3, 0))))))
  }

  lemma DecodeEncodeCR(op: nat, rs2: nat, rd: nat, bit12: nat, funct3: nat)
    ensures var word := EncodeCR(op, rs2, rd, bit12, funct3);
      && IsShort(word, op, funct3) && Extract32(word, 12, 1) == Low(bit12, 1)
      && Extract32(word, 2, 5) == Low(rs2, 5) && Extract32(word, 7, 5) == Low(rd, 5)
  {
    hide Cat, Low, Shr, Pow2, Extract32, Deposit32, Sextract32, Trunc32;
    var w4 := Cat(funct3, 3, 0);
    var w3 := Cat(bit12, 1, w4);
    var w2 := Cat(rd, 5, w3);
    var w1 := Cat(rs2, 5, w2);
    var w := Cat(op, 2, w1);
    Whole(w);
    NextField(w, 0, op, 2, w1);
    NextField(w, 2, rs2, 5, w2);
    NextField(w, 7, rd, 5, w3);
    NextField(w, 12, bit12, 1, w4);
    NextField(w, 13, funct3, 3, 0);
    FitsShort(w);
  }

  // S-type: imm[11:5] | rs2 | rs1 | funct3 | imm[4:0] | opcode
  function EncodeS(imm: I32, opcode: nat, funct3: nat, rs1: nat, rs2: nat): U32 {
    Trunc32(Cat(opcode, 7, Cat(Slice(imm, 4, 0), 5, Cat(funct3, 3, Cat(rs1, 5, Cat(rs2, 5,
      Cat(Slice(imm, 11, 5), 7, 0)))))))
  }

  lemma DecodeEncodeS(imm: I32, opcode: nat, funct3: nat, rs1: nat, rs2: nat)
    requires -0x800 <= imm < 0x800
    ensures var word := EncodeS(imm, opcode, funct3, rs1, rs2);
      ImmS(word) == imm && Extract32(word, 15, 5) == Low(rs1, 5) && Extract32(word, 20, 5) == Low(rs2, 5)
    ensures HasOpcode(EncodeS(imm, opcode, funct3, rs1, rs2), opcode)
      && HasFunct3(EncodeS(imm, opcode, funct3, rs1, rs2), funct3)
  {
    hide Cat, Low, Shr, Pow2, Extract32, Deposit32, Sextract32, Trunc32;
    var w5 := Cat(Slice(imm, 11, 5), 7, 0);
    var w4 := Cat(rs2, 5, w5);
    var w3 := Cat(rs1, 5, w4);
    var w2 := Cat(funct3, 3, w3);
    var w1 := Cat(Slice(imm, 4, 0), 5, w2);
    var w := Cat(opcode, 7, w1);
    Pow2Values();
    Whole(w);
    NextField(w, 0, opcode, 7, w1);
    NextSlice(w, 7, imm, 4, 0, w2);
    NextField(w, 12, funct3, 3, w3);
    NextField(w, 15, rs1, 5, w4);
    NextField(w, 20, rs2, 5, w5);
    NextSlice(w, 25, imm, 11, 5, 0);
    FinishSigned(w, imm, 0, 5, 7, 25);
  }

  // B-type: imm[12|10:5] | rs2 | rs1 | funct3 | imm[4:1|11] | opcode
  function EncodeB(imm: I32, opcode: nat, funct3: nat, rs1: nat, rs2: nat): U32 {
    Trunc32(Cat(opcode, 7, Cat(Slice(imm, 11, 11), 1, Cat(Slice(imm, 4, 1), 4, Cat(funct3, 3, Cat(rs1, 5,
      Cat(rs2, 5, Cat(Slice(imm, 10, 5), 6, Cat(Slice(imm, 12, 12), 1, 0)))))))))
  }

  lemma DecodeEncodeB(imm: I32, opcode: nat, funct3: nat, rs1: nat, rs2: nat)
    requires -0x1000 <= imm < 0x1000 && imm % 0x2 == 0
    ensures var word := EncodeB(imm, opcode, funct3, rs1, rs2);
      ImmB(word) == imm && Extract32(word, 15, 5) == Low(rs1, 5) && Extract32(word, 20, 5) == Low(rs2, 5)
    ensures HasOpcode(EncodeB(imm, opcode, funct3, rs1, rs2), opcode)
      && HasFunct3(EncodeB(imm, opcode, funct3, rs1, rs2), funct3)
  {
    hide Cat, Low, Shr, Pow2, Extract32, Deposit32, Sextract32, Trunc32;
    var w7 := Cat(Slice(imm, 12, 12), 1, 0);
    var w6 := Cat(Slice(imm, 10, 5), 6, w7);
    var w5 := Cat(rs2, 5, w6);
    var w4 := Cat(rs1, 5, w5);
    var w3 := Cat(funct3, 3, w4);
    var w2 := Cat(Slice(imm, 4, 1), 4, w3);
    var w1 := Cat(Slice(imm, 11, 11), 1, w2);
    var w := Cat(opcode, 7, w1);
    Pow2Values();
    Whole(w);
    NextField(w, 0, opcode, 7, w1);
    NextSlice(w, 7, imm, 11, 11, w2);
    NextSlice(w, 8, imm, 4, 1, w3);
    NextField(w, 12, funct3, 3, w4);
    NextField(w, 15, rs1, 5, w5);
    NextField(w, 20, rs2, 5, w6);
    NextSlice(w, 25, imm, 10, 5, w7);
    NextSlice(w, 31, imm, 12, 12, 0);
    Grow(imm, 1, 4, 6);
    Grow(imm, 1, 10, 1);
    FinishSigned(w, imm, 1, 11, 1, 31);
  }

  // U-type: imm[31:12] | rd | opcode
  function EncodeU(imm: I32, opcode: nat, rd: nat): U32 {
    Trunc32(Cat(opcode, 7, Cat(rd, 5, Cat(Slice(imm, 31, 12), 20, 0))))
  }

  lemma DecodeEncodeU(imm: I32, opcode: nat, rd: nat)
    requires imm % 0x1000 == 0
    ensures var word := EncodeU(imm, opcode, rd);
      ImmU(word) == imm && Extract32(word, 7, 5) == Low(rd, 5)
    ensures HasOpcode(EncodeU(imm, opcode, rd), opcode)
  {
    hide Cat, Low, Shr, Pow2, Extract32, Deposit32, Sextract32, Trunc32;
    var w2 := Cat(Slice(imm, 31, 12), 20, 0);
    var w1 := Cat(rd, 5, w2);
    var w := Cat(opcode, 7, w1);
    Pow2Values();
    Whole(w);
    NextField(w, 0, opcode, 7, w1);
    NextField(w, 7, rd, 5, w2);
    NextSlice(w, 12, imm, 31, 12, 0);
    FinishSigned(w, imm, 12, 0, 20, 12);
  }

  // J-type: imm[20|10:1|11|19:12] | rd | opcode
  function EncodeJ(imm: I32, opcode: nat, rd: nat): U32 {
    Trunc32(Cat(opcode, 7, Cat(rd, 5, Cat(Slice(imm, 19, 12), 8, Cat(Slice(imm, 11, 11), 1,
      Cat(Slice(imm, 10, 1), 10, Cat(Slice(imm, 20, 20), 1, 0)))))))
  }

  lemma DecodeEncodeJ(imm: I32, opcode: nat, rd: nat)
    requires -0x100000 <= imm < 0x100000 && imm % 0x2 == 0
    ensures var word := EncodeJ(imm, opcode, rd);
      ImmJ(word) == imm && Extract32(word, 7, 5) == Low(rd, 5)
    ensures HasOpcode(EncodeJ(imm, opcode, rd), opcode)
  {
    hide Cat, Low, Shr, Pow2, Extract32, Deposit32, Sextract32, Trunc32;
    var w5 := Cat(Slice(imm, 20, 20), 1, 0);
    var w4 := Cat(Slice(imm, 10, 1), 10, w5);
    var w3 := Cat(Slice(imm, 11, 11), 1, w4);
    var w2 := Cat(Slice(imm, 19, 12), 8, w3);
    var w1 := Cat(rd, 5, w2);
    var w := Cat(opcode, 7, w1);
    Pow2Values();
    Whole(w);
    NextField(w, 0, opcode, 7, w1);
    NextField(w, 7, rd, 5, w2);
    NextSlice(w, 12, imm, 19, 12, w3);
    NextSlice(w, 20, imm, 11, 11, w4);
    NextSlice(w, 21, imm, 10, 1, w5);
    NextSlice(w, 31, imm, 20, 20, 0);
    Grow(imm, 1, 10, 1);
    Grow(imm, 1, 11, 8);
    FinishSigned(w, imm, 1, 19, 1, 31);
  }

  // c.j: funct3 | imm[11|4|9:8|10|6|7|3:1|5] | op
  function EncodeCJ(imm: I32, op: nat, funct3: nat): U32 {
    Trunc32(Cat(op, 2, Cat(Slice(imm, 5, 5), 1, Cat(Slice(imm, 3, 1), 3, Cat(Slice(imm, 7, 7), 1,
      Cat(Slice(imm, 6, 6), 1, Cat(Slice(imm, 10, 10), 1, Cat(Slice(imm, 9, 8), 2, Cat(Slice(imm, 4, 4), 1,
      Cat(Slice(imm, 11, 11), 1, Cat(funct3, 3, 0)))))))))))
  }

  lemma DecodeEncodeCJ(imm: I32, op: nat, funct3: nat)
    requires -0x800 <= imm < 0x800 && imm % 0x2 == 0
    ensures var word := EncodeCJ(imm, op, funct3);
      ImmCJ(word) == imm
    ensures IsShort(EncodeCJ(imm, op, funct3), op, funct3)
  {
    hide Cat, Low, Shr, Pow2, Extract32, Deposit32, Sextract32, Trunc32;
    var w9 := Cat(funct3, 3, 0);
    var w8 := Cat(Slice(imm, 11, 11), 1, w9);
    var w7 := Cat(Slice(imm, 4, 4), 1, w8);
    var w6 := Cat(Slice(imm, 9, 8), 2, w7);
    var w5 := Cat(Slice(imm, 10, 10), 1, w6);
    var w4 := Cat(Slice(imm, 6, 6), 1, w5);
    var w3 := Cat(Slice(imm, 7, 7), 1, w4);
    var w2 := Cat(Slice(imm, 3, 1), 3, w3);
    var w1 := Cat(Slice(imm, 5, 5), 1, w2);
    var w := Cat(op, 2, w1);
    Pow2Values();
    Whole(w);
    NextField(w, 0, op, 2, w1);
    NextSlice(w, 2, imm, 5, 5, w2);
    NextSlice(w, 3, imm, 3, 1, w3);
    NextSlice(w, 6, imm, 7, 7, w4);
    NextSlice(w, 7, imm, 6, 6, w5);
    NextSlice(w, 8, imm, 10, 10, w6);
    NextSlice(w, 9, imm, 9, 8, w7);
    NextSlice(w, 11, imm, 4, 4, w8);
    NextSlice(w, 12, imm, 11, 11, w9);
    NextField(w, 13, funct3, 3, 0);
    FitsShort(w);
    Grow(imm, 1, 3, 1);
    Grow(imm, 1, 4, 1);
    Grow(imm, 1, 5, 1);
    Grow(imm, 1, 6, 1);
    Grow(imm, 1, 7, 2);
    Grow(imm, 1, 9, 1);
    FinishSigned(w, imm, 1, 10, 1, 12);
  }

  // c.beqz, c.bnez: funct3 | imm[8|4:3] | rs1' | imm[7:6|2:1|5] | op
  function EncodeCBeqz(imm: I32, op: nat, rs1: nat, funct3: nat): U32 {
    Trunc32(Cat(op, 2, Cat(Slice(imm, 5, 5), 1, Cat(Slice(imm, 2, 1), 2, Cat(Slice(imm, 7, 6), 2, Cat(rs1, 3,
      Cat(Slice(imm, 4, 3), 2, Cat(Slice(imm, 8, 8), 1, Cat(funct3, 3, 0)))))))))
  }

  lemma DecodeEncodeCBeqz(imm: I32, op: nat, rs1: nat, funct3: nat)
    requires -0x100 <= imm < 0x100 && imm % 0x2 == 0
    ensures var word := EncodeCBeqz(imm, op, rs1, funct3);
      ImmCBeqz(word) == imm && Extract32(word, 7, 3) == Low(rs1, 3)
    ensures IsShort(EncodeCBeqz(imm, op, rs1, funct3), op, funct3)
  {
    hide Cat, Low, Shr, Pow2, Extract32, Deposit32, Sextract32, Trunc32;
    var w7 := Cat(funct3, 3, 0);
    var w6 := Cat(Slice(imm, 8, 8), 1, w7);
    var w5 := Cat(Slice(imm, 4, 3), 2, w6);
    var w4 := Cat(rs1, 3, w5);
    var w3 := Cat(Slice(imm, 7, 6), 2, w4);
    var w2 := Cat(Slice(imm, 2, 1), 2, w3);
    var w1 := Cat(Slice(imm, 5, 5), 1, w2);
    var w := Cat(op, 2, w1);
    Pow2Values();
    Whole(w);
    NextField(w, 0, op, 2, w1);
    NextSlice(w, 2, imm, 5, 5, w2);
    NextSlice(w, 3, imm, 2, 1, w3);
    NextSlice(w, 5, imm, 7, 6, w4);
    NextField(w, 7, rs1, 3, w5);
    NextSlice(w, 10, imm, 4, 3, w6);
    NextSlice(w, 12, imm, 8, 8, w7);
    NextField(w, 13, funct3, 3, 0);
    FitsShort(w);
    Grow(imm, 1, 2, 2);
    Grow(imm, 1, 4, 1);
    Grow(imm, 1, 5, 2);
    FinishSigned(w, imm, 1, 7, 1, 12);
  }

  // c.addi16sp: funct3 | imm[9] | rd | imm[4|6|8:7|5] | op
  function EncodeCAddi16sp(imm: I32, op: nat, rd: nat, funct3: nat): U32 {
    Trunc32(Cat(op, 2, Cat(Slice(imm, 5, 5), 1, Cat(Slice(imm, 8, 7), 2, Cat(Slice(imm, 6, 6), 1,
      Cat(Slice(imm, 4, 4), 1, Cat(rd, 5, Cat(Slice(imm, 9, 9), 1, Cat(funct3, 3, 0)))))))))
  }

  lemma DecodeEncodeCAddi16sp(imm: I32, op: nat, rd: nat, funct3: nat)
    requires -0x200 <= imm < 0x200 && imm % 0x10 == 0
    ensures var word := EncodeCAddi16sp(imm, op, rd, funct3);
      ImmCAddi16sp(word) == imm && Extract32(word, 7, 5) == Low(rd, 5)
    ensures IsShort(EncodeCAddi16sp(imm, op, rd, funct3), op, funct3)
  {
    hide Cat, Low, Shr, Pow2, Extract32, Deposit32, Sextract32, Trunc32;
    var w7 := Cat(funct3, 3, 0);
    var w6 := Cat(Slice(imm, 9, 9), 1, w7);
    var w5 := Cat(rd, 5, w6);
    var w4 := Cat(Slice(imm, 4, 4), 1, w5);
    var w3 := Cat(Slice(imm, 6, 6), 1, w4);
    var w2 := Cat(Slice(imm, 8, 7), 2, w3);
    var w1 := Cat(Slice(imm, 5, 5), 1, w2);
    var w := Cat(op, 2, w1);
    Pow2Values();
    Whole(w);
    NextField(w, 0, op, 2, w1);
    NextSlice(w, 2, imm, 5, 5, w2);
    NextSlice(w, 3, imm, 8, 7, w3);
    NextSlice(w, 5, imm, 6, 6, w4);
    NextSlice(w, 6, imm, 4, 4, w5);
    NextField(w, 7, rd, 5, w6);
    NextSlice(w, 12, imm, 9, 9, w7);
    NextField(w, 13, funct3, 3, 0);
    FitsShort(w);
    Grow(imm, 4, 1, 1);
    Grow(imm, 4, 2, 1);
    Grow(imm, 4, 3, 2);
    FinishSigned(w, imm, 4, 5, 1, 12);
  }

  // c.lui: funct3 | imm[17] | rd | imm[16:12] | op
  function EncodeCLui(imm: I32, op: nat, rd: nat, funct3: nat): U32 {
    Trunc32(Cat(op, 2, Cat(Slice(imm, 16, 12), 5, Cat(rd, 5, Cat(Slice(imm, 17, 17), 1, Cat(funct3, 3, 0))))))
  }

  lemma DecodeEncodeCLui(imm: I32, op: nat, rd: nat, funct3: nat)
    requires -0x20000 <= imm < 0x20000 && imm % 0x1000 == 0
    ensures var word := EncodeCLui(imm, op, rd, funct3);
      ImmCLui(word) == imm && Extract32(word, 7, 5) == Low(rd, 5)
    ensures IsShort(EncodeCLui(imm, op, rd, funct3), op, funct3)
  {
    hide Cat, Low, Shr, Pow2, Extract32, Deposit32, Sextract32, Trunc32;
    var w4 := Cat(funct3, 3, 0);
    var w3 := Cat(Slice(imm, 17, 17), 1, w4);
    var w2 := Cat(rd, 5, w3);
    var w1 := Cat(Slice(imm, 16, 12), 5, w2);
    var w := Cat(op, 2, w1);
    Pow2Values();
    Whole(w);
    NextField(w, 0, op, 2, w1);
    NextSlice(w, 2, imm, 16, 12, w2);
    NextField(w, 7, rd, 5, w3);
    NextSlice(w, 12, imm, 17, 17, w4);
    NextField(w, 13, funct3, 3, 0);
    FitsShort(w);
    FinishSigned(w, imm, 12, 5, 1, 12);
  }

  // c.addi, c.addiw, c.li: funct3 | imm[5] | rd | imm[4:0] | op
  function EncodeCAddi(imm: I32, op: nat, rd: nat, funct3: nat): U32 {
    Trunc32(Cat(op, 2, Cat(Slice(imm, 4, 0), 5, Cat(rd, 5, Cat(Slice(imm, 5, 5), 1, Cat(funct3, 3, 0))))))
  }

  lemma DecodeEncodeCAddi(imm: I32, op: nat, rd: nat, funct3: nat)
    requires -0x20 <= imm < 0x20
    ensures var word := EncodeCAddi(imm, op, rd, funct3);
      ImmCAddi(word) == imm && Extract32(word, 7, 5) == Low(rd, 5)
    ensures IsShort(EncodeCAddi(imm, op, rd, funct3), op, funct3)
  {
    hide Cat, Low, Shr, Pow2, Extract32, Deposit32, Sextract32, Trunc32;
    var w4 := Cat(funct3, 3, 0);
    var w3 := Cat(Slice(imm, 5, 5), 1, w4);
    var w2 := Cat(rd, 5, w3);
    var w1 := Cat(Slice(imm, 4, 0), 5, w2);
    var w := Cat(op, 2, w1);
    Pow2Values();
    Whole(w);
    NextField(w, 0, op, 2, w1);
    NextSlice(w, 2, imm, 4, 0, w2);
    NextField(w, 7, rd, 5, w3);
    NextSlice(w, 12, imm, 5, 5, w4);
    NextField(w, 13, funct3, 3, 0);
    FitsShort(w);
    FinishSigned(w, imm, 0, 5, 1, 12);
  }

  // c.slli: funct3 | shamt[5] | rd | shamt[4:0] | op
  function EncodeCShift(imm: I32, op: nat, rd: nat, funct3: nat): U32 {
    Trunc32(Cat(op, 2, Cat(Slice(imm, 4, 0), 5, Cat(rd, 5, Cat(Slice(imm, 5, 5), 1, Cat(funct3, 3, 0))))))
  }

  lemma DecodeEncodeCShift(imm: I32, op: nat, rd: nat, funct3: nat)
    requires 0 <= imm < 0x40
    ensures var word := EncodeCShift(imm, op, rd, funct3);
      ImmCShift(word) == imm && Extract32(word, 7, 5) == Low(rd, 5)
    ensures IsShort(EncodeCShift(imm, op, rd, funct3), op, funct3)
  {
    hide Cat, Low, Shr, Pow2, Extract32, Deposit32, Sextract32, Trunc32;
    var w4 := Cat(funct3, 3, 0);
    var w3 := Cat(Slice(imm, 5, 5), 1, w4);
    var w2 := Cat(rd, 5, w3);
    var w1 := Cat(Slice(imm, 4, 0), 5, w2);
    var w := Cat(op, 2, w1);
    Pow2Values();
    Whole(w);
    NextField(w, 0, op, 2, w1);
    NextSlice(w, 2, imm, 4, 0, w2);
    NextField(w, 7, rd, 5, w3);
    NextSlice(w, 12, imm, 5, 5, w4);
    NextField(w, 13, funct3, 3, 0);
    FitsShort(w);
    Grow(imm, 0, 5, 1);
    FinishUnsigned(imm, 0, 6);
  }

  // c.addi4spn: funct3 | uimm[5:4|9:6|2|3] | rd' | op
  function EncodeCAddi4spn(imm: I32, op: nat, rd: nat, funct3: nat): U32 {
    Trunc32(Cat(op, 2, Cat(rd, 3, Cat(Slice(imm, 3, 3), 1, Cat(Slice(imm, 2, 2), 1, Cat(Slice(imm, 9, 6), 4,
      Cat(Slice(imm, 5, 4), 2, Cat(funct3, 3, 0))))))))
  }

  lemma DecodeEncodeCAddi4spn(imm: I32, op: nat, rd: nat, funct3: nat)
    requires 0 <= imm < 0x400 && imm % 0x4 == 0
    ensures var word := EncodeCAddi4spn(imm, op, rd, funct3);
      ImmCAddi4spn(word) == imm && Extract32(word, 2, 3) == Low(rd, 3)
    ensures IsShort(EncodeCAddi4spn(imm, op, rd, funct3), op, funct3)
  {
    hide Cat, Low, Shr, Pow2, Extract32, Deposit32, Sextract32, Trunc32;
    var w6 := Cat(funct3, 3, 0);
    var w5 := Cat(Slice(imm, 5, 4), 2, w6);
    var w4 := Cat(Slice(imm, 9, 6), 4, w5);
    var w3 := Cat(Slice(imm, 2, 2), 1, w4);
    var w2 := Cat(Slice(imm, 3, 3), 1, w3);
    var w1 := Cat(rd, 3, w2);
    var w := Cat(op, 2, w1);
    Pow2Values();
    Whole(w);
    NextField(w, 0, op, 2, w1);
    NextField(w, 2, rd, 3, w2);
    NextSlice(w, 5, imm, 3, 3, w3);
    NextSlice(w, 6, imm, 2, 2, w4);
    NextSlice(w, 7, imm, 9, 6, w5);
    NextSlice(w, 11, imm, 5, 4, w6);
    NextField(w, 13, funct3, 3, 0);
    FitsShort(w);
    Grow(imm, 2, 1, 1);
    Grow(imm, 2, 2, 2);
    Grow(imm, 2, 4, 4);
    FinishUnsigned(imm, 2, 8);
  }

  // c.lw, c.sw: funct3 | uimm[5:3] | rs1' | uimm[2|6] | rd' | op
  function EncodeCLw(imm: I32, op: nat, rd: nat, rs1: nat, funct3: nat): U32 {
    Trunc32(Cat(op, 2, Cat(rd, 3, Cat(Slice(imm, 6, 6), 1, Cat(Slice(imm, 2, 2), 1, Cat(rs1, 3,
      Cat(Slice(imm, 5, 3), 3, Cat(funct3, 3, 0))))))))
  }

  lemma DecodeEncodeCLw(imm: I32, op: nat, rd: nat, rs1: nat, funct3: nat)
    requires 0 <= imm < 0x80 && imm % 0x4 == 0
    ensures var word := EncodeCLw(imm, op, rd, rs1, funct3);
      ImmCLw(word) == imm && Extract32(word, 2, 3) == Low(rd, 3) && Extract32(word, 7, 3) == Low(rs1, 3)
    ensures IsShort(EncodeCLw(imm, op, rd, rs1, funct3), op, funct3)
  {
    hide Cat, Low, Shr, Pow2, Extract32, Deposit32, Sextract32, Trunc32;
    var w6 := Cat(funct3, 3, 0);
    var w5 := Cat(Slice(imm, 5, 3), 3, w6);
    var w4 := Cat(rs1, 3, w5);
    var w3 := Cat(Slice(imm, 2, 2), 1, w4);
    var w2 := Cat(Slice(imm, 6, 6), 1, w3);
    var w1 := Cat(rd, 3, w2);
    var w := Cat(op, 2, w1);
    Pow2Values();
    Whole(w);
    NextField(w, 0, op, 2, w1);
    NextField(w, 2, rd, 3, w2);
    NextSlice(w, 5, imm, 6, 6, w3);
    NextSlice(w, 6, imm, 2, 2, w4);
    NextField(w, 7, rs1, 3, w5);
    NextSlice(w, 10, imm, 5, 3, w6);
    NextField(w, 13, funct3, 3, 0);
    FitsShort(w);
    Grow(imm, 2, 1, 3);
    Grow(imm, 2, 4, 1);
    FinishUnsigned(imm, 2, 5);
  }

  // c.ld, c.sd: funct3 | uimm[5:3] | rs1' | uimm[7:6] | rd' | op
  function EncodeCLd(imm: I32, op: nat, rd: nat, rs1: nat, funct3: nat): U32 {
    Trunc32(Cat(op, 2, Cat(rd, 3, Cat(Slice(imm, 7, 6), 2, Cat(rs1, 3, Cat(Slice(imm, 5, 3), 3, Cat(funct3, 3, 0)))))))
  }

  lemma DecodeEncodeCLd(imm: I32, op: nat, rd: nat, rs1: nat, funct3: nat)
    requires 0 <= imm < 0x100 && imm % 0x8 == 0
    ensures var word := EncodeCLd(imm, op, rd, rs1, funct3);
      ImmCLd(word) == imm && Extract32(word, 2, 3) == Low(rd, 3) && Extract32(word, 7, 3) == Low(rs1, 3)
    ensures IsShort(EncodeCLd(imm, op, rd, rs1, funct3), op, funct3)
  {
    hide Cat, Low, Shr, Pow2, Extract32, Deposit32, Sextract32, Trunc32;
    var w5 := Cat(funct3, 3, 0);
    var w4 := Cat(Slice(imm, 5, 3), 3, w5);
    var w3 := Cat(rs1, 3, w4);
    var w2 := Cat(Slice(imm, 7, 6), 2, w3);
    var w1 := Cat(rd, 3, w2);
    var w := Cat(op, 2, w1);
    Pow2Values();
    Whole(w);
    NextField(w, 0, op, 2, w1);
    NextField(w, 2, rd, 3, w2);
    NextSlice(w, 5, imm, 7, 6, w3);
    NextField(w, 7, rs1, 3, w4);
    NextSlice(w, 10, imm, 5, 3, w5);
    NextField(w, 13, funct3, 3, 0);
    FitsShort(w);
    Grow(imm, 3, 3, 2);
    FinishUnsigned(imm, 3, 5);
  }

  // c.lwsp: funct3 | uimm[5] | rd | uimm[4:2|7:6] | op
  function EncodeCLwsp(imm: I32, op: nat, rd: nat, funct3: nat): U32 {
    Trunc32(Cat(op, 2, Cat(Slice(imm, 7, 6), 2, Cat(Slice(imm, 4, 2), 3, Cat(rd, 5, Cat(Slice(imm, 5, 5), 1,
      Cat(funct3, 3, 0)))))))
  }

  lemma DecodeEncodeCLwsp(imm: I32, op: nat, rd: nat, funct3: nat)
    requires 0 <= imm < 0x100 && imm % 0x4 == 0
    ensures var word := EncodeCLwsp(imm, op, rd, funct3);
      ImmCLwsp(word) == imm && Extract32(word, 7, 5) == Low(rd, 5)
    ensures IsShort(EncodeCLwsp(imm, op, rd, funct3), op, funct3)
  {
    hide Cat, Low, Shr, Pow2, Extract32, Deposit32, Sextract32, Trunc32;
    var w5 := Cat(funct3, 3, 0);
    var w4 := Cat(Slice(imm, 5, 5), 1, w5);
    var w3 := Cat(rd, 5, w4);
    var w2 := Cat(Slice(imm, 4, 2), 3, w3);
    var w1 := Cat(Slice(imm, 7, 6), 2, w2);
    var w := Cat(op, 2, w1);
    Pow2Values();
    Whole(w);
    NextField(w, 0, op, 2, w1);
    NextSlice(w, 2, imm, 7, 6, w2);
    NextSlice(w, 4, imm, 4, 2, w3);
    NextField(w, 7, rd, 5, w4);
    NextSlice(w, 12, imm, 5, 5, w5);
    NextField(w, 13, funct3, 3, 0);
    FitsShort(w);
    Grow(imm, 2, 3, 1);
    Grow(imm, 2, 4, 2);
    FinishUnsigned(imm, 2, 6);
  }

  // c.ldsp: funct3 | uimm[5] | rd | uimm[4:3|8:6] | op
  function EncodeCLdsp(imm: I32, op: nat, rd: nat, funct3: nat): U32 {
    Trunc32(Cat(op, 2, Cat(Slice(imm, 8, 6), 3, Cat(Slice(imm, 4, 3), 2, Cat(rd, 5, Cat(Slice(imm, 5, 5), 1,
      Cat(funct3, 3, 0)))))))
  }

  lemma DecodeEncodeCLdsp(imm: I32, op: nat, rd: nat, funct3: nat)
    requires 0 <= imm < 0x200 && imm % 0x8 == 0
    ensures var word := EncodeCLdsp(imm, op, rd, funct3);
      ImmCLdsp(word) == imm && Extract32(word, 7, 5) == Low(rd, 5)
    ensures IsShort(EncodeCLdsp(imm, op, rd, funct3), op, funct3)
  {
    hide Cat, Low, Shr, Pow2, Extract32, Deposit32, Sextract32, Trunc32;
    var w5 := Cat(funct3, 3, 0);
    var w4 := Cat(Slice(imm, 5, 5), 1, w5);
    var w3 := Cat(rd, 5, w4);
    var w2 := Cat(Slice(imm, 4, 3), 2, w3);
    var w1 := Cat(Slice(imm, 8, 6), 3, w2);
    var w := Cat(op, 2, w1);
    Pow2Values();
    Whole(w);
    NextField(w, 0, op, 2, w1);
    NextSlice(w, 2, imm, 8, 6, w2);
    NextSlice(w, 5, imm, 4, 3, w3);
    NextField(w, 7, rd, 5, w4);
    NextSlice(w, 12, imm, 5, 5, w5);
    NextField(w, 13, funct3, 3, 0);
    FitsShort(w);
    Grow(imm, 3, 2, 1);
    Grow(imm, 3, 3, 3);
    FinishUnsigned(imm, 3, 6);
  }

  // c.swsp: funct3 | uimm[5:2|7:6] | rs2 | op
  function EncodeCSwsp(imm: I32, op: nat, rs2: nat, funct3: nat): U32 {
    Trunc32(Cat(op, 2, Cat(rs2, 5, Cat(Slice(imm, 7, 6), 2, Cat(Slice(imm, 5, 2), 4, Cat(funct3, 3, 0))))))
  }

  lemma DecodeEncodeCSwsp(imm: I32, op: nat, rs2: nat, funct3: nat)
    requires 0 <= imm < 0x100 && imm % 0x4 == 0
    ensures var word := EncodeCSwsp(imm, op, rs2, funct3);
      ImmCSwsp(word) == imm && Extract32(word, 2, 5) == Low(rs2, 5)
    ensures IsShort(EncodeCSwsp(imm, op, rs2, funct3), op, funct3)
  {
    hide Cat, Low, Shr, Pow2, Extract32, Deposit32, Sextract32, Trunc32;
    var w4 := Cat(funct3, 3, 0);
    var w3 := Cat(Slice(imm, 5, 2), 4, w4);
    var w2 := Cat(Slice(imm, 7, 6), 2, w3);
    var w1 := Cat(rs2, 5, w2);
    var w := Cat(op, 2, w1);
    Pow2Values();
    Whole(w);
    NextField(w, 0, op, 2, w1);
    NextField(w, 2, rs2, 5, w2);
    NextSlice(w, 7, imm, 7, 6, w3);
    NextSlice(w, 9, imm, 5, 2, w4);
    NextField(w, 13, funct3, 3, 0);
    FitsShort(w);
    Grow(imm, 2, 4, 2);
    FinishUnsigned(imm, 2, 6);
  }

  // c.sdsp: funct3 | uimm[5:3|8:6] | rs2 | op
  function EncodeCSdsp(imm: I32, op: nat, rs2: nat, funct3: nat): U32 {
    Trunc32(Cat(op, 2, Cat(rs2, 5, Cat(Slice(imm, 8, 6), 3, Cat(Slice(imm, 5, 3), 3, Cat(funct3, 3, 0))))))
  }

  lemma DecodeEncodeCSdsp(imm: I32, op: nat, rs2: nat, funct3: nat)
    requires 0 <= imm < 0x200 && imm % 0x8 == 0
    ensures var word := EncodeCSdsp(imm, op, rs2, funct3);
      ImmCSdsp(word) == imm && Extract32(word, 2, 5) == Low(rs2, 5)
    ensures IsShort(EncodeCSdsp(imm, op, rs2, funct3), op, funct3)
  {
    hide Cat, Low, Shr, Pow2, Extract32, Deposit32, Sextract32, Trunc32;
    var w4 := Cat(funct3, 3, 0);
    var w3 := Cat(Slice(imm, 5, 3), 3, w4);
    var w2 := Cat(Slice(imm, 8, 6), 3, w3);
    var w1 := Cat(rs2, 5, w2);
    var w := Cat(op, 2, w1);
    Pow2Values();
    Whole(w);
    NextField(w, 0, op, 2, w1);
    NextField(w, 2, rs2, 5, w2);
    NextSlice(w, 7, imm, 8, 6, w3);
    NextSlice(w, 10, imm, 5, 3, w4);
    NextField(w, 13, funct3, 3, 0);
    FitsShort(w);
    Grow(imm, 3, 3, 3);
    FinishUnsigned(imm, 3, 6);
  }
}
