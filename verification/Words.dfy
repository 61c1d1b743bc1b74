// Guest words: target_ulong and target_long of the 64-bit build.
module Words {
  import opened Bits

  const TWO64 := 0x1_0000_0000_0000_0000
  type Word = x: int | 0 <= x < TWO64
  type Byte = x: int | 0 <= x < 256
  type Reg = x: int | 0 <= x < 32

  datatype Option<+T> = None | Some(value: T)

  // The word congruent to x, as every unsigned operation produces.
  function Wrap(x: int): Word {
    x % TWO64
  }

  lemma SmallWord(x: int)
    requires 0 <= x < TWO64
    ensures Wrap(x) == x
  {
  }

  function Plus(a: Word, b: int): Word {
    Wrap(a + b)
  }

  // (target_long) x
  function Signed(x: Word): int {
    SignedOf(x, TWO64)
  }

  // The low 32 bits, and their value as int32_t.
  function Low32(x: Word): U32 {
    x % TWO32
  }

  function SignedLow32(x: Word): I32 {
    ToI32(Low32(x))
  }

  function AndWord(a: Word, b: Word): Word {
    And(a, b)
  }

  function OrWord(a: Word, b: Word): Word {
    Pow2Values();
    OrBound(a, b, 64);
    Or(a, b)
  }

  function XorWord(a: Word, b: Word): Word {
    Pow2Values();
    XorBound(a, b, 64);
    Xor(a, b)
  }

  // Division that truncates toward zero, as C's does.
  function TruncDiv(a: int, b: int): int
    requires b != 0
  {
    if a >= 0 then a / b else -((-a) / b)
  }

  function TruncRem(a: int, b: int): int
    requires b != 0
  {
    a - b * TruncDiv(a, b)
  }

  predicate InRange(a: Word, from: int, to: int) {
    from <= a < to
  }

  // a is one of the n bytes from addr up, wrapping at the top.
  predicate Covered(a: Word, addr: Word, n: nat) {
    Wrap(a - addr) < n
  }

  // Two maps over addresses agree at a.
  ghost predicate SameAt<T>(m: map<Word, T>, n: map<Word, T>, a: Word) {
    (a in m <==> a in n) && (a in m ==> m[a] == n[a])
  }
}
