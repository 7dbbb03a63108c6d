/** Kotlin's `Int` as the JavaScript host evaluates it: a 32-bit two's-complement
    word. A word is kept as its signed value; `Unsigned` gives the bit pattern
    read as an unsigned number. Every arithmetic operator wraps modulo 2^32. */
module Word32 {
  import opened Arith
  import opened Bits

  type Int32 = x: int | -0x8000_0000 <= x < 0x8000_0000

  /** The width of a word in bits. */
  const WordBits: nat := 32

  /** Reduces any integer to the word with the same low 32 bits (JavaScript's `| 0`). */
  function Wrap(v: int): (r: Int32)
  {
    var u := v % 0x1_0000_0000;
    if u >= 0x8000_0000 then u - 0x1_0000_0000 else u
  }

  /** The bit pattern of a word read as an unsigned number in [0, 2^32). */
  function Unsigned(x: Int32): (u: nat)
    ensures u < 0x1_0000_0000
    ensures x >= 0 ==> u == x
  {
    if x < 0 then x + 0x1_0000_0000 else x
  }

  /** `a + b` on Kotlin Int. */
  function Plus(a: Int32, b: Int32): Int32 {
    Wrap(a + b)
  }

  /** `a * b` on Kotlin Int. */
  function Times(a: Int32, b: Int32): Int32 {
    Wrap(a * b)
  }

  /** `a.inv()`: the bitwise complement, which in two's complement is -a - 1. */
  function Inv(a: Int32): Int32 {
    -1 - a
  }

  /** `x shl n`: the shift amount is taken modulo 32. */
  function Shl(x: Int32, n: int): Int32 {
    Wrap(x * Pow2(n % 32))
  }

  /** `x ushr n`: the bit pattern shifted right, zeros shifted in. */
  function Ushr(x: Int32, n: int): Int32 {
    Wrap(Unsigned(x) / Pow2(n % 32))
  }

  /** `x shr n`: the sign bit shifted in, i.e. division rounded toward minus infinity. */
  function Shr(x: Int32, n: int): Int32 {
    Wrap(x / Pow2(n % 32))
  }

  /** `x and y`. */
  function And(x: Int32, y: Int32): Int32 {
    Wrap(Bitwise(AndOp, Unsigned(x), Unsigned(y), WordBits))
  }

  /** `x or y`. */
  function Or(x: Int32, y: Int32): Int32 {
    Wrap(Bitwise(OrOp, Unsigned(x), Unsigned(y), WordBits))
  }

  /** `x xor y`. */
  function Xor(x: Int32, y: Int32): Int32 {
    Wrap(Bitwise(XorOp, Unsigned(x), Unsigned(y), WordBits))
  }

  /** `x.toShort()`: the low 16 bits as a signed value. */
  function ToShort(x: Int32): (r: int)
    ensures -0x8000 <= r < 0x8000 && (r - x) % 0x1_0000 == 0
  {
    var u := x % 0x1_0000;
    if u >= 0x8000 then u - 0x1_0000 else u
  }

  /** `x.toByte()`: the low 8 bits as a signed value. */
  function ToByte(x: Int32): (r: int)
    ensures -0x80 <= r < 0x80 && (r - x) % 0x100 == 0
  {
    var u := x % 0x100;
    if u >= 0x80 then u - 0x100 else u
  }

  // ---------------------------------------------------------------------------
  // Facts about the word operations, in terms of unsigned bit patterns.

  lemma UnsignedWrap(v: int)
    ensures Unsigned(Wrap(v)) == v % 0x1_0000_0000
  {
  }

  lemma UnsignedCongruent(x: Int32)
    ensures Unsigned(x) % 0x1_0000_0000 == x % 0x1_0000_0000
    ensures Unsigned(x) == x % 0x1_0000_0000
  {
  }

  lemma WrapUnsigned(x: Int32)
    ensures Wrap(Unsigned(x)) == x && Wrap(x) == x
  {
  }

  /** A word is determined by its bit pattern. */
  lemma UnsignedInjective(x: Int32, y: Int32)
    requires Unsigned(x) == Unsigned(y)
    ensures x == y
  {
  }

  /** Wrap depends only on the residue modulo 2^32. */
  lemma WrapMod(v: int)
    ensures Wrap(v) == Wrap(v % 0x1_0000_0000)
  {
  }

  lemma PlusUnsigned(a: Int32, b: Int32)
    ensures Unsigned(Plus(a, b)) == (Unsigned(a) + Unsigned(b)) % 0x1_0000_0000
  {
    UnsignedWrap(a + b);
    var k := (if a < 0 then 1 else 0) + (if b < 0 then 1 else 0);
    assert Unsigned(a) + Unsigned(b) == (a + b) + k * 0x1_0000_0000;
    DivAddMul(k, a + b, 0x1_0000_0000);
  }

  lemma TimesUnsigned(a: Int32, b: Int32)
    ensures Unsigned(Times(a, b)) == (Unsigned(a) * Unsigned(b)) % 0x1_0000_0000
  {
    var m := 0x1_0000_0000;
    UnsignedWrap(a * b);
    UnsignedCongruent(a);
    UnsignedCongruent(b);
    ModMul(a, b, m);
    ModMul(Unsigned(a), b, m);
    ModMul(b, Unsigned(a), m);
    ModMul(Unsigned(b), Unsigned(a), m);
  }

  /** A shift by a positive amount produces a non-negative word: the quotient of the bit pattern. */
  lemma UshrUnsigned(x: Int32, n: int)
    ensures n % 32 == 0 ==> Ushr(x, n) == x
    ensures n % 32 != 0 ==> Ushr(x, n) == Unsigned(x) / Pow2(n % 32) && Ushr(x, n) >= 0
  {
    var u, p := Unsigned(x), Pow2(n % 32);
    if n % 32 == 0 {
      assert p == 1;
      WrapUnsigned(x);
    } else {
      Pow2Monotone(1, n % 32);
      assert Pow2(1) == 2;
      DivLess(u, p);
      DivNonNeg(u, p);
      WrapSmall(u / p);
    }
  }

  lemma DivLess(u: nat, p: nat)
    requires u < 0x1_0000_0000 && p >= 2
    ensures u / p < 0x8000_0000
  {
    DivAtMostHalf(u, p);
  }

  lemma ShrValue(x: Int32, n: int)
    ensures Shr(x, n) == x / Pow2(n % 32)
  {
    var p := Pow2(n % 32);
    if x < 0 {
      DivNeg(x, p);
    } else {
      DivNonNeg(x, p);
    }
    WrapInRange(x / p);
  }

  lemma ShrQuotient(x: Int32, n: int, p: nat)
    requires 0 <= n < 32 && p == Pow2(n)
    ensures Shr(x, n) == x / p
  {
    assert n % 32 == n;
    ShrValue(x, n);
  }

  lemma ShlProduct(x: Int32, n: int, p: nat)
    requires 0 <= n < 32 && p == Pow2(n)
    ensures Unsigned(Shl(x, n)) == (Unsigned(x) * p) % 0x1_0000_0000
  {
    assert n % 32 == n;
    ShlUnsigned(x, n);
  }

  lemma UshrSmall(x: Int32, n: int, p: nat)
    requires 0 <= n < 32 && p == Pow2(n)
    ensures Unsigned(Ushr(x, n)) == Unsigned(x) / p
  {
    assert n % 32 == n;
    UshrUnsigned(x, n);
    if n == 0 {
      assert p == 1;
    }
  }

  lemma WrapInRange(v: int)
    requires -0x8000_0000 <= v < 0x8000_0000
    ensures Wrap(v) == v
  {
  }

  lemma ShlUnsigned(x: Int32, n: int)
    ensures Unsigned(Shl(x, n)) == (Unsigned(x) * Pow2(n % 32)) % 0x1_0000_0000
  {
    var p := Pow2(n % 32);
    UnsignedWrap(x * p);
    UnsignedCongruent(x);
    ModMul(x, p, 0x1_0000_0000);
    ModMul(Unsigned(x), p, 0x1_0000_0000);
  }

  /** `x and (2^k - 1)` keeps the low k bits of the pattern. */
  lemma AndLowBits(x: Int32, k: nat)
    requires k <= 31
    ensures Pow2(k) - 1 < 0x8000_0000
    ensures And(x, Pow2(k) - 1) == Unsigned(x) % Pow2(k)
  {
    var u, p := Unsigned(x), Pow2(k);
    assert p <= 0x8000_0000 by {
      Pow2Constants();
      Pow2Monotone(k, 31);
    }
    var mask: Int32 := p - 1;
    assert Unsigned(mask) == mask;
    AndUnsigned(x, mask);
    AndMask(u, k, p, WordBits, Unsigned(And(x, mask)));
    UnsignedSmall(And(x, mask));
  }

  /** The pattern of `x and y` is the bitwise AND of the operands' patterns. */
  lemma AndUnsigned(x: Int32, y: Int32)
    ensures Unsigned(And(x, y)) == Bitwise(AndOp, Unsigned(x), Unsigned(y), WordBits)
  {
    var b := Bitwise(AndOp, Unsigned(x), Unsigned(y), WordBits);
    assert b < 0x1_0000_0000 by {
      Pow2Constants();
    }
    assert And(x, y) == Wrap(b);
    UnsignedOfWrap(b);
  }

  lemma UnsignedOfWrap(b: int)
    requires 0 <= b < 0x1_0000_0000
    ensures Unsigned(Wrap(b)) == b
  {
  }

  /** A word whose pattern is below 2^31 is that pattern. */
  lemma UnsignedSmall(x: Int32)
    requires Unsigned(x) < 0x8000_0000
    ensures x == Unsigned(x)
  {
  }

  lemma WrapSmall(v: int)
    requires 0 <= v < 0x8000_0000
    ensures Wrap(v) == v
  {
  }

  /** The two 16-bit halves of a word, as `x ushr 16` and `x and 0xFFFF`. */
  lemma Halves(x: Int32)
    ensures Ushr(x, 16) == Unsigned(x) / 0x1_0000
    ensures And(x, 0xFFFF) == Unsigned(x) % 0x1_0000
    ensures 0 <= Ushr(x, 16) < 0x1_0000 && 0 <= And(x, 0xFFFF) < 0x1_0000
    ensures Unsigned(x) == Ushr(x, 16) * 0x1_0000 + And(x, 0xFFFF)
  {
    Pow2Constants();
    UshrUnsigned(x, 16);
    AndLowBits(x, 16);
  }

  /** OR of words whose set bits do not overlap adds their patterns. */
  lemma OrDisjointWords(x: Int32, y: Int32, k: nat)
    requires k <= 32 && Unsigned(x) % Pow2(k) == 0 && Unsigned(y) < Pow2(k)
    ensures Unsigned(Or(x, y)) == Unsigned(x) + Unsigned(y)
  {
    var u, v := Unsigned(x), Unsigned(y);
    var s := Bitwise(OrOp, u, v, WordBits);
    Pow2Constants();
    OrDisjoint(u, v, k, WordBits);
    SumFits(s);
  }

  lemma SumFits(s: int)
    requires 0 <= s < Pow2(32)
    ensures Unsigned(Wrap(s)) == s
  {
    Pow2Constants();
  }

  /** `(hi shl 16) or lo` for two 16-bit values. */
  lemma Join16(hi: Int32, lo: Int32)
    requires 0 <= hi < 0x1_0000 && 0 <= lo < 0x1_0000
    ensures Unsigned(Or(Shl(hi, 16), lo)) == hi * 0x1_0000 + lo
  {
    Pow2Constants();
    ShlUnsigned(hi, 16);
    ShiftedChunk(Unsigned(Shl(hi, 16)), Unsigned(hi), Pow2(16 % 32));
    OrDisjointWords(Shl(hi, 16), lo, 16);
  }

  /** A 16-bit value times 2^16 fits a word and has sixteen low zero bits. */
  lemma ShiftedChunk(u: int, x: int, p: int)
    requires p == 0x1_0000 && 0 <= x < 0x1_0000 && u == (x * p) % 0x1_0000_0000
    ensures u == x * 0x1_0000 && u % 0x1_0000 == 0
  {
    assert 0 <= x * p < 0x1_0000_0000;
    DivAddMul(x, 0, 0x1_0000);
  }

  /** `v and (1 shl bit) != 0` tests bit `bit` of the pattern. */
  lemma TestBit(v: Int32, bit: nat)
    requires bit < 32
    ensures (And(v, Shl(1, bit)) != 0) == Bit(Unsigned(v), bit)
  {
    var p := Pow2(bit);
    assert p <= 0x8000_0000 by {
      Pow2Constants();
      Pow2Monotone(bit, 31);
    }
    assert Unsigned(Shl(1, bit)) == p by {
      assert bit % 32 == bit;
      ShlUnsigned(1, bit);
      assert Unsigned(1) == 1;
      SmallResidue(Unsigned(Shl(1, bit)), p);
    }
    var s := Bitwise(AndOp, Unsigned(v), p, WordBits);
    assert s == if Bit(Unsigned(v), bit) then p else 0 by {
      AndSingleBit(Unsigned(v), bit, WordBits);
    }
    WrapNonZero(s);
  }

  lemma SmallResidue(u: int, p: int)
    requires 0 <= p < 0x1_0000_0000 && u == (1 * p) % 0x1_0000_0000
    ensures u == p
  {
  }

  /** A non-negative value below 2^32 wraps to zero only if it is zero. */
  lemma WrapNonZero(s: int)
    requires 0 <= s < 0x1_0000_0000
    ensures (Wrap(s) != 0) == (s != 0)
  {
  }

  // ---------------------------------------------------------------------------
  // The words of a 64-bit shift by 0 < n < 32, with p = 2^n and p' = 2^(32 - n).

  /** 2^n and 2^(32 - n) multiply to 2^32. */
  lemma ShiftPowers(n: int)
    requires 0 < n < 32
    ensures Pow2(n) * Pow2(32 - n) == 0x1_0000_0000
    ensures Pow2(n) >= 2 && Pow2(32 - n) >= 2
  {
    Pow2Add(n, 32 - n);
    assert Pow2(32) == 0x1_0000_0000 by { Pow2Constants(); }
    Pow2Monotone(1, n);
    Pow2Monotone(1, 32 - n);
    assert Pow2(1) == 2;
  }

  /** `w shl n` keeps the low 32 - n bits of the pattern, moved up by n. */
  lemma ShlAligned(w: Int32, n: int, p: nat, p': nat)
    requires 0 < n < 32 && p == Pow2(n) && p' == Pow2(32 - n) && p * p' == 0x1_0000_0000
    ensures Unsigned(Shl(w, n)) == (Unsigned(w) % p') * p
  {
    assert n % 32 == n;
    ShlUnsigned(w, n);
    ModScale(Unsigned(w), p', p);
  }

  /** `w ushr n` is the pattern divided by 2^n, which has 32 - n bits. */
  lemma UshrQuotient(w: Int32, n: int, p: nat, p': nat)
    requires 0 < n < 32 && p == Pow2(n) && p' == Pow2(32 - n) && p * p' == 0x1_0000_0000
    ensures Ushr(w, n) == Unsigned(w) / p && 0 <= Unsigned(w) / p < p'
    ensures Unsigned(Ushr(w, n)) == Unsigned(w) / p
  {
    assert n % 32 == n;
    UshrUnsigned(w, n);
    QuotientFits(Unsigned(w), p', p);
  }

  lemma OrCommutes(x: Int32, y: Int32)
    ensures Or(x, y) == Or(y, x)
  {
    BitwiseCommutes(OrOp, Unsigned(x), Unsigned(y), WordBits);
  }

  /** `(h shl n) or (l ushr (32 - n))`: the low bits of h above the high bits of l. */
  lemma ShiftUpJoin(h: Int32, l: Int32, n: int, p: nat, p': nat)
    requires 0 < n < 32 && p == Pow2(n) && p' == Pow2(32 - n) && p * p' == 0x1_0000_0000
    ensures Unsigned(Or(Shl(h, n), Ushr(l, 32 - n))) == (Unsigned(h) % p') * p + Unsigned(l) / p'
  {
    ShlAligned(h, n, p, p');
    UshrQuotient(l, 32 - n, p', p);
    DivAddMul(Unsigned(h) % p', 0, p);
    OrDisjointWords(Shl(h, n), Ushr(l, 32 - n), n);
  }

  /** `(l ushr n) or (h shl (32 - n))`: the low bits of h above the high bits of l. */
  lemma ShiftDownJoin(h: Int32, l: Int32, n: int, p: nat, p': nat)
    requires 0 < n < 32 && p == Pow2(n) && p' == Pow2(32 - n) && p * p' == 0x1_0000_0000
    ensures Unsigned(Or(Ushr(l, n), Shl(h, 32 - n))) == (Unsigned(h) % p) * p' + Unsigned(l) / p
  {
    OrCommutes(Ushr(l, n), Shl(h, 32 - n));
    ShiftUpJoin(h, l, 32 - n, p', p);
  }
}
