/** `kotlin.Long` on the JavaScript host: a 64-bit two's-complement integer kept
    as two 32-bit words, `low` and `high`. This module holds the value type, its
    meaning (`Value`), and the operations the source writes as single
    expressions: construction, predicates, comparison, negation, subtraction,
    the word-wise bitwise operations, the shifts and the narrowing conversions.
    Operations that call `add` in the source use `Sum`, the function the `Add`
    method of module LongArith is proved to compute. */
module Longs {
  import opened Arith
  import opened Bits
  import opened Word32

  /** A Long: the constructor takes the low word first, as `Long(low, high)` does. */
  datatype Long = Long(low: Int32, high: Int32)

  /** The width of a Long in bits. */
  const LongBits: nat := 64

  /** The integer a Long denotes: `high * 2^32 + unsigned(low)`, as `toNumber` computes it. */
  function Value(x: Long): (v: int)
    ensures -0x8000_0000_0000_0000 <= v < 0x8000_0000_0000_0000
  {
    x.high * 0x1_0000_0000 + Unsigned(x.low)
  }

  /** The 64-bit pattern of a Long read as an unsigned number. */
  function Unsigned64(x: Long): (u: nat)
    ensures u < 0x1_0000_0000_0000_0000
  {
    Unsigned(x.high) * 0x1_0000_0000 + Unsigned(x.low)
  }

  /** The integer in [-2^63, 2^63) congruent to v modulo 2^64: 64-bit wrap-around. */
  function Wrap64(v: int): (r: int)
    ensures -0x8000_0000_0000_0000 <= r < 0x8000_0000_0000_0000
  {
    var u := v % 0x1_0000_0000_0000_0000;
    if u >= 0x8000_0000_0000_0000 then u - 0x1_0000_0000_0000_0000 else u
  }

  /** The Long whose value is v modulo 2^64. */
  function FromValue(v: int): Long {
    Long(Wrap(v), Wrap(v / 0x1_0000_0000))
  }

  // ---------------------------------------------------------------------------
  // The representation: Value is a bijection onto [-2^63, 2^63).

  lemma ValueOfFromValue(v: int)
    ensures Value(FromValue(v)) == Wrap64(v)
  {
    var t := 0x1_0000_0000;
    var q := v / t;
    DivDiv(v, t, t);
    UnsignedWrap(v);
    UnsignedWrap(q);
    assert v % (t * t) == (q % t) * t + v % t;
  }

  lemma FromValueOfValue(x: Long)
    ensures FromValue(Value(x)) == x
  {
    var t := 0x1_0000_0000;
    DivAddMul(x.high, Unsigned(x.low), t);
    WrapUnsigned(x.low);
    WrapMod(Value(x));
    WrapMod(Unsigned(x.low));
  }

  /** A Long is determined by its value. */
  lemma ValueInjective(a: Long, b: Long)
    requires Value(a) == Value(b)
    ensures a == b
  {
    FromValueOfValue(a);
    FromValueOfValue(b);
  }

  lemma Wrap64InRange(v: int)
    requires -0x8000_0000_0000_0000 <= v < 0x8000_0000_0000_0000
    ensures Wrap64(v) == v
  {
  }

  /** Wrap64 depends only on the residue modulo 2^64. */
  lemma Wrap64Congruent(v: int, w: int)
    requires v % 0x1_0000_0000_0000_0000 == w % 0x1_0000_0000_0000_0000
    ensures Wrap64(v) == Wrap64(w)
  {
  }

  lemma Wrap64Shift(v: int, k: int)
    ensures Wrap64(v + k * 0x1_0000_0000_0000_0000) == Wrap64(v)
  {
    DivAddMul(k, v, 0x1_0000_0000_0000_0000);
  }

  /** The unsigned pattern is the value modulo 2^64, and the value is the pattern wrapped. */
  lemma Unsigned64OfValue(x: Long)
    ensures Unsigned64(x) == Value(x) % 0x1_0000_0000_0000_0000
    ensures Value(x) == Wrap64(Unsigned64(x))
  {
    if x.high < 0 {
      assert Unsigned64(x) == Value(x) + 0x1_0000_0000_0000_0000;
    }
  }

  /** A Long is determined by its unsigned pattern. */
  lemma FromUnsigned64(r: Long, v: int)
    requires Unsigned64(r) == v % 0x1_0000_0000_0000_0000
    ensures Value(r) == Wrap64(v)
    ensures r == FromValue(v)
  {
    Unsigned64OfValue(r);
    Wrap64Congruent(Unsigned64(r), v);
    ValueOfFromValue(v);
    ValueInjective(r, FromValue(v));
  }

  // ---------------------------------------------------------------------------
  // Construction and the distinguished constants.

  /** `fromInt`: the word and its sign extension. */
  function FromInt(value: Int32): (r: Long)
    ensures Value(r) == value
  {
    Long(value, if value < 0 then -1 else 0)
  }

  // The constants of the companion object, as the words they evaluate to. ZERO, ONE and
  // NEG_ONE are `fromInt` of 0, 1 and -1; ConstantForms states the other three forms.
  const Zero: Long := Long(0, 0)
  const One: Long := Long(1, 0)
  const NegOne: Long := Long(-1, -1)
  const MaxValue: Long := Long(-1, 0x7FFF_FFFF)
  const MinValue: Long := Long(0, -0x8000_0000)
  const TwoPwr24: Long := Long(0x100_0000, 0)

  /** `MAX_VALUE = Long(-1, -1 ushr 1)`, `MIN_VALUE = Long(0, 1 shl 31)`, `TWO_PWR_24_ = fromInt(1 shl 24)`. */
  lemma ConstantForms()
    ensures MaxValue == Long(-1, Ushr(-1, 1)) && MinValue == Long(0, Shl(1, 31))
    ensures TwoPwr24 == FromInt(Shl(1, 24))
  {
    assert MaxValue == Long(-1, Ushr(-1, 1)) by { MaxHighWord(); }
    assert MinValue == Long(0, Shl(1, 31)) by { SignBitWord(); }
    assert TwoPwr24 == FromInt(Shl(1, 24)) by { TwoPwr24Word(); }
  }

  lemma MinValueValue()
    ensures Value(MinValue) == -0x8000_0000_0000_0000
  {
  }

  lemma MaxValueValue()
    ensures Value(MaxValue) == 0x7FFF_FFFF_FFFF_FFFF
  {
  }

  lemma TwoPwr24Value()
    ensures Value(TwoPwr24) == 0x100_0000
  {
  }

  lemma SignBitWord()
    ensures Shl(1, 31) == -0x8000_0000
  {
    Pow2Constants();
    assert 31 % 32 == 31;
    assert Wrap(0x8000_0000) == -0x8000_0000;
  }

  lemma MaxHighWord()
    ensures Ushr(-1, 1) == 0x7FFF_FFFF
  {
    assert 1 % 32 == 1;
    assert Pow2(1) == 2;
    assert Unsigned(-1) == 0xFFFF_FFFF;
    WrapSmall(0x7FFF_FFFF);
  }

  lemma TwoPwr24Word()
    ensures Shl(1, 24) == 0x100_0000
  {
    Pow2Constants();
    assert 24 % 32 == 24;
    WrapSmall(0x100_0000);
  }

  /** `fromNumber` restricted to integral arguments: saturates at the ends of the range. */
  function FromNumber(value: int): (r: Long)
    ensures Value(r) == if value <= -0x8000_0000_0000_0000 then -0x8000_0000_0000_0000
                        else if value >= 0x7FFF_FFFF_FFFF_FFFF then 0x7FFF_FFFF_FFFF_FFFF
                        else value
    decreases if value < 0 then 1 else 0
  {
    if value <= -0x8000_0000_0000_0000 then
      assert Value(MinValue) == -0x8000_0000_0000_0000 by { MinValueValue(); }
      MinValue
    else if value + 1 >= 0x8000_0000_0000_0000 then
      assert Value(MaxValue) == 0x7FFF_FFFF_FFFF_FFFF by { MaxValueValue(); }
      MaxValue
    else if value < 0 then Negate(FromNumber(-value))
    else
      var t := 0x1_0000_0000;
      SplitNonNegative(value);
      Long(Wrap(value % t), Wrap(value / t))
  }

  /** The two words of a non-negative value below 2^63, as `fromNumber` computes them. */
  lemma SplitNonNegative(value: int)
    requires 0 <= value < 0x8000_0000_0000_0000
    ensures Value(Long(Wrap(value % 0x1_0000_0000), Wrap(value / 0x1_0000_0000))) == value
  {
    var t := 0x1_0000_0000;
    var q, m := value / t, value % t;
    assert value == q * t + m;
    assert 0 <= q < 0x8000_0000 by {
      if q >= 0x8000_0000 {
        MulLe(t, 0x8000_0000, q);
      }
    }
    WrapSmall(q);
    UnsignedWrap(m);
  }

  // ---------------------------------------------------------------------------
  // Predicates and comparison.

  function IsZero(x: Long): (r: bool)
    ensures r == (Value(x) == 0)
  {
    x.high == 0 && x.low == 0
  }

  function IsNegative(x: Long): (r: bool)
    ensures r == (Value(x) < 0)
  {
    x.high < 0
  }

  function IsOdd(x: Long): (r: bool)
    ensures r == (Value(x) % 2 == 1)
  {
    AndLowBits(x.low, 1);
    assert Pow2(1) == 2;
    DivAddMul(x.high * 0x8000_0000, Unsigned(x.low), 2);
    Word32.And(x.low, 1) == 1
  }

  /** `equalsLong`: word-wise equality, which is equality of values. */
  function EqualsLong(a: Long, b: Long): (r: bool)
    ensures r == (Value(a) == Value(b))
  {
    a.high == b.high && a.low == b.low
  }

  function NotEqualsLong(a: Long, b: Long): (r: bool)
    ensures r == (Value(a) != Value(b))
  {
    a.high != b.high || a.low != b.low
  }

  /** `compare`: -1, 0 or 1 as a is below, equal to or above b. */
  function Compare(a: Long, b: Long): (r: int)
    ensures r == 0 <==> Value(a) == Value(b)
    ensures r == -1 <==> Value(a) < Value(b)
    ensures r == 1 <==> Value(a) > Value(b)
  {
    if EqualsLong(a, b) then 0
    else
      var thisNeg := IsNegative(a);
      var otherNeg := IsNegative(b);
      if thisNeg && !otherNeg then -1
      else if !thisNeg && otherNeg then 1
      // the signs agree, so the difference is below 2^63 in magnitude and does not wrap
      else
        SameSignDifference(a, b);
        if IsNegative(Subtract(a, b)) then -1 else 1
  }

  /** Between operands of equal sign the difference does not wrap. */
  lemma SameSignDifference(a: Long, b: Long)
    requires (Value(a) < 0) == (Value(b) < 0)
    ensures Value(Subtract(a, b)) == Value(a) - Value(b)
  {
    Wrap64InRange(Value(a) - Value(b));
  }

  function LessThan(a: Long, b: Long): (r: bool)
    ensures r == (Value(a) < Value(b))
  {
    Compare(a, b) < 0
  }

  function LessThanOrEqual(a: Long, b: Long): (r: bool)
    ensures r == (Value(a) <= Value(b))
  {
    Compare(a, b) <= 0
  }

  function GreaterThan(a: Long, b: Long): (r: bool)
    ensures r == (Value(a) > Value(b))
  {
    Compare(a, b) > 0
  }

  function GreaterThanOrEqual(a: Long, b: Long): (r: bool)
    ensures r == (Value(a) >= Value(b))
  {
    Compare(a, b) >= 0
  }

  // ---------------------------------------------------------------------------
  // Sum, negation, subtraction.

  /** The two's-complement sum: what `add` returns (proved of LongArith.Add). */
  function Sum(a: Long, b: Long): (r: Long)
    ensures Value(r) == Wrap64(Value(a) + Value(b))
  {
    ValueOfFromValue(Value(a) + Value(b));
    FromValue(Value(a) + Value(b))
  }

  /** `negate`: MinValue is its own negation; everything else is `not().add(ONE)`. */
  function Negate(x: Long): (r: Long)
    ensures Value(r) == Wrap64(-Value(x))
    ensures Value(x) != -0x8000_0000_0000_0000 ==> Value(r) == -Value(x)
  {
    MinValueValue();
    var r := if EqualsLong(x, MinValue) then MinValue else Sum(Not(x), One);
    NegationCases(x, r);
    r
  }

  /** The two branches of `negate` at the level of values. */
  lemma NegationCases(x: Long, r: Long)
    requires Value(x) == -0x8000_0000_0000_0000 ==> r == MinValue
    requires Value(x) != -0x8000_0000_0000_0000 ==> Value(r) == Wrap64(-Value(x) - 1 + Value(One))
    ensures Value(r) == Wrap64(-Value(x))
    ensures Value(x) != -0x8000_0000_0000_0000 ==> Value(r) == -Value(x)
  {
    if Value(x) == -0x8000_0000_0000_0000 {
      MinValueValue();
      Wrap64Limits();
    } else {
      assert Value(One) == 1;
      Wrap64InRange(-Value(x));
    }
  }

  lemma Wrap64Limits()
    ensures Wrap64(0x8000_0000_0000_0000) == -0x8000_0000_0000_0000
  {
  }

  /** Wrapping an operand before adding it changes nothing after the final wrap. */
  lemma Wrap64Plus(a: int, c: int)
    ensures Wrap64(a + Wrap64(c)) == Wrap64(a + c)
  {
    var m := 0x1_0000_0000_0000_0000;
    var k := c / m;
    assert c == k * m + c % m;
    if c % m >= 0x8000_0000_0000_0000 {
      assert a + Wrap64(c) == (a + c) + (-k - 1) * m;
      Wrap64Shift(a + c, -k - 1);
    } else {
      assert a + Wrap64(c) == (a + c) + (-k) * m;
      Wrap64Shift(a + c, -k);
    }
  }

  /** Adding the wrapped negation of y is subtracting y, modulo 2^64. */
  lemma SumOfWrappedNegation(x: int, y: int, n: int, s: int)
    requires n == Wrap64(-y) && s == Wrap64(x + n)
    ensures s == Wrap64(x - y)
  {
    Wrap64Plus(x, -y);
  }

  /** `subtract`: `add(other.negate())`. */
  function Subtract(a: Long, b: Long): (r: Long)
    ensures Value(r) == Wrap64(Value(a) - Value(b))
  {
    SumOfNegation(a, b, Negate(b))
  }

  /** `add` of a and n, where n is the negation of b. */
  function SumOfNegation(a: Long, b: Long, n: Long): (r: Long)
    requires Value(n) == Wrap64(-Value(b))
    ensures Value(r) == Wrap64(Value(a) - Value(b))
  {
    var r := Sum(a, n);
    SumOfWrappedNegation(Value(a), Value(b), Value(n), Value(r));
    r
  }

  function Inc(x: Long): (r: Long)
    ensures Value(r) == Wrap64(Value(x) + 1)
  {
    Sum(x, One)
  }

  function Dec(x: Long): (r: Long)
    ensures Value(r) == Wrap64(Value(x) - 1)
  {
    Sum(x, NegOne)
  }

  // ---------------------------------------------------------------------------
  // Bitwise operations, word by word.

  /** `not`: complements both words, which is -x - 1 on the value. */
  function Not(x: Long): (r: Long)
    ensures Value(r) == -Value(x) - 1
  {
    Long(Inv(x.low), Inv(x.high))
  }

  /** Word-wise op agrees with op on the whole 64-bit pattern. */
  lemma WordWise(op: BitOp, a: Long, b: Long, lo: Int32, hi: Int32)
    requires Unsigned(lo) == Bitwise(op, Unsigned(a.low), Unsigned(b.low), WordBits)
    requires Unsigned(hi) == Bitwise(op, Unsigned(a.high), Unsigned(b.high), WordBits)
    ensures Unsigned64(Long(lo, hi)) == Bitwise(op, Unsigned64(a), Unsigned64(b), LongBits)
  {
    assert Pow2(WordBits) == 0x1_0000_0000 by { Pow2Constants(); }
    Concatenate(op, Unsigned64(a), Unsigned64(b), Unsigned64(Long(lo, hi)),
                Unsigned(a.high), Unsigned(a.low), Unsigned(b.high), Unsigned(b.low),
                Unsigned(hi), Unsigned(lo), 0x1_0000_0000, WordBits, LongBits);
  }

  /** Operands and result that are concatenations of two n-bit halves (p = 2^n). */
  lemma Concatenate(op: BitOp, x: nat, y: nat, z: nat, xh: nat, xl: nat, yh: nat, yl: nat,
                    zh: nat, zl: nat, p: nat, n: nat, w: nat)
    requires p == Pow2(n) && w == n + n && xl < p && yl < p
    requires x == xh * p + xl && y == yh * p + yl && z == zh * p + zl
    requires zh == Bitwise(op, xh, yh, n) && zl == Bitwise(op, xl, yl, n)
    ensures z == Bitwise(op, x, y, w)
  {
    BitwiseSplit(op, xh, xl, yh, yl, n, n);
  }

  lemma WordOp(op: BitOp, x: Int32, y: Int32)
    ensures Unsigned(Wrap(Bitwise(op, Unsigned(x), Unsigned(y), WordBits))) == Bitwise(op, Unsigned(x), Unsigned(y), WordBits)
  {
    SumFits(Bitwise(op, Unsigned(x), Unsigned(y), WordBits));
  }

  /** `and`. */
  function And(a: Long, b: Long): (r: Long)
    ensures Unsigned64(r) == Bitwise(AndOp, Unsigned64(a), Unsigned64(b), LongBits)
  {
    var r := Long(Word32.And(a.low, b.low), Word32.And(a.high, b.high));
    WordOp(AndOp, a.low, b.low);
    WordOp(AndOp, a.high, b.high);
    WordWise(AndOp, a, b, r.low, r.high);
    r
  }

  /** `or`. */
  function Or(a: Long, b: Long): (r: Long)
    ensures Unsigned64(r) == Bitwise(OrOp, Unsigned64(a), Unsigned64(b), LongBits)
  {
    var r := Long(Word32.Or(a.low, b.low), Word32.Or(a.high, b.high));
    WordOp(OrOp, a.low, b.low);
    WordOp(OrOp, a.high, b.high);
    WordWise(OrOp, a, b, r.low, r.high);
    r
  }

  /** `xor`. */
  function Xor(a: Long, b: Long): (r: Long)
    ensures Unsigned64(r) == Bitwise(XorOp, Unsigned64(a), Unsigned64(b), LongBits)
  {
    var r := Long(Word32.Xor(a.low, b.low), Word32.Xor(a.high, b.high));
    WordOp(XorOp, a.low, b.low);
    WordOp(XorOp, a.high, b.high);
    WordWise(XorOp, a, b, r.low, r.high);
    r
  }

  // ---------------------------------------------------------------------------
  // Shifts. The amount is `numBits and 63`.

  lemma ShiftAmount(numBits: Int32)
    ensures Word32.And(numBits, 63) == numBits % 64
  {
    AndLowBits(numBits, 6);
    Pow2Constants();
    UnsignedCongruent(numBits);
    DivDiv(numBits, 64, 0x400_0000);
  }

  /** The words of a left shift by 0 < n < 32 hold the 64-bit product, wrapped. */
  lemma ShiftLeftSmall(x: Long, n: int, r: Long)
    requires 0 < n < 32
    requires r == Long(Shl(x.low, n), Word32.Or(Shl(x.high, n), Ushr(x.low, 32 - n)))
    ensures Unsigned64(r) == (Unsigned64(x) * Pow2(n)) % 0x1_0000_0000_0000_0000
  {
    var p, p' := Pow2(n), Pow2(32 - n);
    ShiftPowers(n);
    ShlAligned(x.low, n, p, p');
    ShiftUpJoin(x.high, x.low, n, p, p');
    ShiftLeftWords(Unsigned64(x), Unsigned(x.high), Unsigned(x.low),
                   Unsigned(r.high), Unsigned(r.low), p, p');
  }

  lemma ShiftLeftWords(u: int, h: int, l: int, rh: int, rl: int, p: int, p': int)
    requires p > 0 && p' > 0 && p * p' == 0x1_0000_0000 && 0 <= l < 0x1_0000_0000
    requires u == h * 0x1_0000_0000 + l
    requires rh == (h % p') * p + l / p' && rl == (l % p') * p
    ensures rh * 0x1_0000_0000 + rl == (u * p) % 0x1_0000_0000_0000_0000
  {
    ShiftLeftSplit(h, l, p, p');
  }

  /** The words of a left shift by 32 <= n < 64: the low word moves up, zeros below. */
  lemma ShiftLeftLarge(x: Long, n: int, r: Long)
    requires 32 <= n < 64
    requires r == Long(0, Shl(x.low, n - 32))
    ensures Unsigned64(r) == (Unsigned64(x) * Pow2(n)) % 0x1_0000_0000_0000_0000
  {
    var q := Pow2(n - 32);
    var s := Unsigned(Shl(x.low, n - 32));
    ShlProduct(x.low, n - 32, q);
    assert Pow2(n) == q * 0x1_0000_0000 by {
      Pow2Add(n - 32, 32);
      Pow2Constants();
    }
    WordProductUp(Unsigned(x.high), Unsigned(x.low), q, Unsigned64(x), Pow2(n), s);
  }

  /** Multiplying h * 2^32 + l by q * 2^32 keeps, modulo 2^64, only (l * q mod 2^32) * 2^32. */
  lemma WordProductUp(h: int, l: int, q: int, u: int, p: int, s: int)
    requires u == h * 0x1_0000_0000 + l && p == q * 0x1_0000_0000 && s == (l * q) % 0x1_0000_0000
    ensures (u * p) % 0x1_0000_0000_0000_0000 == s * 0x1_0000_0000
  {
    var t := 0x1_0000_0000;
    assert (h * t + l) * (q * t) == (h * q) * (t * t) + (l * q) * t;
    DivAddMul(h * q, (l * q) * t, t * t);
    ModScale(l * q, t, t);
  }

  /** From the unsigned pattern of a left shift to its signed value. */
  lemma ShiftLeftValue(x: Long, k: nat, r: Long)
    requires Unsigned64(r) == (Unsigned64(x) * k) % 0x1_0000_0000_0000_0000
    ensures Value(r) == Wrap64(Value(x) * k)
  {
    var m := 0x1_0000_0000_0000_0000;
    Unsigned64OfValue(x);
    Unsigned64OfValue(r);
    ModMul(Value(x), k, m);
    Wrap64Congruent(Unsigned64(r), Value(x) * k);
  }

  /** `shiftLeft`: multiplication by 2^(numBits mod 64), wrapped to 64 bits. */
  function ShiftLeft(x: Long, numBits: Int32): (r: Long)
    ensures Unsigned64(r) == (Unsigned64(x) * Pow2(numBits % 64)) % 0x1_0000_0000_0000_0000
    ensures Value(r) == Wrap64(Value(x) * Pow2(numBits % 64))
  {
    var numBits' := Word32.And(numBits, 63);
    ShiftAmount(numBits);
    var r :=
      if numBits' == 0 then x
      else if numBits' < 32 then
        Long(Shl(x.low, numBits'), Word32.Or(Shl(x.high, numBits'), Ushr(x.low, 32 - numBits')))
      else
        Long(0, Shl(x.low, numBits' - 32));
    ShiftLeftSpec(x, numBits', r);
    r
  }

  lemma ShiftLeftSpec(x: Long, n: int, r: Long)
    requires 0 <= n < 64
    requires n == 0 ==> r == x
    requires 0 < n < 32 ==> r == Long(Shl(x.low, n), Word32.Or(Shl(x.high, n), Ushr(x.low, 32 - n)))
    requires 32 <= n ==> r == Long(0, Shl(x.low, n - 32))
    ensures Unsigned64(r) == (Unsigned64(x) * Pow2(n)) % 0x1_0000_0000_0000_0000
    ensures Value(r) == Wrap64(Value(x) * Pow2(n))
  {
    if n == 0 {
      assert Pow2(0) == 1;
      Unsigned64OfValue(x);
    } else if n < 32 {
      ShiftLeftSmall(x, n, r);
    } else {
      ShiftLeftLarge(x, n, r);
    }
    ShiftLeftValue(x, Pow2(n), r);
  }

  /** The low word of a right shift by 0 < n < 32: low bits of high above high bits of low. */
  lemma ShiftRightLow(x: Long, n: int, p: nat, p': nat)
    requires 0 < n < 32 && p == Pow2(n) && p' == Pow2(32 - n) && p * p' == 0x1_0000_0000
    ensures Unsigned(Word32.Or(Ushr(x.low, n), Shl(x.high, 32 - n)))
         == (x.high % p) * p' + Unsigned(x.low) / p
  {
    ShiftDownJoin(x.high, x.low, n, p, p');
    UnsignedCongruent(x.high);
    DivDiv(x.high, p, p');
  }

  lemma ShiftRightSpec(x: Long, n: int, r: Long)
    requires 0 <= n < 64
    requires n == 0 ==> r == x
    requires 0 < n < 32 ==> r == Long(Word32.Or(Ushr(x.low, n), Shl(x.high, 32 - n)), Shr(x.high, n))
    requires 32 <= n ==> r == Long(Shr(x.high, n - 32), if x.high >= 0 then 0 else -1)
    ensures Value(r) == Value(x) / Pow2(n)
  {
    if n == 0 {
      assert Pow2(0) == 1;
    } else if n < 32 {
      ShiftRightSmall(x, n, r);
    } else {
      ShiftRightLarge(x, n, r);
    }
  }

  /** A right shift by 0 < n < 32: bits move down across the word boundary. */
  lemma ShiftRightSmall(x: Long, n: int, r: Long)
    requires 0 < n < 32
    requires r == Long(Word32.Or(Ushr(x.low, n), Shl(x.high, 32 - n)), Shr(x.high, n))
    ensures Value(r) == Value(x) / Pow2(n)
  {
    var p, p' := Pow2(n), Pow2(32 - n);
    ShiftPowers(n);
    ShiftRightLow(x, n, p, p');
    ShrQuotient(x.high, n, p);
    ShiftRightWords(Value(x), x.high, Unsigned(x.low), r.high, Unsigned(r.low), p, p');
  }

  /** A right shift by 32 <= n < 64: the high word shifted, the sign extended above it. */
  lemma ShiftRightLarge(x: Long, n: int, r: Long)
    requires 32 <= n < 64
    requires r == Long(Shr(x.high, n - 32), if x.high >= 0 then 0 else -1)
    ensures Value(r) == Value(x) / Pow2(n)
  {
    var q := Pow2(n - 32);
    ShrQuotient(x.high, n - 32, q);
    assert Pow2(n) == 0x1_0000_0000 * q by {
      Pow2Add(32, n - 32);
      Pow2Constants();
    }
    ShiftRightLargeWords(x.high, Unsigned(x.low), Value(x), q, r.low);
  }

  lemma ShiftRightWords(v: int, h: int, l: int, rh: int, rl: int, p: int, p': int)
    requires p > 0 && p' > 0 && p * p' == 0x1_0000_0000 && 0 <= l < 0x1_0000_0000
    requires v == h * 0x1_0000_0000 + l
    requires rh == h / p && rl == (h % p) * p' + l / p
    ensures rh * 0x1_0000_0000 + rl == v / p
  {
    ShiftRightSplit(h, l, p, p');
  }

  lemma ShiftRightLargeWords(h: Int32, l: int, v: int, q: int, rl: Int32)
    requires q >= 1 && 0 <= l < 0x1_0000_0000 && v == h * 0x1_0000_0000 + l && rl == h / q
    ensures (if h >= 0 then 0 else -1) * 0x1_0000_0000 + Unsigned(rl) == v / (0x1_0000_0000 * q)
  {
    if h < 0 {
      DivNeg(h, q);
    } else {
      DivNonNeg(h, q);
    }
    DivDiv(v, 0x1_0000_0000, q);
    DivAddMul(h, l, 0x1_0000_0000);
  }

  /** `shiftRight`: division by 2^(numBits mod 64) rounded toward minus infinity. */
  function ShiftRight(x: Long, numBits: Int32): (r: Long)
    ensures Value(r) == Value(x) / Pow2(numBits % 64)
  {
    var numBits' := Word32.And(numBits, 63);
    ShiftAmount(numBits);
    var r :=
      if numBits' == 0 then x
      else if numBits' < 32 then
        Long(Word32.Or(Ushr(x.low, numBits'), Shl(x.high, 32 - numBits')), Shr(x.high, numBits'))
      else
        Long(Shr(x.high, numBits' - 32), if x.high >= 0 then 0 else -1);
    ShiftRightSpec(x, numBits', r);
    r
  }

  lemma ShiftRightUnsignedSpec(x: Long, n: int, r: Long)
    requires 0 <= n < 64
    requires n == 0 ==> r == x
    requires 0 < n < 32 ==> r == Long(Word32.Or(Ushr(x.low, n), Shl(x.high, 32 - n)), Ushr(x.high, n))
    requires n == 32 ==> r == Long(x.high, 0)
    requires 32 < n ==> r == Long(Ushr(x.high, n - 32), 0)
    ensures Unsigned64(r) == Unsigned64(x) / Pow2(n)
  {
    if n == 0 {
      assert Pow2(0) == 1;
    } else if n < 32 {
      ShiftRightUnsignedSmall(x, n, r);
    } else {
      ShiftRightUnsignedLarge(x, n, r);
    }
  }

  lemma ShiftRightUnsignedSmall(x: Long, n: int, r: Long)
    requires 0 < n < 32
    requires r == Long(Word32.Or(Ushr(x.low, n), Shl(x.high, 32 - n)), Ushr(x.high, n))
    ensures Unsigned64(r) == Unsigned64(x) / Pow2(n)
  {
    var p, p' := Pow2(n), Pow2(32 - n);
    ShiftPowers(n);
    ShiftDownJoin(x.high, x.low, n, p, p');
    UshrQuotient(x.high, n, p, p');
    ShiftRightWords(Unsigned64(x), Unsigned(x.high), Unsigned(x.low), Unsigned(r.high), Unsigned(r.low), p, p');
  }

  lemma ShiftRightUnsignedLarge(x: Long, n: int, r: Long)
    requires 32 <= n < 64
    requires n == 32 ==> r == Long(x.high, 0)
    requires 32 < n ==> r == Long(Ushr(x.high, n - 32), 0)
    ensures Unsigned64(r) == Unsigned64(x) / Pow2(n)
  {
    var q := Pow2(n - 32);
    assert Unsigned64(r) == Unsigned(x.high) / q by {
      UshrSmall(x.high, n - 32, q);
      if n == 32 {
        assert q == 1;
      }
    }
    assert Pow2(n) == 0x1_0000_0000 * q by {
      Pow2Add(32, n - 32);
      Pow2Constants();
    }
    HighWordQuotient(Unsigned64(x), Unsigned(x.high), Unsigned(x.low), q);
  }

  /** Dropping the low word and then dividing by q is dividing by 2^32 * q. */
  lemma HighWordQuotient(u: int, h: int, l: int, q: int)
    requires q >= 1 && 0 <= l < 0x1_0000_0000 && u == h * 0x1_0000_0000 + l
    ensures u / (0x1_0000_0000 * q) == h / q
  {
    DivDiv(u, 0x1_0000_0000, q);
    DivAddMul(h, l, 0x1_0000_0000);
  }

  /** `shiftRightUnsigned`: the 64-bit pattern divided by 2^(numBits mod 64). */
  function ShiftRightUnsigned(x: Long, numBits: Int32): (r: Long)
    ensures Unsigned64(r) == Unsigned64(x) / Pow2(numBits % 64)
  {
    var numBits' := Word32.And(numBits, 63);
    ShiftAmount(numBits);
    var r :=
      if numBits' == 0 then x
      else if numBits' < 32 then
        Long(Word32.Or(Ushr(x.low, numBits'), Shl(x.high, 32 - numBits')), Ushr(x.high, numBits'))
      else if numBits' == 32 then
        Long(x.high, 0)
      else
        Long(Ushr(x.high, numBits' - 32), 0);
    ShiftRightUnsignedSpec(x, numBits', r);
    r
  }

  // ---------------------------------------------------------------------------
  // Narrowing conversions: the low bits of the value.

  /** `toInt`: the low word, i.e. the value modulo 2^32 as a signed word. */
  function ToInt(x: Long): (r: Int32)
    ensures Unsigned(r) == Value(x) % 0x1_0000_0000
  {
    DivAddMul(x.high, Unsigned(x.low), 0x1_0000_0000);
    x.low
  }

  /** `toInt` undoes `fromInt`; `fromInt` undoes `toInt` exactly on the values an Int holds. */
  lemma IntRoundTrip(v: Int32, x: Long)
    ensures ToInt(FromInt(v)) == v
    ensures FromInt(ToInt(x)) == x <==> -0x8000_0000 <= Value(x) < 0x8000_0000
  {
    if -0x8000_0000 <= Value(x) < 0x8000_0000 {
      var w: Int32 := Value(x);
      assert Unsigned(w) == Value(x) % 0x1_0000_0000;
      UnsignedInjective(ToInt(x), w);
      ValueInjective(FromInt(ToInt(x)), x);
    }
  }

  /** A shift amount that is a multiple of 64 leaves the operand as it is. */
  lemma ShiftByMultipleOf64(x: Long, numBits: Int32)
    requires numBits % 64 == 0
    ensures ShiftLeft(x, numBits) == x && ShiftRight(x, numBits) == x
    ensures ShiftRightUnsigned(x, numBits) == x
  {
    assert Pow2(0) == 1;
    var l, r, u := ShiftLeft(x, numBits), ShiftRight(x, numBits), ShiftRightUnsigned(x, numBits);
    Wrap64InRange(Value(x));
    ValueInjective(l, x);
    ValueInjective(r, x);
    Unsigned64OfValue(u);
    Unsigned64OfValue(x);
    ValueInjective(u, x);
  }

  /** `toShort`: the value modulo 2^16 as a signed 16-bit number. */
  function ToShort(x: Long): (r: int)
    ensures -0x8000 <= r < 0x8000 && (r - Value(x)) % 0x1_0000 == 0
  {
    var r := Word32.ToShort(x.low);
    CongruentShift(r, x.low, Value(x), x.high * 0x1_0000 + (if x.low < 0 then 0x1_0000 else 0), 0x1_0000);
    r
  }

  /** `toByte`: the value modulo 2^8 as a signed 8-bit number. */
  function ToByte(x: Long): (r: int)
    ensures -0x80 <= r < 0x80 && (r - Value(x)) % 0x100 == 0
  {
    var r := Word32.ToByte(x.low);
    CongruentShift(r, x.low, Value(x), x.high * 0x100_0000 + (if x.low < 0 then 0x100_0000 else 0), 0x100);
    r
  }
}
