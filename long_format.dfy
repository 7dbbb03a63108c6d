/** `Long.toString` and `Long.getNumBitsAbs`: the decimal numeral of a Long, built six
    digits at a time from divisions by 10^6, and the number of bits its magnitude needs,
    found by testing bits of one word from the top. */
module LongFormat {
  import opened Arith
  import opened Word32
  import opened Bits
  import opened Decimal
  import opened Longs
  import opened LongArith
  import opened LongDivision
  import opened Truncated

  // ---------------------------------------------------------------------------
  // toString

  /** `toString` in radix 10: "0" for zero; other negative values than MIN_VALUE as a
      minus sign before the numeral of their negation; positive values six digits at a
      time. */
  method ToString(x: Long) returns (s: string)
    ensures s == SignedDecimal(Value(x))
    decreases if IsNegative(x) then (if Value(x) == -0x8000_0000_0000_0000 then 2 else 1) else 0, 1
  {
    if IsZero(x) {
      ZeroNumeral(Value(x));
      return "0";
    }
    if IsNegative(x) {
      MinValueValue();
      if EqualsLong(x, MinValue) {
        s := MinValueToString(x);
        return;
      }
      var n := Negation(x);
      var digits := ToString(n);
      NegativeNumeral(Value(x), Value(n));
      s := "-" + digits;
      return;
    }
    s := PositiveToString(x);
  }

  /** MIN_VALUE, whose negation wraps: the numeral of MIN_VALUE / 10 followed by the last
      digit, recovered by multiplying back and subtracting. */
  method MinValueToString(x: Long) returns (s: string)
    requires Value(x) == -0x8000_0000_0000_0000
    ensures s == SignedDecimal(Value(x))
    decreases 2, 0
  {
    var radixLong := FromInt(10);
    var d := Div(x, radixLong);
    var div := d.value;
    var product := Multiply(div, radixLong);
    var remLong := Difference(product, x);
    var rem := ToInt(remLong);
    MinValueDigits(Value(x), Value(div), Value(product), Value(remLong), rem);
    var head := ToString(div);
    s := head + SignedDecimal(rem);
  }

  /** The loop of `toString` for a positive value: each round writes the digits of the
      remainder by 10^6 in front of the digits so far and goes on with the quotient,
      until the quotient is zero. */
  method PositiveToString(x: Long) returns (s: string)
    requires 0 < Value(x)
    ensures s == Decimal.Decimal(Value(x))
  {
    var radixToPower := FromNumber(1000000);
    var rem := x;
    var result := "";
    while true
      invariant 0 < Value(rem)
      invariant Decimal.Decimal(Value(x)) == Decimal.Decimal(Value(rem)) + result
      decreases Value(rem)
    {
      var remDiv, digits := Round(rem, radixToPower);
      Prepend(Decimal.Decimal(Value(x)), Decimal.Decimal(Value(rem)), result,
              Decimal.Decimal(Value(remDiv)), digits);
      rem := remDiv;
      if IsZero(rem) {
        return digits + result;
      }
      result := digits + result;
    }
  }

  /** Digits written in front of the digits so far extend them toward the whole numeral. */
  lemma Prepend(whole: string, rest: string, result: string, next: string, digits: string)
    requires whole == rest + result
    ensures rest == digits ==> whole == digits + result
    ensures rest == next + digits ==> whole == next + (digits + result)
  {
  }

  /** One round: the quotient by 10^6, and the remainder's digits, zero-padded to six
      unless the quotient is zero and they are the leading ones. */
  method Round(rem: Long, radixToPower: Long) returns (remDiv: Long, digits: string)
    requires 0 < Value(rem) && Value(radixToPower) == 1000000
    ensures 0 <= Value(remDiv) < Value(rem)
    ensures Value(remDiv) == 0 ==> digits == Decimal.Decimal(Value(rem))
    ensures Value(remDiv) != 0 ==> Decimal.Decimal(Value(rem)) == Decimal.Decimal(Value(remDiv)) + digits
  {
    var intval;
    remDiv, intval := SplitChunk(rem, radixToPower);
    digits := SignedDecimal(intval);
    ChunkDigits(Value(remDiv), intval, Value(rem), digits);
    if !IsZero(remDiv) {
      digits := PadDigits(digits);
    }
  }

  /** One division of the loop: the quotient by 10^6 and, through `toInt`, the
      remainder, which fits an Int. */
  method SplitChunk(rem: Long, radixToPower: Long) returns (remDiv: Long, intval: Int32)
    requires 0 < Value(rem) && Value(radixToPower) == 1000000
    ensures 0 <= intval < 1000000 && 0 <= Value(remDiv)
    ensures Value(rem) == Value(remDiv) * 1000000 + intval
  {
    var d := Div(rem, radixToPower);
    remDiv := d.value;
    var product := Multiply(remDiv, radixToPower);
    var low := Difference(rem, product);
    intval := ToInt(low);
    ChunkValues(Value(rem), Value(remDiv), Value(product), Value(low), intval);
  }

  /** The inner loop of `toString`: prepends "0" until there are six characters. */
  method PadDigits(digits: string) returns (padded: string)
    requires |digits| <= 6
    ensures padded == Zeros(6 - |digits|) + digits
  {
    padded := digits;
    while |padded| < 6
      invariant |digits| <= |padded| <= 6
      invariant padded == Zeros(|padded| - |digits|) + digits
    {
      assert Zeros(|padded| - |digits| + 1) == "0" + Zeros(|padded| - |digits|);
      padded := "0" + padded;
    }
  }

  lemma ZeroNumeral(v: int)
    requires v == 0
    ensures SignedDecimal(v) == "0"
  {
    assert Decimal.Decimal(0) == "0";
  }

  /** A negative value's numeral is a minus sign before its magnitude's. */
  lemma NegativeNumeral(v: int, n: int)
    requires v < 0 && n == -v
    ensures SignedDecimal(v) == "-" + SignedDecimal(n)
  {
  }

  /** toString(MIN_VALUE): MIN_VALUE / 10 is -922337203685477580, the value recovered
      by multiplying back and subtracting is 8, and the two numerals side by side are
      the numeral of -2^63. */
  lemma MinValueDigits(x: int, q: int, p: int, d: int, rem: Int32)
    requires x == -0x8000_0000_0000_0000
    requires q == Wrap64(TruncDiv(x, 10)) && p == Wrap64(q * 10) && d == Wrap64(p - x)
    requires Unsigned(rem) == d % 0x1_0000_0000
    ensures q == -922337203685477580 && rem == 8
    ensures SignedDecimal(x) == SignedDecimal(q) + SignedDecimal(rem)
  {
    TruncDivUnique(x, 10, -922337203685477580, -8);
    Wrap64InRange(-922337203685477580);
    Wrap64InRange(-9223372036854775800);
    Wrap64InRange(8);
    UnsignedSmall(rem);
    var n := 9223372036854775808;
    assert Decimal.Decimal(n) == Decimal.Decimal(n / 10) + [DigitChar(n % 10)];
  }

  /** The quotient and remainder of one round are those of floor division, the
      dividend being positive. */
  lemma ChunkValues(v: int, q: int, p: int, l: int, i: Int32)
    requires 0 < v < 0x8000_0000_0000_0000
    requires q == Wrap64(TruncDiv(v, 1000000)) && p == Wrap64(q * 1000000) && l == Wrap64(v - p)
    requires Unsigned(i) == l % 0x1_0000_0000
    ensures 0 <= i < 1000000 && 0 <= q && v == q * 1000000 + i
  {
    PositiveTruncDiv(v, 1000000, v / 1000000);
    Wrap64InRange(q * 1000000);
    Wrap64InRange(v - p);
    UnsignedSmall(i);
  }

  /** A round of the loop: the numeral of v = q * 10^6 + c is that of q followed by c's
      digits padded to six, or c's digits alone when q is zero. */
  lemma ChunkDigits(q: nat, c: nat, v: nat, d: string)
    requires 0 < v == q * 1000000 + c && c < 1000000 && d == SignedDecimal(c)
    ensures |d| <= 6 && q < v
    ensures q == 0 ==> Decimal.Decimal(v) == d
    ensures q != 0 ==> Decimal.Decimal(v) == Decimal.Decimal(q) + (Zeros(6 - |d|) + d)
  {
    assert Pow10(6) == 1000000;
    PadDecimal(c, 6);
    if q == 0 {
      assert v == c;
    } else {
      DecimalChunk(q, c, 6);
    }
  }

  // ---------------------------------------------------------------------------
  // getNumBitsAbs

  /** `getNumBitsAbs`: the number of bits of |x|, and 1 for zero. MIN_VALUE, whose
      negation wraps, is answered directly; other negative values by their negation. */
  method GetNumBitsAbs(x: Long) returns (r: int)
    ensures 1 <= r <= 64
    ensures Value(x) == 0 ==> r == 1
    ensures Value(x) != 0 ==> Pow2(r - 1) <= Abs(Value(x)) < Pow2(r)
    decreases if IsNegative(x) then 1 else 0
  {
    if IsNegative(x) {
      MinValueValue();
      if EqualsLong(x, MinValue) {
        MinValueBits(Value(x));
        return 64;
      }
      var n := Negation(x);
      r := GetNumBitsAbs(n);
      return;
    }
    r := NonNegativeBits(x);
  }

  /** The non-negative case: the highest set bit of `high`, or of `low` when `high` is
      zero, searched from bit 31 down; bit 0 when none is set. */
  method NonNegativeBits(x: Long) returns (r: int)
    requires 0 <= Value(x)
    ensures 1 <= r <= 64
    ensures Value(x) == 0 ==> r == 1
    ensures Value(x) != 0 ==> Pow2(r - 1) <= Value(x) < Pow2(r)
  {
    var v := if x.high != 0 then x.high else x.low;
    var bit := HighestBit(v);
    ChosenWordBits(x, v, bit);
    r := if x.high != 0 then bit + 33 else bit + 1;
  }

  /** The loop of `getNumBitsAbs`: tests bits of one word from bit 31 down and stops at
      the first one set, or at bit 0. */
  method HighestBit(v: Int32) returns (bit: int)
    ensures 0 <= bit <= 31 && Unsigned(v) < Pow2(bit + 1)
    ensures Unsigned(v) == 0 ==> bit == 0
    ensures Unsigned(v) != 0 ==> Pow2(bit) <= Unsigned(v)
  {
    bit := 31;
    WordBound(v);
    while bit > 0
      invariant 0 <= bit <= 31 && Unsigned(v) < Pow2(bit + 1)
      decreases bit
    {
      TestBit(v, bit);
      if Word32.And(v, Shl(1, bit)) != 0 {
        break;
      }
      ClearTopBit(Unsigned(v), bit);
      bit := bit - 1;
    }
    TopBit(Unsigned(v), bit);
  }

  /** A word is below 2^32. */
  lemma WordBound(v: Int32)
    ensures Unsigned(v) < Pow2(32)
  {
    Pow2Constants();
  }

  /** MIN_VALUE's magnitude 2^63 needs 64 bits. */
  lemma MinValueBits(v: int)
    requires v == -0x8000_0000_0000_0000
    ensures v != 0 && Pow2(64 - 1) <= Abs(v) < Pow2(64)
  {
    Pow2Constants();
  }

  /** Below 2^(b+1) with bit b clear means below 2^b. */
  lemma ClearTopBit(u: nat, b: nat)
    requires u < Pow2(b + 1) && !Bit(u, b)
    ensures u < Pow2(b)
  {
    var p := Pow2(b);
    assert Pow2(b + 1) == 2 * p;
    if u >= p {
      DivModUnique(u, p, 1, u - p);
    }
  }

  /** Where the search stops: at a set bit, or at bit 0; either way the bit found is the
      highest one, unless the word is zero. */
  lemma TopBit(u: nat, b: nat)
    requires u < Pow2(b + 1) && (b == 0 || Bit(u, b))
    ensures u == 0 ==> b == 0
    ensures u != 0 ==> Pow2(b) <= u
  {
    if b == 0 {
      assert Pow2(0) == 1;
    } else if u < Pow2(b) {
      DivModUnique(u, Pow2(b), 0, u);
    }
  }

  /** The bit found in `high` (counted past the 32 bits of `low`) or in `low` bounds the
      value the same way. */
  lemma ChosenWordBits(x: Long, v: Int32, b: nat)
    requires 0 <= Value(x) && b <= 31 && v == (if x.high != 0 then x.high else x.low)
    requires Unsigned(v) < Pow2(b + 1) && (Unsigned(v) == 0 ==> b == 0)
    requires Unsigned(v) != 0 ==> Pow2(b) <= Unsigned(v)
    ensures Value(x) == 0 ==> b == 0 && x.high == 0
    ensures x.high != 0 ==> Pow2(b + 32) <= Value(x) < Pow2(b + 33)
    ensures x.high == 0 && Value(x) != 0 ==> Pow2(b) <= Value(x) < Pow2(b + 1)
  {
    if x.high != 0 {
      Pow2Constants();
      Pow2Add(b, 32);
      Pow2Add(b + 1, 32);
      HighWordRange(x.high, Unsigned(x.low), Pow2(b), Pow2(b + 1));
    }
  }

  lemma HighWordRange(h: int, l: int, p: int, p': int)
    requires 0 < p <= h < p' && 0 <= l < 0x1_0000_0000
    ensures p * 0x1_0000_0000 <= h * 0x1_0000_0000 + l < p' * 0x1_0000_0000
  {
    MulLe(0x1_0000_0000, p, h);
    MulLe(0x1_0000_0000, h + 1, p');
  }

  /** The bit count is well defined: at most one r brackets a nonzero magnitude. */
  lemma BitCountUnique(v: nat, r: nat, r': nat)
    requires 1 <= r && 1 <= r' && v != 0
    requires Pow2(r - 1) <= v < Pow2(r) && Pow2(r' - 1) <= v < Pow2(r')
    ensures r == r'
  {
    if r < r' {
      Pow2Monotone(r, r' - 1);
    } else if r' < r {
      Pow2Monotone(r', r - 1);
    }
  }
}
