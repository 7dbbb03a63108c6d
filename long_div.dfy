/** `Long.div` and `Long.modulo`: truncated division, by sign normalisation, a separate
    path for MIN_VALUE (whose negation overflows), and for non-negative operands a loop
    that takes approximate multiples of the divisor out of the remainder. */
module LongDivision {
  import opened Arith
  import opened Longs
  import opened LongArith
  import opened Truncated

  datatype Result<T> = Success(value: T) | Failure(error: string)

  /** The message of the exception `div` throws for a zero divisor. */
  const DivisionByZero: string := "division by zero"

  /** `div`: the exception for a zero divisor, otherwise the quotient rounded toward zero,
      wrapped to 64 bits (only MIN_VALUE / -1 wraps). */
  method Div(a: Long, b: Long) returns (r: Result<Long>)
    ensures Value(b) == 0 ==> r == Failure(DivisionByZero)
    ensures Value(b) != 0 ==> r.Success? && Value(r.value) == Wrap64(TruncDiv(Value(a), Value(b)))
  {
    if IsZero(b) {
      return Failure(DivisionByZero);
    }
    var q := Quotient(a, b);
    r := Success(q);
  }

  /** `modulo`: `subtract(div(other).multiply(other))`, the remainder of truncated
      division, which keeps the dividend's sign; `div`'s exception passes through. */
  method Modulo(a: Long, b: Long) returns (r: Result<Long>)
    ensures Value(b) == 0 ==> r == Failure(DivisionByZero)
    ensures Value(b) != 0 ==> r.Success? && Value(r.value) == TruncRem(Value(a), Value(b))
    ensures Value(b) != 0 ==> r.Success? && Abs(Value(r.value)) < Abs(Value(b))
  {
    var q := Div(a, b);
    if q.Failure? {
      return Failure(q.error);
    }
    var p := Multiply(q.value, b);
    var m := Difference(a, p);
    RemainderOfWrapped(Value(a), Value(b), Value(q.value), Value(p), Value(m));
    return Success(m);
  }

  /** Which part of `div` a dividend and divisor reach: MinValue's own path, the sign
      normalisation, or the loop. Each recursive call reaches a lower one. */
  function Stage(x: int, y: int): nat {
    if x == -0x8000_0000_0000_0000 then 2 else if x < 0 || y < 0 then 1 else 0
  }

  /** The body of `div` past the zero-divisor check: a zero dividend gives ZERO. */
  method Quotient(a: Long, b: Long) returns (q: Long)
    requires Value(b) != 0
    ensures Value(q) == Wrap64(TruncDiv(Value(a), Value(b)))
    decreases Stage(Value(a), Value(b)), 5
  {
    if IsZero(a) {
      assert Value(Zero) == 0;
      ZeroDividend(Value(a), Value(b), Value(Zero));
      return Zero;
    }
    q := NonzeroQuotient(a, b);
  }

  /** A nonzero dividend: MinValue as dividend takes its own path, MinValue as divisor
      gives ZERO, and the rest goes by sign. */
  method NonzeroQuotient(a: Long, b: Long) returns (q: Long)
    requires Value(a) != 0 && Value(b) != 0
    ensures Value(q) == Wrap64(TruncDiv(Value(a), Value(b)))
    decreases Stage(Value(a), Value(b)), 4
  {
    MinValueValue();
    if EqualsLong(a, MinValue) {
      q := MinValueQuotient(a, b);
      return;
    }
    if EqualsLong(b, MinValue) {
      assert Value(Zero) == 0;
      MinValueDivisor(Value(a), Value(b), Value(Zero));
      return Zero;
    }
    q := SignedQuotient(a, b);
  }

  /** MinValue divided by 1 or -1 is MinValue, divided by itself ONE, and otherwise goes
      the halving route, since MinValue cannot be negated. */
  method MinValueQuotient(a: Long, b: Long) returns (q: Long)
    requires Value(a) == -0x8000_0000_0000_0000 && Value(b) != 0
    ensures Value(q) == Wrap64(TruncDiv(Value(a), Value(b)))
    decreases 2, 3
  {
    MinValueValue();
    if EqualsLong(b, One) || EqualsLong(b, NegOne) {
      UnitDivisor(Value(a), Value(b), Value(MinValue));
      return MinValue;
    }
    if EqualsLong(b, MinValue) {
      assert Value(One) == 1;
      SelfQuotient(Value(a), Value(b), Value(One));
      return One;
    }
    q := HalvingQuotient(a, b);
  }

  /** MinValue over a divisor of magnitude 2 up to 2^63 - 1: half of MinValue is divided
      and the quotient doubled, giving an estimate. */
  method HalvingQuotient(a: Long, b: Long) returns (q: Long)
    requires Value(a) == -0x8000_0000_0000_0000 && WideDivisor(Value(b))
    ensures Value(q) == Wrap64(TruncDiv(Value(a), Value(b)))
    decreases 2, 2
  {
    var halfThis := ShiftRight(a, 1);
    HalvedMinValue(Value(a), Value(halfThis));
    var half := Quotient(halfThis, b);
    var approx := ShiftLeft(half, 1);
    HalfQuotient(Value(b), Value(half), Value(approx));
    q := EstimatedQuotient(a, b, approx);
  }

  /** A zero estimate means the quotient is 1 or -1 against the divisor's sign; otherwise
      the estimate is corrected. */
  method EstimatedQuotient(a: Long, b: Long, approx: Long) returns (q: Long)
    requires Value(a) == -0x8000_0000_0000_0000 && WideDivisor(Value(b))
    requires Value(approx) == 2 * TruncDiv(-0x4000_0000_0000_0000, Value(b))
    ensures Value(q) == Wrap64(TruncDiv(Value(a), Value(b)))
    decreases 2, 1
  {
    // `approx.equalsLong(ZERO)`, the same test as IsZero.
    if IsZero(approx) {
      q := SignQuotient(a, b, approx);
      return;
    }
    q := CorrectedQuotient(a, b, approx);
  }

  /** The zero estimate: ONE for a negative divisor, NEG_ONE for a positive one. */
  method SignQuotient(a: Long, b: Long, approx: Long) returns (q: Long)
    requires Value(a) == -0x8000_0000_0000_0000 && WideDivisor(Value(b))
    requires Value(approx) == 2 * TruncDiv(-0x4000_0000_0000_0000, Value(b)) && Value(approx) == 0
    ensures Value(q) == Wrap64(TruncDiv(Value(a), Value(b)))
  {
    if IsNegative(b) {
      assert Value(One) == 1;
      ApproxZero(Value(a), Value(b), Value(approx), Value(One));
      return One;
    }
    assert Value(NegOne) == -1;
    ApproxZero(Value(a), Value(b), Value(approx), Value(NegOne));
    return NegOne;
  }

  /** MinValue minus divisor times estimate lies in (MinValue, 0]; its quotient added to
      the estimate is the quotient. */
  method CorrectedQuotient(a: Long, b: Long, approx: Long) returns (q: Long)
    requires Value(a) == -0x8000_0000_0000_0000 && WideDivisor(Value(b))
    requires Value(approx) == 2 * TruncDiv(-0x4000_0000_0000_0000, Value(b)) && Value(approx) != 0
    ensures Value(q) == Wrap64(TruncDiv(Value(a), Value(b)))
    decreases 2, 0
  {
    var p := Multiply(b, approx);
    var rem := Difference(a, p);
    ApproxRemainder(Value(b), Value(approx), Value(p), Value(rem));
    var d := Quotient(rem, b);
    q := Add(approx, d);
    ApproxCorrection(Value(b), Value(approx), Value(rem), Value(d), Value(q));
  }

  /** Operands other than zero and MinValue: negative ones are negated (and the quotient
      negated back when exactly one was), non-negative ones go to the loop. */
  method SignedQuotient(a: Long, b: Long) returns (q: Long)
    requires Value(a) != 0 && Value(b) != 0
    requires Value(a) != -0x8000_0000_0000_0000 && Value(b) != -0x8000_0000_0000_0000
    ensures Value(q) == Wrap64(TruncDiv(Value(a), Value(b)))
    decreases Stage(Value(a), Value(b)), 2
  {
    if IsNegative(a) {
      var na := Negation(a);
      if IsNegative(b) {
        var nb := Negation(b);
        q := Quotient(na, nb);
        TruncDivSigns(Value(a), Value(b));
        return;
      }
      var d := Quotient(na, b);
      q := Negation(d);
      NegatedQuotient(Value(a), Value(b), -Value(a), Value(b), Value(d), Value(q));
      return;
    }
    if IsNegative(b) {
      var nb := Negation(b);
      var d := Quotient(a, nb);
      q := Negation(d);
      NegatedQuotient(Value(a), Value(b), Value(a), -Value(b), Value(d), Value(q));
      return;
    }
    q := PositiveQuotient(a, b);
    PositiveTruncDiv(Value(a), Value(b), Value(q));
  }

  /** The loop of `div`, for a non-negative dividend and a positive divisor: the result
      starts at ZERO and the remainder at the dividend. */
  method PositiveQuotient(a: Long, b: Long) returns (res: Long)
    requires Value(a) >= 0 && Value(b) > 0
    ensures Value(res) == Value(a) / Value(b)
  {
    assert Value(Zero) == 0;
    ZeroStart(Value(a), Value(b), Value(Zero));
    res := Accumulate(a, b, Zero, a);
  }

  /** While the remainder is at least the divisor, an estimate of their quotient is added
      to the result and its multiple of the divisor taken from the remainder. */
  method Accumulate(a: Long, b: Long, res0: Long, rem0: Long) returns (res: Long)
    requires 0 < Value(b) && 0 <= Value(res0) && 0 <= Value(rem0)
    requires Value(res0) * Value(b) + Value(rem0) == Value(a)
    ensures 0 <= Value(res) && Value(res) == Value(a) / Value(b)
  {
    res := res0;
    var rem := rem0;
    while GreaterThanOrEqual(rem, b)
      invariant 0 <= Value(res) && 0 <= Value(rem)
      invariant Value(res) * Value(b) + Value(rem) == Value(a)
      decreases Value(rem)
    {
      res, rem := Refine(a, b, res, rem);
    }
    DivModUnique(Value(a), Value(b), Value(res), Value(rem));
  }

  /** One pass of the loop: an estimate of rem / b is added to the result and its multiple
      of b taken from the remainder. */
  method Refine(a: Long, b: Long, res: Long, rem: Long) returns (res': Long, rem': Long)
    requires 0 < Value(b) <= Value(rem) && 0 <= Value(res)
    requires Value(res) * Value(b) + Value(rem) == Value(a)
    ensures 0 <= Value(res') && 0 <= Value(rem') < Value(rem)
    ensures Value(res') * Value(b) + Value(rem') == Value(a)
  {
    // The floating-point estimate, corrected downward until its multiple of the
    // divisor fits in the remainder: at least one, at most the true quotient.
    EstimateRange(Value(rem), Value(b));
    var approx :| 1 <= approx <= Value(rem) / Value(b);
    var approxRes := FromNumber(approx);
    assert Value(approxRes) == approx;
    var approxRem := Multiply(approxRes, b);
    if IsZero(approxRes) {
      approxRes := One;
    }
    res' := Add(res, approxRes);
    rem' := Difference(rem, approxRem);
    EstimateStep(Value(a), Value(b), Value(res), Value(rem), approx, Value(approxRem), Value(res'), Value(rem'));
  }

  // The steps of `div`, each stated on the values involved.

  /** A divisor other than 0, 1, -1 and MinValue: the ones the halving route of
      MinValue meets. */
  predicate WideDivisor(y: int) {
    -0x8000_0000_0000_0000 < y < 0x8000_0000_0000_0000 && y != -1 && y != 0 && y != 1
  }

  /** Zero divided by anything nonzero is zero. */
  lemma ZeroDividend(x: int, y: int, q: int)
    requires x == 0 && y != 0 && q == 0
    ensures q == Wrap64(TruncDiv(x, y))
  {
    TruncDivSmall(x, y);
    Wrap64InRange(0);
  }

  /** Anything but MinValue divided by MinValue is zero. */
  lemma MinValueDivisor(x: int, y: int, q: int)
    requires -0x8000_0000_0000_0000 < x < 0x8000_0000_0000_0000
    requires y == -0x8000_0000_0000_0000 && q == 0
    ensures q == Wrap64(TruncDiv(x, y))
  {
    TruncDivSmall(x, y);
    Wrap64InRange(0);
  }

  /** MinValue divided by 1 or -1 is MinValue (the latter wrapping around). */
  lemma UnitDivisor(x: int, y: int, q: int)
    requires x == q == -0x8000_0000_0000_0000 && (y == 1 || y == -1)
    ensures q == Wrap64(TruncDiv(x, y))
  {
    Wrap64Limits();
  }

  /** MinValue divided by itself is one. */
  lemma SelfQuotient(x: int, y: int, q: int)
    requires x == y == -0x8000_0000_0000_0000 && q == 1
    ensures q == Wrap64(TruncDiv(x, y))
  {
    TruncDivUnique(x, y, 1, 0);
    Wrap64InRange(1);
  }

  /** Negating the quotient of a negated operand gives the quotient. */
  lemma NegatedQuotient(x: int, y: int, x': int, y': int, d: int, q: int)
    requires y != 0 && -0x8000_0000_0000_0000 < x < 0x8000_0000_0000_0000
    requires (x' == -x && y' == y) || (x' == x && y' == -y)
    requires d == Wrap64(TruncDiv(x', y')) && q == Wrap64(-d)
    ensures q == Wrap64(TruncDiv(x, y))
  {
    TruncDivSigns(x, y);
    Wrap64InRange(TruncDiv(x', y'));
    Wrap64InRange(-d);
    Wrap64InRange(TruncDiv(x, y));
  }

  /** A shift by one multiplies or divides by two. */
  lemma ShiftByOne()
    ensures Pow2(1 % 64) == 2
  {
    DivModUnique(1, 64, 0, 1);
    assert Pow2(1) == 2;
  }

  /** MinValue shifted right by one is -2^62. */
  lemma HalvedMinValue(x: int, h: int)
    requires x == -0x8000_0000_0000_0000 && h == x / Pow2(1 % 64)
    ensures h == -0x4000_0000_0000_0000
  {
    ShiftByOne();
    DivModUnique(x, 2, -0x4000_0000_0000_0000, 0);
  }

  /** The halved quotient and its double (a left shift by one) do not wrap. */
  lemma HalfQuotient(y: int, h: int, approx: int)
    requires WideDivisor(y) && h == Wrap64(TruncDiv(-0x4000_0000_0000_0000, y))
    requires approx == Wrap64(h * Pow2(1 % 64))
    ensures h == TruncDiv(-0x4000_0000_0000_0000, y) && approx == 2 * h
  {
    ShiftByOne();
    TruncDivHalves(-0x4000_0000_0000_0000, y);
    Wrap64InRange(TruncDiv(-0x4000_0000_0000_0000, y));
    Wrap64InRange(h * 2);
  }

  /** A zero halved quotient means the divisor exceeds 2^62, so MinValue divided by it
      is -1 or 1 against the divisor's sign. */
  lemma ApproxZero(x: int, y: int, approx: int, q: int)
    requires x == -0x8000_0000_0000_0000 && WideDivisor(y)
    requires approx == 2 * TruncDiv(-0x4000_0000_0000_0000, y) && approx == 0
    requires q == if y < 0 then 1 else -1
    ensures q == Wrap64(TruncDiv(x, y))
  {
    LargeDivisor(y);
    if y < 0 {
      TruncDivUnique(x, y, 1, x - y);
    } else {
      TruncDivUnique(x, y, -1, x + y);
    }
    Wrap64InRange(q);
  }

  /** A zero quotient of -2^62 means the divisor exceeds 2^62 in magnitude. */
  lemma LargeDivisor(y: int)
    requires y != 0 && TruncDiv(-0x4000_0000_0000_0000, y) == 0
    ensures 0x4000_0000_0000_0000 < Abs(y)
  {
    var m := Abs(-0x4000_0000_0000_0000);
    assert m / Abs(y) == 0;
    assert m == Abs(y) * (m / Abs(y)) + m % Abs(y);
  }

  /** With a nonzero halved quotient, the doubled estimate times the divisor lies in
      [-2^63, 0) and leaves a remainder in (-2^63, 0]: neither wraps. */
  lemma ApproxRemainder(y: int, approx: int, p: int, rem: int)
    requires WideDivisor(y)
    requires approx == 2 * TruncDiv(-0x4000_0000_0000_0000, y) && approx != 0
    requires p == Wrap64(y * approx) && rem == Wrap64(-0x8000_0000_0000_0000 - p)
    ensures p == y * approx && rem == -0x8000_0000_0000_0000 - y * approx
    ensures -0x8000_0000_0000_0000 < rem <= 0
  {
    var h := TruncDiv(-0x4000_0000_0000_0000, y);
    var r := TruncRem(-0x4000_0000_0000_0000, y);
    RemainderBounds(-0x4000_0000_0000_0000, y);
    if Abs(y) > 0x4000_0000_0000_0000 {
      TruncDivSmall(-0x4000_0000_0000_0000, y);
    }
    HalvedProduct(y, h, r, approx);
    Wrap64InRange(y * approx);
    Wrap64InRange(-0x8000_0000_0000_0000 - p);
  }

  lemma HalvedProduct(y: int, h: int, r: int, approx: int)
    requires 2 <= Abs(y) <= 0x4000_0000_0000_0000 && h != 0 && approx == 2 * h
    requires -0x4000_0000_0000_0000 == y * h + r && Abs(r) < Abs(y) && r <= 0
    ensures -0x8000_0000_0000_0000 <= y * approx < 0
    ensures -0x8000_0000_0000_0000 - y * approx == 2 * r
  {
    assert y * approx == 2 * (y * h);
  }

  /** The doubled estimate plus the quotient of what it leaves is the quotient. */
  lemma ApproxCorrection(y: int, approx: int, rem: int, d: int, q: int)
    requires WideDivisor(y)
    requires rem == -0x8000_0000_0000_0000 - y * approx && -0x8000_0000_0000_0000 < rem <= 0
    requires d == Wrap64(TruncDiv(rem, y)) && q == Wrap64(approx + d)
    ensures q == Wrap64(TruncDiv(-0x8000_0000_0000_0000, y))
  {
    Wrap64InRange(TruncDiv(rem, y));
    TruncDivSplit(-0x8000_0000_0000_0000, y, approx);
  }

  /** The loop starts from result zero and the whole dividend as remainder. */
  lemma ZeroStart(a: int, b: int, z: int)
    requires z == 0
    ensures z * b + a == a
  {
  }

  /** While the remainder is at least the divisor, the true quotient is at least one
      and at most the remainder. */
  lemma EstimateRange(rem: int, b: int)
    requires 0 < b <= rem
    ensures 1 <= rem / b <= rem
  {
    DivNonNeg(rem - b, b);
    DivAddMul(1, rem - b, b);
    DivNonNeg(rem, b);
  }

  /** For a non-negative dividend and positive divisor, truncated division is Euclidean. */
  lemma PositiveTruncDiv(a: int, b: int, res: int)
    requires 0 <= a < 0x8000_0000_0000_0000 && 0 < b && res == a / b
    ensures res == Wrap64(TruncDiv(a, b))
  {
    DivNonNeg(a, b);
    Wrap64InRange(a / b);
  }

  /** One iteration of the loop keeps `res * b + rem == a` and shrinks the remainder. */
  lemma EstimateStep(a: int, b: int, res: int, rem: int, approx: int, approxRem: int,
                     res': int, rem': int)
    requires 0 < b && 0 <= res && b <= rem && res * b + rem == a && a < 0x8000_0000_0000_0000
    requires 1 <= approx <= rem / b && approxRem == Wrap64(approx * b)
    requires res' == Wrap64(res + approx) && rem' == Wrap64(rem - approxRem)
    ensures 0 <= res' && 0 <= rem' < rem && res' * b + rem' == a
  {
    var p, t, n := res * b, approx * b, (res + approx) * b;
    EstimateFits(b, rem, approx, t);
    MulLe(b, 0, res);
    assert n == p + t;
    AtMostProduct(res + approx, b, n);
    StepLinear(a, b, res, rem, approx, approxRem, res', rem', p, t, n);
  }

  /** EstimateStep with the products res * b, approx * b and (res + approx) * b named. */
  lemma StepLinear(a: int, b: int, res: int, rem: int, approx: int, approxRem: int,
                   res': int, rem': int, p: int, t: int, n: int)
    requires 0 < b && 0 <= res && b <= rem && 0 <= p && p + rem == a && a < 0x8000_0000_0000_0000
    requires 1 <= approx && b <= t <= rem && n == p + t && res + approx <= n
    requires approxRem == Wrap64(t)
    requires res' == Wrap64(res + approx) && rem' == Wrap64(rem - approxRem)
    ensures res' == res + approx && 0 <= rem' < rem && n + rem' == a
  {
    Wrap64InRange(t);
    Wrap64InRange(res + approx);
    Wrap64InRange(rem - t);
  }

  /** An estimate between one and rem / b takes between b and rem from the remainder. */
  lemma EstimateFits(b: int, rem: int, approx: int, t: int)
    requires 0 < b && 0 <= rem && 1 <= approx <= rem / b && t == approx * b
    ensures b <= t <= rem
  {
    MulLe(b, approx, rem / b);
    MulLe(b, 1, approx);
    assert rem == b * (rem / b) + rem % b;
  }

  lemma AtMostProduct(n: int, b: int, p: int)
    requires 0 <= n && 1 <= b && p == n * b
    ensures n <= p
  {
    MulLe(n, 1, b);
  }

  /** `modulo` through the wrapped quotient and product is still the remainder. */
  lemma RemainderOfWrapped(x: int, y: int, q: int, p: int, m: int)
    requires y != 0 && -0x8000_0000_0000_0000 <= x < 0x8000_0000_0000_0000
    requires -0x8000_0000_0000_0000 <= y < 0x8000_0000_0000_0000
    requires q == Wrap64(TruncDiv(x, y)) && p == Wrap64(q * y) && m == Wrap64(x - p)
    ensures m == TruncRem(x, y) && Abs(m) < Abs(y)
  {
    var t := TruncDiv(x, y);
    Wrap64Times(t, y);
    Wrap64Minus(x, t * y);
    RemainderBounds(x, y);
    Wrap64InRange(TruncRem(x, y));
  }

  /** Wrapping a factor before multiplying changes nothing after the final wrap. */
  lemma Wrap64Times(t: int, y: int)
    ensures Wrap64(Wrap64(t) * y) == Wrap64(t * y)
  {
    var k := (Wrap64(t) - t) / 0x1_0000_0000_0000_0000;
    assert Wrap64(t) - t == k * 0x1_0000_0000_0000_0000;
    assert Wrap64(t) * y == t * y + (k * y) * 0x1_0000_0000_0000_0000;
    Wrap64Shift(t * y, k * y);
  }

  /** Wrapping the subtrahend changes nothing after the final wrap. */
  lemma Wrap64Minus(x: int, c: int)
    ensures Wrap64(x - Wrap64(c)) == Wrap64(x - c)
  {
    var k := (c - Wrap64(c)) / 0x1_0000_0000_0000_0000;
    assert c - Wrap64(c) == k * 0x1_0000_0000_0000_0000;
    Wrap64Shift(x - c, k);
  }
}
