# kotlin.Long on a JavaScript host, in Dafny

This project models `kotlin.Long` as the Kotlin/JS runtime implements it, in
`libraries/stdlib/js/irRuntime/long.kt`. That file is a port of the Closure Library's
`goog.math.Long`. A Long is an immutable pair of 32-bit Kotlin `Int` words,
`Long(low, high)`. It stands for the 64-bit two's-complement integer
`high * 2^32 + unsigned(low)`, which is what `toNumber` computes.

Every operation is proved against that integer meaning:
- arithmetic is exact modulo 2^64, mapped into [-2^63, 2^63);
- `div` rounds toward zero and reports a zero divisor;
- shifts take their amount modulo 64;
- `toString` writes the shortest signed decimal numeral.

Modules:

- `Arith`: powers of two and ten, and Euclidean division facts.
- `Bits`: and/or/xor defined bit by bit on naturals of a given width.
- `Word32`: Kotlin `Int` as an `int` in [-2^31, 2^31). Its wrap-around, unsigned view,
  `shl`/`shr`/`ushr`, `and`/`or`/`xor`/`inv`, `+`/`*` and `toShort`/`toByte` are written out
  explicitly.
- `Truncated`: division rounded toward zero, which `div` and `modulo` follow.
- `Decimal`: the decimal numeral of a natural number, the reference for `toString`.
- `Longs`: the representation, and the operations that are single expressions:
  - constants, `fromInt`, `fromNumber` and the predicates;
  - `compare`, `negate`, `subtract`, `inc`/`dec`;
  - the bitwise operations, the shifts and the narrowing conversions.
- `LongArith`: the operations the source writes step by step over 16-bit chunks. These
  are `add` (both as written and corrected) and `multiply`, with `negate` and `subtract`
  run through `add`.
- `LongDivision`: `div` and `modulo`, covering the zero-divisor exception, the MIN_VALUE
  path, sign normalisation and the refining loop.
- `LongFormat`: `toString` and `getNumBitsAbs`, with their loops.

The operations the source writes with loops or mutable locals are methods. Each method's
`ensures` ties its result to the integer meaning. The operations that are single
expressions are functions with the same kind of contract. The Long datatype is a value,
as in the source; nothing is updated in place.

The source computes `negate`, `subtract` and `compare` through `add`. The functions in
`Longs` use `Sum`, the two's-complement sum that the corrected `LongArith.Add` is proved
to return. So they, and every operation built on them, model `add` with the error at
line 146 corrected (see Findings).

## Model

| member | source | states |
|---|---|---|
| Longs.Value | libraries/stdlib/js/irRuntime/long.kt:20-25 | the value `high * 2^32 + unsigned(low)` lies in [-2^63, 2^63) |
| Longs.ValueOfFromValue | libraries/stdlib/js/irRuntime/long.kt:20-21 | every integer, reduced modulo 2^64, is the value of some pair of words |
| Longs.FromValueOfValue | libraries/stdlib/js/irRuntime/long.kt:20-21 | a Long is determined by its value: re-encoding the value gives back the same words |
| Longs.ValueInjective | libraries/stdlib/js/irRuntime/long.kt:20-21 | two Longs with the same value have the same words |
| Longs.Unsigned64OfValue | libraries/stdlib/js/irRuntime/long.kt:20-25 | the unsigned 64-bit pattern is the value modulo 2^64, and the value is that pattern wrapped back to signed |
| Longs.FromInt | libraries/stdlib/js/irRuntime/long.kt:407-420 | `fromInt(v)` sign-extends: its value is v |
| Longs.IntRoundTrip | libraries/stdlib/js/irRuntime/long.kt:393 | `toInt(fromInt(v)) == v`, and `fromInt(toInt(x)) == x` exactly when x's value fits an Int |
| Longs.ConstantForms | libraries/stdlib/js/irRuntime/long.kt:513-517 | MAX_VALUE is `Long(-1, -1 ushr 1)`, MIN_VALUE is `Long(0, 1 shl 31)`, TWO_PWR_24_ is `fromInt(1 shl 24)` |
| Longs.MinValueValue | libraries/stdlib/js/irRuntime/long.kt:515 | MIN_VALUE is -2^63 |
| Longs.MaxValueValue | libraries/stdlib/js/irRuntime/long.kt:513 | MAX_VALUE is 2^63 - 1 |
| Longs.TwoPwr24Value | libraries/stdlib/js/irRuntime/long.kt:517 | TWO_PWR_24_ is 2^24 |
| Longs.FromNumber | libraries/stdlib/js/irRuntime/long.kt:428-443 | on an integral input: MIN_VALUE at or below -2^63, MAX_VALUE once `value + 1` reaches 2^63, otherwise the input itself |
| Longs.IsZero | libraries/stdlib/js/irRuntime/long.kt:104 | true exactly when the value is 0 |
| Longs.IsNegative | libraries/stdlib/js/irRuntime/long.kt:106 | true exactly when the value is below 0 |
| Longs.IsOdd | libraries/stdlib/js/irRuntime/long.kt:108 | true exactly when the value is odd |
| Longs.EqualsLong | libraries/stdlib/js/irRuntime/long.kt:110 | word-wise equality is equality of values |
| Longs.NotEqualsLong | libraries/stdlib/js/irRuntime/long.kt:112 | word-wise inequality is inequality of values |
| Longs.Compare | libraries/stdlib/js/irRuntime/long.kt:122-137 | 0, -1 or 1 exactly when the values are equal, below or above: `compare` is the integer order, hence total |
| Longs.SameSignDifference | libraries/stdlib/js/irRuntime/long.kt:133-134 | between operands of equal sign, `subtract` does not wrap, so its sign decides `compare` |
| Longs.LessThan | libraries/stdlib/js/irRuntime/long.kt:114 | `compare < 0` is `<` on values |
| Longs.LessThanOrEqual | libraries/stdlib/js/irRuntime/long.kt:116 | `compare <= 0` is `<=` on values |
| Longs.GreaterThan | libraries/stdlib/js/irRuntime/long.kt:118 | `compare > 0` is `>` on values |
| Longs.GreaterThanOrEqual | libraries/stdlib/js/irRuntime/long.kt:120 | `compare >= 0` is `>=` on values |
| Longs.Sum | libraries/stdlib/js/irRuntime/long.kt:141-170 | the result `add` is meant to return: the sum wrapped to 64 bits |
| Longs.Negate | libraries/stdlib/js/irRuntime/long.kt:139 | `-x` wrapped: MIN_VALUE for MIN_VALUE, exactly `-x` for every other x |
| Longs.NegationCases | libraries/stdlib/js/irRuntime/long.kt:139 | the MIN_VALUE case and `not().add(ONE)` together give `-x` wrapped |
| Longs.Subtract | libraries/stdlib/js/irRuntime/long.kt:172 | `add(other.negate())` is the difference wrapped to 64 bits |
| Longs.Inc | libraries/stdlib/js/irRuntime/long.kt:370 | `add(ONE)` is `x + 1` wrapped |
| Longs.Dec | libraries/stdlib/js/irRuntime/long.kt:372 | `add(NEG_ONE)` is `x - 1` wrapped |
| Longs.Not | libraries/stdlib/js/irRuntime/long.kt:321 | inverting both words gives `-x - 1` |
| Longs.WordWise | libraries/stdlib/js/irRuntime/long.kt:323-327 | applying a bitwise operation to each word applies it to the whole 64-bit pattern |
| Longs.And | libraries/stdlib/js/irRuntime/long.kt:323 | the pattern of the result is the bitwise and of the operands' 64-bit patterns |
| Longs.Or | libraries/stdlib/js/irRuntime/long.kt:325 | the pattern of the result is the bitwise or of the 64-bit patterns |
| Longs.Xor | libraries/stdlib/js/irRuntime/long.kt:327 | the pattern of the result is the bitwise xor of the 64-bit patterns |
| Longs.ShiftAmount | libraries/stdlib/js/irRuntime/long.kt:330 | `numBits and 63` is the amount modulo 64, negative amounts included |
| Longs.ShiftLeft | libraries/stdlib/js/irRuntime/long.kt:329-340 | the pattern times 2^(n mod 64) modulo 2^64; as a value, `x * 2^(n mod 64)` wrapped |
| Longs.ShiftLeftSpec | libraries/stdlib/js/irRuntime/long.kt:331-338 | each of the three branches (amount 0, below 32, 32 and above) multiplies by 2^n modulo 2^64 |
| Longs.ShiftRight | libraries/stdlib/js/irRuntime/long.kt:342-353 | the value divided by 2^(n mod 64), rounded toward minus infinity |
| Longs.ShiftRightSpec | libraries/stdlib/js/irRuntime/long.kt:344-351 | each of the three branches, the sign fill of the high word included, is that floor division |
| Longs.ShiftRightUnsigned | libraries/stdlib/js/irRuntime/long.kt:355-368 | the unsigned 64-bit pattern divided by 2^(n mod 64) |
| Longs.ShiftRightUnsignedSpec | libraries/stdlib/js/irRuntime/long.kt:357-366 | each of the four branches (0, below 32, exactly 32, above 32) is that division |
| Longs.ShiftByMultipleOf64 | libraries/stdlib/js/irRuntime/long.kt:330-332 | an amount that is a multiple of 64 returns the operand unchanged, for all three shifts |
| Longs.ToInt | libraries/stdlib/js/irRuntime/long.kt:393 | the low word is the value modulo 2^32 as a signed Int |
| Longs.ToShort | libraries/stdlib/js/irRuntime/long.kt:397 | a 16-bit signed number congruent to the value modulo 2^16 |
| Longs.ToByte | libraries/stdlib/js/irRuntime/long.kt:385 | an 8-bit signed number congruent to the value modulo 2^8 |
| LongArith.SplitChunks | libraries/stdlib/js/irRuntime/long.kt:205-213 | `ushr 16` and `and 0xFFFF` cut each word into two 16-bit chunks whose weighted sum is the unsigned pattern |
| LongArith.JoinChunks | libraries/stdlib/js/irRuntime/long.kt:239 | `c16 shl 16 or c00` and `c48 shl 16 or c32` put four chunks back into a Long with that pattern |
| LongArith.AddChunks | libraries/stdlib/js/irRuntime/long.kt:158-169 | the carry chain over four chunk columns yields the sum of the two patterns modulo 2^64 |
| LongArith.Carry | libraries/stdlib/js/irRuntime/long.kt:159-166 | `ushr 16` moves a column's carry up and `and 0xFFFF` keeps its low 16 bits |
| LongArith.Add | libraries/stdlib/js/irRuntime/long.kt:141-170 | `add` with `a16 = low ushr 16`: the two's-complement sum wrapped to 64 bits, equal to `Sum` |
| LongArith.AddAsWritten | libraries/stdlib/js/irRuntime/long.kt:141-170 | `add` with line 146 as written: the sum plus (top half of high minus top half of low) times 2^16, wrapped |
| LongArith.AsWrittenSumCorrect | libraries/stdlib/js/irRuntime/long.kt:146 | the as-written `add` returns the sum exactly when the two 16-bit halves it confuses are equal |
| LongArith.AsWrittenSumCounterexample | libraries/stdlib/js/irRuntime/long.kt:146 | `fromInt(2147483647).add(ONE)` should be 2^31 but comes out as 65536 |
| LongArith.Negation | libraries/stdlib/js/irRuntime/long.kt:139 | `negate` run through `add`: `-x` wrapped, exactly `-x` unless x is MIN_VALUE |
| LongArith.Difference | libraries/stdlib/js/irRuntime/long.kt:172 | `subtract` run through `negate` and `add`: the difference wrapped |
| LongArith.MultiplyChunks | libraries/stdlib/js/irRuntime/long.kt:202-239 | the ten 16-bit chunk products with their carries give the product of the patterns modulo 2^64 |
| LongArith.ProductColumns | libraries/stdlib/js/irRuntime/long.kt:219-238 | the column sums and carries, with the skipped products, agree with the full product modulo 2^64 |
| LongArith.TopColumn | libraries/stdlib/js/irRuntime/long.kt:237-238 | the top column, summed with 32-bit wrap-around and masked, is the exact column sum modulo 2^16 |
| LongArith.AddProduct | libraries/stdlib/js/irRuntime/long.kt:219-234 | a 16-by-16-bit product added to a column can exceed 2^31; its unsigned reading, which `ushr 16` takes, is exact |
| LongArith.Multiply | libraries/stdlib/js/irRuntime/long.kt:174-240 | `multiply`: the product wrapped to 64 bits |
| LongArith.MinValueByParity | libraries/stdlib/js/irRuntime/long.kt:181-185 | MIN_VALUE times an odd value is MIN_VALUE, times an even value ZERO |
| LongArith.MinValueProduct | libraries/stdlib/js/irRuntime/long.kt:181-185 | those two answers are the wrapped products, in either operand order |
| LongArith.MultiplyByParts | libraries/stdlib/js/irRuntime/long.kt:187-239 | sign normalisation, the small-operand path and the chunk products each give the wrapped product |
| LongArith.NegatedOperands | libraries/stdlib/js/irRuntime/long.kt:188-189 | multiplying the negations gives the same product |
| LongArith.NegatedLeft | libraries/stdlib/js/irRuntime/long.kt:191-194 | negating the product of a negated operand gives the product |
| LongArith.SmallCase | libraries/stdlib/js/irRuntime/long.kt:197-200 | operands below 2^24 multiply exactly and `fromNumber` returns that product |
| LongArith.ZeroProduct | libraries/stdlib/js/irRuntime/long.kt:175-179 | a zero operand gives ZERO |
| LongDivision.Div | libraries/stdlib/js/irRuntime/long.kt:242-317 | a zero divisor is the "division by zero" failure; otherwise the quotient rounded toward zero, wrapped (only MIN_VALUE / -1 wraps) |
| LongDivision.Modulo | libraries/stdlib/js/irRuntime/long.kt:319 | the failure for a zero divisor; otherwise the truncated remainder, below the divisor in magnitude |
| LongDivision.RemainderOfWrapped | libraries/stdlib/js/irRuntime/long.kt:319 | `a - div(a, b) * b` with 64-bit wrap-around is the truncated remainder, so `a == div * b + modulo` modulo 2^64 |
| LongDivision.Quotient | libraries/stdlib/js/irRuntime/long.kt:245-317 | `div` past the zero check: a zero dividend gives ZERO, and every other path the truncated quotient |
| LongDivision.NonzeroQuotient | libraries/stdlib/js/irRuntime/long.kt:249-277 | MIN_VALUE as dividend, MIN_VALUE as divisor and the signed rest all give the truncated quotient |
| LongDivision.MinValueQuotient | libraries/stdlib/js/irRuntime/long.kt:249-264 | MIN_VALUE / ±1 is MIN_VALUE, MIN_VALUE / MIN_VALUE is ONE, and the halving route is right for all other divisors |
| LongDivision.HalvingQuotient | libraries/stdlib/js/irRuntime/long.kt:255-257 | halving MIN_VALUE, dividing and doubling back, then correcting, gives the truncated quotient |
| LongDivision.EstimatedQuotient | libraries/stdlib/js/irRuntime/long.kt:258-263 | a zero estimate and a corrected nonzero estimate both give the truncated quotient |
| LongDivision.SignQuotient | libraries/stdlib/js/irRuntime/long.kt:258-259 | when the estimate is zero, the quotient is ONE for a negative divisor and NEG_ONE otherwise |
| LongDivision.CorrectedQuotient | libraries/stdlib/js/irRuntime/long.kt:260-262 | the estimate plus the quotient of the remainder `this - other * approx` is the truncated quotient |
| LongDivision.SignedQuotient | libraries/stdlib/js/irRuntime/long.kt:269-277 | dividing negated operands, and negating where the signs differ, gives the truncated quotient |
| LongDivision.PositiveQuotient | libraries/stdlib/js/irRuntime/long.kt:284-316 | from res = ZERO and rem = this, the loop returns the floor quotient of non-negative operands |
| LongDivision.Accumulate | libraries/stdlib/js/irRuntime/long.kt:284-316 | the loop keeps `res * other + rem == this`, `res >= 0`, `rem >= 0`; it ends with `rem < other` and `res` is the quotient |
| LongDivision.Refine | libraries/stdlib/js/irRuntime/long.kt:287-314 | one pass keeps `res * other + rem == this` and strictly lowers `rem` while keeping it non-negative |
| LongDivision.EstimateRange | libraries/stdlib/js/irRuntime/long.kt:289-290 | while `rem >= other` there is an estimate in [1, rem / other] to choose |
| LongDivision.EstimateStep | libraries/stdlib/js/irRuntime/long.kt:299-314 | an estimate in [1, rem / other] needs no 64-bit wrap in `add` and `subtract`, keeps the invariant and lowers `rem` |
| LongDivision.UnitDivisor | libraries/stdlib/js/irRuntime/long.kt:250-251 | MIN_VALUE / 1 and MIN_VALUE / -1 wrapped are MIN_VALUE |
| LongDivision.SelfQuotient | libraries/stdlib/js/irRuntime/long.kt:252-253 | MIN_VALUE / MIN_VALUE is 1 |
| LongDivision.MinValueDivisor | libraries/stdlib/js/irRuntime/long.kt:265-266 | any other value divided by MIN_VALUE truncates to 0 |
| LongDivision.ZeroDividend | libraries/stdlib/js/irRuntime/long.kt:245-246 | 0 divided by anything nonzero is 0 |
| LongDivision.NegatedQuotient | libraries/stdlib/js/irRuntime/long.kt:269-276 | truncated division commutes with negating either or both operands |
| LongDivision.HalfQuotient | libraries/stdlib/js/irRuntime/long.kt:256-257 | `(MIN_VALUE shr 1).div(other) shl 1` is exactly twice the truncated quotient of -2^62 |
| LongDivision.ApproxZero | libraries/stdlib/js/irRuntime/long.kt:258-259 | a zero estimate means the divisor exceeds 2^62 in magnitude, so the quotient is 1 or -1 against its sign |
| LongDivision.ApproxRemainder | libraries/stdlib/js/irRuntime/long.kt:261 | `this.subtract(other.multiply(approx))` does not wrap and lies in (-2^63, 0] |
| LongDivision.ApproxCorrection | libraries/stdlib/js/irRuntime/long.kt:262 | `approx.add(rem.div(other))` is the truncated quotient of MIN_VALUE |
| Truncated.TruncDivUnique | libraries/stdlib/js/irRuntime/long.kt:242-317 | the truncated quotient and remainder are the unique pair with remainder smaller than the divisor and of the dividend's sign |
| Truncated.RemainderBounds | libraries/stdlib/js/irRuntime/long.kt:319 | the truncated remainder is smaller than the divisor in magnitude and has the dividend's sign |
| Truncated.TruncDivSigns | libraries/stdlib/js/irRuntime/long.kt:269-276 | negating the dividend or the divisor negates the quotient; negating both keeps it |
| Truncated.TruncDivSplit | libraries/stdlib/js/irRuntime/long.kt:261-262 | taking k multiples of the divisor out first adds k to the quotient, if the dividend keeps its sign |
| Decimal.ParseDecimal | libraries/stdlib/js/irRuntime/long.kt:31-76 | the reference numeral reads back as the number it was written for |
| Decimal.DecimalLeadingDigit | libraries/stdlib/js/irRuntime/long.kt:31-76 | the reference numeral has no leading zero, except for 0 itself |
| Decimal.DecimalDigits | libraries/stdlib/js/irRuntime/long.kt:31-76 | the reference numeral consists of decimal digits only |
| Decimal.DecimalChunk | libraries/stdlib/js/irRuntime/long.kt:67-73 | the numeral of `q * 10^k + c` is q's numeral followed by c padded to k digits |
| Decimal.PadDecimal | libraries/stdlib/js/irRuntime/long.kt:70-72 | zeros before c's numeral up to k characters give c's k-digit form |
| LongFormat.ToString | libraries/stdlib/js/irRuntime/long.kt:31-76 | `toString` is the signed decimal numeral of the value: "0", a minus sign before the magnitude's digits, or the digits |
| LongFormat.MinValueToString | libraries/stdlib/js/irRuntime/long.kt:43-49 | `div`, `multiply`, `subtract` and `toInt` give the numeral of MIN_VALUE / 10 followed by the digit 8, which is "-9223372036854775808" |
| LongFormat.MinValueDigits | libraries/stdlib/js/irRuntime/long.kt:46-49 | MIN_VALUE / 10 is -922337203685477580, the recovered remainder is 8, and the two numerals together are that of -2^63 |
| LongFormat.PositiveToString | libraries/stdlib/js/irRuntime/long.kt:57-75 | the loop keeps `numeral(this) == numeral(rem) + result` with rem positive, and returns the numeral of the value |
| LongFormat.Round | libraries/stdlib/js/irRuntime/long.kt:62-73 | one pass lowers rem to rem / 10^6; the digits it writes, padded unless they lead, extend the numeral |
| LongFormat.SplitChunk | libraries/stdlib/js/irRuntime/long.kt:62-63 | `div` and `subtract(remDiv.multiply(..)).toInt()` give quotient and remainder by 10^6, the remainder within [0, 10^6) |
| LongFormat.ChunkValues | libraries/stdlib/js/irRuntime/long.kt:62-63 | the wrapped quotient, product, difference and low word are floor quotient and remainder for a positive value |
| LongFormat.ChunkDigits | libraries/stdlib/js/irRuntime/long.kt:64-73 | a chunk's digits are at most six; alone they are the numeral when the quotient is zero, padded after the quotient's numeral otherwise |
| LongFormat.PadDigits | libraries/stdlib/js/irRuntime/long.kt:70-72 | prepending "0" while shorter than six yields the digits preceded by `6 - length` zeros |
| LongFormat.Prepend | libraries/stdlib/js/irRuntime/long.kt:68-73 | digits written in front of the result keep it a suffix of the whole numeral |
| LongFormat.GetNumBitsAbs | libraries/stdlib/js/irRuntime/long.kt:84-102 | a result r in [1, 64] with 2^(r-1) <= abs(x) < 2^r, 64 for MIN_VALUE, and 1 for zero |
| LongFormat.NonNegativeBits | libraries/stdlib/js/irRuntime/long.kt:91-100 | for a non-negative value, the scan of `high` (counted past 32 bits) or of `low` brackets the value between consecutive powers of two |
| LongFormat.HighestBit | libraries/stdlib/js/irRuntime/long.kt:93-99 | the downward scan stops at the highest set bit of the word, or at bit 0 when none is set |
| LongFormat.ChosenWordBits | libraries/stdlib/js/irRuntime/long.kt:92-100 | the highest bit of `high` plus 33, or of `low` plus 1, is the bit count of the whole value |
| LongFormat.MinValueBits | libraries/stdlib/js/irRuntime/long.kt:86-87 | 64 brackets the magnitude 2^63 of MIN_VALUE |
| LongFormat.BitCountUnique | libraries/stdlib/js/irRuntime/long.kt:84-102 | at most one count brackets a nonzero magnitude, so `getNumBitsAbs` is determined |
| Word32.TestBit | libraries/stdlib/js/irRuntime/long.kt:95 | `v and (1 shl bit) != 0` holds exactly when bit `bit` of the word's pattern is set |

## Left out

- `fromNumber` is modelled on integral inputs only. NaN and infinities, which give ZERO, and
  the IEEE double arithmetic of `value % twoPwr32 | 0` have no counterpart without floating
  point. The fast path of `multiply` (products of operands below 2^24) goes through it on
  an exact integer product.
- `toNumber`, `toDouble`, `toFloat`, `valueOf` and `getLowBitsUnsigned` are floating point.
  The exact integer `Value` stands in for them.
- `div`'s floating-point estimate is a choice, left open, of an estimate in [1, rem / other].
  This covers `rem.toNumber() / other.toNumber()`, `Math.floor`, `Math.log`, `Math.pow`,
  `delta`, and the inner loop that lowers the estimate until its product fits. The model
  proves that any such estimate keeps the loop correct and terminating. It does not model
  how the doubles reach one.
- LongDivision.Div: the exception `div` throws is the `Failure("division by zero")` result.
- LongFormat.ToString: the radix is fixed at 10 in the source, so the radix range check
  is unreachable and is not modelled. The `js(...)` renderings of a small non-negative
  `Int` and of a quotient Long (`intval.toString(radix)`, `div.toString(radix) +
  rem.toString(radix)`) are the decimal numeral `SignedDecimal`. `Math.pow(radix, 6)` is
  the constant 1000000.
- LongFormat.GetNumBitsAbs returns 1 for zero, as the code does: the scan stops at bit 0
  and returns `bit + 1`.
- Longs.Compare, Longs.LessThan, Longs.LessThanOrEqual, Longs.GreaterThan,
  Longs.GreaterThanOrEqual, Longs.Negate, Longs.Subtract, Longs.Inc, Longs.Dec,
  LongArith.Negation, LongArith.Difference, LongArith.Multiply, LongDivision.Div,
  LongDivision.Modulo, LongFormat.ToString and LongFormat.GetNumBitsAbs are modelled on
  `add` with line 146 corrected (`Sum`, or LongArith.Add), as the Findings table records.
  The program as written inherits the error of that line in each of them. For example,
  `fromInt(65536).compare(fromInt(1))` subtracts through `Long(65536, 0).add(NEG_ONE)`, which
  as written gives `Long(-1, -1)`. So compare returns -1, and `fromInt(65536) > fromInt(1)`
  is false. Their contracts state what the corrected program does.
- The source's `approx.equalsLong(ZERO)` is written as `IsZero(approx)`; the two are the
  same test by their contracts.
- `hashCode`, `equals(Any?)`, `toChar`, `toLong`, `unaryPlus`, `unaryMinus`, `inv`, `plus`
  and the other operator aliases are not modelled; each is a one-line alias of a modelled
  operation.
- The commented-out `fromString` and `intCache` are not modelled.
- A Long is a value here, so "returns `this`" (a zero shift amount) is equality of words,
  not object identity.

## Findings

| source | as written | input that shows it | evidently intended | confidence | as-written member | corrected member |
|---|---|---|---|---|---|---|
| libraries/stdlib/js/irRuntime/long.kt:146 | `val a16 = high ushr 16`: the chunk at weight 2^16 is taken from the high word | `fromInt(2147483647).add(ONE)` gives 65536 instead of 2147483648 | `val a16 = low ushr 16`, as in `multiply` at line 207 and in the `b16` line 151 | not executed | LongArith.AddAsWritten, LongArith.AsWrittenSumCounterexample | LongArith.Add |
