/** Decimal rendering of integers: the reference that `Long.toString` is proved
    against, and the host's rendering of a small non-negative `Int`. */
module Decimal {
  import opened Arith

  function DigitChar(d: int): (c: char)
    requires 0 <= d < 10
    ensures '0' <= c <= '9'
  {
    (d + 48) as char
  }

  function DigitValue(c: char): int
  {
    c as int - 48
  }

  predicate IsDigits(s: string) {
    forall i :: 0 <= i < |s| ==> '0' <= s[i] <= '9'
  }

  /** The shortest decimal numeral of n, most significant digit first. */
  function Decimal(n: nat): (s: string)
    ensures 1 <= |s|
    decreases n
  {
    if n < 10 then [DigitChar(n)] else Decimal(n / 10) + [DigitChar(n % 10)]
  }

  /** Decimal writes only digits. */
  lemma {:induction false} DecimalDigits(n: nat)
    ensures IsDigits(Decimal(n))
  {
    if n >= 10 {
      DecimalDigits(n / 10);
    }
  }

  /** The number a numeral denotes. */
  function Parse(s: string): int
  {
    if s == [] then 0 else 10 * Parse(s[..|s| - 1]) + DigitValue(s[|s| - 1])
  }

  /** Decimal is a numeral for n ... */
  lemma {:induction false} ParseDecimal(n: nat)
    ensures Parse(Decimal(n)) == n
  {
    var s := Decimal(n);
    if n >= 10 {
      ParseDecimal(n / 10);
      assert s[..|s| - 1] == Decimal(n / 10);
    }
  }

  /** ... without leading zeros. */
  lemma {:induction false} DecimalLeadingDigit(n: nat)
    ensures (Decimal(n)[0] == '0') == (n == 0)
  {
    if n >= 10 {
      DecimalLeadingDigit(n / 10);
    }
  }

  /** The k least significant decimal digits of n, with leading zeros. */
  function Fixed(n: nat, k: nat): (s: string)
    ensures |s| == k
  {
    if k == 0 then [] else Fixed(n / 10, k - 1) + [DigitChar(n % 10)]
  }

  function Zeros(k: nat): (s: string)
    ensures |s| == k
  {
    seq(k, i => '0')
  }

  lemma {:induction false} FixedZero(k: nat)
    ensures Fixed(0, k) == Zeros(k)
  {
    if k > 0 {
      FixedZero(k - 1);
      assert Zeros(k) == Zeros(k - 1) + ['0'];
    }
  }

  /** A numeral of q * 10^k + c is q's numeral followed by c padded to k digits. */
  lemma {:induction false} DecimalChunk(q: nat, c: nat, k: nat)
    requires q > 0 && c < Pow10(k)
    ensures Decimal(q * Pow10(k) + c) == Decimal(q) + Fixed(c, k)
  {
    if k > 0 {
      var m := q * Pow10(k - 1);
      assert q * Pow10(k) == 10 * m;
      assert m >= 1 by {
        MulLe(q, 1, Pow10(k - 1));
      }
      var n := q * Pow10(k) + c;
      DivAddMul(m, c, 10);
      assert n / 10 == q * Pow10(k - 1) + c / 10 && n % 10 == c % 10;
      assert c / 10 < Pow10(k - 1);
      DecimalChunk(q, c / 10, k - 1);
      calc {
        Decimal(n);
        Decimal(n / 10) + [DigitChar(n % 10)];
        Decimal(q) + Fixed(c / 10, k - 1) + [DigitChar(c % 10)];
        Decimal(q) + Fixed(c, k);
      }
    } else {
      assert Pow10(0) == 1;
      assert q * Pow10(k) + c == q;
      assert Decimal(q) + Fixed(c, k) == Decimal(q);
    }
  }

  /** Prepending zeros to c's numeral until it is k long gives its k-digit form. */
  lemma {:induction false} PadDecimal(c: nat, k: nat)
    requires k >= 1 && c < Pow10(k)
    ensures |Decimal(c)| <= k
    ensures Zeros(k - |Decimal(c)|) + Decimal(c) == Fixed(c, k)
  {
    if c < 10 {
      FixedZero(k - 1);
      assert Zeros(k - 1) + [DigitChar(c)] == Zeros(k - 1) + Decimal(c);
    } else {
      assert Pow10(1) == 10;
      PadDecimal(c / 10, k - 1);
      var z := Zeros(k - |Decimal(c)|);
      assert z == Zeros(k - 1 - |Decimal(c / 10)|);
    }
  }

  /** The numeral of an integer: a minus sign before the numeral of its magnitude. */
  function SignedDecimal(v: int): string {
    if v < 0 then "-" + Decimal(-v) else Decimal(v)
  }
}
