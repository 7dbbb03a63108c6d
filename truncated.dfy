/** Integer division that rounds toward zero, the rounding of Kotlin's `Long.div`,
    and the remainder that goes with it. Dafny's own `/` and `%` are Euclidean;
    these are defined through them on magnitudes. */
module Truncated {
  import opened Arith

  function Abs(x: int): nat {
    if x < 0 then -x else x
  }

  /** The quotient rounded toward zero: |x| / |y|, negated when the signs differ. */
  function TruncDiv(x: int, y: int): (q: int)
    requires y != 0
    ensures Abs(q) <= Abs(x)
  {
    var m := Abs(x) / Abs(y);
    DivNonNeg(Abs(x), Abs(y));
    if (x < 0) == (y < 0) then m else -m
  }

  /** What is left of x after taking TruncDiv(x, y) copies of y. */
  function TruncRem(x: int, y: int): int
    requires y != 0
  {
    x - y * TruncDiv(x, y)
  }

  /** The remainder is smaller than the divisor in magnitude and is zero or has the
      dividend's sign. */
  lemma RemainderBounds(x: int, y: int)
    requires y != 0
    ensures Abs(TruncRem(x, y)) < Abs(y)
    ensures TruncRem(x, y) == 0 || (TruncRem(x, y) < 0) == (x < 0)
  {
    var m, s := Abs(x) / Abs(y), Abs(x) % Abs(y);
    SignedRemainder(x, y, Abs(x), Abs(y), m, s, TruncDiv(x, y));
  }

  lemma SignedRemainder(x: int, y: int, a: nat, b: nat, m: int, s: int, q: int)
    requires y != 0 && a == Abs(x) && b == Abs(y) && a == b * m + s && 0 <= s < b
    requires q == if (x < 0) == (y < 0) then m else -m
    ensures x - y * q == if x < 0 then -s else s
  {
    if y < 0 {
      assert y * q == -(b * q);
    } else {
      assert y * q == b * q;
    }
  }

  /** TruncDiv is the only quotient whose remainder is below the divisor in magnitude and
      shares the dividend's sign. */
  lemma TruncDivUnique(x: int, y: int, q: int, r: int)
    requires y != 0 && x == y * q + r
    requires Abs(r) < Abs(y) && (r == 0 || (r < 0) == (x < 0))
    ensures q == TruncDiv(x, y) && r == TruncRem(x, y)
  {
    var q' := if (x < 0) == (y < 0) then q else -q;
    MagnitudeEquation(x, y, q, r, q');
    DivModUnique(Abs(x), Abs(y), q', Abs(r));
  }

  /** The signed equation x == y * q + r read on magnitudes. */
  lemma MagnitudeEquation(x: int, y: int, q: int, r: int, q': int)
    requires y != 0 && x == y * q + r
    requires Abs(r) < Abs(y) && (r == 0 || (r < 0) == (x < 0))
    requires q' == if (x < 0) == (y < 0) then q else -q
    ensures q' >= 0 && Abs(x) == q' * Abs(y) + Abs(r)
  {
    var p := if x < 0 then -(y * q) else y * q;
    assert p == Abs(y) * q' by {
      if y < 0 {
        assert y * q == -(Abs(y) * q);
      } else {
        assert y * q == Abs(y) * q;
      }
    }
    MagnitudeQuotient(Abs(x), Abs(y), q', Abs(r), p);
  }

  /** a == b * q + s with 0 <= s < b leaves no room for a negative q when a >= 0. */
  lemma MagnitudeQuotient(a: nat, b: nat, q: int, s: nat, p: int)
    requires s < b && p == b * q && a == p + s
    ensures q >= 0
  {
    if q < 0 {
      MulLe(b, q, -1);
    }
  }

  /** Negating an operand negates the quotient; negating both leaves it. */
  lemma TruncDivSigns(x: int, y: int)
    requires y != 0
    ensures TruncDiv(-x, -y) == TruncDiv(x, y)
    ensures TruncDiv(-x, y) == -TruncDiv(x, y)
    ensures TruncDiv(x, -y) == -TruncDiv(x, y)
  {
    assert Abs(-x) == Abs(x) && Abs(-y) == Abs(y);
    if x == 0 {
      assert Abs(x) / Abs(y) == 0;
    }
  }

  /** Taking k copies of y out of x first, when that leaves x on its own side of zero,
      adds k to the quotient of what is left. */
  lemma TruncDivSplit(x: int, y: int, k: int)
    requires y != 0
    requires x - y * k == 0 || (x - y * k < 0) == (x < 0)
    ensures TruncDiv(x, y) == k + TruncDiv(x - y * k, y)
  {
    var z := x - y * k;
    var d := TruncDiv(z, y);
    var r := TruncRem(z, y);
    RemainderBounds(z, y);
    if z == 0 {
      assert d == 0;
    }
    SplitEquation(x, y, k, d, z, r);
    TruncDivUnique(x, y, k + d, r);
  }

  lemma SplitEquation(x: int, y: int, k: int, d: int, z: int, r: int)
    requires z == x - y * k && r == z - y * d
    ensures x == y * (k + d) + r
  {
    assert y * (k + d) == y * k + y * d;
  }

  /** A dividend smaller in magnitude than the divisor gives quotient zero. */
  lemma TruncDivSmall(x: int, y: int)
    requires y != 0 && Abs(x) < Abs(y)
    ensures TruncDiv(x, y) == 0
  {
    TruncDivUnique(x, y, 0, x);
  }

  /** A divisor of magnitude at least two at least halves the dividend. */
  lemma TruncDivHalves(x: int, y: int)
    requires Abs(y) >= 2
    ensures 2 * Abs(TruncDiv(x, y)) <= Abs(x)
  {
    DivAtMostHalf(Abs(x), Abs(y));
    assert Abs(x) == 2 * (Abs(x) / 2) + Abs(x) % 2;
  }
}
