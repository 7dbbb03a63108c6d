/** Bitwise AND, OR and XOR on the low n bits of natural numbers, defined one
    bit at a time from the least significant end. The word operations of
    Kotlin's `Int` and the word-wise operations of `Long` are built on these. */
module Bits {
  import opened Arith

  datatype BitOp = AndOp | OrOp | XorOp

  /** The truth table of an operation on one pair of bits. */
  function Apply(op: BitOp, a: bool, b: bool): bool {
    match op
    case AndOp => a && b
    case OrOp => a || b
    case XorOp => a != b
  }

  /** Bit i of x (bit 0 is the least significant). */
  predicate Bit(x: nat, i: nat) {
    (x / Pow2(i)) % 2 == 1
  }

  /** op applied to bits 0 .. n-1 of x and y; the result has n bits. */
  function Bitwise(op: BitOp, x: nat, y: nat, n: nat): (r: nat)
    ensures r < Pow2(n)
    decreases n
  {
    if n == 0 then 0
    else 2 * Bitwise(op, x / 2, y / 2, n - 1) + (if Apply(op, x % 2 == 1, y % 2 == 1) then 1 else 0)
  }

  lemma BitShift(x: nat, i: nat)
    requires i >= 1
    ensures Bit(x, i) == Bit(x / 2, i - 1)
  {
    DivDiv(x, 2, Pow2(i - 1));
  }

  /** Bitwise is the bit-by-bit operation: each result bit is op of the operands' bits. */
  lemma {:induction false} BitwiseBit(op: BitOp, x: nat, y: nat, n: nat, i: nat)
    requires i < n
    ensures Bit(Bitwise(op, x, y, n), i) == Apply(op, Bit(x, i), Bit(y, i))
  {
    var r := Bitwise(op, x, y, n);
    var rest := Bitwise(op, x / 2, y / 2, n - 1);
    var low := if Apply(op, x % 2 == 1, y % 2 == 1) then 1 else 0;
    assert r == rest * 2 + low;
    DivAddMul(rest, low, 2);
    assert r / 2 == rest && r % 2 == low;
    if i == 0 {
      assert Pow2(0) == 1;
      assert Bit(r, 0) == (r % 2 == 1);
      assert Bit(x, 0) == (x % 2 == 1);
      assert Bit(y, 0) == (y % 2 == 1);
    } else {
      BitwiseBit(op, x / 2, y / 2, n - 1, i - 1);
      BitShift(r, i);
      BitShift(x, i);
      BitShift(y, i);
    }
  }

  lemma {:induction false} AndZero(x: nat, n: nat)
    ensures Bitwise(AndOp, x, 0, n) == 0
  {
    if n > 0 {
      AndZero(x / 2, n - 1);
    }
  }

  lemma {:induction false} OrZero(x: nat, n: nat)
    requires x < Pow2(n)
    ensures Bitwise(OrOp, x, 0, n) == x
  {
    if n > 0 {
      OrZero(x / 2, n - 1);
    }
  }

  /** AND with the mask 2^k - 1 keeps the low k bits: v, the AND of x with p - 1 for
      p = 2^k, is x modulo p. */
  lemma {:induction false} AndMask(x: nat, k: nat, p: nat, n: nat, v: int)
    requires k <= n && p == Pow2(k) && v == Bitwise(AndOp, x, p - 1, n)
    ensures v == x % p && v < p
  {
    if k == 0 {
      AndZero(x, n);
      return;
    }
    var m := Pow2(k - 1);
    var rest := Bitwise(AndOp, x / 2, m - 1, n - 1);
    AndMask(x / 2, k - 1, m, n - 1, rest);
    AndMaskStep(x, m, n, rest, v);
    LowBitsJoin(x, m, p, rest, v);
  }

  /** One step of AND with the mask 2m - 1: the low bit of x, then x / 2 AND m - 1. */
  lemma AndMaskStep(x: nat, m: nat, n: nat, rest: nat, v: nat)
    requires m >= 1 && n >= 1
    requires rest == Bitwise(AndOp, x / 2, m - 1, n - 1) && v == Bitwise(AndOp, x, 2 * m - 1, n)
    ensures v == 2 * rest + x % 2
  {
    DivAddMul(m - 1, 1, 2);
    assert (2 * m - 1) / 2 == m - 1 && (2 * m - 1) % 2 == 1;
  }

  /** The low bit of x followed by the bits of x / 2 below m make up x modulo 2m. */
  lemma LowBitsJoin(x: nat, m: nat, p: nat, rest: int, v: int)
    requires m >= 1 && p == 2 * m && rest == (x / 2) % m && v == 2 * rest + x % 2
    ensures v == x % p
  {
    var t := x % (2 * m);
    DivDiv(x, 2, m);
    assert t == 2 * (t / 2) + t % 2;
  }

  /** AND with the single bit 2^i is that bit of x, in place. */
  lemma {:induction false} AndSingleBit(x: nat, i: nat, n: nat)
    requires i < n
    ensures Bitwise(AndOp, x, Pow2(i), n) == if Bit(x, i) then Pow2(i) else 0
  {
    if i == 0 {
      AndZero(x / 2, n - 1);
    } else {
      assert Pow2(i) / 2 == Pow2(i - 1) && Pow2(i) % 2 == 0;
      AndSingleBit(x / 2, i - 1, n - 1);
      BitShift(x, i);
    }
  }

  /** OR of two numbers whose set bits do not overlap (x has none below k, y none from k) is their sum. */
  lemma {:induction false} OrDisjoint(x: nat, y: nat, k: nat, n: nat)
    requires k <= n && x < Pow2(n) && x % Pow2(k) == 0 && y < Pow2(k)
    ensures Bitwise(OrOp, x, y, n) == x + y
  {
    if k == 0 {
      OrZero(x, n);
    } else {
      var m := Pow2(k - 1);
      DivDiv(x, 2, m);
      assert x % 2 == 0;
      assert (x / 2) % m == 0;
      OrDisjoint(x / 2, y / 2, k - 1, n - 1);
    }
  }

  lemma HalveSplit(a: nat, b: nat, m: nat)
    ensures a * (2 * m) + b == (a * m + b / 2) * 2 + b % 2
    ensures (a * (2 * m) + b) / 2 == a * m + b / 2
    ensures (a * (2 * m) + b) % 2 == b % 2
  {
    DivAddMul(a * m + b / 2, b % 2, 2);
  }

  lemma Regroup(hi: int, m: int, lo: int, bit: int)
    ensures 2 * (hi * m + lo) + bit == hi * (2 * m) + (2 * lo + bit)
  {
  }

  /** A bitwise operation on n + k bits splits into one on the high n bits and one on the low k bits. */
  lemma {:induction false} BitwiseSplit(op: BitOp, a: nat, b: nat, c: nat, d: nat, n: nat, k: nat)
    requires b < Pow2(k) && d < Pow2(k)
    ensures Bitwise(op, a * Pow2(k) + b, c * Pow2(k) + d, n + k)
         == Bitwise(op, a, c, n) * Pow2(k) + Bitwise(op, b, d, k)
  {
    if k > 0 {
      var m := Pow2(k - 1);
      assert Pow2(k) == 2 * m;
      HalveSplit(a, b, m);
      HalveSplit(c, d, m);
      BitwiseSplit(op, a, b / 2, c, d / 2, n, k - 1);
      var hi := Bitwise(op, a, c, n);
      var lo := Bitwise(op, b / 2, d / 2, k - 1);
      var bit := if Apply(op, b % 2 == 1, d % 2 == 1) then 1 else 0;
      Regroup(hi, m, lo, bit);
    }
  }

  /** BitwiseSplit with 2^k named p and the total width named w, so that callers can pass numbers. */
  lemma BitwiseSplitAt(op: BitOp, a: nat, b: nat, c: nat, d: nat, n: nat, k: nat, p: nat, w: nat)
    requires p == Pow2(k) && w == n + k && b < p && d < p
    ensures Bitwise(op, a * p + b, c * p + d, w) == Bitwise(op, a, c, n) * p + Bitwise(op, b, d, k)
  {
    BitwiseSplit(op, a, b, c, d, n, k);
  }

  lemma {:induction false} BitwiseCommutes(op: BitOp, x: nat, y: nat, n: nat)
    ensures Bitwise(op, x, y, n) == Bitwise(op, y, x, n)
  {
    if n > 0 {
      BitwiseCommutes(op, x / 2, y / 2, n - 1);
    }
  }
}
