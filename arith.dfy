/** Integer facts shared by the word, bit and decimal modules: powers of two and
    the Euclidean division identities the limb and shift proofs rely on. */
module Arith {

  /** 2^n. */
  function Pow2(n: nat): (r: nat)
    ensures r >= 1
  {
    if n == 0 then 1 else 2 * Pow2(n - 1)
  }

  /** 10^n. */
  function Pow10(n: nat): (r: nat)
    ensures r >= 1
  {
    if n == 0 then 1 else 10 * Pow10(n - 1)
  }

  lemma {:induction false} Pow2Add(a: nat, b: nat)
    ensures Pow2(a + b) == Pow2(a) * Pow2(b)
  {
    if a > 0 {
      Pow2Add(a - 1, b);
      assert Pow2(a + b) == 2 * Pow2(a - 1 + b);
    }
  }

  lemma {:induction false} Pow2Monotone(a: nat, b: nat)
    requires a <= b
    ensures Pow2(a) <= Pow2(b)
  {
    if a < b {
      Pow2Monotone(a, b - 1);
    }
  }

  lemma Pow2Constants()
    ensures Pow2(4) == 16
    ensures Pow2(6) == 64
    ensures Pow2(8) == 256
    ensures Pow2(16) == 0x1_0000
    ensures Pow2(24) == 0x100_0000
    ensures Pow2(31) == 0x8000_0000
    ensures Pow2(32) == 0x1_0000_0000
    ensures Pow2(63) == 0x8000_0000_0000_0000
    ensures Pow2(64) == 0x1_0000_0000_0000_0000
  {
    assert Pow2(2) == 4;
    Pow2Add(2, 2);
    Pow2Add(4, 2);
    Pow2Add(4, 4);
    Pow2Add(8, 8);
    Pow2Add(16, 8);
    Pow2Add(16, 15);
    Pow2Add(16, 16);
    Pow2Add(32, 31);
    Pow2Add(32, 32);
  }

  lemma ZeroFromBound(k: int, m: int)
    requires m > 0 && -m < k * m < m
    ensures k == 0
  {
  }

  /** Euclidean division is determined by its quotient and remainder. */
  lemma DivModUnique(x: int, m: int, q: int, r: int)
    requires m > 0 && 0 <= r < m && x == q * m + r
    ensures x / m == q && x % m == r
  {
    ZeroFromBound(x / m - q, m);
  }

  lemma DivAddMul(a: int, b: int, m: int)
    requires m > 0
    ensures (a * m + b) / m == a + b / m
    ensures (a * m + b) % m == b % m
  {
    DivModUnique(a * m + b, m, a + b / m, b % m);
  }

  /** Dividing by a then by b is dividing by a * b. */
  lemma DivDiv(x: int, a: int, b: int)
    requires a > 0 && b > 0
    ensures x / a / b == x / (a * b)
    ensures (x % (a * b)) / a == (x / a) % b
    ensures (x % (a * b)) % a == x % a
  {
    var q1, r1 := x / a, x % a;
    var q2, r2 := q1 / b, q1 % b;
    var r := r2 * a + r1;
    NestedRemainders(x, a, b, q1, r1, q2, r2);
    DivModUnique(x, a * b, q2, r);
    DivModUnique(r, a, r2, r1);
  }

  /** x = q1 * a + r1 and q1 = q2 * b + r2 make r2 * a + r1 the remainder of x by a * b. */
  lemma NestedRemainders(x: int, a: int, b: int, q1: int, r1: int, q2: int, r2: int)
    requires a > 0 && b > 0 && x == q1 * a + r1 && 0 <= r1 < a && q1 == q2 * b + r2 && 0 <= r2 < b
    ensures x == q2 * (a * b) + (r2 * a + r1) && 0 <= r2 * a + r1 < a * b
  {
    assert (q2 * b + r2) * a == q2 * (a * b) + r2 * a;
    MulLe(a, r2, b - 1);
    assert a * (b - 1) == a * b - a;
  }

  /** Scaling by m commutes with reduction modulo k * m. */
  lemma ModScale(x: int, k: int, m: int)
    requires k > 0 && m > 0
    ensures (x * m) % (k * m) == (x % k) * m
    ensures (x * m) / (k * m) == x / k
  {
    var q, r := x / k, x % k;
    assert x * m == q * (k * m) + r * m;
    assert 0 <= r * m < k * m;
    DivModUnique(x * m, k * m, q, r * m);
  }

  /** Reducing modulo m before or after adding or multiplying gives the same residue. */
  lemma ModAdd(a: int, b: int, m: int)
    requires m > 0
    ensures (a + b) % m == (a % m + b) % m
  {
    DivAddMul(a / m, a % m + b, m);
    assert a + b == (a / m) * m + (a % m + b);
  }

  lemma ModMul(a: int, b: int, m: int)
    requires m > 0
    ensures (a * b) % m == ((a % m) * b) % m
  {
    assert a * b == ((a / m) * b) * m + (a % m) * b;
    DivAddMul((a / m) * b, (a % m) * b, m);
  }

  /** r congruent to x modulo m stays congruent to x shifted by a multiple of m. */
  lemma CongruentShift(r: int, x: int, v: int, c: int, m: int)
    requires m > 0 && (r - x) % m == 0 && v == x + c * m
    ensures (r - v) % m == 0
  {
    DivAddMul(-c, r - x, m);
    assert r - v == -c * m + (r - x);
  }

  lemma MulBound16(a: int, b: int)
    requires 0 <= a < 0x1_0000 && 0 <= b < 0x1_0000
    ensures 0 <= a * b <= 0xFFFE_0001
  {
    MulLe(a, b, 0xFFFF);
    MulLe(0xFFFF, a, 0xFFFF);
  }

  lemma DivNeg(x: int, p: int)
    requires p >= 1 && x < 0
    ensures x <= x / p < 0
  {
    var q := x / p;
    assert q * p <= x < q * p + p by {
      assert x == q * p + x % p;
    }
    if q >= 0 {
      MulLe(q, 0, p);
      assert false;
    }
    if q < x {
      var c := -(q + 1);
      MulLe(c, 1, p);
      assert false;
    }
  }

  lemma DivNonNeg(x: int, p: int)
    requires p >= 1 && x >= 0
    ensures 0 <= x / p <= x
  {
  }

  lemma DivAtMostHalf(u: int, p: int)
    requires p >= 2 && u >= 0
    ensures u / p <= u / 2
  {
    var q := u / p;
    assert q * p <= u;
    MulLe(q, 2, p);
    assert u == 2 * (u / 2) + u % 2;
  }

  lemma MulLe(a: int, b: int, c: int)
    requires 0 <= a && b <= c
    ensures a * b <= a * c
  {
  }

  // ---------------------------------------------------------------------------
  // Splitting a 64-bit quantity h * 2^32 + l at a shift distance 0 < n < 32,
  // with p = 2^n and p' = 2^(32 - n), so that p * p' = 2^32.

  /** l / p' has at most n bits. */
  lemma QuotientFits(l: int, p: int, p': int)
    requires p > 0 && p' > 0 && p * p' == 0x1_0000_0000 && 0 <= l < 0x1_0000_0000
    ensures 0 <= l / p' < p
  {
    DivModUnique(l, p', l / p', l % p');
    if l / p' >= p {
      MulLe(p', p, l / p');
    }
  }

  /** (h % p') * p + l / p' is a 32-bit quantity. */
  lemma JoinFits(h: int, l: int, p: int, p': int)
    requires p > 0 && p' > 0 && p * p' == 0x1_0000_0000 && 0 <= l < 0x1_0000_0000
    ensures 0 <= (h % p') * p + l / p' < 0x1_0000_0000
  {
    QuotientFits(l, p, p');
    MulLe(p, h % p', p' - 1);
  }

  /** Shifting left by n: (h * 2^32 + l) * p reduced modulo 2^64. */
  lemma ShiftLeftSplit(h: int, l: int, p: int, p': int)
    requires p > 0 && p' > 0 && p * p' == 0x1_0000_0000 && 0 <= l < 0x1_0000_0000
    ensures ((h * 0x1_0000_0000 + l) * p) % 0x1_0000_0000_0000_0000
         == ((h % p') * p + l / p') * 0x1_0000_0000 + (l % p') * p
  {
    var lq, lr := l / p', l % p';
    var hq, hr := h / p', h % p';
    var lo := hr * p + lq;
    SplitProduct(h, l, p, p', hq, hr, lq, lr);
    JoinFits(h, l, p, p');
    LowWordsFit(lo, lr, p, p');
    DivModUnique((h * 0x1_0000_0000 + l) * p, 0x1_0000_0000_0000_0000, hq, lo * 0x1_0000_0000 + lr * p);
  }

  /** (h * 2^32 + l) * p regrouped by the quotients and remainders of h and l by p' = 2^32 / p. */
  lemma SplitProduct(h: int, l: int, p: int, p': int, hq: int, hr: int, lq: int, lr: int)
    requires p * p' == 0x1_0000_0000 && h == hq * p' + hr && l == lq * p' + lr
    ensures (h * 0x1_0000_0000 + l) * p
         == hq * 0x1_0000_0000_0000_0000 + (hr * p + lq) * 0x1_0000_0000 + lr * p
  {
    assert l * p == lq * (p' * p) + lr * p;
    assert h * p == hq * (p' * p) + hr * p;
  }

  lemma LowWordsFit(lo: int, lr: int, p: int, p': int)
    requires p > 0 && p * p' == 0x1_0000_0000 && 0 <= lo < 0x1_0000_0000 && 0 <= lr < p'
    ensures 0 <= lo * 0x1_0000_0000 + lr * p < 0x1_0000_0000_0000_0000
  {
    MulLe(p, lr, p' - 1);
    MulLe(0x1_0000_0000, lo, 0xFFFF_FFFF);
  }

  /** Shifting right by n: (h * 2^32 + l) / p, for any sign of h. */
  lemma ShiftRightSplit(h: int, l: int, p: int, p': int)
    requires p > 0 && p' > 0 && p * p' == 0x1_0000_0000 && 0 <= l < 0x1_0000_0000
    ensures (h * 0x1_0000_0000 + l) / p == (h / p) * 0x1_0000_0000 + (h % p) * p' + l / p
  {
    var t := 0x1_0000_0000;
    var hq, hr := h / p, h % p;
    assert h * t + l == ((hq * t) + hr * p') * p + l by {
      assert h * t == (hq * p + hr) * (p * p');
    }
    DivAddMul(hq * t + hr * p', l, p);
  }
}
