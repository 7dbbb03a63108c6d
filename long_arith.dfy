/** The arithmetic of `kotlin.Long` that the source writes step by step: `add`
    and `multiply` split each operand into four 16-bit chunks and propagate
    carries through local variables; `negate` and `subtract` are built on `add`.
    Each is a method proved against the two's-complement meaning of its result. */
module LongArith {
  import opened Arith
  import opened Word32
  import opened Longs

  /** The 64-bit pattern of four 16-bit chunks, most significant first. */
  function Chunks(c48: int, c32: int, c16: int, c00: int): int {
    (c48 * 0x1_0000 + c32) * 0x1_0000_0000 + c16 * 0x1_0000 + c00
  }

  predicate IsChunk(c: int) {
    0 <= c < 0x1_0000
  }

  /** The four chunks of a Long, as `ushr 16` and `and 0xFFFF` extract them from its words. */
  method SplitChunks(x: Long) returns (c48: Int32, c32: Int32, c16: Int32, c00: Int32)
    ensures c48 == Unsigned(x.high) / 0x1_0000 && c32 == Unsigned(x.high) % 0x1_0000
    ensures c16 == Unsigned(x.low) / 0x1_0000 && c00 == Unsigned(x.low) % 0x1_0000
    ensures IsChunk(c48) && IsChunk(c32) && IsChunk(c16) && IsChunk(c00)
    ensures Unsigned64(x) == Chunks(c48, c32, c16, c00)
  {
    c48 := Ushr(x.high, 16);
    c32 := Word32.And(x.high, 0xFFFF);
    c16 := Ushr(x.low, 16);
    c00 := Word32.And(x.low, 0xFFFF);
    Halves(x.high);
    Halves(x.low);
  }

  /** `Long((c16 shl 16) or c00, (c48 shl 16) or c32)`: the Long whose chunks are the four given. */
  method JoinChunks(c48: Int32, c32: Int32, c16: Int32, c00: Int32) returns (r: Long)
    requires IsChunk(c48) && IsChunk(c32) && IsChunk(c16) && IsChunk(c00)
    ensures Unsigned64(r) == Chunks(c48, c32, c16, c00)
  {
    r := Long(Word32.Or(Shl(c16, 16), c00), Word32.Or(Shl(c48, 16), c32));
    Join16(c16, c00);
    Join16(c48, c32);
  }

  /** Adding patterns and adding values agree modulo 2^64. */
  lemma SumResidue(a: Long, b: Long)
    ensures (Unsigned64(a) + Unsigned64(b)) % 0x1_0000_0000_0000_0000
         == (Value(a) + Value(b)) % 0x1_0000_0000_0000_0000
  {
    var m := 0x1_0000_0000_0000_0000;
    Unsigned64OfValue(a);
    Unsigned64OfValue(b);
    ModAdd(Unsigned64(a), Unsigned64(b), m);
    ModAdd(Value(a), Unsigned64(b), m);
    ModAdd(Unsigned64(b), Value(a), m);
    ModAdd(Value(b), Value(a), m);
  }

  // ---------------------------------------------------------------------------
  // add

  /** `x + y` on Int does not wrap when the sum is a non-negative word. */
  lemma Small(x: Int32, y: Int32)
    requires 0 <= x + y < 0x8000_0000
    ensures Plus(x, y) == x + y
  {
    WrapSmall(x + y);
  }

  /** The carry chain of `add` computes the chunk sum modulo 2^64: column sums s16, s32, s48
      (each including the carry from below) leave the chunks c16, c32, c48 behind. */
  lemma AddCarries(a48: int, a32: int, a16: int, a00: int, b48: int, b32: int, b16: int, b00: int,
                   s16: int, s32: int, s48: int, c48: int, c32: int, c16: int, c00: int)
    requires IsChunk(a48) && IsChunk(a32) && IsChunk(a16) && IsChunk(a00)
    requires IsChunk(b48) && IsChunk(b32) && IsChunk(b16) && IsChunk(b00)
    requires c00 == (a00 + b00) % 0x1_0000 && s16 == (a00 + b00) / 0x1_0000 + a16 + b16
    requires c16 == s16 % 0x1_0000 && s32 == s16 / 0x1_0000 + a32 + b32
    requires c32 == s32 % 0x1_0000 && s48 == s32 / 0x1_0000 + a48 + b48
    requires c48 == s48 % 0x1_0000
    ensures Chunks(c48, c32, c16, c00)
         == (Chunks(a48, a32, a16, a00) + Chunks(b48, b32, b16, b00)) % 0x1_0000_0000_0000_0000
  {
    var low := Chunks(c48, c32, c16, c00);
    assert Chunks(a48, a32, a16, a00) + Chunks(b48, b32, b16, b00)
        == (s48 / 0x1_0000) * 0x1_0000_0000_0000_0000 + low;
    assert 0 <= low < 0x1_0000_0000_0000_0000;
    DivModUnique(Chunks(a48, a32, a16, a00) + Chunks(b48, b32, b16, b00),
                 0x1_0000_0000_0000_0000, s48 / 0x1_0000, low);
  }

  /** Lines 153-169 of `add`: the carry chain over the chunks of both operands. */
  method AddChunks(a48: Int32, a32: Int32, a16: Int32, a00: Int32,
                   b48: Int32, b32: Int32, b16: Int32, b00: Int32) returns (r: Long)
    requires IsChunk(a48) && IsChunk(a32) && IsChunk(a16) && IsChunk(a00)
    requires IsChunk(b48) && IsChunk(b32) && IsChunk(b16) && IsChunk(b00)
    ensures Unsigned64(r)
         == (Chunks(a48, a32, a16, a00) + Chunks(b48, b32, b16, b00)) % 0x1_0000_0000_0000_0000
  {
    var c48, c32, c16, c00 := 0, 0, 0, 0;
    c00 := AddColumn(c00, a00, b00);
    c00, c16 := Carry(c00, c16);
    c16 := AddColumn(c16, a16, b16);
    ghost var s16 := c16;
    c16, c32 := Carry(c16, c32);
    c32 := AddColumn(c32, a32, b32);
    ghost var s32 := c32;
    c32, c48 := Carry(c32, c48);
    c48 := AddColumn(c48, a48, b48);
    ghost var s48 := c48;
    c48 := Word32.And(c48, 0xFFFF);
    assert c48 == s48 % 0x1_0000 by { Halves(s48); }
    r := JoinChunks(c48, c32, c16, c00);
    AddCarries(a48, a32, a16, a00, b48, b32, b16, b00, s16, s32, s48, c48, c32, c16, c00);
  }

  /** `column += a + b` for a column holding at most a carry and two chunks. */
  method AddColumn(column: Int32, x: Int32, y: Int32) returns (s: Int32)
    requires 0 <= column < 0x2_0000 && IsChunk(x) && IsChunk(y)
    ensures s == column + x + y
  {
    s := Plus(column, Plus(x, y));
    Small(x, y);
    Small(column, x + y);
  }

  /** The carry between columns, `upper += lower ushr 16; lower = lower and 0xFFFF`, shared
      by `add` and `multiply`. The lower column is read as an unsigned 32-bit sum. */
  method Carry(lower: Int32, upper: Int32) returns (lower': Int32, upper': Int32)
    requires 0 <= upper < 0x2_0000
    ensures lower' == Unsigned(lower) % 0x1_0000
    ensures upper' == upper + Unsigned(lower) / 0x1_0000
  {
    upper' := Plus(upper, Ushr(lower, 16));
    assert upper' == upper + Unsigned(lower) / 0x1_0000 by {
      Halves(lower);
      Small(upper, Unsigned(lower) / 0x1_0000);
    }
    lower' := Word32.And(lower, 0xFFFF);
    assert lower' == Unsigned(lower) % 0x1_0000 by { Halves(lower); }
  }

  /** `add` with the chunk `a16` taken from the low word: the two's-complement sum. */
  method Add(a: Long, b: Long) returns (r: Long)
    ensures r == Sum(a, b)
    ensures Value(r) == Wrap64(Value(a) + Value(b))
  {
    var a48, a32, a16, a00 := SplitChunks(a);
    var b48, b32, b16, b00 := SplitChunks(b);
    r := AddChunks(a48, a32, a16, a00, b48, b32, b16, b00);
    SumOfPatterns(a, b, r, Chunks(a48, a32, a16, a00), Chunks(b48, b32, b16, b00));
  }

  /** `negate`: MinValue is its own negation; everything else is `not().add(ONE)`, run
      through `Add`. Function Longs.Negate states the same result by value. */
  method Negation(x: Long) returns (r: Long)
    ensures Value(r) == Wrap64(-Value(x))
    ensures Value(x) != -0x8000_0000_0000_0000 ==> Value(r) == -Value(x)
  {
    MinValueValue();
    if EqualsLong(x, MinValue) {
      r := MinValue;
    } else {
      r := Add(Not(x), One);
      Wrap64InRange(-Value(x));
    }
  }

  /** `subtract`: `add(other.negate())`. */
  method Difference(a: Long, b: Long) returns (r: Long)
    ensures Value(r) == Wrap64(Value(a) - Value(b))
  {
    var nb := Negation(b);
    r := Add(a, nb);
    Wrap64Plus(Value(a), -Value(b));
  }

  /** A Long whose pattern is the sum of the operands' patterns, modulo 2^64, is their sum. */
  lemma SumOfPatterns(a: Long, b: Long, r: Long, ua: int, ub: int)
    requires ua == Unsigned64(a) && ub == Unsigned64(b)
    requires Unsigned64(r) == (ua + ub) % 0x1_0000_0000_0000_0000
    ensures r == Sum(a, b) && Value(r) == Wrap64(Value(a) + Value(b))
  {
    SumResidue(a, b);
    FromUnsigned64(r, Value(a) + Value(b));
  }

  /** The top 16 bits of a word. */
  function Top(w: Int32): int {
    Unsigned(w) / 0x1_0000
  }

  /** What `add` returns as line 146 writes it: the chunk at weight 2^16 is the high word's
      top 16 bits where the low word's should be. */
  function AsWrittenSum(a: Long, b: Long): int {
    Wrap64(Value(a) + Value(b) + (Top(a.high) - Top(a.low)) * 0x1_0000)
  }

  /** `add` as the source writes it, with `val a16 = high ushr 16`. */
  method AddAsWritten(a: Long, b: Long) returns (r: Long)
    ensures Value(r) == AsWrittenSum(a, b)
  {
    var a48, a32, _, a00 := SplitChunks(a);
    var a16 := Ushr(a.high, 16);
    assert a16 == Top(a.high) by { Halves(a.high); }
    var b48, b32, b16, b00 := SplitChunks(b);
    r := AddChunks(a48, a32, a16, a00, b48, b32, b16, b00);
    AsWrittenPatterns(a, b, r, Chunks(a48, a32, Top(a.low), a00), Chunks(a48, a32, a16, a00),
                      Chunks(b48, b32, b16, b00));
  }

  /** Replacing the chunk at weight 2^16 shifts the sum by the difference of the chunks. */
  lemma AsWrittenPatterns(a: Long, b: Long, r: Long, ua: int, ua': int, ub: int)
    requires ua == Unsigned64(a) && ub == Unsigned64(b)
    requires ua' == ua + (Top(a.high) - Top(a.low)) * 0x1_0000
    requires Unsigned64(r) == (ua' + ub) % 0x1_0000_0000_0000_0000
    ensures Value(r) == AsWrittenSum(a, b)
  {
    var d := (Top(a.high) - Top(a.low)) * 0x1_0000;
    Unsigned64OfValue(a);
    Unsigned64OfValue(b);
    Unsigned64OfValue(r);
    ResidueSum(Value(a), Value(b), d);
    Wrap64Mod(Value(a) + Value(b) + d);
  }

  /** Reducing the addends modulo 2^64 does not change the residue of the sum. */
  lemma ResidueSum(x: int, y: int, d: int)
    ensures (x % 0x1_0000_0000_0000_0000 + d + y % 0x1_0000_0000_0000_0000) % 0x1_0000_0000_0000_0000
         == (x + y + d) % 0x1_0000_0000_0000_0000
  {
    var m := 0x1_0000_0000_0000_0000;
    DivAddMul(x / m + y / m, x % m + d + y % m, m);
    assert x + y + d == (x / m + y / m) * m + (x % m + d + y % m);
  }

  lemma Wrap64Mod(x: int)
    ensures Wrap64(x % 0x1_0000_0000_0000_0000) == Wrap64(x)
  {
    var m := 0x1_0000_0000_0000_0000;
    DivModUnique(x % m, m, 0, x % m);
    Wrap64Congruent(x % m, x);
  }

  /** The as-written `add` is right exactly when the two words of `this` agree in their top 16 bits. */
  lemma AsWrittenSumCorrect(a: Long, b: Long)
    ensures AsWrittenSum(a, b) == Value(Sum(a, b)) <==> Top(a.high) == Top(a.low)
  {
    var v := Value(a) + Value(b);
    var d := Top(a.high) - Top(a.low);
    if AsWrittenSum(a, b) == Wrap64(v) {
      Wrap64Residue(v + d * 0x1_0000, v);
      ShiftedResidue(d, v);
    }
  }

  /** Equal Wrap64 images have equal residues. */
  lemma Wrap64Residue(v: int, w: int)
    requires Wrap64(v) == Wrap64(w)
    ensures v % 0x1_0000_0000_0000_0000 == w % 0x1_0000_0000_0000_0000
  {
  }

  /** A shift by d * 2^16 with |d| < 2^16 changes the residue modulo 2^64 unless d == 0. */
  lemma ShiftedResidue(d: int, v: int)
    requires -0x1_0000 < d < 0x1_0000
    requires (v + d * 0x1_0000) % 0x1_0000_0000_0000_0000 == v % 0x1_0000_0000_0000_0000
    ensures d == 0
  {
    var m := 0x1_0000_0000_0000_0000;
    var k := (v + d * 0x1_0000) / m - v / m;
    assert d * 0x1_0000 == k * m;
    ZeroFromBound(k, m);
  }

  /** For example, 2147483647 + 1 gives 65536, not 2147483648. */
  lemma AsWrittenSumCounterexample()
    ensures Value(Sum(FromInt(0x7FFF_FFFF), One)) == 0x8000_0000
    ensures AsWrittenSum(FromInt(0x7FFF_FFFF), One) == 0x1_0000
  {
    var a := FromInt(0x7FFF_FFFF);
    assert a == Long(0x7FFF_FFFF, 0);
    assert Top(a.high) == 0 && Top(a.low) == 0x7FFF;
    assert Value(a) == 0x7FFF_FFFF && Value(One) == 1;
    Wrap64InRange(0x8000_0000);
    Wrap64InRange(0x1_0000);
  }

  // ---------------------------------------------------------------------------
  // multiply

  /** `c += x * y` for chunks x, y: the product p fits the unsigned 32-bit column sum. */
  method AddProduct(c: Int32, x: Int32, y: Int32, ghost p: int) returns (c': Int32)
    requires 0 <= c < 0x1_FFFF && IsChunk(x) && IsChunk(y) && p == x * y
    ensures Unsigned(c') == c + p
  {
    var t := Times(x, y);
    assert Unsigned(t) == p by {
      MulBound16(x, y);
      TimesUnsigned(x, y);
      assert Unsigned(x) == x && Unsigned(y) == y;
    }
    c' := Plus(c, t);
    assert Unsigned(c') == c + p by {
      MulBound16(x, y);
      PlusUnsigned(c, t);
      assert Unsigned(c) == c && 0 <= c + p < 0x1_0000_0000;
    }
  }

  /** One column step, `lower += x * y; upper += lower >>> 16; lower = lower and 0xFFFF`:
      the column sum s is split into the chunk kept and the carry. */
  method Column(lower: Int32, upper: Int32, x: Int32, y: Int32, ghost p: int)
    returns (lower': Int32, upper': Int32, ghost s: int)
    requires 0 <= lower < 0x1_FFFF && 0 <= upper < 0x2_0000 && IsChunk(x) && IsChunk(y) && p == x * y
    ensures s == lower + p && s < 0x1_0000_0000
    ensures lower' == s % 0x1_0000 && upper' == upper + s / 0x1_0000
    ensures 0 <= lower' < 0x1_0000 && upper <= upper' <= upper + 0xFFFF
  {
    var c := AddProduct(lower, x, y, p);
    s := Unsigned(c);
    lower', upper' := Carry(c, upper);
  }

  /** Int addition on words that stand for x and y modulo 2^32 stands for x + y. */
  lemma PlusResidue(a: Int32, b: Int32, x: int, y: int)
    requires Unsigned(a) == x % 0x1_0000_0000 && Unsigned(b) == y % 0x1_0000_0000
    ensures Unsigned(Plus(a, b)) == (x + y) % 0x1_0000_0000
  {
    var m := 0x1_0000_0000;
    PlusUnsigned(a, b);
    ModAdd(x, y, m);
    ModAdd(y, x % m, m);
  }

  /** The top column, `c48 += a48 * b00 + a32 * b16 + a16 * b32 + a00 * b48; c48 = c48 and 0xFFFF`:
      the sum wraps, but its low 16 bits do not depend on that. */
  method TopColumn(k: Int32, a48: Int32, a32: Int32, a16: Int32, a00: Int32,
                   b48: Int32, b32: Int32, b16: Int32, b00: Int32,
                   ghost p1: int, ghost p2: int, ghost p3: int, ghost p4: int) returns (c48: Int32)
    requires p1 == a48 * b00 && p2 == a32 * b16 && p3 == a16 * b32 && p4 == a00 * b48
    ensures c48 == (k + p1 + p2 + p3 + p4) % 0x1_0000
  {
    var t1, t2, t3, t4 := Times(a48, b00), Times(a32, b16), Times(a16, b32), Times(a00, b48);
    var w := Plus(k, Plus(Plus(Plus(t1, t2), t3), t4));
    c48 := Word32.And(w, 0xFFFF);
    ColumnSum(k, a48, a32, a16, a00, b48, b32, b16, b00, p1, p2, p3, p4, w);
    LowHalf(w, k + p1 + p2 + p3 + p4);
  }

  /** The wrapped sum of the top column stands for the exact sum modulo 2^32. */
  lemma ColumnSum(k: Int32, a48: Int32, a32: Int32, a16: Int32, a00: Int32,
                  b48: Int32, b32: Int32, b16: Int32, b00: Int32, p1: int, p2: int, p3: int, p4: int,
                  w: Int32)
    requires p1 == a48 * b00 && p2 == a32 * b16 && p3 == a16 * b32 && p4 == a00 * b48
    requires w == Plus(k, Plus(Plus(Plus(Times(a48, b00), Times(a32, b16)), Times(a16, b32)), Times(a00, b48)))
    ensures Unsigned(w) == (k + p1 + p2 + p3 + p4) % 0x1_0000_0000
  {
    var t1, t2, t3, t4 := Times(a48, b00), Times(a32, b16), Times(a16, b32), Times(a00, b48);
    UnsignedWrap(p1);
    UnsignedWrap(p2);
    UnsignedWrap(p3);
    UnsignedWrap(p4);
    UnsignedCongruent(k);
    var u12 := Plus(t1, t2);
    var u123 := Plus(u12, t3);
    var u := Plus(u123, t4);
    PlusResidue(t1, t2, p1, p2);
    PlusResidue(u12, t3, p1 + p2, p3);
    PlusResidue(u123, t4, p1 + p2 + p3, p4);
    PlusResidue(k, u, k, p1 + p2 + p3 + p4);
  }

  /** The low 16 bits of a word that stands for x modulo 2^32 are the low 16 bits of x. */
  lemma LowHalf(w: Int32, x: int)
    requires Unsigned(w) == x % 0x1_0000_0000
    ensures Word32.And(w, 0xFFFF) == x % 0x1_0000
  {
    Halves(w);
    DivDiv(x, 0x1_0000, 0x1_0000);
  }

  /** A product of chunk patterns, written out by the weight of each partial product. */
  lemma Expand(a48: int, a32: int, a16: int, a00: int, b48: int, b32: int, b16: int, b00: int)
    ensures Chunks(a48, a32, a16, a00) * Chunks(b48, b32, b16, b00)
         == a00 * b00 + 0x1_0000 * (a16 * b00 + a00 * b16)
            + 0x1_0000_0000 * (a32 * b00 + a16 * b16 + a00 * b32)
            + 0x1_0000_0000_0000 * (a48 * b00 + a32 * b16 + a16 * b32 + a00 * b48)
            + 0x1_0000_0000_0000_0000 * (a48 * b16 + a32 * b32 + a16 * b48
                                         + 0x1_0000 * (a48 * b32 + a32 * b48) + 0x1_0000_0000 * (a48 * b48))
  {
    var b := Chunks(b48, b32, b16, b00);
    assert Chunks(a48, a32, a16, a00) * b
        == a48 * b * 0x1_0000_0000_0000 + a32 * b * 0x1_0000_0000 + a16 * b * 0x1_0000 + a00 * b;
    assert a00 * b == a00 * b48 * 0x1_0000_0000_0000 + a00 * b32 * 0x1_0000_0000 + a00 * b16 * 0x1_0000 + a00 * b00;
    assert a16 * b == a16 * b48 * 0x1_0000_0000_0000 + a16 * b32 * 0x1_0000_0000 + a16 * b16 * 0x1_0000 + a16 * b00;
    assert a32 * b == a32 * b48 * 0x1_0000_0000_0000 + a32 * b32 * 0x1_0000_0000 + a32 * b16 * 0x1_0000 + a32 * b00;
    assert a48 * b == a48 * b48 * 0x1_0000_0000_0000 + a48 * b32 * 0x1_0000_0000 + a48 * b16 * 0x1_0000 + a48 * b00;
  }

  /** The columns of `multiply` hold the low 64 bits of the product: s1 .. s5 are the column
      sums after each partial product is added, t the top column before it is masked. */
  lemma MultiplyColumns(a48: int, a32: int, a16: int, a00: int, b48: int, b32: int, b16: int, b00: int,
                        s1: int, s2: int, s3: int, s4: int, s5: int, t: int,
                        c48: int, c32: int, c16: int, c00: int)
    requires c00 == (a00 * b00) % 0x1_0000 && s1 == (a00 * b00) / 0x1_0000 + a16 * b00
    requires s2 == s1 % 0x1_0000 + a00 * b16 && c16 == s2 % 0x1_0000
    requires s3 == s1 / 0x1_0000 + s2 / 0x1_0000 + a32 * b00
    requires s4 == s3 % 0x1_0000 + a16 * b16
    requires s5 == s4 % 0x1_0000 + a00 * b32 && c32 == s5 % 0x1_0000
    requires t == s3 / 0x1_0000 + s4 / 0x1_0000 + s5 / 0x1_0000 + a48 * b00 + a32 * b16 + a16 * b32 + a00 * b48
    requires c48 == t % 0x1_0000
    ensures Chunks(c48, c32, c16, c00)
         == (Chunks(a48, a32, a16, a00) * Chunks(b48, b32, b16, b00)) % 0x1_0000_0000_0000_0000
  {
    Expand(a48, a32, a16, a00, b48, b32, b16, b00);
    var low := Chunks(c48, c32, c16, c00);
    var h := a48 * b16 + a32 * b32 + a16 * b48 + 0x1_0000 * (a48 * b32 + a32 * b48) + 0x1_0000_0000 * (a48 * b48);
    assert a00 * b00 + 0x1_0000 * (a16 * b00 + a00 * b16)
            + 0x1_0000_0000 * (a32 * b00 + a16 * b16 + a00 * b32)
            + 0x1_0000_0000_0000 * (a48 * b00 + a32 * b16 + a16 * b32 + a00 * b48)
        == low + 0x1_0000_0000_0000_0000 * (t / 0x1_0000);
    DivModUnique(Chunks(a48, a32, a16, a00) * Chunks(b48, b32, b16, b00), 0x1_0000_0000_0000_0000,
                 t / 0x1_0000 + h, low);
  }

  /** MultiplyColumns with each partial product named, so that callers reason about sums only. */
  lemma ProductColumns(a48: int, a32: int, a16: int, a00: int, b48: int, b32: int, b16: int, b00: int,
                       p0: int, p1: int, p2: int, p3: int, p4: int, p5: int, p6: int, p7: int, p8: int, p9: int,
                       s1: int, s2: int, s3: int, s4: int, s5: int, t: int,
                       c48: int, c32: int, c16: int, c00: int)
    requires p0 == a00 * b00 && p1 == a16 * b00 && p2 == a00 * b16 && p3 == a32 * b00 && p4 == a16 * b16
    requires p5 == a00 * b32 && p6 == a48 * b00 && p7 == a32 * b16 && p8 == a16 * b32 && p9 == a00 * b48
    requires c00 == p0 % 0x1_0000 && s1 == p0 / 0x1_0000 + p1
    requires s2 == s1 % 0x1_0000 + p2 && c16 == s2 % 0x1_0000
    requires s3 == s1 / 0x1_0000 + s2 / 0x1_0000 + p3
    requires s4 == s3 % 0x1_0000 + p4
    requires s5 == s4 % 0x1_0000 + p5 && c32 == s5 % 0x1_0000
    requires t == s3 / 0x1_0000 + s4 / 0x1_0000 + s5 / 0x1_0000 + p6 + p7 + p8 + p9
    requires c48 == t % 0x1_0000
    ensures Chunks(c48, c32, c16, c00)
         == (Chunks(a48, a32, a16, a00) * Chunks(b48, b32, b16, b00)) % 0x1_0000_0000_0000_0000
  {
    MultiplyColumns(a48, a32, a16, a00, b48, b32, b16, b00, s1, s2, s3, s4, s5, t, c48, c32, c16, c00);
  }

  method MultiplyChunks(a48: Int32, a32: Int32, a16: Int32, a00: Int32,
                        b48: Int32, b32: Int32, b16: Int32, b00: Int32) returns (r: Long)
    requires IsChunk(a48) && IsChunk(a32) && IsChunk(a16) && IsChunk(a00)
    requires IsChunk(b48) && IsChunk(b32) && IsChunk(b16) && IsChunk(b00)
    ensures Unsigned64(r)
         == (Chunks(a48, a32, a16, a00) * Chunks(b48, b32, b16, b00)) % 0x1_0000_0000_0000_0000
  {
    ghost var p0, p1, p2, p3, p4 := a00 * b00, a16 * b00, a00 * b16, a32 * b00, a16 * b16;
    ghost var p5, p6, p7, p8, p9 := a00 * b32, a48 * b00, a32 * b16, a16 * b32, a00 * b48;
    ghost var s0, s1, s2, s3, s4, s5;
    var c48, c32, c16, c00 := 0, 0, 0, 0;
    c00, c16, s0 := Column(c00, c16, a00, b00, p0);
    c16, c32, s1 := Column(c16, c32, a16, b00, p1);
    c16, c32, s2 := Column(c16, c32, a00, b16, p2);
    c32, c48, s3 := Column(c32, c48, a32, b00, p3);
    c32, c48, s4 := Column(c32, c48, a16, b16, p4);
    c32, c48, s5 := Column(c32, c48, a00, b32, p5);
    ghost var t := c48 + p6 + p7 + p8 + p9;
    c48 := TopColumn(c48, a48, a32, a16, a00, b48, b32, b16, b00, p6, p7, p8, p9);
    r := JoinChunks(c48, c32, c16, c00);
    ProductColumns(a48, a32, a16, a00, b48, b32, b16, b00, p0, p1, p2, p3, p4, p5, p6, p7, p8, p9,
                   s1, s2, s3, s4, s5, t, c48, c32, c16, c00);
  }

  /** `multiply`: zero and MinValue operands first, then `MultiplyByParts` for the rest. */
  method Multiply(a: Long, b: Long) returns (r: Long)
    ensures Value(r) == Wrap64(Value(a) * Value(b))
    decreases 1, 0
  {
    if IsZero(a) || IsZero(b) {
      ZeroProduct(Value(a), Value(b));
      return Zero;
    }
    MinValueValue();
    if EqualsLong(a, MinValue) {
      r := MinValueByParity(b);
      MinValueCase(a, b, r);
      return;
    }
    if EqualsLong(b, MinValue) {
      r := MinValueByParity(a);
      MinValueCase(b, a, r);
      return;
    }
    r := MultiplyByParts(a, b);
  }

  /** `if (x.isOdd()) MIN_VALUE else ZERO`: the product of MinValue and x. */
  method MinValueByParity(x: Long) returns (r: Long)
    ensures Value(r) == if Value(x) % 2 == 1 then -0x8000_0000_0000_0000 else 0
  {
    if IsOdd(x) {
      MinValueValue();
      return MinValue;
    }
    r := Zero;
    assert Value(x) % 2 != 1;
  }

  /** The rest of `multiply`, for operands that are neither zero nor MinValue: negative
      operands are negated (and the product negated back), products of operands below 2^24
      go through float multiplication, and the rest through 16-bit chunks. */
  method MultiplyByParts(a: Long, b: Long) returns (r: Long)
    requires Value(a) != 0 && Value(b) != 0
    requires Value(a) != -0x8000_0000_0000_0000 && Value(b) != -0x8000_0000_0000_0000
    ensures Value(r) == Wrap64(Value(a) * Value(b))
    decreases 0, (if IsNegative(a) then 1 else 0) + (if IsNegative(b) then 1 else 0)
  {
    if IsNegative(a) {
      var na := Negation(a);
      if IsNegative(b) {
        var nb := Negation(b);
        r := MultiplyByParts(na, nb);
        NegatedCase(a, b, na, nb, r);
      } else {
        var p := MultiplyByParts(na, b);
        r := Negation(p);
        NegatedLeftCase(a, b, na, p, r);
      }
      return;
    } else if IsNegative(b) {
      var nb := Negation(b);
      var p := MultiplyByParts(a, nb);
      r := Negation(p);
      NegatedLeftCase(b, a, nb, p, r);
      return;
    }
    TwoPwr24Value();
    if LessThan(a, TwoPwr24) && LessThan(b, TwoPwr24) {
      r := FromNumber(Value(a) * Value(b));
      SmallCase(a, b, r);
      return;
    }
    var a48, a32, a16, a00 := SplitChunks(a);
    var b48, b32, b16, b00 := SplitChunks(b);
    r := MultiplyChunks(a48, a32, a16, a00, b48, b32, b16, b00);
    ProductOfPatterns(a, b, r, Chunks(a48, a32, a16, a00), Chunks(b48, b32, b16, b00));
  }

  // The cases of `multiply`, each concluding the product for the result of its branch.

  /** MinValue times an odd factor is MinValue, times an even one zero (either order). */
  lemma MinValueCase(m: Long, b: Long, r: Long)
    requires Value(m) == -0x8000_0000_0000_0000
    requires Value(r) == if Value(b) % 2 == 1 then -0x8000_0000_0000_0000 else 0
    ensures Value(r) == Wrap64(Value(m) * Value(b)) == Wrap64(Value(b) * Value(m))
  {
    MinValueProduct(Value(m), Value(b));
  }

  lemma NegatedCase(a: Long, b: Long, na: Long, nb: Long, r: Long)
    requires Value(na) == Wrap64(-Value(a)) && Value(nb) == Wrap64(-Value(b))
    requires Value(a) < 0 && Value(b) < 0
    requires Value(a) != -0x8000_0000_0000_0000 && Value(b) != -0x8000_0000_0000_0000
    requires Value(r) == Wrap64(Value(na) * Value(nb))
    ensures Value(r) == Wrap64(Value(a) * Value(b))
  {
    Wrap64InRange(-Value(a));
    Wrap64InRange(-Value(b));
    NegatedOperands(Value(a), Value(b), Value(na), Value(nb), Value(r));
  }

  /** The product with one negative factor, as the negation of the product with its negation;
      stated with the negative factor first, and used in either order. */
  lemma NegatedLeftCase(a: Long, b: Long, na: Long, p: Long, r: Long)
    requires Value(na) == Wrap64(-Value(a)) && Value(a) < 0 && Value(a) != -0x8000_0000_0000_0000
    requires Value(p) == Wrap64(Value(na) * Value(b)) || Value(p) == Wrap64(Value(b) * Value(na))
    requires Value(r) == Wrap64(-Value(p))
    ensures Value(r) == Wrap64(Value(a) * Value(b)) == Wrap64(Value(b) * Value(a))
  {
    Wrap64InRange(-Value(a));
    NegatedLeft(Value(a), Value(b), Value(na), Value(p));
  }

  lemma SmallCase(a: Long, b: Long, r: Long)
    requires 0 <= Value(a) < 0x100_0000 && 0 <= Value(b) < 0x100_0000
    requires r == FromNumber(Value(a) * Value(b))
    ensures Value(r) == Wrap64(Value(a) * Value(b))
  {
    SmallProduct(Value(a), Value(b));
  }

  lemma ZeroProduct(x: int, y: int)
    requires x == 0 || y == 0
    ensures Wrap64(x * y) == 0
  {
  }

  /** MinValue times v is MinValue for odd v and zero for even v, after wrap-around. */
  lemma MinValueProduct(m: int, v: int)
    requires m == -0x8000_0000_0000_0000
    ensures Wrap64(m * v) == Wrap64(v * m) == if v % 2 == 1 then -0x8000_0000_0000_0000 else 0
  {
    var k := v / 2;
    assert m * v == v * m == -0x8000_0000_0000_0000 * (v % 2) + (-k) * 0x1_0000_0000_0000_0000;
    Wrap64Shift(-0x8000_0000_0000_0000 * (v % 2), -k);
  }

  lemma NegatedOperands(x: int, y: int, nx: int, ny: int, v: int)
    requires nx == -x && ny == -y && v == Wrap64(nx * ny)
    ensures v == Wrap64(x * y)
  {
    assert nx * ny == x * y;
  }

  /** Negating the wrapped product of -x and y gives the wrapped product of x and y. */
  lemma NegatedLeft(x: int, y: int, nx: int, v: int)
    requires nx == -x && (v == Wrap64(nx * y) || v == Wrap64(y * nx))
    ensures Wrap64(-v) == Wrap64(x * y) == Wrap64(y * x)
  {
    assert nx * y == y * nx == -(x * y) && x * y == y * x;
    Wrap64Negate(-(x * y));
  }

  /** Products of operands in [0, 2^24) fit in 48 bits, so they neither saturate nor wrap. */
  lemma SmallProduct(x: int, y: int)
    requires 0 <= x < 0x100_0000 && 0 <= y < 0x100_0000
    ensures 0 <= x * y < 0x1_0000_0000_0000 && Wrap64(x * y) == x * y
  {
    ProductBound(x, y);
    Wrap64InRange(x * y);
  }

  lemma ProductBound(x: int, y: int)
    requires 0 <= x < 0x100_0000 && 0 <= y < 0x100_0000
    ensures 0 <= x * y < 0x1_0000_0000_0000
  {
    MulLe(x, y, 0x100_0000);
    MulLe(0x100_0000, x, 0x100_0000);
  }

  lemma ProductOfPatterns(a: Long, b: Long, r: Long, ua: int, ub: int)
    requires Value(a) >= 0 && Value(b) >= 0
    requires ua == Unsigned64(a) && ub == Unsigned64(b)
    requires Unsigned64(r) == (ua * ub) % 0x1_0000_0000_0000_0000
    ensures Value(r) == Wrap64(Value(a) * Value(b))
  {
    Unsigned64OfValue(a);
    Unsigned64OfValue(b);
    FromUnsigned64(r, ua * ub);
  }

  /** Negation commutes with wrap-around. */
  lemma Wrap64Negate(x: int)
    ensures Wrap64(-Wrap64(x)) == Wrap64(-x)
  {
    var m := 0x1_0000_0000_0000_0000;
    var k := (x - Wrap64(x)) / m;
    assert x - Wrap64(x) == k * m;
    Wrap64Shift(-x, k);
  }
}
