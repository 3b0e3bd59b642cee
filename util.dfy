/**
 * `scale_u64`: map a 64-bit hash onto [0, out_range) by shifting it right,
 * multiplying by the range and keeping the top bits of the product.
 */
module Util {
  import opened Math
  import opened Words

  /** The largest range the pre-shift leaves room for: 2^62. */
  const MAX_RANGE: nat := 0x4000_0000_0000_0000

  /** `a * b` on 64-bit words: the product wraps around at 2^64. */
  function Mul64(a: Word, b: Word): (r: Word) {
    (a * b) % TWO_TO_THE_64
  }

  /** `a + b` on 64-bit words. */
  function Add64(a: Word, b: Word): (r: Word) {
    (a + b) % TWO_TO_THE_64
  }

  /**
   * `log2_ceil(out_range) + 1`.  A range above 2^62 would make it the full
   * word width, which C++ does not define as a shift count.
   */
  function PreShift(outRange: nat): (pre: nat)
    requires 1 <= outRange <= MAX_RANGE
    ensures 1 <= pre <= 63 && outRange <= Pow2(pre - 1)
  {
    Pow2Of62();
    Log2CeilLeast(outRange, 62);
    Log2Ceil(outRange) + 1
  }

  /** `scale_u64(in_val, out_range)`. */
  function ScaleU64(inVal: Word, outRange: Word): (r: Word)
    requires 1 <= outRange <= MAX_RANGE
    ensures r < outRange
  {
    var pre := PreShift(outRange);
    ScaleU64Product(inVal, outRange);
    Shr(Mul64(Shr(inVal, pre), outRange), 64 - pre)
  }

  /** A word shifted right by s keeps 64 - s bits. */
  lemma ShiftedBelow(inVal: Word, s: nat)
    requires s <= 64
    ensures Shr(inVal, s) < Pow2(64 - s)
  {
    Pow2Of64();
    Pow2Add(64 - s, s);
    DivBelow(inVal, Pow2(s), Pow2(64 - s));
  }

  /**
   * x < p and r <= m: the product x * r stays below p * m, and its top part
   * (x * r) / p stays below r.
   */
  lemma ProductBounds(x: nat, r: nat, p: nat, m: nat)
    requires 1 <= r <= m && x < p
    ensures x * r < p * m
    ensures (x * r) / p < r
  {
    MulGap(r, x, p);
    MulMonotone(p, r, m);
    DivBelow(x * r, p, r);
  }

  /** A value of 64 - pre bits times a range of at most 2^(pre - 1) fits in 63 bits. */
  lemma ProductFits(x: nat, r: nat, pre: nat)
    requires 1 <= pre <= 63 && x < Pow2(64 - pre) && 1 <= r <= Pow2(pre - 1)
    ensures x * r < Pow2(63)
    ensures (x * r) / Pow2(64 - pre) < r
  {
    Pow2Add(64 - pre, pre - 1);
    ProductBounds(x, r, Pow2(64 - pre), Pow2(pre - 1));
  }

  /** A product below 2^63 does not wrap. */
  lemma Mul64Exact(a: Word, b: Word)
    requires a * b < Pow2(63)
    ensures Mul64(a, b) == a * b
  {
    Pow2Of62();
    ModOfSmall(a * b, TWO_TO_THE_64);
  }

  /**
   * The product `(in_val >> pre_shift) * out_range` stays below 2^63, so it
   * never wraps, and its top bits are below the range.
   */
  lemma ScaleU64Product(inVal: Word, outRange: Word)
    requires 1 <= outRange <= MAX_RANGE
    ensures var pre := PreShift(outRange);
      var x := Shr(inVal, pre);
      x * outRange < Pow2(63) &&
      Mul64(x, outRange) == x * outRange &&
      (x * outRange) / Pow2(64 - pre) < outRange
  {
    var pre := PreShift(outRange);
    var x := Shr(inVal, pre);
    ShiftedBelow(inVal, pre);
    ProductFits(x, outRange, pre);
    Mul64Exact(x, outRange);
  }

  /** The scaled value without the word arithmetic: the product never wraps. */
  lemma ScaleU64Value(inVal: Word, outRange: Word)
    requires 1 <= outRange <= MAX_RANGE
    ensures var pre := PreShift(outRange);
      ScaleU64(inVal, outRange) == (Shr(inVal, pre) * outRange) / Pow2(64 - pre)
  {
    ScaleU64Product(inVal, outRange);
  }

  lemma ShrOfMax(s: nat)
    requires s <= 64
    ensures Shr(TWO_TO_THE_64 - 1, s) == Pow2(64 - s) - 1
  {
    Pow2Of64();
    var hi, lo := Pow2(64 - s), Pow2(s);
    Pow2Add(64 - s, s);
    assert (hi - 1) * lo == hi * lo - lo;
    DivModUnique(TWO_TO_THE_64 - 1, lo, hi - 1, lo - 1);
  }

  lemma ShrOfPow2(k: nat, s: nat)
    requires s <= k && Pow2(k) < TWO_TO_THE_64
    ensures Shr(Pow2(k), s) == Pow2(k - s)
  {
    Pow2Add(k - s, s);
    MulDivCancel(Pow2(k - s), Pow2(s));
  }

  /** (p - 1) * r / p == r - 1 whenever r <= p. */
  lemma TopOfPred(p: nat, r: nat)
    requires 1 <= r <= p
    ensures ((p - 1) * r) / p == r - 1
  {
    assert (p - 1) * r == (r - 1) * p + (p - r);
    DivModUnique((p - 1) * r, p, r - 1, p - r);
  }

  /** A common factor cancels: (x * r) / (x * c) == r / c. */
  lemma ScaleDown(x: nat, r: nat, c: nat)
    requires x > 0 && c > 0
    ensures (x * r) / (x * c) == r / c
  {
    DivDiv(x * r, x, c);
    MulDivCancel(r, x);
  }

  lemma ScaleU64OfZero(outRange: Word)
    requires 1 <= outRange <= MAX_RANGE
    ensures ScaleU64(0, outRange) == 0
  {
    var pre := PreShift(outRange);
    ScaleU64Value(0, outRange);
    assert Shr(0, pre) == 0;
    assert 0 * outRange == 0;
    assert 0 / Pow2(64 - pre) == 0;
  }

  /**
   * The largest input maps to the last value of the range, for ranges up to
   * 2^31 (the product then keeps at least 32 bits below the range).
   */
  lemma ScaleU64OfMax(outRange: Word)
    requires 1 <= outRange <= 0x8000_0000
    ensures ScaleU64(TWO_TO_THE_64 - 1, outRange) == outRange - 1
  {
    var pre := PreShift(outRange);
    ScaleU64Value(TWO_TO_THE_64 - 1, outRange);
    ShrOfMax(pre);
    assert outRange <= Pow2(64 - pre) by {
      Pow2Of32();
      Log2CeilLeast(outRange, 31);
      Pow2Monotone(32, 64 - pre);
    }
    TopOfPred(Pow2(64 - pre), outRange);
  }

  /**
   * For a range 2^k with k >= 32 the largest input lands 2^(2k - 63) below the
   * top of the range rather than on its last value.
   */
  lemma ScaleU64OfMaxPow2(k: nat)
    requires 32 <= k && Pow2(k) <= MAX_RANGE
    ensures ScaleU64(TWO_TO_THE_64 - 1, Pow2(k)) == Pow2(k) - Pow2(2 * k - 63)
  {
    Log2CeilOfPow2(k);
    ScaleU64Value(TWO_TO_THE_64 - 1, Pow2(k));
    ShrOfMax(k + 1);
    TopOfPredPow2(2 * k - 63, 63 - k);
  }

  /** For a range of 2^40 the largest input falls 2^17 short of the last value. */
  lemma ScaleU64OfMaxFallsShort()
    ensures ScaleU64(0xFFFF_FFFF_FFFF_FFFF, 0x100_0000_0000) == 0xFF_FFFE_0000
  {
    assert Pow2(40) == 0x100_0000_0000 by {
      Pow2Of32();
      Pow2Add(32, 8);
      assert Pow2(8) == 256;
    }
    assert Pow2(17) == 0x2_0000 by {
      Pow2Of16();
      assert Pow2(17) == 2 * Pow2(16);
    }
    ScaleU64OfMaxPow2(40);
  }

  /** (2^b - 1) * 2^(a + b) / 2^b == 2^(a + b) - 2^a. */
  lemma TopOfPredPow2(a: nat, b: nat)
    ensures ((Pow2(b) - 1) * Pow2(a + b)) / Pow2(b) == Pow2(a + b) - Pow2(a)
  {
    Pow2Add(a, b);
    CancelFactor(Pow2(b), Pow2(a));
  }

  lemma CancelFactor(p: nat, t: nat)
    requires p >= 1
    ensures ((p - 1) * (t * p)) / p == t * p - t
  {
    var q := p - 1;
    assert q * (t * p) == (q * t) * p;
    MulDivCancel(q * t, p);
    assert q * t == t * p - t;
  }

  /** The middle of the input range maps to the middle of the output range. */
  lemma ScaleU64OfHalf(outRange: Word)
    requires 1 <= outRange <= MAX_RANGE
    ensures ScaleU64(0x8000_0000_0000_0000, outRange) == outRange / 2
  {
    Pow2Of62();
    var pre := PreShift(outRange);
    ScaleU64Value(Pow2(63), outRange);
    ShrOfPow2(63, pre);
    var x := Pow2(63 - pre);
    assert Pow2(64 - pre) == x * 2;
    ScaleDown(x, outRange, 2);
  }

  /** A quarter of the input range maps to a quarter of the output range. */
  lemma ScaleU64OfQuarter(outRange: Word)
    requires 1 <= outRange <= 0x2000_0000_0000_0000
    ensures ScaleU64(0x4000_0000_0000_0000, outRange) == outRange / 4
  {
    Pow2Of62();
    assert Pow2(62) == 2 * Pow2(61);
    Log2CeilLeast(outRange, 61);
    var pre := PreShift(outRange);
    ScaleU64Value(Pow2(62), outRange);
    ShrOfPow2(62, pre);
    var x := Pow2(62 - pre);
    Pow2Add(62 - pre, 2);
    assert Pow2(2) == 4;
    ScaleDown(x, outRange, 4);
  }

  /** A larger input never maps lower: the scaling is monotone. */
  lemma ScaleU64Monotone(a: Word, b: Word, outRange: Word)
    requires a <= b && 1 <= outRange <= MAX_RANGE
    ensures ScaleU64(a, outRange) <= ScaleU64(b, outRange)
  {
    var pre := PreShift(outRange);
    ScaleU64Value(a, outRange);
    ScaleU64Value(b, outRange);
    var xa, xb := Shr(a, pre), Shr(b, pre);
    DivMonotone(a, b, Pow2(pre));
    MulMonotone(outRange, xa, xb);
    DivMonotone(xa * outRange, xb * outRange, Pow2(64 - pre));
  }

  /**
   * The scaling the comment describes, done with a full 128-bit product: the
   * top 64 bits of in_val * out_range.
   */
  function ScaleWide(inVal: Word, outRange: Word): (r: Word)
    requires outRange >= 1
    ensures r < outRange
  {
    MulGap(outRange, inVal, TWO_TO_THE_64);
    DivBelow(inVal * outRange, TWO_TO_THE_64, outRange);
    (inVal * outRange) / TWO_TO_THE_64
  }

  /** With the full product both ends of the input reach both ends of every range. */
  lemma ScaleWideEnds(outRange: Word)
    requires outRange >= 1
    ensures ScaleWide(TWO_TO_THE_64 - 1, outRange) == outRange - 1
    ensures ScaleWide(0, outRange) == 0
  {
    var m := TWO_TO_THE_64;
    assert (m - 1) * outRange == (outRange - 1) * m + (m - outRange);
    DivModUnique((m - 1) * outRange, m, outRange - 1, m - outRange);
  }

  /** The wide scaling is monotone as well. */
  lemma ScaleWideMonotone(a: Word, b: Word, outRange: Word)
    requires a <= b && outRange >= 1
    ensures ScaleWide(a, outRange) <= ScaleWide(b, outRange)
  {
    MulMonotone(outRange, a, b);
    DivMonotone(a * outRange, b * outRange, TWO_TO_THE_64);
  }
}
