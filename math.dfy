/**
 * Integer facts shared by the packed bit store, the range scaler and the
 * dereference table: powers of two, the ceiling base-2 logarithm the C++
 * code takes from its support library (`batt::log2_ceil`), and the
 * division facts that stand for right shifts of unsigned words.
 */
module Math {

  /** The largest value of a C++ `u64`/`usize`, plus one. */
  const TWO_TO_THE_64: nat := 0x1_0000_0000_0000_0000

  /** An unsigned 64-bit integer as a number. */
  type U64 = x: nat | x < TWO_TO_THE_64

  function Pow2(k: nat): (p: nat)
    ensures p >= 1
  {
    if k == 0 then 1 else 2 * Pow2(k - 1)
  }

  lemma {:induction false} Pow2Add(a: nat, b: nat)
    ensures Pow2(a + b) == Pow2(a) * Pow2(b)
  {
    if b > 0 {
      Pow2Add(a, b - 1);
      assert Pow2(a + b) == 2 * Pow2(a + b - 1);
    }
  }

  lemma {:induction false} Pow2Increasing(a: nat, b: nat)
    requires a < b
    ensures Pow2(a) < Pow2(b)
  {
    if a + 1 < b {
      Pow2Increasing(a, b - 1);
    }
  }

  /** Monotonicity, stated as an implication so that callers can use it in both directions. */
  lemma Pow2Monotone(a: nat, b: nat)
    ensures a <= b ==> Pow2(a) <= Pow2(b)
    ensures a < b ==> Pow2(a) < Pow2(b)
  {
    if a < b {
      Pow2Increasing(a, b);
    }
  }

  lemma Pow2Reflects(a: nat, b: nat)
    requires Pow2(a) < Pow2(b)
    ensures a < b
  {
    Pow2Monotone(b, a);
  }

  lemma Pow2Of16()
    ensures Pow2(16) == 0x1_0000
  {
    assert Pow2(8) == 256;
    Pow2Add(8, 8);
  }

  lemma Pow2Of32()
    ensures Pow2(31) == 0x8000_0000
    ensures Pow2(32) == 0x1_0000_0000
  {
    Pow2Of16();
    Pow2Add(16, 16);
    Pow2Add(31, 1);
    assert Pow2(1) == 2;
  }

  lemma Pow2Of64()
    ensures Pow2(64) == TWO_TO_THE_64
  {
    Pow2Of32();
    Pow2Add(32, 32);
  }

  /** 2^62, the largest range the scaler takes, and 2^63. */
  lemma Pow2Of62()
    ensures Pow2(62) == 0x4000_0000_0000_0000
    ensures Pow2(63) == 0x8000_0000_0000_0000
  {
    Pow2Of64();
    Pow2Add(62, 2);
    Pow2Add(63, 1);
    assert Pow2(2) == 4;
  }

  /**
   * ceil(log2(x)): the least k with 2^k >= x, so Log2Ceil(1) == 0.
   * The postcondition is that characterisation; Log2CeilLeast gives minimality
   * against every other candidate.
   */
  function Log2Ceil(x: nat): (k: nat)
    requires x >= 1
    ensures Pow2(k) >= x
    ensures k > 0 ==> Pow2(k - 1) < x
  {
    if x == 1 then 0 else 1 + Log2Ceil((x + 1) / 2)
  }

  lemma Log2CeilLeast(x: nat, k: nat)
    requires x >= 1 && Pow2(k) >= x
    ensures Log2Ceil(x) <= k
  {
    var l := Log2Ceil(x);
    if l > 0 {
      Pow2Monotone(k, l - 1);
    }
  }

  lemma Log2CeilMonotone(x: nat, y: nat)
    requires 1 <= x <= y
    ensures Log2Ceil(x) <= Log2Ceil(y)
  {
    Log2CeilLeast(x, Log2Ceil(y));
  }

  /** Log2Ceil is the only k meeting its characterisation. */
  lemma Log2CeilExact(x: nat, k: nat)
    requires x >= 1 && Pow2(k) >= x
    requires k > 0 ==> Pow2(k - 1) < x
    ensures Log2Ceil(x) == k
  {
    Log2CeilLeast(x, k);
    var l := Log2Ceil(x);
    if k > 0 {
      Pow2Reflects(k - 1, l);
    }
  }

  lemma Log2CeilOfPow2(k: nat)
    ensures Log2Ceil(Pow2(k)) == k
  {
    if k > 0 {
      assert Pow2(k - 1) < Pow2(k);
    }
    Log2CeilExact(Pow2(k), k);
  }

  // ---- Division facts (a right shift of an unsigned word divides by a power of two) ----

  lemma DivMonotone(a: nat, b: nat, d: nat)
    requires a <= b && d > 0
    ensures a / d <= b / d
  {
    assert (a / d) * d <= a && b < (b / d) * d + d;
    MulGap(d, b / d, a / d);
  }

  lemma DivAtMost(a: nat, d: nat)
    requires d > 0
    ensures 0 <= a / d <= a
  {
    MulMonotone(a / d, 1, d);
  }

  /** `(n + 63) / 64` words hold n bits, with less than one word to spare. */
  lemma WordsFor(n: nat)
    ensures n <= 64 * ((n + 63) / 64) < n + 64
  {
  }

  /** A number below q * d divided by d is below q. */
  lemma DivBelow(a: nat, d: nat, q: nat)
    requires d > 0 && a < q * d
    ensures a / d < q
  {
    var t := a / d;
    assert t * d <= a;
    MulGap(d, q, t);
  }

  /** Distinct multiples of d are at least d apart. */
  lemma MulGap(d: nat, a: int, b: int)
    ensures a < b ==> a * d + d <= b * d
  {
    if a < b {
      var g := b - a;
      assert b * d == a * d + g * d;
      MulMonotone(d, 1, g);
    }
  }

  lemma MulMonotone(d: nat, a: nat, b: nat)
    requires a <= b
    ensures d * a <= d * b
  {
  }

  /** Division of x by d is pinned down by any quotient/remainder pair. */
  lemma DivModUnique(x: int, d: int, q: int, r: int)
    requires d > 0 && 0 <= r < d && x == q * d + r
    ensures x / d == q && x % d == r
  {
    var q0, r0 := x / d, x % d;
    assert x == q0 * d + r0;
    MulGap(d, q0, q);
    MulGap(d, q, q0);
  }

  lemma ModOfSmall(x: nat, m: nat)
    requires x < m
    ensures x % m == x && x / m == 0
  {
    DivModUnique(x, m, 0, x);
  }

  /** Shifting right by a then by b is shifting right by a + b. */
  lemma DivDiv(x: nat, a: nat, b: nat)
    requires a > 0 && b > 0
    ensures x / a / b == x / (a * b)
  {
    var q := x / a / b;
    var r := (x / a) % b * a + x % a;
    assert x == q * (a * b) + r by {
      assert x == (x / a) * a + x % a;
      assert x / a == q * b + (x / a) % b;
    }
    assert r < a * b by {
      MulMonotone(a, (x / a) % b, b - 1);
    }
    DivModUnique(x, a * b, q, r);
  }

  /** Bit 0 and the remaining bits determine x modulo 2m. */
  lemma ModDouble(x: nat, m: nat)
    requires m >= 1
    ensures x % (2 * m) == x % 2 + 2 * ((x / 2) % m)
  {
    var h := x / 2;
    assert x == 2 * h + x % 2;
    assert h == (h / m) * m + h % m;
    assert x == (h / m) * (2 * m) + (x % 2 + 2 * (h % m));
    DivModUnique(x, 2 * m, h / m, x % 2 + 2 * (h % m));
  }

  lemma MulDivCancel(a: nat, d: nat)
    requires d > 0
    ensures (a * d) / d == a
  {
    DivModUnique(a * d, d, a, 0);
  }
}
