/**
 * One unsigned 64-bit machine word (a C++ `u64`), held as the number it
 * denotes, and the bitwise operations the bit store uses on it.
 *
 * Bit j of a number v (bit 0 least significant) is `Bit(v, j)`.  `&`, `|`
 * and `~` are defined bit by bit, shifts are multiplication and division by
 * powers of two truncated to 64 bits, and `x - 1` wraps around at zero as
 * unsigned arithmetic does.  Every lemma below says what one operation does
 * to each bit, so that the bit-copy loop can be verified bit by bit.
 */
module Words {
  import opened Math

  /** A C++ `u64`. */
  type Word = U64

  // ---------------------------------------------------------------------
  // Bits of a number

  /** Bit j of the number v. */
  predicate Bit(v: nat, j: nat) {
    (v / Pow2(j)) % 2 == 1
  }

  lemma BitZero(v: nat)
    ensures Bit(v, 0) == (v % 2 == 1)
  {
    assert Pow2(0) == 1;
  }

  lemma BitOfHalf(v: nat, j: nat)
    requires j > 0
    ensures Bit(v, j) == Bit(v / 2, j - 1)
  {
    DivDiv(v, 2, Pow2(j - 1));
  }

  /** A number below 2^j has no bit at j or above. */
  lemma BitOfSmall(v: nat, j: nat)
    requires v < Pow2(j)
    ensures !Bit(v, j)
  {
    DivModUnique(v, Pow2(j), 0, v);
  }

  /** Bit j of 2y is bit j - 1 of y, and bit 0 is clear. */
  lemma DoubleBit(y: nat, j: nat)
    ensures Bit(2 * y, j) == (j > 0 && Bit(y, j - 1))
  {
    if j > 0 {
      BitOfHalf(2 * y, j);
    }
  }

  lemma OneBit(j: nat)
    ensures Bit(1, j) == (j == 0)
  {
    if j > 0 {
      Pow2Monotone(0, j);
      BitOfSmall(1, j);
    }
  }

  // ---------------------------------------------------------------------
  // Bitwise operations

  /** `a & b`. */
  function And(a: nat, b: nat): (r: nat)
    ensures r <= a
    decreases a
  {
    if a == 0 then 0
    else 2 * And(a / 2, b / 2) + (if a % 2 == 1 && b % 2 == 1 then 1 else 0)
  }

  /** `a | b`. */
  function Or(a: nat, b: nat): (r: nat)
    decreases a + b
  {
    if a == 0 then b
    else if b == 0 then a
    else 2 * Or(a / 2, b / 2) + (if a % 2 == 1 || b % 2 == 1 then 1 else 0)
  }

  /** `~a` on a 64-bit word. */
  function Not(a: Word): (r: Word) {
    TWO_TO_THE_64 - 1 - a
  }

  /** `a << d` on a 64-bit word: bits pushed past the top are lost. */
  function Shl(a: Word, d: nat): (r: Word) {
    (a * Pow2(d)) % TWO_TO_THE_64
  }

  /** `a >> s` on a 64-bit word. */
  function Shr(a: Word, s: nat): (r: Word) {
    DivAtMost(a, Pow2(s));
    a / Pow2(s)
  }

  /** `a - 1` on a 64-bit word, wrapping around at zero. */
  function Dec(a: Word): (r: Word) {
    (a - 1) % TWO_TO_THE_64
  }

  lemma {:induction false} OrBelow(a: nat, b: nat, n: nat)
    requires a < Pow2(n) && b < Pow2(n)
    ensures Or(a, b) < Pow2(n)
    decreases a + b
  {
    if a != 0 && b != 0 {
      OrBelow(a / 2, b / 2, n - 1);
    }
  }

  /** `a | b` of two words is a word. */
  function OrWord(a: Word, b: Word): (r: Word) {
    Pow2Of64();
    OrBelow(a, b, 64);
    Or(a, b)
  }

  // ---------------------------------------------------------------------
  // What each operation does to each bit

  lemma {:induction false} AndBit(a: nat, b: nat, j: nat)
    ensures Bit(And(a, b), j) == (Bit(a, j) && Bit(b, j))
    decreases j
  {
    var r := And(a, b);
    if a == 0 {
      assert r == 0;
    } else if j == 0 {
      BitZero(r);
      BitZero(a);
      BitZero(b);
    } else {
      assert r / 2 == And(a / 2, b / 2);
      BitOfHalf(r, j);
      BitOfHalf(a, j);
      BitOfHalf(b, j);
      AndBit(a / 2, b / 2, j - 1);
    }
  }

  lemma {:induction false} OrBit(a: nat, b: nat, j: nat)
    ensures Bit(Or(a, b), j) == (Bit(a, j) || Bit(b, j))
    decreases j
  {
    var r := Or(a, b);
    if a == 0 || b == 0 {
    } else if j == 0 {
      BitZero(r);
      BitZero(a);
      BitZero(b);
    } else {
      assert r / 2 == Or(a / 2, b / 2);
      BitOfHalf(r, j);
      BitOfHalf(a, j);
      BitOfHalf(b, j);
      OrBit(a / 2, b / 2, j - 1);
    }
  }

  /** Below 2^n, subtracting from 2^n - 1 flips each of the n low bits. */
  lemma {:induction false} ComplementBit(n: nat, a: nat, j: nat)
    requires a < Pow2(n) && j < n
    ensures Bit(Pow2(n) - 1 - a, j) == !Bit(a, j)
  {
    var h := Pow2(n - 1);
    assert Pow2(n) == 2 * h;
    assert a == 2 * (a / 2) + a % 2;
    var c := Pow2(n) - 1 - a;
    assert a / 2 < h;
    DivModUnique(c, 2, h - 1 - a / 2, 1 - a % 2);
    if j == 0 {
      BitZero(c);
      BitZero(a);
    } else {
      BitOfHalf(c, j);
      BitOfHalf(a, j);
      ComplementBit(n - 1, a / 2, j - 1);
    }
  }

  lemma NotBit(a: Word, j: nat)
    requires j < 64
    ensures Bit(Not(a), j) == !Bit(a, j)
  {
    Pow2Of64();
    ComplementBit(64, a, j);
  }

  lemma ShrBit(a: Word, s: nat, j: nat)
    ensures Bit(Shr(a, s), j) == Bit(a, j + s)
  {
    DivDiv(a, Pow2(s), Pow2(j));
    Pow2Add(s, j);
  }

  /** Reducing modulo 2^n keeps the n low bits and clears the rest. */
  lemma {:induction false} ModBit(x: nat, n: nat, j: nat)
    ensures Bit(x % Pow2(n), j) == (j < n && Bit(x, j))
  {
    var m := x % Pow2(n);
    if n == 0 {
      assert m == 0;
    } else {
      ModDouble(x, Pow2(n - 1));
      var h := (x / 2) % Pow2(n - 1);
      assert m == 2 * h + x % 2;
      if j == 0 {
        BitZero(m);
        BitZero(x);
      } else {
        assert m / 2 == h;
        BitOfHalf(m, j);
        BitOfHalf(x, j);
        ModBit(x / 2, n - 1, j - 1);
      }
    }
  }

  lemma {:induction false} MulPow2Bit(a: nat, d: nat, j: nat)
    ensures Bit(a * Pow2(d), j) == (d <= j && Bit(a, j - d))
  {
    if d > 0 {
      assert a * Pow2(d) == 2 * (a * Pow2(d - 1));
      DoubleBit(a * Pow2(d - 1), j);
      if j > 0 {
        MulPow2Bit(a, d - 1, j - 1);
      }
    }
  }

  lemma ShlBit(a: Word, d: nat, j: nat)
    requires j < 64
    ensures Bit(Shl(a, d), j) == (d <= j && Bit(a, j - d))
  {
    Pow2Of64();
    ModBit(a * Pow2(d), 64, j);
    MulPow2Bit(a, d, j);
  }

  /** `u64{1} << i` is the number 2^i. */
  lemma ShlOne(i: nat)
    requires i < 64
    ensures Shl(1, i) == Pow2(i)
  {
    Pow2Of64();
    Pow2Monotone(i, 64);
  }

  lemma UnitBit(i: nat, j: nat)
    ensures Bit(Pow2(i), j) == (j == i)
  {
    MulPow2Bit(1, i, j);
    if i <= j {
      OneBit(j - i);
    }
  }

  lemma {:induction false} AndZero(a: nat)
    ensures And(a, 0) == 0
  {
    if a != 0 {
      AndZero(a / 2);
    }
  }

  /** `w & 2^k` is 2^k when bit k of w is set, and 0 otherwise. */
  lemma {:induction false} AndUnit(w: nat, k: nat)
    ensures And(w, Pow2(k)) == if Bit(w, k) then Pow2(k) else 0
  {
    if w == 0 {
    } else if k == 0 {
      AndZero(w / 2);
    } else {
      BitOfHalf(w, k);
      AndUnit(w / 2, k - 1);
    }
  }

  /** The test `(w & (u64{1} << k)) != 0` reads bit k. */
  lemma TestBit(w: Word, k: nat)
    requires k < 64
    ensures (And(w, Shl(1, k)) != 0) == Bit(w, k)
  {
    ShlOne(k);
    AndUnit(w, k);
  }

  // ---------------------------------------------------------------------
  // Masks

  /**
   * `(u64{1} << b) - 1`: the low b bits set.  With b == 64 the shift yields 0
   * and the decrement wraps to all ones; this is where the model departs from
   * C++, whose shift by the full width is undefined (see MaskOnX86).
   */
  function LowMask(b: nat): (mask: Word)
    requires b <= 64
  {
    Dec(Shl(1, b))
  }

  lemma LowMaskValue(b: nat)
    requires b <= 64
    ensures LowMask(b) == Pow2(b) - 1
  {
    Pow2Of64();
    if b < 64 {
      ShlOne(b);
      Pow2Monotone(b, 64);
      ModOfSmall(Pow2(b) - 1, TWO_TO_THE_64);
    } else {
      assert Shl(1, 64) == 0 by {
        MulDivCancel(1, TWO_TO_THE_64);
        DivModUnique(TWO_TO_THE_64, TWO_TO_THE_64, 1, 0);
      }
      DivModUnique(-1, TWO_TO_THE_64, -1, TWO_TO_THE_64 - 1);
    }
  }

  /** 2^b - 1 has exactly the b low bits set. */
  lemma OnesBit(b: nat, j: nat)
    ensures Bit(Pow2(b) - 1, j) == (j < b)
  {
    if j < b {
      ComplementBit(b, 0, j);
    } else {
      Pow2Monotone(b, j);
      BitOfSmall(Pow2(b) - 1, j);
    }
  }

  lemma LowMaskBit(b: nat, j: nat)
    requires b <= 64
    ensures Bit(LowMask(b), j) == (j < b)
  {
    LowMaskValue(b);
    OnesBit(b, j);
  }

  /** Masking with 2^n - 1 keeps the number modulo 2^n. */
  lemma {:induction false} AndOnes(w: nat, n: nat)
    ensures And(w, Pow2(n) - 1) == w % Pow2(n)
  {
    if n == 0 {
      AndZero(w);
    } else if w != 0 {
      var h := Pow2(n - 1);
      assert Pow2(n) == 2 * h;
      assert (Pow2(n) - 1) / 2 == h - 1 && (Pow2(n) - 1) % 2 == 1 by {
        DivModUnique(2 * h - 1, 2, h - 1, 1);
      }
      AndOnes(w / 2, n - 1);
      ModDouble(w, h);
    }
  }

  /**
   * The same mask as x86-64 evaluates it: the shift instruction takes its
   * count modulo 64, so a count of 64 shifts by nothing.
   */
  function MaskOnX86(b: nat): (mask: Word)
    requires b <= 64
  {
    Dec(Shl(1, b % 64))
  }

  /** Where the machine's mask and the intended one differ: a full word. */
  lemma MaskOnX86IsEmptyForFullWord()
    ensures MaskOnX86(64) == 0
    ensures forall j :: 0 <= j < 64 ==> Bit(LowMask(64), j)
    ensures forall j :: 0 <= j < 64 ==> !Bit(MaskOnX86(64), j)
  {
    forall j | 0 <= j < 64
      ensures Bit(LowMask(64), j)
    {
      LowMaskBit(64, j);
    }
  }

  // ---------------------------------------------------------------------
  // One step of the bit copy: clear a field of the destination word, then
  // or in the source field shifted into place.

  function CopyChunk(dw: Word, ds: nat, sw: Word, ss: nat, bits: nat): (w: Word)
    requires 1 <= bits && ds + bits <= 64 && ss + bits <= 64
  {
    var mask := LowMask(bits);
    OrWord(And(dw, Not(Shl(mask, ds))), Shl(And(Shr(sw, ss), mask), ds))
  }

  /**
   * Bit k of the written word is the source bit it lines up with when k is
   * in the field [ds, ds + bits), and the old destination bit otherwise.
   */
  lemma CopyChunkBit(dw: Word, ds: nat, sw: Word, ss: nat, bits: nat, k: nat)
    requires 1 <= bits && ds + bits <= 64 && ss + bits <= 64 && k < 64
    ensures Bit(CopyChunk(dw, ds, sw, ss, bits), k)
         == if ds <= k < ds + bits then Bit(sw, k - ds + ss) else Bit(dw, k)
  {
    var mask := LowMask(bits);
    var field := And(Shr(sw, ss), mask);
    OrBit(And(dw, Not(Shl(mask, ds))), Shl(field, ds), k);
    AndBit(dw, Not(Shl(mask, ds)), k);
    NotBit(Shl(mask, ds), k);
    ShlBit(mask, ds, k);
    ShlBit(field, ds, k);
    if ds <= k {
      LowMaskBit(bits, k - ds);
      AndBit(Shr(sw, ss), mask, k - ds);
      ShrBit(sw, ss, k - ds);
    }
  }

  /** The copy step as x86-64 evaluates it: MaskOnX86 in place of LowMask. */
  function CopyChunkOnX86(dw: Word, ds: nat, sw: Word, ss: nat, bits: nat): (w: Word)
    requires 1 <= bits && ds + bits <= 64 && ss + bits <= 64
  {
    var mask := MaskOnX86(bits);
    OrWord(And(dw, Not(Shl(mask, ds))), Shl(And(Shr(sw, ss), mask), ds))
  }

  /**
   * A whole aligned word: the intended step writes the source word, while the
   * machine's step (mask 0) leaves the destination word as it was.
   */
  lemma CopyChunkFullWord(dw: Word, sw: Word)
    ensures CopyChunk(dw, 0, sw, 0, 64) == sw
    ensures CopyChunkOnX86(dw, 0, sw, 0, 64) == dw
  {
    Pow2Of64();
    assert Pow2(0) == 1;
    ModOfSmall(dw, TWO_TO_THE_64);
    ModOfSmall(sw, TWO_TO_THE_64);
    var ones := TWO_TO_THE_64 - 1;
    LowMaskValue(64);
    ModOfSmall(ones, TWO_TO_THE_64);
    assert Shl(ones, 0) == ones;
    AndZero(dw);
    AndOnes(sw, 64);
    assert CopyChunk(dw, 0, sw, 0, 64) == Or(0, sw);
    MaskOnX86IsEmptyForFullWord();
    ModOfSmall(0, TWO_TO_THE_64);
    assert Shl(0, 0) == 0;
    AndOnes(dw, 64);
    AndZero(sw);
    assert CopyChunkOnX86(dw, 0, sw, 0, 64) == Or(dw, 0);
  }

  // ---------------------------------------------------------------------
  // Bit strings as numbers (bit 0 least significant)

  /** The number a little-endian bit string denotes. */
  function ValueOf(bits: seq<bool>): (v: nat)
    ensures v < Pow2(|bits|)
  {
    if |bits| == 0 then 0 else (if bits[0] then 1 else 0) + 2 * ValueOf(bits[1..])
  }

  /** The low w bits of v. */
  function NatBits(v: nat, w: nat): (bits: seq<bool>)
    ensures |bits| == w
    ensures forall j :: 0 <= j < w ==> bits[j] == Bit(v, j)
  {
    seq(w, j requires 0 <= j => Bit(v, j))
  }

  function Zeros(n: nat): (bits: seq<bool>)
    ensures |bits| == n
    ensures forall j :: 0 <= j < n ==> !bits[j]
  {
    seq(n, _ => false)
  }

  /** Reading back the low w bits of v gives v modulo 2^w. */
  lemma {:induction false} ValueOfNatBits(v: nat, w: nat)
    ensures ValueOf(NatBits(v, w)) == v % Pow2(w)
  {
    if w > 0 {
      var bits := NatBits(v, w);
      assert bits[1..] == NatBits(v / 2, w - 1) by {
        forall j | 0 <= j < w - 1
          ensures bits[1..][j] == NatBits(v / 2, w - 1)[j]
        {
          BitOfHalf(v, j + 1);
        }
      }
      ValueOfNatBits(v / 2, w - 1);
      ModDouble(v, Pow2(w - 1));
    }
  }

  lemma {:induction false} ValueOfZeros(n: nat)
    ensures ValueOf(Zeros(n)) == 0
  {
    if n > 0 {
      assert Zeros(n)[1..] == Zeros(n - 1);
      ValueOfZeros(n - 1);
    }
  }
}
