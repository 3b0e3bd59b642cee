/**
 * The packed bit store: `bit_copy`, which moves a run of bits between two
 * word arrays a word-sized chunk at a time, and the `BitVec` class, a
 * fixed-length bit vector kept in ceil(n / 64) 64-bit words.
 *
 * Bit k of a word array is bit k % 64 of word k / 64.  The bits a vector
 * stores (`Stored`) include the padding bits of its last word; the vector's
 * own bits (`Bits`) are the first `bitSize` of them.
 */
module BitVecs {
  import opened Math
  import opened Words

  /** Bit k of a run of words. */
  function BitAt(ws: seq<Word>, k: nat): (b: bool)
    requires k < 64 * |ws|
  {
    Bit(ws[k / 64], k % 64)
  }

  /** The first n bits of a run of words. */
  function BitsOf(ws: seq<Word>, n: nat): (bits: seq<bool>)
    requires n <= 64 * |ws|
    ensures |bits| == n
    ensures forall k :: 0 <= k < n ==> bits[k] == BitAt(ws, k)
  {
    seq(n, k requires 0 <= k < n => BitAt(ws, k))
  }

  lemma BitAtWord(ws: seq<Word>, w: nat, t: nat)
    requires w < |ws| && t < 64
    ensures BitAt(ws, 64 * w + t) == Bit(ws[w], t)
  {
    DivModUnique(64 * w + t, 64, w, t);
  }

  /** The bits of word w are the array's bits [64 * w, 64 * w + 64). */
  lemma BitsOfWord(ws: seq<Word>, w: nat)
    requires w < |ws|
    ensures forall t :: 0 <= t < 64 ==> BitAt(ws, 64 * w + t) == Bit(ws[w], t)
  {
    forall t | 0 <= t < 64 {
      BitAtWord(ws, w, t);
    }
  }

  /** `s` with the bits of `t` written over it from position `at` on. */
  function Splice(s: seq<bool>, at: nat, t: seq<bool>): (r: seq<bool>)
    requires at + |t| <= |s|
    ensures |r| == |s|
    ensures forall k :: 0 <= k < |s| ==> r[k] == if at <= k < at + |t| then t[k - at] else s[k]
  {
    s[..at] + t + s[at + |t|..]
  }

  /** Reading back a spliced range gives the bits written. */
  lemma SpliceThenSlice(s: seq<bool>, at: nat, t: seq<bool>)
    requires at + |t| <= |s|
    ensures Splice(s, at, t)[at..at + |t|] == t
  {
    var r := Splice(s, at, t);
    forall k | 0 <= k < |t|
      ensures r[at..at + |t|][k] == t[k]
    {
    }
  }

  /** A splice leaves every range it does not overlap as it was. */
  lemma SpliceElsewhere(s: seq<bool>, at: nat, t: seq<bool>, lo: nat, hi: nat)
    requires at + |t| <= |s| && lo <= hi <= |s|
    requires hi <= at || at + |t| <= lo
    ensures Splice(s, at, t)[lo..hi] == s[lo..hi]
  {
    var r := Splice(s, at, t);
    forall k | 0 <= k < hi - lo
      ensures r[lo..hi][k] == s[lo..hi][k]
    {
    }
  }

  /**
   * Writing one chunk into word pd changes exactly the bits of the field
   * [64 * pd + ds, 64 * pd + ds + bits) of the array.
   */
  lemma ChunkStep(ws: seq<Word>, pd: nat, ds: nat, sw: Word, ss: nat, bits: nat)
    requires pd < |ws| && 1 <= bits && ds + bits <= 64 && ss + bits <= 64
    ensures var ws' := ws[pd := CopyChunk(ws[pd], ds, sw, ss, bits)];
      forall k :: 0 <= k < 64 * |ws| ==>
        BitAt(ws', k) == if 64 * pd + ds <= k < 64 * pd + ds + bits
                         then Bit(sw, k - 64 * pd - ds + ss) else BitAt(ws, k)
  {
    var ws' := ws[pd := CopyChunk(ws[pd], ds, sw, ss, bits)];
    forall k | 0 <= k < 64 * |ws|
      ensures BitAt(ws', k) == if 64 * pd + ds <= k < 64 * pd + ds + bits
                               then Bit(sw, k - 64 * pd - ds + ss) else BitAt(ws, k)
    {
      var q, r := k / 64, k % 64;
      assert k == 64 * q + r;
      if q == pd {
        CopyChunkBit(ws[pd], ds, sw, ss, bits, r);
      }
    }
  }

  /**
   * `dst'` holds the bits of `src` from position s on in its positions
   * [d, d + n), and the bits of `dst` everywhere else.
   */
  ghost predicate Copied(dst': seq<Word>, dst: seq<Word>, d: nat, src: seq<Word>, s: nat, n: nat)
    requires |dst'| == |dst| && d + n <= 64 * |dst| && s + n <= 64 * |src|
  {
    forall k :: 0 <= k < 64 * |dst| ==>
      BitAt(dst', k) == if d <= k < d + n then BitAt(src, s + k - d) else BitAt(dst, k)
  }

  /** One round of the copy extends the copied range by the chunk just written. */
  lemma CopiedStep(dst0: seq<Word>, mid: seq<Word>, d: nat, src: seq<Word>, s: nat, c: nat,
                   pd: nat, ds: nat, ps: nat, ss: nat, bits: nat)
    requires |mid| == |dst0| && pd < |mid| && ps < |src|
    requires 1 <= bits && ds + bits <= 64 && ss + bits <= 64
    requires 64 * pd + ds == d + c && 64 * ps + ss == s + c
    requires d + c + bits <= 64 * |dst0| && s + c + bits <= 64 * |src|
    requires Copied(mid, dst0, d, src, s, c)
    ensures Copied(mid[pd := CopyChunk(mid[pd], ds, src[ps], ss, bits)], dst0, d, src, s, c + bits)
  {
    var dst1 := mid[pd := CopyChunk(mid[pd], ds, src[ps], ss, bits)];
    ChunkStep(mid, pd, ds, src[ps], ss, bits);
    BitsOfWord(src, ps);
    forall k | 0 <= k < 64 * |dst0|
      ensures BitAt(dst1, k) == if d <= k < d + c + bits then BitAt(src, s + k - d) else BitAt(dst0, k)
    {
      if d + c <= k < d + c + bits {
        assert s + k - d == 64 * ps + (k - 64 * pd - ds + ss);
      }
    }
  }

  /**
   * `bit_copy`: copy n bits starting at bit `srcShift` of word `srcWord` of
   * `src` to the bits starting at bit `dstShift` of word `dstWord` of `dst`.
   * Each round moves the largest chunk that stays inside the current source
   * word and the current destination word.
   */
  method BitCopy(src: array<Word>, srcWord: nat, srcShift: nat,
                 dst: array<Word>, dstWord: nat, dstShift: nat, n: nat)
    requires src != dst
    requires srcShift < 64 && dstShift < 64
    requires 64 * srcWord + srcShift + n <= 64 * src.Length
    requires 64 * dstWord + dstShift + n <= 64 * dst.Length
    modifies dst
    ensures Copied(dst[..], old(dst[..]), 64 * dstWord + dstShift, src[..], 64 * srcWord + srcShift, n)
  {
    ghost var s: nat, d: nat := 64 * srcWord + srcShift, 64 * dstWord + dstShift;
    var ps: nat, ss: nat, pd: nat, ds: nat, left: nat := srcWord, srcShift, dstWord, dstShift, n;
    while left > 0
      invariant ss < 64 && ds < 64 && left <= n
      invariant 64 * ps + ss == s + (n - left)
      invariant 64 * pd + ds == d + (n - left)
      invariant Copied(dst[..], old(dst[..]), d, src[..], s, n - left)
      decreases left
    {
      var room := if ss < ds then 64 - ds else 64 - ss;
      var bits := if left < room then left else room;
      ghost var mid := dst[..];
      dst[pd] := CopyChunk(dst[pd], ds, src[ps], ss, bits);
      assert dst[..] == mid[pd := CopyChunk(mid[pd], ds, src[ps], ss, bits)];
      CopiedStep(old(dst[..]), mid, d, src[..], s, n - left, pd, ds, ps, ss, bits);
      ss, ds, left := ss + bits, ds + bits, left - bits;
      if ss == 64 {
        ss, ps := 0, ps + 1;
      }
      if ds == 64 {
        ds, pd := 0, pd + 1;
      }
    }
  }

  /** A fixed-length vector of bits packed into 64-bit words. */
  class BitVec {
    const bitSize: nat
    const words: array<Word>

    /** Just enough words for bitSize bits. */
    ghost predicate Valid() {
      words.Length == (bitSize + 63) / 64
    }

    /** Every bit the words hold, padding included. */
    ghost function Stored(): (bits: seq<bool>)
      reads words
      ensures |bits| == 64 * words.Length
    {
      BitsOf(words[..], 64 * words.Length)
    }

    /** The vector's bits, bit 0 first. */
    ghost function Bits(): (bits: seq<bool>)
      reads words
      requires Valid()
      ensures |bits| == bitSize
    {
      WordsFor(bitSize);
      Stored()[..bitSize]
    }

    /** `BitVec(n)`: n bits, all clear. */
    constructor (n: nat)
      ensures bitSize == n && Valid() && fresh(words)
      ensures Stored() == Zeros(64 * words.Length)
      ensures Bits() == Zeros(n)
    {
      bitSize := n;
      words := new Word[(n + 63) / 64](_ => 0);
      new;
      forall k | 0 <= k < 64 * words.Length
        ensures !Stored()[k]
      {
        assert words[k / 64] == 0;
      }
    }

    /**
     * `BitVec(n, data)`: n <= 64 bits holding the low n bits of data.  The
     * source aborts when n > 64.
     */
    constructor FromInt(n: nat, data: Word)
      requires n <= 64
      ensures bitSize == n && Valid() && fresh(words)
      ensures Bits() == NatBits(data, n)
      ensures ValueOf(Bits()) == data % Pow2(n)
    {
      bitSize := n;
      words := new Word[(n + 63) / 64](_ => 0);
      new;
      if n > 0 {
        words[0] := And(data, LowMask(n));
        forall k | 0 <= k < n
          ensures Bits()[k] == Bit(data, k)
        {
          BitAtWord(words[..], 0, k);
          AndBit(data, LowMask(n), k);
          LowMaskBit(n, k);
        }
      }
      ValueOfNatBits(data, n);
    }

    function Size(): (n: nat)
      ensures n == bitSize
    {
      bitSize
    }

    /** `operator[]`: bit i, read through the single-bit mask `1 << (i % 64)`. */
    method Test(i: nat) returns (b: bool)
      requires i < 64 * words.Length
      ensures b == Stored()[i]
      ensures Valid() && i < bitSize ==> b == Bits()[i]
    {
      b := And(words[i / 64], Shl(1, i % 64)) != 0;
      TestBit(words[i / 64], i % 64);
    }

    /** `set(i, b)`: or the single-bit mask in, or and its complement in. */
    method Set(i: nat, b: bool := true)
      requires i < 64 * words.Length
      modifies words
      ensures Stored() == old(Stored())[i := b]
      ensures Valid() && i < bitSize ==> Bits() == old(Bits())[i := b]
    {
      var w, t := i / 64, i % 64;
      var unit := Shl(1, t);
      ghost var before := words[w];
      if b {
        words[w] := OrWord(words[w], unit);
      } else {
        words[w] := And(words[w], Not(unit));
      }
      ShlOne(t);
      forall k | 0 <= k < 64 * words.Length
        ensures Stored()[k] == old(Stored())[i := b][k]
      {
        var q, r := k / 64, k % 64;
        assert k == 64 * q + r && i == 64 * w + t;
        if q == w {
          UnitBit(t, r);
          OrBit(before, unit, r);
          AndBit(before, Not(unit), r);
          NotBit(unit, r);
        }
      }
    }

    /** `get_range(begin, end)`: a new vector holding bits [begin, end). */
    method GetRange(begin: nat, end: nat) returns (r: BitVec)
      requires begin <= end <= 64 * words.Length
      ensures fresh(r) && fresh(r.words) && r.Valid()
      ensures r.bitSize == end - begin
      ensures r.Bits() == Stored()[begin..end]
    {
      var count := end - begin;
      r := new BitVec(count);
      WordsFor(count);
      BitCopy(words, begin / 64, begin % 64, r.words, 0, 0, count);
      forall k | 0 <= k < count
        ensures r.Bits()[k] == Stored()[begin..end][k]
      {
      }
    }

    /**
     * `set_range(begin, src)`: overwrite bits [begin, begin + src.size()) with
     * the bits of src, which must be another vector.
     */
    method SetRange(begin: nat, src: BitVec)
      requires src.Valid() && src.words != words
      requires begin + src.bitSize <= 64 * words.Length
      modifies words
      ensures Stored() == Splice(old(Stored()), begin, src.Bits())
      ensures Valid() && begin + src.bitSize <= bitSize ==>
        Bits() == Splice(old(Bits()), begin, src.Bits())
    {
      WordsFor(src.bitSize);
      BitCopy(src.words, 0, 0, words, begin / 64, begin % 64, src.bitSize);
      forall k | 0 <= k < 64 * words.Length
        ensures Stored()[k] == Splice(old(Stored()), begin, src.Bits())[k]
      {
      }
    }

    /**
     * `int_value()`: the vector read as an unsigned number, for vectors of at
     * most 64 bits.  An empty vector has no word to read; its mask is 0 and
     * the value 0 whatever the word would have held.
     */
    method IntValue() returns (v: Word)
      requires Valid() && bitSize <= 64
      ensures v == ValueOf(Bits())
    {
      if bitSize == 0 {
        v := 0;
      } else {
        v := And(words[0], LowMask(bitSize));
        LowMaskValue(bitSize);
        AndOnes(words[0], bitSize);
        ValueOfNatBits(words[0], bitSize);
        assert Bits() == NatBits(words[0], bitSize) by {
          forall k | 0 <= k < bitSize
            ensures Bits()[k] == Bit(words[0], k)
          {
            BitAtWord(words[..], 0, k);
          }
        }
      }
    }
  }

  /** Field i of the given width ends within n bits. */
  predicate FieldFits(width: nat, i: nat, n: nat) {
    width * (i + 1) <= n
  }

  /** If count fields fit, each of them does. */
  lemma AllFieldsFit(width: nat, count: nat, n: nat)
    requires width * count <= n
    ensures forall i :: 0 <= i < count ==> FieldFits(width, i, n)
  {
    forall i | 0 <= i < count
      ensures FieldFits(width, i, n)
    {
      MulMonotone(width, i + 1, count);
    }
  }

  /** Field i of a run of fields of the given width. */
  function Field(bits: seq<bool>, width: nat, i: nat): (field: seq<bool>)
    requires FieldFits(width, i, |bits|)
  {
    bits[width * i..width * i + width]
  }

  /** Fields j < i end where field i begins. */
  lemma FieldsApart(width: nat, j: nat, i: nat)
    requires j < i
    ensures width * (j + 1) == width * j + width <= width * i
  {
    MulMonotone(width, j + 1, i);
  }

  /** A value below 2^w reads back whole from its w low bits. */
  lemma ValueOfFittingBits(x: nat, w: nat)
    requires x < Pow2(w)
    ensures ValueOf(NatBits(x, w)) == x
  {
    ValueOfNatBits(x, w);
    DivModUnique(x, Pow2(w), 0, x);
  }

  /** Writing field i sets that field and keeps every other field that fits. */
  lemma SpliceField(before: seq<bool>, width: nat, i: nat, field: seq<bool>)
    requires |field| == width && FieldFits(width, i, |before|)
    ensures width * i + width <= |before|
    ensures forall j: nat :: FieldFits(width, j, |before|) ==>
      Field(Splice(before, width * i, field), width, j) == (if j == i then field else Field(before, width, j))
  {
    assert width * (i + 1) == width * i + width;
    var after := Splice(before, width * i, field);
    forall j: nat | FieldFits(width, j, |before|)
      ensures Field(after, width, j) == (if j == i then field else Field(before, width, j))
    {
      if j == i {
        SpliceThenSlice(before, width * i, field);
      } else {
        if j < i {
          FieldsApart(width, j, i);
        } else {
          FieldsApart(width, i, j);
        }
        assert width * (j + 1) == width * j + width;
        SpliceElsewhere(before, width * i, field, width * j, width * j + width);
      }
    }
  }

  /** Store values[i] in the i-th width-bit field of v, one `set_range` per field. */
  method StoreFields(v: BitVec, width: nat, values: seq<Word>)
    requires 1 <= width <= 64 && width * |values| <= 64 * v.words.Length
    modifies v.words
    ensures forall i :: 0 <= i < |values| ==> FieldFits(width, i, 64 * v.words.Length)
    ensures forall i :: 0 <= i < |values| ==> Field(v.Stored(), width, i) == NatBits(values[i], width)
  {
    AllFieldsFit(width, |values|, 64 * v.words.Length);
    var i := 0;
    while i < |values|
      invariant 0 <= i <= |values|
      invariant forall j :: 0 <= j < i ==> Field(v.Stored(), width, j) == NatBits(values[j], width)
    {
      assert FieldFits(width, i, 64 * v.words.Length);
      var e := new BitVec.FromInt(width, values[i]);
      ghost var before := v.Stored();
      v.SetRange(width * i, e);
      SpliceField(before, width, i, e.Bits());
      assert v.Stored() == Splice(before, width * i, NatBits(values[i], width));
      i := i + 1;
    }
  }

  /** Read the first count width-bit fields of v back, one `get_range` per field. */
  method LoadFields(v: BitVec, width: nat, count: nat) returns (values: seq<Word>)
    requires 1 <= width <= 64 && width * count <= 64 * v.words.Length
    ensures |values| == count
    ensures forall i :: 0 <= i < count ==> FieldFits(width, i, 64 * v.words.Length)
    ensures forall i :: 0 <= i < count ==> values[i] == ValueOf(Field(v.Stored(), width, i))
  {
    AllFieldsFit(width, count, 64 * v.words.Length);
    values := [];
    while |values| < count
      invariant |values| <= count
      invariant forall j :: 0 <= j < |values| ==> values[j] == ValueOf(Field(v.Stored(), width, j))
    {
      var i := |values|;
      MulMonotone(width, i + 1, count);
      var r := v.GetRange(width * i, width * i + width);
      var x := r.IntValue();
      values := values + [x];
    }
  }

  /**
   * Writing a run of fields and reading them back gives the values written,
   * and so does overwriting every field a second time.
   */
  method FieldsRoundTrip(width: nat, first: seq<Word>, second: seq<Word>)
    returns (readFirst: seq<Word>, readSecond: seq<Word>)
    requires 1 <= width <= 64 && |first| == |second|
    requires forall i :: 0 <= i < |first| ==> first[i] < Pow2(width)
    requires forall i :: 0 <= i < |second| ==> second[i] < Pow2(width)
    ensures readFirst == first && readSecond == second
  {
    var v := new BitVec(width * |first|);
    WordsFor(width * |first|);
    StoreFields(v, width, first);
    readFirst := LoadFields(v, width, |first|);
    forall i | 0 <= i < |first|
      ensures readFirst[i] == first[i]
    {
      ValueOfFittingBits(first[i], width);
    }
    StoreFields(v, width, second);
    readSecond := LoadFields(v, width, |second|);
    forall i | 0 <= i < |second|
      ensures readSecond[i] == second[i]
    {
      ValueOfFittingBits(second[i], width);
    }
  }
}
