/**
 * `SimpleDereferenceTable`, the warm-up dereference table: a store of
 * n_slots slots of q bits each, split into buckets of log2_ceil(n)^4 slots.
 * Each bucket keeps a free list threaded through its own slots: while a slot
 * is free, its low p_bits bits hold the index of the next free slot of the
 * bucket, and a second bit vector holds one p_bits-wide head per bucket.
 *
 * In this version of the table only the sizing, the free-list set-up, the
 * four free-list accessors and the bucket routing of `Allocate` do anything;
 * the rest of the interface returns fixed values.
 */
module TinyPointers {
  import opened Math
  import opened Words
  import opened BitVecs
  import opened Util

  // ---------------------------------------------------------------------
  // Sizing

  /** The sizes the table derives from the requested slot count. */
  datatype Layout = Layout(slotsPerBucket: nat, bucketCount: nat, nSlots: nat, logN: nat, pBits: nat)

  /**
   * The member initialisers: log2_ceil(n)^4 slots per bucket, enough
   * buckets to hold n slots, and the two logarithms.  Below two slots the
   * bucket size would be 0 and the bucket count would divide by it.
   */
  function LayoutFor(n: nat): (l: Layout)
    requires n >= 2
    ensures l.slotsPerBucket >= 1 && l.bucketCount >= 1
    ensures l.nSlots == l.slotsPerBucket * l.bucketCount
  {
    var spb := Pow4(Log2Ceil(n));
    var bc := CeilDiv(n, spb);
    MulMonotone(spb, 1, bc);
    Layout(spb, bc, spb * bc, Log2Ceil(spb * bc), Log2Ceil(spb))
  }

  /** k^4, positive for positive k. */
  function Pow4(k: nat): (p: nat)
    ensures k >= 1 ==> p >= 1
  {
    if k >= 1 then MulBoth(1, k, 1, k); MulBoth(1, k * k, 1, k); MulBoth(1, k * k * k, 1, k);
      k * k * k * k
    else 0
  }

  lemma MulBoth(a: nat, b: nat, c: nat, d: nat)
    requires a <= b && c <= d
    ensures a * c <= b * d
  {
    MulMonotone(a, c, d);
    MulMonotone(d, a, b);
  }

  lemma Pow4Monotone(a: nat, b: nat)
    requires a <= b
    ensures Pow4(a) <= Pow4(b)
  {
    MulBoth(a, b, a, b);
    MulBoth(a * a, b * b, a, b);
    MulBoth(a * a * a, b * b * b, a, b);
  }

  /** ceil(a / d), as `(a + d - 1) / d`; at least 1 for a >= 1. */
  function CeilDiv(a: nat, d: nat): (c: nat)
    requires d >= 1
    ensures a >= 1 ==> c >= 1
  {
    if a >= 1 then
      DivMonotone(d, a + d - 1, d);
      MulDivCancel(1, d);
      (a + d - 1) / d
    else (a + d - 1) / d
  }

  /** d * ceil(a / d) is the least multiple of d that is at least a, and ceil(a / d) <= a. */
  lemma CeilDivBounds(a: nat, d: nat)
    requires d >= 1
    ensures a <= d * CeilDiv(a, d) < a + d
    ensures a >= 1 ==> CeilDiv(a, d) <= a
  {
    var m, c := a + d - 1, CeilDiv(a, d);
    var r := m % d;
    assert m == c * d + r && 0 <= r < d;
    assert d * c == c * d;
    if a >= 1 {
      MulGap(d, a, c);
      MulMonotone(a, 1, d);
    }
  }

  /**
   * In unbounded arithmetic, rounding up to whole buckets never loses a slot
   * and adds less than one bucket, and the bucket count never exceeds n.
   * With usize arithmetic this holds while the rounding does not wrap
   * (SlotCheckPasses).
   */
  lemma LayoutCovers(n: nat)
    requires n >= 2
    ensures var l := LayoutFor(n);
      n <= l.nSlots < n + l.slotsPerBucket && l.bucketCount <= n
  {
    CeilDivBounds(n, LayoutFor(n).slotsPerBucket);
  }

  /**
   * `spb * ((n + spb - 1) / spb)` in usize arithmetic: the sum wraps around
   * at 2^64, and a wrapped sum leaves a bucket count of 0.
   */
  function WrappedSlots(n: nat, spb: nat): (slots: nat)
    requires spb >= 1
  {
    var count := ((n + spb - 1) % TWO_TO_THE_64) / spb;
    MulMonotone(spb, 0, count);
    spb * count
  }

  /** The wrapped slot count covers n exactly when the sum does not wrap. */
  lemma WrappedSlotsCover(n: U64, spb: nat)
    requires n >= 1 && 1 <= spb <= TWO_TO_THE_64
    ensures WrappedSlots(n, spb) >= n <==> n + spb - 1 < TWO_TO_THE_64
    ensures n + spb - 1 < TWO_TO_THE_64 ==> WrappedSlots(n, spb) == spb * CeilDiv(n, spb)
  {
    var m := n + spb - 1;
    if m < TWO_TO_THE_64 {
      ModOfSmall(m, TWO_TO_THE_64);
      CeilDivBounds(n, spb);
    } else {
      DivModUnique(m, TWO_TO_THE_64, 1, m - TWO_TO_THE_64);
      ModOfSmall(m - TWO_TO_THE_64, spb);
      assert WrappedSlots(n, spb) == spb * 0;
    }
  }

  /** n_slots as the source computes it, with the bucket count rounded up in usize arithmetic. */
  function CheckedSlots(n: U64): (slots: nat)
    requires n >= 2
  {
    WrappedSlots(n, LayoutFor(n).slotsPerBucket)
  }

  /**
   * The check `n_slots >= n` passes exactly when the rounding up to whole
   * buckets does not wrap, and then n_slots is the unbounded one.
   */
  lemma SlotCheckPasses(n: U64)
    requires n >= 2
    ensures CheckedSlots(n) >= n <==> n + LayoutFor(n).slotsPerBucket - 1 < TWO_TO_THE_64
    ensures n + LayoutFor(n).slotsPerBucket - 1 < TWO_TO_THE_64 ==> CheckedSlots(n) == LayoutFor(n).nSlots
  {
    var l := LayoutFor(n);
    assert l.bucketCount == CeilDiv(n, l.slotsPerBucket);
    PointerWidthBound(n);
    Pow2Monotone(24, 64);
    Pow2Of64();
    WrappedSlotsCover(n, l.slotsPerBucket);
  }

  /** The check fails for every n above 2^64 - 2^24, and passes at 2^64 - 2^24. */
  lemma SlotCheckBoundary(n: U64)
    requires n > 0x8000_0000_0000_0000
    ensures CheckedSlots(n) >= n <==> n <= TWO_TO_THE_64 - 0x100_0000
  {
    SpbOfTopHalf(n);
    WrappedSlotsCover(n, 0x100_0000);
  }

  /** Above 2^63 slots a bucket holds 64^4 == 2^24 slots. */
  lemma SpbOfTopHalf(n: U64)
    requires n > 0x8000_0000_0000_0000
    ensures LayoutFor(n).slotsPerBucket == 0x100_0000
  {
    Pow2Of64();
    Pow2Of62();
    Log2CeilExact(n, 64);
    assert Pow4(64) == 0x100_0000;
  }

  /**
   * A next pointer is no wider than log_n, so the constructor's check
   * q >= log_n leaves room for it in every slot; the store of 2^log_n slots
   * holds every bucket.
   */
  lemma PointerFitsSlot(n: nat)
    requires n >= 2
    ensures var l := LayoutFor(n);
      l.pBits <= l.logN && l.nSlots <= Pow2(l.logN) && l.bucketCount <= Pow2(l.logN)
  {
    var l := LayoutFor(n);
    var spb, bc := l.slotsPerBucket, l.bucketCount;
    MulMonotone(spb, 1, bc);
    MulMonotone(bc, 1, spb);
    Log2CeilMonotone(spb, l.nSlots);
  }

  /**
   * For a 64-bit slot count a bucket holds at most 64^4 == 2^24 slots, so a
   * tiny pointer is at most 24 bits wide: the `BitVec(p_bits, data)` the
   * constructor builds never exceeds its 64-bit limit.
   */
  lemma PointerWidthBound(n: U64)
    requires n >= 2
    ensures LayoutFor(n).slotsPerBucket <= Pow2(24) && LayoutFor(n).pBits <= 24
  {
    Pow2Of64();
    Log2CeilLeast(n, 64);
    Pow4Monotone(Log2Ceil(n), 64);
    assert Pow2(24) == Pow4(64) by {
      Pow2Of16();
      Pow2Add(16, 8);
      assert Pow2(8) == 256;
    }
    Log2CeilLeast(LayoutFor(n).slotsPerBucket, 24);
  }

  /**
   * What the table's invariant needs of the layout for a 64-bit n: buckets
   * of fewer than 2^31 slots (so slots_per_bucket fits its i32 field), at most
   * 2^log_n buckets, and pointers of at most log_n and at most 64 bits.
   */
  lemma LayoutFits(n: U64)
    requires n >= 2
    ensures var l := LayoutFor(n);
      l.slotsPerBucket < 0x8000_0000 && l.bucketCount <= Pow2(l.logN) &&
      l.pBits <= l.logN && l.pBits <= 24
  {
    PointerFitsSlot(n);
    PointerWidthBound(n);
    Pow2Of32();
    Pow2Monotone(24, 31);
  }

  /** A table of 16 slots is one bucket of 256 slots with 8-bit pointers. */
  lemma LayoutOf16()
    ensures LayoutFor(16) == Layout(256, 1, 256, 8, 8)
  {
    assert Pow2(4) == 16 && Pow2(8) == 256;
    Log2CeilOfPow2(4);
    Log2CeilOfPow2(8);
    assert Pow4(4) == 256;
    assert CeilDiv(16, 256) == 1 by {
      DivModUnique(271, 256, 1, 15);
    }
  }

  // ---------------------------------------------------------------------
  // Where a slot lives in the store

  /** The global index of slot s of bucket b. */
  function SlotIndex(slotsPerBucket: nat, b: nat, s: nat): (i: nat) {
    b * slotsPerBucket + s
  }

  /** Slots of the store's buckets have indices below n_slots. */
  lemma SlotIndexBelow(slotsPerBucket: nat, bucketCount: nat, b: nat, s: nat)
    requires b < bucketCount && s < slotsPerBucket
    ensures SlotIndex(slotsPerBucket, b, s) < slotsPerBucket * bucketCount
  {
    MulGap(slotsPerBucket, b, bucketCount);
  }

  /** Distinct (bucket, slot) pairs have distinct indices. */
  lemma SlotIndexInjective(slotsPerBucket: nat, b1: nat, s1: nat, b2: nat, s2: nat)
    requires s1 < slotsPerBucket && s2 < slotsPerBucket
    requires b1 != b2 || s1 != s2
    ensures SlotIndex(slotsPerBucket, b1, s1) != SlotIndex(slotsPerBucket, b2, s2)
  {
    MulGap(slotsPerBucket, b1, b2);
    MulGap(slotsPerBucket, b2, b1);
  }

  /** The q-bit slot of index i ends within a store of count slots. */
  lemma SlotInStore(i: nat, count: nat, q: nat)
    requires i < count
    ensures i * q + q <= count * q
  {
    MulGap(q, i, count);
  }

  /** The q-bit slots of two distinct indices do not overlap. */
  lemma SlotsApart(i: nat, j: nat, q: nat)
    requires i != j
    ensures i * q + q <= j * q || j * q + q <= i * q
  {
    MulGap(q, i, j);
    MulGap(q, j, i);
  }

  /** Every field of an all-clear run of count fields is all clear. */
  lemma FieldsOfZeros(width: nat, count: nat)
    ensures forall i :: 0 <= i < count ==>
      FieldFits(width, i, count * width) && Field(Zeros(count * width), width, i) == Zeros(width)
  {
    forall i | 0 <= i < count
      ensures FieldFits(width, i, count * width) && Field(Zeros(count * width), width, i) == Zeros(width)
    {
      MulMonotone(width, i + 1, count);
      assert width * count == count * width;
    }
  }

  // ---------------------------------------------------------------------
  // The initial free lists

  /**
   * In a store of q-bit slots, every slot before slot s of bucket b starts
   * with its successor's index s' + 1, written w bits wide.
   */
  ghost predicate Threaded(bits: seq<bool>, slotsPerBucket: nat, bucketCount: nat, q: nat, w: nat, b: nat, s: nat) {
    forall b': nat, s': nat :: b' < bucketCount && s' < slotsPerBucket && (b' < b || (b' == b && s' < s)) ==>
      SlotIndex(slotsPerBucket, b', s') * q + w <= |bits| &&
      bits[SlotIndex(slotsPerBucket, b', s') * q..SlotIndex(slotsPerBucket, b', s') * q + w] == NatBits(s' + 1, w)
  }

  /** Writing s + 1 into slot s of bucket b extends the threaded prefix by that slot. */
  lemma ThreadStep(bits: seq<bool>, after: seq<bool>, slotsPerBucket: nat, bucketCount: nat, q: nat, w: nat, b: nat, s: nat)
    requires w <= q && b < bucketCount && s < slotsPerBucket
    requires |bits| == slotsPerBucket * bucketCount * q
    requires SlotIndex(slotsPerBucket, b, s) * q + w <= |bits|
    requires after == Splice(bits, SlotIndex(slotsPerBucket, b, s) * q, NatBits(s + 1, w))
    requires Threaded(bits, slotsPerBucket, bucketCount, q, w, b, s)
    ensures Threaded(after, slotsPerBucket, bucketCount, q, w, b, s + 1)
  {
    var i := SlotIndex(slotsPerBucket, b, s);
    SlotIndexBelow(slotsPerBucket, bucketCount, b, s);
    SlotInStore(i, slotsPerBucket * bucketCount, q);
    var t := NatBits(s + 1, w);
    forall b': nat, s': nat | b' < bucketCount && s' < slotsPerBucket && (b' < b || (b' == b && s' < s + 1))
      ensures SlotIndex(slotsPerBucket, b', s') * q + w <= |after| &&
        after[SlotIndex(slotsPerBucket, b', s') * q..SlotIndex(slotsPerBucket, b', s') * q + w] == NatBits(s' + 1, w)
    {
      var j := SlotIndex(slotsPerBucket, b', s');
      SlotIndexBelow(slotsPerBucket, bucketCount, b', s');
      SlotInStore(j, slotsPerBucket * bucketCount, q);
      if b' == b && s' == s {
        SpliceThenSlice(bits, i * q, t);
      } else {
        SlotIndexInjective(slotsPerBucket, b, s, b', s');
        SlotsApart(i, j, q);
        MulMonotone(j, 0, q);
        SpliceElsewhere(bits, i * q, t, j * q, j * q + w);
      }
    }
  }

  /** A bucket threaded to its end leaves the next bucket threaded to its start. */
  lemma ThreadedNextBucket(bits: seq<bool>, slotsPerBucket: nat, bucketCount: nat, q: nat, w: nat, b: nat)
    requires Threaded(bits, slotsPerBucket, bucketCount, q, w, b, slotsPerBucket)
    ensures Threaded(bits, slotsPerBucket, bucketCount, q, w, b + 1, 0)
  {
    forall b': nat, s': nat | b' < bucketCount && s' < slotsPerBucket && b' < b + 1
      ensures SlotIndex(slotsPerBucket, b', s') * q + w <= |bits| &&
        bits[SlotIndex(slotsPerBucket, b', s') * q..SlotIndex(slotsPerBucket, b', s') * q + w] == NatBits(s' + 1, w)
    {
      assert b' < b || (b' == b && s' < slotsPerBucket);
    }
  }

  ghost predicate IsPow2(x: nat) {
    exists k :: Pow2(k) == x
  }

  /**
   * The constructor writes s + 1 as slot s's next pointer in p_bits =
   * log2_ceil(slots_per_bucket) bits.  Every pointer but the last reads back
   * as s + 1.  The last one was meant to be the terminator slots_per_bucket,
   * which survives only when slots_per_bucket is not a power of two;
   * otherwise it needs p_bits + 1 bits and reads back as 0, the first slot.
   */
  lemma InitialNextPointer(slotsPerBucket: nat, s: nat)
    requires s < slotsPerBucket
    ensures ValueOf(NatBits(s + 1, Log2Ceil(slotsPerBucket))) ==
      if s + 1 < slotsPerBucket then s + 1
      else if IsPow2(slotsPerBucket) then 0
      else slotsPerBucket
  {
    var w := Log2Ceil(slotsPerBucket);
    ValueOfNatBits(s + 1, w);
    if s + 1 < slotsPerBucket {
      ModOfSmall(s + 1, Pow2(w));
    } else if IsPow2(slotsPerBucket) {
      var k :| Pow2(k) == slotsPerBucket;
      Log2CeilOfPow2(k);
      DivModUnique(s + 1, Pow2(w), 1, 0);
    } else {
      assert Pow2(w) != slotsPerBucket;
      ModOfSmall(s + 1, Pow2(w));
    }
  }

  /** With 16 slots requested, the last slot of the bucket points back to slot 0. */
  lemma LastNextPointerOf16()
    ensures var l := LayoutFor(16);
      ValueOf(NatBits(l.slotsPerBucket, l.pBits)) == 0
  {
    LayoutOf16();
    assert Pow2(8) == 256;
    InitialNextPointer(256, 255);
  }

  /** The width that holds every slot index and the terminator slots_per_bucket. */
  function SentinelWidth(slotsPerBucket: nat): (w: nat) {
    Log2Ceil(slotsPerBucket + 1)
  }

  /** In SentinelWidth bits every initial next pointer, terminator included, reads back whole. */
  lemma SentinelFits(slotsPerBucket: nat, s: nat)
    requires s < slotsPerBucket
    ensures ValueOf(NatBits(s + 1, SentinelWidth(slotsPerBucket))) == s + 1
  {
    var w := SentinelWidth(slotsPerBucket);
    ValueOfNatBits(s + 1, w);
    ModOfSmall(s + 1, Pow2(w));
  }

  // ---------------------------------------------------------------------
  // Bucket routing

  lemma BucketCountIsWord(bucketCount: nat, logN: nat)
    requires logN <= 62 && bucketCount <= Pow2(logN)
    ensures bucketCount < TWO_TO_THE_64
  {
    Pow2Of62();
    Pow2Monotone(logN, 62);
  }

  /**
   * The bucket `Allocate` routes a hash to:
   * `((hash >> (log_n + 1)) * bucket_count + 1) >> (63 - log_n)`.  Both shift
   * counts are below 64 only when log_n <= 62.
   */
  function BucketIndex(hash: Word, bucketCount: nat, logN: nat): (i: Word)
    requires logN <= 62 && 1 <= bucketCount <= Pow2(logN)
  {
    BucketCountIsWord(bucketCount, logN);
    Shr(Add64(Mul64(Shr(hash, logN + 1), bucketCount), 1), 63 - logN)
  }

  /** The product and the increment never wrap: they stay within 2^63. */
  lemma BucketIndexValue(hash: Word, bucketCount: nat, logN: nat)
    requires logN <= 62 && 1 <= bucketCount <= Pow2(logN)
    ensures var x := Shr(hash, logN + 1);
      x * bucketCount + 1 <= Pow2(63) &&
      BucketIndex(hash, bucketCount, logN) == (x * bucketCount + 1) / Pow2(63 - logN)
  {
    BucketCountIsWord(bucketCount, logN);
    var x := Shr(hash, logN + 1);
    var p := Pow2(63 - logN);
    ShiftedBelow(hash, logN + 1);
    ProductBounds(x, bucketCount, p, Pow2(logN));
    Pow2Add(63 - logN, logN);
    var prod := x * bucketCount;
    Mul64Exact(x, bucketCount);
    Pow2Of62();
    ModOfSmall(prod + 1, TWO_TO_THE_64);
  }

  /** (x * c + 1) / p stays below c when x < p and c >= 2. */
  lemma RoutedBelow(x: nat, c: nat, p: nat)
    requires x < p && c >= 2
    ensures (x * c + 1) / p < c
  {
    MulMonotone(c, x, p - 1);
    assert (p - 1) * c == p * c - c;
    DivBelow(x * c + 1, p, c);
  }

  /** (x + 1) / p is 1 when x == p - 1 and 0 for smaller x. */
  lemma RoutedOne(x: nat, p: nat)
    requires x < p
    ensures (x * 1 + 1) / p == if x == p - 1 then 1 else 0
  {
    if x + 1 == p {
      DivModUnique(x + 1, p, 1, 0);
    } else {
      ModOfSmall(x + 1, p);
    }
  }

  /** The routing formula on the hash's top bits stays below c buckets. */
  lemma RoutedHashBelow(hash: Word, c: nat, logN: nat)
    requires logN <= 62 && c >= 2
    ensures (Shr(hash, logN + 1) * c + 1) / Pow2(63 - logN) < c
  {
    ShiftedBelow(hash, logN + 1);
    RoutedBelow(Shr(hash, logN + 1), c, Pow2(63 - logN));
  }

  /** With one bucket the routing formula gives 1 only for all-ones top bits. */
  lemma RoutedHashOne(hash: Word, logN: nat)
    requires logN <= 62
    ensures (Shr(hash, logN + 1) * 1 + 1) / Pow2(63 - logN) ==
      if Shr(hash, logN + 1) == Pow2(63 - logN) - 1 then 1 else 0
  {
    ShiftedBelow(hash, logN + 1);
    RoutedOne(Shr(hash, logN + 1), Pow2(63 - logN));
  }

  /** With two buckets or more the routed index passes the check `x_bucket_i < bucket_count`. */
  lemma BucketIndexInRange(hash: Word, bucketCount: nat, logN: nat)
    requires logN <= 62 && 2 <= bucketCount <= Pow2(logN)
    ensures BucketIndex(hash, bucketCount, logN) < bucketCount
  {
    BucketIndexValue(hash, bucketCount, logN);
    RoutedHashBelow(hash, bucketCount, logN);
  }

  /**
   * With a single bucket the index is 1, and fails the check, exactly when
   * the hash's top 63 - log_n bits are all ones.
   */
  lemma BucketIndexOneBucket(hash: Word, logN: nat)
    requires logN <= 62
    ensures BucketIndex(hash, 1, logN) == if Shr(hash, logN + 1) == Pow2(63 - logN) - 1 then 1 else 0
  {
    BucketIndexValue(hash, 1, logN);
    RoutedHashOne(hash, logN);
  }

  /** A 16-slot table has one bucket, and the all-ones hash is routed to bucket 1. */
  lemma BucketIndexCounterexample()
    ensures LayoutFor(16).bucketCount == 1 && LayoutFor(16).logN == 8
    ensures BucketIndex(0xFFFF_FFFF_FFFF_FFFF, 1, 8) == 1
  {
    LayoutOf16();
    ShrOfMax(9);
    BucketIndexOneBucket(0xFFFF_FFFF_FFFF_FFFF, 8);
  }

  /** Routing by scaling the hash onto the bucket count with the full product. */
  function FindBucket(hash: Word, bucketCount: Word): (r: Word)
    requires bucketCount >= 1
    ensures r < bucketCount
  {
    ScaleWide(hash, bucketCount)
  }

  /**
   * For every table size and every hash, FindBucket picks an existing
   * bucket; the hashes 0 and all ones reach the first and the last bucket.
   */
  lemma FindBucketForEveryTable(n: U64, hash: Word)
    requires n >= 2
    ensures var bc := LayoutFor(n).bucketCount;
      bc < TWO_TO_THE_64 &&
      FindBucket(hash, bc) < bc &&
      FindBucket(0, bc) == 0 && FindBucket(TWO_TO_THE_64 - 1, bc) == bc - 1
  {
    LayoutCovers(n);
    ScaleWideEnds(LayoutFor(n).bucketCount);
  }

  /** Every 64-bit table has at most 2^62 buckets, the largest range `scale_u64` takes. */
  lemma BucketCountInScaleRange(n: U64)
    requires n >= 2
    ensures LayoutFor(n).bucketCount <= MAX_RANGE
  {
    var l := LayoutFor(n);
    LayoutCovers(n);
    if n > MAX_RANGE {
      var k := Log2Ceil(n);
      Pow2Monotone(k, 1);
      assert Pow2(1) == 2;
      Pow4Monotone(2, k);
      assert Pow4(2) == 16;
      FewBuckets(n, l.slotsPerBucket, l.bucketCount);
    }
  }

  /** Buckets of at least 16 slots covering fewer than 2^64 + spb slots number at most 2^62. */
  lemma FewBuckets(n: U64, spb: nat, bc: nat)
    requires 16 <= spb && 1 <= bc && spb * bc < n + spb
    ensures bc <= MAX_RANGE
  {
    assert (bc - 1) * spb == spb * bc - spb;
    MulMonotone(bc - 1, 16, spb);
  }

  /**
   * The program's own `scale_u64` also routes every hash of every 64-bit
   * table to an existing bucket, and the hash 0 to the first one.
   */
  lemma ScaleU64RoutesEveryTable(n: U64, hash: Word)
    requires n >= 2
    ensures var bc := LayoutFor(n).bucketCount;
      1 <= bc <= MAX_RANGE && ScaleU64(hash, bc) < bc && ScaleU64(0, bc) == 0
  {
    BucketCountInScaleRange(n);
    ScaleU64OfZero(LayoutFor(n).bucketCount);
  }

  /** What `Allocate` can end in, given the hash of its key. */
  datatype AllocateStatus =
    | Unimplemented  // the status the stub returns
    | CheckFailed    // the range check on the bucket index aborts

  // ---------------------------------------------------------------------
  // The table

  /**
   * The sizes of a table agree with each other and with its two bit vectors:
   * buckets of fewer than 2^31 slots (slots_per_bucket is an i32), at most
   * 2^log_n buckets, pointers no wider than log_n, q or 64 bits, a store of
   * n_slots q-bit slots and one p_bits-wide head per bucket.
   */
  predicate WellSized(slotsPerBucket: nat, bucketCount: nat, nSlots: nat, logN: nat, pBits: nat, q: nat,
                      storageBits: nat, headBits: nat) {
    1 <= slotsPerBucket < 0x8000_0000 && 1 <= bucketCount <= Pow2(logN) &&
    nSlots == slotsPerBucket * bucketCount && pBits <= logN <= q && pBits <= 64 &&
    storageBits == nSlots * q && headBits == bucketCount * pBits
  }

  class SimpleDereferenceTable {
    const slotsPerBucket: nat
    const bucketCount: nat
    const nSlots: nat
    const logN: nat
    const pBits: nat
    const qBitsPerSlot: nat
    var size: nat
    /** n_slots slots of q bits each. */
    const storage: BitVec
    /** One p_bits-wide free-list head per bucket. */
    const freeListHead: BitVec

    /** The sizes agree with each other and with the two bit vectors. */
    ghost predicate Valid()
      reads this
    {
      storage.Valid() && freeListHead.Valid() && storage.words != freeListHead.words &&
      WellSized(slotsPerBucket, bucketCount, nSlots, logN, pBits, qBitsPerSlot, storage.bitSize, freeListHead.bitSize) &&
      size <= nSlots
    }

    /** The first bit of slot s of bucket b in the store. */
    function SlotStart(b: nat, s: nat): (pos: nat) {
      SlotIndex(slotsPerBucket, b, s) * qBitsPerSlot
    }

    lemma NextInStore(b: nat, s: nat)
      requires Valid() && b < bucketCount && s < slotsPerBucket
      ensures SlotStart(b, s) + pBits <= storage.bitSize
    {
      SlotIndexBelow(slotsPerBucket, bucketCount, b, s);
      SlotInStore(SlotIndex(slotsPerBucket, b, s), nSlots, qBitsPerSlot);
    }

    /** The next pointer slot s of bucket b holds while it is free. */
    ghost function FreeNext(b: nat, s: nat): (bits: seq<bool>)
      reads this, storage.words
      requires Valid() && b < bucketCount && s < slotsPerBucket
      ensures |bits| == pBits
    {
      NextInStore(b, s);
      storage.Bits()[SlotStart(b, s)..SlotStart(b, s) + pBits]
    }

    /** The first bit of bucket b's head. */
    function HeadStart(b: nat): (pos: nat) {
      pBits * b
    }

    lemma HeadInStore(b: nat)
      requires Valid() && b < bucketCount
      ensures HeadStart(b) + pBits <= freeListHead.bitSize
    {
      MulMonotone(pBits, b + 1, bucketCount);
      assert pBits * bucketCount == bucketCount * pBits;
    }

    /** The free-list head of bucket b. */
    ghost function FreeHead(b: nat): (bits: seq<bool>)
      reads this, freeListHead.words
      requires Valid() && b < bucketCount
      ensures |bits| == pBits
    {
      MulMonotone(pBits, b + 1, bucketCount);
      Field(freeListHead.Bits(), pBits, b)
    }

    /**
     * Size the table for n slots of q bits, then thread each bucket's free
     * list through its slots in order: slot s points to slot s + 1, and every
     * head is 0.  The source aborts unless n_slots >= n, which fails only when
     * the usize rounding wraps (SlotCheckPasses), and unless q >= log_n.
     */
    constructor (n: U64, q: nat)
      requires n >= 2 && CheckedSlots(n) >= n && q >= LayoutFor(n).logN
      ensures Valid() && size == 0 && qBitsPerSlot == q
      ensures Layout(slotsPerBucket, bucketCount, nSlots, logN, pBits) == LayoutFor(n)
      ensures fresh(storage) && fresh(storage.words) && fresh(freeListHead) && fresh(freeListHead.words)
      ensures forall b: nat, s: nat :: b < bucketCount && s < slotsPerBucket ==>
        FreeNext(b, s) == NatBits(s + 1, pBits)
      ensures forall b: nat :: b < bucketCount ==> FreeHead(b) == Zeros(pBits)
    {
      var l := LayoutFor(n);
      LayoutFits(n);
      MulMonotone(l.nSlots, 0, q);
      MulMonotone(l.bucketCount, 0, l.pBits);
      slotsPerBucket := l.slotsPerBucket;
      bucketCount := l.bucketCount;
      nSlots := l.nSlots;
      logN := l.logN;
      pBits := l.pBits;
      qBitsPerSlot := q;
      size := 0;
      storage := new BitVec(l.nSlots * q);
      freeListHead := new BitVec(l.bucketCount * l.pBits);
      new;
      ghost var heads := freeListHead.Bits();
      var b: nat := 0;
      while b < bucketCount
        invariant b <= bucketCount && Valid() && size == 0
        invariant freeListHead.Bits() == heads
        invariant ThreadedBefore(b, 0)
      {
        ThreadBucket(b);
        b := b + 1;
      }
      AllThreaded();
      HeadsClear();
    }

    /** Once every bucket is threaded, every slot holds its successor's index. */
    lemma AllThreaded()
      requires Valid() && ThreadedBefore(bucketCount, 0)
      ensures forall b: nat, s: nat :: b < bucketCount && s < slotsPerBucket ==>
        FreeNext(b, s) == NatBits(s + 1, pBits)
    {
      forall b: nat, s: nat | b < bucketCount && s < slotsPerBucket
        ensures FreeNext(b, s) == NatBits(s + 1, pBits)
      {
        assert SlotStart(b, s) == SlotIndex(slotsPerBucket, b, s) * qBitsPerSlot;
      }
    }

    /** An all-clear head vector holds a head of 0 for every bucket. */
    lemma HeadsClear()
      requires Valid() && freeListHead.Bits() == Zeros(bucketCount * pBits)
      ensures forall b: nat :: b < bucketCount ==> FreeHead(b) == Zeros(pBits)
    {
      FieldsOfZeros(pBits, bucketCount);
    }

    /** Every slot before slot s of bucket b holds s' + 1 as its next pointer. */
    ghost predicate ThreadedBefore(b: nat, s: nat)
      reads this, storage.words
      requires Valid()
    {
      Threaded(storage.Bits(), slotsPerBucket, bucketCount, qBitsPerSlot, pBits, b, s)
    }

    /** The constructor's inner loop: thread bucket b's free list through its slots in order. */
    method ThreadBucket(b: nat)
      requires Valid() && b < bucketCount && ThreadedBefore(b, 0)
      modifies storage.words
      ensures Valid() && ThreadedBefore(b + 1, 0)
    {
      var s: nat := 0;
      while s < slotsPerBucket
        invariant s <= slotsPerBucket && Valid() && ThreadedBefore(b, s)
      {
        ThreadSlot(b, s);
        s := s + 1;
      }
      ThreadedNextBucket(storage.Bits(), slotsPerBucket, bucketCount, qBitsPerSlot, pBits, b);
    }

    /** One pass of that loop: slot s of bucket b gets s + 1 as its next pointer. */
    method ThreadSlot(b: nat, s: nat)
      requires Valid() && b < bucketCount && s < slotsPerBucket && ThreadedBefore(b, s)
      modifies storage.words
      ensures Valid() && ThreadedBefore(b, s + 1)
    {
      ghost var before := storage.Bits();
      var next := new BitVec.FromInt(pBits, s + 1);
      SetFreeNext(b, s, next);
      ThreadStep(before, storage.Bits(), slotsPerBucket, bucketCount, qBitsPerSlot, pBits, b, s);
    }

    /** `size()`: the number of live allocations, never more than the slots. */
    function Size(): (count: nat)
      reads this
      requires Valid()
      ensures count <= nSlots
    {
      size
    }

    /**
     * `set_free_next(b, s, value)`: write value, p_bits wide, over the low
     * bits of slot s of bucket b; no other next pointer changes.
     */
    method SetFreeNext(b: nat, s: nat, value: BitVec)
      requires Valid() && b < bucketCount && s < slotsPerBucket
      requires value.Valid() && value.bitSize == pBits && value.words != storage.words
      modifies storage.words
      ensures Valid() && SlotStart(b, s) + pBits <= storage.bitSize
      ensures storage.Bits() == Splice(old(storage.Bits()), SlotStart(b, s), value.Bits())
      ensures FreeNext(b, s) == old(value.Bits())
      ensures forall b': nat, s': nat :: b' < bucketCount && s' < slotsPerBucket && (b' != b || s' != s) ==>
        FreeNext(b', s') == old(FreeNext(b', s'))
    {
      var pos := (b * slotsPerBucket + s) * qBitsPerSlot;
      NextInStore(b, s);
      ghost var before := storage.Bits();
      storage.SetRange(pos, value);
      SpliceThenSlice(before, pos, value.Bits());
      forall b': nat, s': nat | b' < bucketCount && s' < slotsPerBucket && (b' != b || s' != s)
        ensures FreeNext(b', s') == old(FreeNext(b', s'))
      {
        NextInStore(b', s');
        SlotIndexInjective(slotsPerBucket, b, s, b', s');
        SlotsApart(SlotIndex(slotsPerBucket, b, s), SlotIndex(slotsPerBucket, b', s'), qBitsPerSlot);
        SpliceElsewhere(before, pos, value.Bits(), SlotStart(b', s'), SlotStart(b', s') + pBits);
      }
    }

    /** `get_free_next(b, s)`: a new vector holding slot s's next pointer. */
    method GetFreeNext(b: nat, s: nat) returns (r: BitVec)
      requires Valid() && b < bucketCount && s < slotsPerBucket
      ensures fresh(r) && fresh(r.words) && r.Valid()
      ensures r.bitSize == pBits && r.Bits() == FreeNext(b, s)
    {
      var pos := (b * slotsPerBucket + s) * qBitsPerSlot;
      NextInStore(b, s);
      r := storage.GetRange(pos, pos + pBits);
    }

    /**
     * `set_free_head(b, value)`: write value over bucket b's head; no other
     * head changes.
     */
    method SetFreeHead(b: nat, value: BitVec)
      requires Valid() && b < bucketCount
      requires value.Valid() && value.bitSize == pBits && value.words != freeListHead.words
      modifies freeListHead.words
      ensures Valid() && HeadStart(b) + pBits <= freeListHead.bitSize
      ensures freeListHead.Bits() == Splice(old(freeListHead.Bits()), HeadStart(b), value.Bits())
      ensures FreeHead(b) == value.Bits()
      ensures forall b': nat :: b' < bucketCount && b' != b ==> FreeHead(b') == old(FreeHead(b'))
    {
      ghost var before := freeListHead.Bits();
      assert pBits * bucketCount == |before|;
      AllFieldsFit(pBits, bucketCount, |before|);
      SpliceField(before, pBits, b, value.Bits());
      freeListHead.SetRange(pBits * b, value);
    }

    /** `get_free_head(b)`: a new vector holding bucket b's head. */
    method GetFreeHead(b: nat) returns (r: BitVec)
      requires Valid() && b < bucketCount
      ensures fresh(r) && fresh(r.words) && r.Valid()
      ensures r.bitSize == pBits && r.Bits() == FreeHead(b)
    {
      HeadInStore(b);
      r := freeListHead.GetRange(HeadStart(b), HeadStart(b) + pBits);
    }

    /**
     * `Allocate`, given the hash of the key: route the hash to a bucket,
     * check the bucket index, and report the operation as unimplemented.
     * The check fails exactly when the table has a single bucket and the
     * hash's top 63 - log_n bits are all ones.
     */
    method Allocate(hash: Word) returns (status: AllocateStatus)
      requires Valid() && logN <= 62
      ensures status == CheckFailed <==>
        bucketCount == 1 && Shr(hash, logN + 1) == Pow2(63 - logN) - 1
    {
      var bucket := BucketIndex(hash, bucketCount, logN);
      if bucket < bucketCount {
        status := Unimplemented;
      } else {
        status := CheckFailed;
      }
      if bucketCount >= 2 {
        BucketIndexInRange(hash, bucketCount, logN);
      } else {
        BucketIndexOneBucket(hash, logN);
      }
    }
  }
}
