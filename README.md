# tiny-pointers: the packed bit store, the range scaler and the simple dereference table

tiny-pointers is a C++ library that builds dereference tables. A table hands
out a *tiny pointer* for each key. The pointer is a small index into a bucket
of slots, which a hash of the key picks. This project models three parts of
the library in Dafny and proves properties of them:

- **`bit_copy` and `BitVec`** (`src/tiny_pointers/bit_vec.hpp`). A
  fixed-length bit vector packed into 64-bit words. It can be read and
  written one bit at a time or as a range of bits. `bit_copy` moves a run of
  bits between two word arrays, one chunk at a time. Each chunk stays inside
  one source word and one destination word.
- **`scale_u64`** (`src/tiny_pointers/util.hpp`). It maps a 64-bit hash onto
  `[0, out_range)`. It shifts the hash right, multiplies it by the range and
  keeps the top bits of the product.
- **`SimpleDereferenceTable`** (`src/tiny_pointers/tiny_pointers.hpp`).
  - The store holds `n_slots` slots of `q` bits each. They are split into
    buckets of `log2_ceil(n)^4` slots.
  - Each bucket threads a free list through its own slots. A free slot holds
    the index of the next free slot in its low `p_bits` bits.
  - A second bit vector holds one `p_bits`-wide head per bucket.
  - The model covers:
    - the constructor: sizing, its two checks, and the loop that threads the
      free lists;
    - `size`;
    - the four free-list accessors;
    - the bucket routing in `Allocate` and its range check.
  - The rest of the class's interface is a stub in this version of the
    library.

Machine words are numbers below 2^64 (`Math.U64`, `Words.Word`). The bitwise
operators are functions on numbers, stated bit by bit. Wrap-around of `u64`
arithmetic is written out as `% 2^64`. Bit vectors are classes over an
`array` of words, because the source updates their words in place. The
table is a class that holds two of them. The class's methods state their
effect on the stored bits (`Stored`, `Bits`, `FreeNext`, `FreeHead`).

Files:

| file | module | contents |
|---|---|---|
| `math.dfy` | `Math` | powers of two, `log2_ceil`, division facts |
| `words.dfy` | `Words` | 64-bit words, bit operations, masks, one `bit_copy` step, bit strings as numbers |
| `util.dfy` | `Util` | `scale_u64` and a full-product reference scaler |
| `bit_vec.dfy` | `BitVecs` | `bit_copy`, class `BitVec`, fixed-width fields |
| `tiny_pointers.dfy` | `TinyPointers` | table sizing, slot geometry, initial free lists, bucket routing, class `SimpleDereferenceTable` |

Where the table's documentation and its code disagree, the model follows the
code:

- **The width check.** The class comment (`tiny_pointers.hpp:140`) asks for
  `q ≥ log n` of the requested `n`. The constructor checks `q ≥ log_n`
  instead (`tiny_pointers.hpp:181`), where `log_n = log2_ceil(n_slots)` is
  taken after rounding up to whole buckets. The constructor's precondition
  is the code's check.
- **The end of a free list.** The end of a free list is evidently meant to be
  `slots_per_bucket`, one past the last slot. The constructor writes
  `slot_i + 1` in `p_bits = log2_ceil(slots_per_bucket)` bits
  (`tiny_pointers.hpp:187`), so the terminator is stored modulo
  `2^p_bits`. The model stores what the code stores. See Findings.

## Model

| member | source | states |
|---|---|---|
| BitVecs.BitCopy | src/tiny_pointers/bit_vec.hpp:11-35 | after the loop, the destination holds the n source bits starting at (srcWord, srcShift) in its bits starting at (dstWord, dstShift), and every other destination bit, padding included, is unchanged |
| BitVecs.CopiedStep | src/tiny_pointers/bit_vec.hpp:15-33 | one round of the copy loop extends the copied prefix by exactly the chunk it writes; this is the loop invariant of `bit_copy` |
| Words.CopyChunkBit | src/tiny_pointers/bit_vec.hpp:16-20 | the masked clear-then-or step writes, into each bit of the field [ds, ds + bits), the source bit that lines up with it, and leaves every bit outside the field as it was |
| Words.LowMaskValue | src/tiny_pointers/bit_vec.hpp:17 | the mask `(1 << b) - 1` is 2^b - 1 for every b up to 64 (using the full-word mask; see Findings) |
| Words.CopyChunkFullWord | src/tiny_pointers/bit_vec.hpp:17 | for a whole aligned word the intended step writes the source word, while the step as x86-64 evaluates it leaves the destination word unchanged |
| Words.MaskOnX86IsEmptyForFullWord | src/tiny_pointers/bit_vec.hpp:17 | on x86-64 a 64-bit chunk's mask is 0, with no bit set, while the intended mask has all 64 bits set |
| Words.TestBit | src/tiny_pointers/bit_vec.hpp:87 | the test `(w & (1 << k)) != 0` is true exactly when bit k of w is set |
| Words.ValueOfNatBits | src/tiny_pointers/bit_vec.hpp:56 | keeping the low w bits of a value and reading them back gives the value modulo 2^w |
| BitVecs.BitVec.constructor | src/tiny_pointers/bit_vec.hpp:44-46 | a new vector of n bits has ceil(n / 64) words, all bits clear |
| BitVecs.BitVec.FromInt | src/tiny_pointers/bit_vec.hpp:52-58 | `BitVec(n, data)` with n ≤ 64 holds the low n bits of data, so it reads back as data mod 2^n |
| BitVecs.BitVec.Size | src/tiny_pointers/bit_vec.hpp:90-93 | `size()` is the bit count the vector was built with |
| BitVecs.BitVec.Test | src/tiny_pointers/bit_vec.hpp:85-88 | `operator[](i)` returns stored bit i, which is bit i of the vector when i < size |
| BitVecs.BitVec.Set | src/tiny_pointers/bit_vec.hpp:95-103 | `set(i, b)`, with b true by default, changes stored bit i to b and no other bit, in both branches (or-in and and-out) |
| BitVecs.BitVec.GetRange | src/tiny_pointers/bit_vec.hpp:105-116 | `get_range(begin, end)` returns a new vector of end - begin bits equal to stored bits [begin, end) |
| BitVecs.BitVec.SetRange | src/tiny_pointers/bit_vec.hpp:118-125 | `set_range(begin, src)` overwrites bits [begin, begin + src.size()) with src's bits and leaves every other stored bit unchanged |
| BitVecs.BitVec.IntValue | src/tiny_pointers/bit_vec.hpp:127-130 | `int_value()` of a vector of at most 64 bits is the number its bits denote, bit 0 least significant |
| BitVecs.SpliceThenSlice | src/tiny_pointers/bit_vec.hpp:118-125 | reading back a range just written by `set_range` gives the bits written |
| BitVecs.SpliceElsewhere | src/tiny_pointers/bit_vec.hpp:118-125 | `set_range` leaves every range it does not overlap unchanged |
| BitVecs.SpliceField | src/tiny_pointers/bit_vec.hpp:118-125 | writing field i of a run of equal-width fields sets field i and leaves every other field unchanged |
| BitVecs.StoreFields | src/tiny_pointers/bit_vec.test.cpp:54-57 | storing values with one `set_range` per width-bit field leaves field i holding the low `width` bits of value i, for every i |
| BitVecs.LoadFields | src/tiny_pointers/bit_vec.test.cpp:58-60 | reading fields back, one `get_range(...).int_value()` per field, returns the number each field holds |
| BitVecs.FieldsRoundTrip | src/tiny_pointers/bit_vec.test.cpp:50-67 | packing values narrower than the field width, reading them back, then overwriting every field with new values and reading again, gives back exactly the values written each time |
| Util.ScaleU64 | src/tiny_pointers/util.hpp:13-19 | for every input, `scale_u64` lands in [0, out_range) when 1 ≤ out_range ≤ 2^62 |
| Util.PreShift | src/tiny_pointers/util.hpp:15 | the pre-shift `log2_ceil(out_range) + 1` lies in 1..63, so both shift counts are valid, and out_range ≤ 2^(pre_shift - 1) |
| Util.ScaleU64Product | src/tiny_pointers/util.hpp:15-18 | the product `(in_val >> pre_shift) * out_range` stays below 2^63, so it never wraps, and its top bits are below the range |
| Util.ScaleU64Value | src/tiny_pointers/util.hpp:18 | the scaled value equals the same shifts and product taken on unbounded integers |
| Util.ScaleU64OfZero | src/tiny_pointers/util.hpp:9 | input 0 maps to 0 for every range |
| Util.ScaleU64OfMax | src/tiny_pointers/util.hpp:10 | input ~0 maps to out_range - 1 for every range up to 2^31 |
| Util.ScaleU64OfMaxPow2 | src/tiny_pointers/util.hpp:10 | for a range 2^k with k ≥ 32, input ~0 maps to 2^k - 2^(2k - 63), below the last value |
| Util.ScaleU64OfMaxFallsShort | src/tiny_pointers/util.hpp:10 | `scale_u64(~0, 2^40)` is 2^40 - 2^17, not 2^40 - 1 |
| Util.ScaleU64OfHalf | src/tiny_pointers/util.test.cpp:18 | input 2^63 maps to out_range / 2 for every range |
| Util.ScaleU64OfQuarter | src/tiny_pointers/util.test.cpp:19 | input 2^62 maps to out_range / 4 for every range up to 2^61 |
| Util.ScaleU64Monotone | src/tiny_pointers/util.hpp:11 | a larger input never maps to a smaller value |
| Util.ScaleWide | src/tiny_pointers/util.hpp:7-12 | the scaler with the full 128-bit product lands in [0, out_range) for every range ≥ 1 |
| Util.ScaleWideEnds | src/tiny_pointers/util.hpp:9-10 | with the full product, 0 maps to 0 and ~0 maps to out_range - 1 for every range ≥ 1 |
| Util.ScaleWideMonotone | src/tiny_pointers/util.hpp:11 | the full-product scaler is monotone |
| TinyPointers.LayoutFor | src/tiny_pointers/tiny_pointers.hpp:154-162 | for n ≥ 2 the bucket size and the bucket count are at least 1 and n_slots is their product |
| TinyPointers.CeilDivBounds | src/tiny_pointers/tiny_pointers.hpp:155 | `(n + b - 1) / b` buckets of b slots hold at least n slots and waste fewer than b, and the count never exceeds n |
| TinyPointers.LayoutCovers | src/tiny_pointers/tiny_pointers.hpp:155-156 | in unbounded arithmetic n ≤ n_slots < n + slots_per_bucket and bucket_count ≤ n; with usize arithmetic this holds while the rounding at line 155 does not wrap (SlotCheckPasses) |
| TinyPointers.WrappedSlotsCover | src/tiny_pointers/tiny_pointers.hpp:155-156 | with the usize sum `n + slots_per_bucket - 1` wrapping at 2^64, the rounded-up slot count covers n exactly when the sum does not wrap, and is then slots_per_bucket * ceil(n / slots_per_bucket) |
| TinyPointers.SlotCheckPasses | src/tiny_pointers/tiny_pointers.hpp:180 | the check `n_slots >= n` passes exactly when the sum `n + slots_per_bucket - 1` of line 155 does not wrap, and n_slots is then the unbounded product |
| TinyPointers.SlotCheckBoundary | src/tiny_pointers/tiny_pointers.hpp:180 | for n above 2^63 the check `n_slots >= n` passes exactly when n ≤ 2^64 - 2^24; every larger n aborts |
| TinyPointers.PointerFitsSlot | src/tiny_pointers/tiny_pointers.hpp:157-162 | p_bits ≤ log_n, so a slot that passes the check `q >= log_n` holds a next pointer, and n_slots and bucket_count are at most 2^log_n |
| TinyPointers.PointerWidthBound | src/tiny_pointers/tiny_pointers.hpp:154-162 | for a 64-bit n a bucket holds at most 2^24 slots and a tiny pointer is at most 24 bits, within `BitVec(n, data)`'s 64-bit limit |
| TinyPointers.LayoutFits | src/tiny_pointers/tiny_pointers.hpp:269 | slots_per_bucket fits its i32 field, bucket_count ≤ 2^log_n, and p_bits ≤ log_n and ≤ 24 |
| TinyPointers.LayoutOf16 | src/tiny_pointers/tiny_pointers.hpp:154-162 | a table of 16 slots is one bucket of 256 slots, with log_n = 8 and 8-bit pointers |
| TinyPointers.SlotIndexBelow | src/tiny_pointers/tiny_pointers.hpp:241 | the slot index `bucket_i * slots_per_bucket + slot_i` of a slot in the table is below n_slots |
| TinyPointers.SlotIndexInjective | src/tiny_pointers/tiny_pointers.hpp:241 | distinct (bucket, slot) pairs get distinct slot indices |
| TinyPointers.SlotsApart | src/tiny_pointers/tiny_pointers.hpp:241 | the q-bit slots at two distinct indices do not overlap |
| TinyPointers.ThreadStep | src/tiny_pointers/tiny_pointers.hpp:185-189 | one pass of the inner loop writes s + 1 into slot s and keeps every pointer written before it |
| TinyPointers.ThreadedNextBucket | src/tiny_pointers/tiny_pointers.hpp:185-186 | finishing a bucket's inner loop leaves the outer loop's invariant holding for the next bucket |
| TinyPointers.SimpleDereferenceTable.ThreadBucket | src/tiny_pointers/tiny_pointers.hpp:186-188 | the inner loop threads bucket b: given every earlier bucket threaded, afterwards every slot of buckets 0..b holds its successor's index, and the table stays well sized |
| TinyPointers.SimpleDereferenceTable.ThreadSlot | src/tiny_pointers/tiny_pointers.hpp:187 | one pass of the inner loop, `set_free_next(b, s, BitVec{p_bits, s + 1})`, extends the threaded prefix by slot s of bucket b |
| TinyPointers.FieldsOfZeros | src/tiny_pointers/tiny_pointers.hpp:178-183 | an all-clear head vector holds a 0 head for every bucket |
| TinyPointers.InitialNextPointer | src/tiny_pointers/tiny_pointers.hpp:187 | every initial next pointer but the last reads back as s + 1; the last reads back as slots_per_bucket when that is not a power of two, and as 0 when it is |
| TinyPointers.LastNextPointerOf16 | src/tiny_pointers/tiny_pointers.hpp:187 | with 16 slots requested, the last slot of the bucket points to slot 0 |
| TinyPointers.SentinelFits | src/tiny_pointers/tiny_pointers.hpp:187 | in log2_ceil(slots_per_bucket + 1) bits every initial next pointer, terminator included, reads back whole |
| TinyPointers.BucketIndexValue | src/tiny_pointers/tiny_pointers.hpp:209-210 | in the routing formula the product plus one never wraps, since it stays within 2^63, so the index is that quotient on unbounded integers |
| TinyPointers.BucketIndexInRange | src/tiny_pointers/tiny_pointers.hpp:209-212 | with two buckets or more every hash is routed below bucket_count, so the check passes |
| TinyPointers.BucketIndexOneBucket | src/tiny_pointers/tiny_pointers.hpp:209-212 | with one bucket the index is 1, which fails the check, exactly when the hash's top 63 - log_n bits are all ones, and 0 otherwise |
| TinyPointers.BucketIndexCounterexample | src/tiny_pointers/tiny_pointers.hpp:209-212 | a 16-slot table has one bucket and log_n = 8, and the all-ones hash is routed to bucket 1 |
| TinyPointers.FindBucket | src/tiny_pointers/tiny_pointers.hpp:209-212 | routing by the full-product scaler always yields an existing bucket |
| TinyPointers.FindBucketForEveryTable | src/tiny_pointers/tiny_pointers.hpp:209-212 | for every 64-bit table size and every hash the full-product routing picks an existing bucket, and hashes 0 and ~0 reach the first and last buckets |
| TinyPointers.BucketCountInScaleRange | src/tiny_pointers/tiny_pointers.hpp:154-155 | every table of a 64-bit n has at most 2^62 buckets, within the ranges `scale_u64` takes |
| TinyPointers.ScaleU64RoutesEveryTable | src/tiny_pointers/util.hpp:13-19 | routing with the program's own `scale_u64(hash, bucket_count)` gives an existing bucket for every hash and every 64-bit table, and hash 0 goes to bucket 0 |
| TinyPointers.SimpleDereferenceTable.constructor | src/tiny_pointers/tiny_pointers.hpp:150-190 | given the two checks at lines 180-181 (n_slots ≥ n in usize arithmetic, q ≥ log_n), the table takes the layout of n, size 0 and q bits per slot; slot s of every bucket points to s + 1 in p_bits bits, and every head is 0 |
| TinyPointers.SimpleDereferenceTable.AllThreaded | src/tiny_pointers/tiny_pointers.hpp:185-189 | once the outer loop has covered every bucket, every slot's next pointer is its successor's index |
| TinyPointers.SimpleDereferenceTable.HeadsClear | src/tiny_pointers/tiny_pointers.hpp:178-183 | the zeroed head vector gives every bucket the head 0 |
| TinyPointers.SimpleDereferenceTable.Size | src/tiny_pointers/tiny_pointers.hpp:201-204 | `size()` is the live count, which never exceeds n_slots |
| TinyPointers.SimpleDereferenceTable.SetFreeNext | src/tiny_pointers/tiny_pointers.hpp:237-244 | `set_free_next(b, s, value)` writes value over the low p_bits bits of slot s of bucket b; that next pointer becomes value and every other next pointer is unchanged |
| TinyPointers.SimpleDereferenceTable.GetFreeNext | src/tiny_pointers/tiny_pointers.hpp:246-251 | `get_free_next(b, s)` returns a new p_bits-wide vector holding that slot's next pointer |
| TinyPointers.SimpleDereferenceTable.SetFreeHead | src/tiny_pointers/tiny_pointers.hpp:253-258 | `set_free_head(b, value)` makes bucket b's head value and leaves every other head unchanged |
| TinyPointers.SimpleDereferenceTable.GetFreeHead | src/tiny_pointers/tiny_pointers.hpp:260-264 | `get_free_head(b)` returns a new p_bits-wide vector holding bucket b's head |
| TinyPointers.SimpleDereferenceTable.Allocate | src/tiny_pointers/tiny_pointers.hpp:206-215 | `Allocate` aborts on the range check exactly when the table has one bucket and the hash's top 63 - log_n bits are all ones; otherwise it returns kUnimplemented |

## Left out

- The key hash (`HashFn`, XXH3 seeded from `std::random_device`, `tiny_pointers.hpp:62-73` and `173`) is not modelled. `Allocate` takes the 64-bit hash as its parameter.
- `delta_` and `capacity()` are floating-point arithmetic and are left out.
- `Dereference`, `Free`, `Set` and `Get` are stubs that return fixed values, and they are left out. `Allocate`'s only outcomes are the check abort and `kUnimplemented`.
- The `DereferenceTable` base interface and the key/value types of `data.hpp` are not part of this model.
- Some `BitVec` members are left out, because they copy raw bytes:
  - the `std::string_view` constructors and `operator=` (`bit_vec.hpp:63-83`), which use `memcpy`;
  - `as_str()` and `operator<<`.
- The `i32` constructors of `BitVec` (`bit_vec.hpp:48-50`, `59-61`) are not modelled separately. They convert their argument to `usize` with `BATT_CHECKED_CAST`, which aborts on a negative n; the model's sizes are naturals.
- `BATT_CHECK` aborts are modelled as preconditions:
  - `n ≤ 64` in `BitVec(n, data)`;
  - `n_slots ≥ n` and `q ≥ log_n` in the constructor;
  - `value.size() == p_bits` in the two setters.
  - The exception is `Allocate`'s check at line 212. It becomes the `CheckFailed` outcome, because it depends on the hash.
- `usize` overflow is not modelled, with one exception. The table's sizing past line 155, `n_slots * q`, and the bit positions of the accessors are unbounded naturals. The exception is the sum `n + slots_per_bucket - 1` at line 155. For every n above 2^64 - 2^24 it wraps, the bucket count and n_slots become 0, and the check `n_slots >= n` at line 180 aborts. This abort is the constructor's precondition `CheckedSlots(n) >= n` (TinyPointers.SlotCheckPasses, TinyPointers.SlotCheckBoundary).
- BitVecs.BitCopy and BitVecs.BitVec.SetRange require the source and destination words to be different arrays. The source does not rule out aliasing, and the model does not capture an overlapping copy.
- BitVecs.BitVec.Test and BitVecs.BitVec.Set require the index to lie within the stored words. Out of that range the source reads or writes past the vector.
- BitVecs.BitVec.IntValue returns 0 for an empty vector. The source reads the inline word of its small-vector storage, and that word is not part of the model.
- TinyPointers.SimpleDereferenceTable.constructor requires n ≥ 2. For n = 1 the bucket size is 0, and the source divides by it.
- TinyPointers.SimpleDereferenceTable.Allocate requires log_n ≤ 62. A larger log_n makes the shift count `log_n + 1` undefined in C++. That needs more than 2^62 slots.
- Util.ScaleU64 requires 1 ≤ out_range ≤ 2^62. Range 0 has no `log2_ceil`. Above 2^62 the pre-shift is 64, which is undefined in C++.
- Util.ScaleU64OfMax is stated for ranges up to 2^31, weaker than the comment's "every range". Above 2^31 it does not hold (Util.ScaleU64OfMaxPow2, Findings).
- Util.ScaleU64OfQuarter is stated for ranges up to 2^61. Above that, `log2_ceil(out_range) + 1` exceeds 62 and the input 2^62 shifts to 0.
- Words.LowMask evaluates `(1 << 64) - 1` as all ones. The rest of the model uses this intended full-word mask, not the x86-64 result (Findings).

## Findings

| source | as written | input that shows it | evidently intended | confidence | as-written member | corrected member |
|---|---|---|---|---|---|---|
| src/tiny_pointers/bit_vec.hpp:17 | `(u64{1} << bits) - 1` shifts by the full word width when a chunk is 64 bits. C++ leaves that undefined, and x86-64 takes the count modulo 64, so the mask is 0. A whole aligned word is then left unchanged. The same mask appears in `BitVec(64, data)` (line 56), which stores 0, and in `int_value()` of a 64-bit vector (line 129), which returns 0. | `bit_copy` of 128 bits between word-aligned positions, e.g. `get_range(0, 128)` of a vector of ones, returns all zeros | a mask of all 64 bits for a full-word chunk, so the chunk is copied | medium: not executed; depends on the compiler emitting a plain shift | Words.CopyChunkFullWord | Words.CopyChunkBit |
| src/tiny_pointers/tiny_pointers.hpp:209-212 | The `+ 1` in `((h >> (log_n + 1)) * bucket_count + 1) >> (63 - log_n)` routes the all-ones top bits to index 1 when there is one bucket, so the check `x_bucket_i < bucket_count` aborts | n = 16 gives bucket_count = 1 and log_n = 8; hash 0xFFFF_FFFF_FFFF_FFFF gives index 1 | an index below bucket_count for every hash, e.g. by scaling the hash onto bucket_count | high: not executed | TinyPointers.BucketIndexCounterexample | TinyPointers.FindBucketForEveryTable |
| src/tiny_pointers/util.hpp:10-18 | The comment promises `scale_u64(~0, r) == r - 1`, but shifting right by `log2_ceil(r) + 1` first drops too many bits for large ranges | `scale_u64(~0, 2^40)` is 2^40 - 2^17 | ~0 maps to r - 1 for every range | high: not executed | Util.ScaleU64OfMaxFallsShort | Util.ScaleWideEnds |
| src/tiny_pointers/tiny_pointers.hpp:187 | The last slot's next pointer `slots_per_bucket` is written in `log2_ceil(slots_per_bucket)` bits. When slots_per_bucket is a power of two it needs one bit more and is stored as 0, so the last free slot points back to slot 0 instead of to the end of the list | n = 16 gives one bucket of 256 slots with 8-bit pointers; slot 255 stores 0 | a terminator that reads back as slots_per_bucket, one bit wider | high: not executed | TinyPointers.LastNextPointerOf16 | TinyPointers.SentinelFits |

The table (`SimpleDereferenceTable`) models the code as written. It keeps the
source's pointer width and routing formula. The corrected definitions stand
beside it: `Util.ScaleWide`, `TinyPointers.FindBucket` and
`TinyPointers.SentinelWidth`, with their properties proved.
`BitVecs.BitCopy` and every `BitVec` member use the intended full-word mask.
