# alogir heap and xxHash64, modelled in Dafny

This project models two parts of the alogir C library:

- **The binary heap of `src/ag_heap.c`.** It is a priority queue kept in
  place in the used slots of a growable array (a "Gromer").
  - Slots are counted from 1: slot `i` is `data[i - 1]`, its parent is
    slot `i / 2` and its children are slots `2i` and `2i + 1`.
  - Every comparison is the user's comparator times a polarity. Polarity
    1 puts the smallest item at the root and -1 the biggest.
  - `aghp_put` sifts a new item up. `aghp_get` takes the root and sifts
    the last item down.
  - `aghp_ify` builds a heap out of the Gromer's used slots. `aghp_sort`
    then takes the root once per item, under the inverted polarity, and
    writes each root into the slot the heap has just given up. This is an
    in-place heapsort.
- **The xxHash64 routine of `src/ag_hash.c`.** It is an adaptation of
  XXH64 in four phases:
  - the input is read as 32-byte stripes into four lane accumulators;
  - the accumulators converge into one hash;
  - the input length is added;
  - the remaining `len & 31` bytes are mixed in by a fallthrough switch,
    as 8-byte lanes, then a 4-byte word, then single bytes, followed by
    the avalanche.

The heap is a `class Heap` over a `Gromer` class whose `data: seq<T>` is
the used part of the array. `Put`, `Get`, `Ify`, `IfyForSort` and `Sort`
update it in place with the loops of the source. Their contracts state
four things:
- the heap order `polar * cmp(slot i / 2, slot i) <= 0`;
- the multiset of the live slots;
- which slots above `cnt` are left alone;
- for `Get`, that the returned root comes first among the live items. For
  `Sort`, that the first `cnt` slots end up ordered and are a permutation
  of what they held.

The comparator is a function parameter. Its contract is an antisymmetric
sign together with a transitive "not after" relation (`HeapOrder.IsComparator`).

The hash keeps its three layers:
- **Pure helpers** (`Bitwise`, `HashBytes`, `HashBits`): C's shift, mask,
  `|` and `^` operators, reads, byte swaps, rotation, rounds, avalanche.
  These are functions on integers kept in the ranges of `uint8_t`,
  `uint32_t` and `uint64_t`, with every wrap-around modulo 2^64 written
  out. The byte swaps are the source's shift-and-mask expressions, proved
  to reverse the bytes of the word.
- **The XXH64 function of the input bytes** (`XxHash64`). The tail is a
  list of pieces (`Lane`, `Word` or `Byte`, by start position) mixed in
  order.
- **The imperative entry points** (`AgHash`). The do-while over stripes is
  a `while` loop. The finalize switch is a sequence of PROCESS steps. Both
  are proved equal to the XXH64 function.

The aligned and the unaligned read are modelled as the same read of the
bytes at the read position (see "## Left out"), so their agreement is a
modelling choice and not a proved property.

The properties are structural and are proved for all inputs:
- how many bytes each phase consumes, and that no read goes past the end;
- that the step-by-step cut of the tail equals the greedy 8/4/1
  decomposition;
- that the endian-aware reads give the bytes little-endian, or big-endian
  after the byte swap;
- that NULL hashes as the empty input;
- that `aghs_64` is `aghs_64_with_seed` at seed 0;
- that the byte swaps reverse the bytes of a word and are involutions;
- that the round (in its lane and in its accumulator), the merge round and
  each PROCESS step come with a proved inverse. Hence:
  - a single stripe is injective in its 32 bytes for fixed accumulators;
  - the whole stripe loop is injective in its starting accumulators, and
    so in the seed, for fixed input bytes;
  - the tail is injective in its starting hash for fixed bytes.
  No such statement is made about the whole hash: the avalanche has no
  proved inverse, and the loop is not injective in its bytes.

## Model

| member | source | states |
|---|---|---|
| HeapOrder.Nth | src/ag_heap.c:19 | aghp_nth: slot i, for 1 <= i <= the number of used slots, is `data[i - 1]` |
| AgHeap.Heap.Init | src/ag_heap.c:35-41 | the heap is bound to the Gromer and comparator with `cnt == 0` and the given polarity; it is empty and in heap order; the Gromer is not touched |
| AgHeap.Heap.IsEmpty | src/ag_heap.c:162-168 | true exactly when `cnt == 0` |
| AgHeap.Heap.GetPolar | src/ag_heap.c:182-185 | returns a polarity, 1 or -1 |
| AgHeap.Heap.SetPolar | src/ag_heap.c:170-173 | the polarity becomes the given one; nothing else changes |
| AgHeap.Heap.InvPolar | src/ag_heap.c:176-179 | the polarity is negated; nothing else changes |
| HeapOrder.InvertedPolarity | src/ag_heap.c:176-179 | after inversion, a is not after b exactly when b was not after a: the order is reversed |
| HeapOrder.Compare | src/ag_heap.c:203-206 | the comparator result for polarity 1, its negation for polarity -1 |
| HeapOrder.CompareTrans | src/ag_heap.c:203-206 | the polarity-adjusted comparison is transitive for either polarity |
| HeapOrder.CompareFlip | src/ag_heap.c:203-206 | the polarity-adjusted comparison is antisymmetric for either polarity |
| Container.Gromer.Push | src/ag_heap.c:55-56 | gr_push appends exactly one slot at the end |
| AgHeap.Heap.Put | src/ag_heap.c:51-73 | `cnt` grows by one; one slot is appended only when `cnt >= used` beforehand; the heap order is kept; the live slots are the old ones plus `item`; with no growth, the slots above the new `cnt` are unchanged |
| AgHeap.Heap.SiftUp | src/ag_heap.c:65-72 | the loop ends with the first `cnt` slots in heap order and holding the items of the sift; slots above `cnt` unchanged |
| HeapOrder.SiftUpStep | src/ag_heap.c:66-69 | moving the parent down into the hole keeps the loop invariant and the multiset |
| AgHeap.Heap.Get | src/ag_heap.c:76-120 | on an empty heap: None, nothing changes; otherwise the old root is returned, it is not after any live item, `cnt` drops by one, the order is kept and the live slots plus the root are the old live slots |
| AgHeap.Heap.SiftDown | src/ag_heap.c:93-116 | the loop ends with the first `cnt` slots in heap order and holding the items of the sift; slots above `cnt` unchanged |
| AgHeap.Heap.FirstChild | src/ag_heap.c:101-105 | the chosen child is `2i` or `2i + 1` and is not after its sibling |
| HeapOrder.SiftDownStep | src/ag_heap.c:107-113 | lifting the first child into the hole keeps the loop invariant and the multiset |
| HeapOrder.RootFirst | src/ag_heap.c:90 | the root of a heap is not after any of its items: smallest for polarity 1, biggest for -1 |
| AgHeap.Heap.Ify | src/ag_heap.c:123-128 | from `cnt == 0`: ends with `cnt == used`, `used` unchanged, the data a permutation of its input and in heap order |
| AgHeap.Heap.IfyForSort | src/ag_heap.c:131-136 | the polarity is restored; the data is a permutation in heap order for the inverted polarity |
| AgHeap.Heap.Sort | src/ag_heap.c:139-150 | the polarity is restored and `cnt == 0`; the first `cnt` slots are a permutation of what they held, ordered under `polar * cmp`; slots above unchanged |
| HeapOrder.SortStep | src/ag_heap.c:146-148 | each get-and-write keeps: heap in front, extracted items ordered behind it, no heap item after them, the slots a permutation |
| AgHeap.SortGromer | src/ag_heap.c:153-159 | the Gromer's data is permuted into order under `dir * cmp`; with a comparator that tells items apart, sorted input is left as it is |
| HeapOrder.SortedUnique | src/ag_heap.c:153-159 | two ordered arrangements of the same items under a discerning comparator are equal |
| HeapScenarios.IntCmp | test/test_basic.c:30-45 | negative, zero or positive exactly as a is smaller than, equal to or bigger than b |
| HeapScenarios.IntCmpIsComparator | test/test_basic.c:30-45 | the test comparator meets the heap's comparator contract and tells distinct integers apart |
| HeapScenarios.SortedByIntCmp | test/test_basic.c:75-92 | ordered under polarity 1 is ascending, under -1 descending |
| HeapScenarios.BasicSorts | test/test_basic.c:48-93 | heapsort under 1 gives an ascending permutation and sort_gromer under -1 a descending one |
| HeapScenarios.Limits | test/test_basic.c:96-137 | the polarity reads -1 then 1; all items put twice come back ascending; the heap is then empty, and a further get returns None and leaves it empty |
| HeapScenarios.PutAll | test/test_basic.c:122-128 | after the puts the heap holds the earlier items and the new ones, in order |
| HeapScenarios.DrainAll | test/test_basic.c:130-132 | the gets return every held item, in ascending order, and leave the heap empty |
| AgHash.VersionNumber | src/ag_hash.c:72-75 | 605, from which major 0, minor 6 and release 5 are read back |
| HashBytes.Read32Bytes | src/ag_hash.c:83-88 | the word read by memcpy has exactly the four bytes read, least significant first |
| HashBytes.Read64Bytes | src/ag_hash.c:136-141 | the same for eight bytes |
| HashBytes.Read32 | src/ag_hash.c:83-88 | the memcpy of four bytes at i, which must lie inside the input: their value, least significant first (see Read32Bytes) |
| HashBytes.Read64 | src/ag_hash.c:136-141 | the same for eight bytes (see Read64Bytes) |
| HashBytes.LeBytesAt | src/ag_hash.c:83-88 | byte j of a word in memory is bits 8j to 8j + 7 of its value |
| Bitwise.And | src/ag_hash.c:90-94 | `a & b` on n bits, below 2^n: bit by bit, set where both operands are set |
| Bitwise.Or | src/ag_hash.c:90-94 | bitwise or on n bits, below 2^n: bit by bit, set where either operand is set |
| Bitwise.Shl | src/ag_hash.c:90-94 | `x << s` on an n-bit word: x * 2^s with the bits from n up dropped |
| Bitwise.Shr | src/ag_hash.c:90-94 | `x >> s` on an unsigned word: x / 2^s |
| Bitwise.AndLowMask | src/ag_hash.c:90-94 | the mask 2^t - 1 keeps x mod 2^t |
| Bitwise.AndByte | src/ag_hash.c:90-94 | the mask 0xff shifted to bit k keeps byte k / 8 of the word, in place, and clears every other bit |
| Bitwise.ShlByte | src/ag_hash.c:90-94 | after `x << s` on n bits, the byte at bit s + t is byte t of x, as long as it lies below bit n |
| Bitwise.ShlMask | src/ag_hash.c:90-94 | `(x << s) & (0xff << k)` is byte (k - s) / 8 of x placed at bit k |
| Bitwise.ShrMask | src/ag_hash.c:90-94 | `(x >> s) & (0xff << k)` is byte (s + k) / 8 of x placed at bit k |
| Bitwise.ShrLowByte | src/ag_hash.c:90-94 | `(x >> s) & 0xff` is byte s / 8 of x |
| Bitwise.OrDisjoint | src/ag_hash.c:90-94 | the bitwise or of a multiple of 2^k and a number below 2^k is their sum |
| Bitwise.OrByte | src/ag_hash.c:90-94 | or-ing a byte into the free byte below a number placed higher up appends the byte to the number, and the result stays below 2^n |
| Bitwise.OrLowByte | src/ag_hash.c:90-94 | the same for the lowest byte |
| HashBytes.Swap32 | src/ag_hash.c:90-94 | the source's expression: x shifted left by 24 and 8 and right by 8 and 24, each masked to one byte, or-ed together; a 32-bit word (what it computes is Swap32Value) |
| HashBytes.Swap64 | src/ag_hash.c:143-149 | the source's expression with shifts by 56, 40, 24 and 8 in both directions; a 64-bit word (see Swap64Value) |
| HashBytes.Swap32Bytes | src/ag_hash.c:90-94 | the four masked terms are bytes 0 to 3 of x moved to bits 24, 16, 8 and 0, and their bitwise or is those bytes read from the most significant end |
| HashBytes.OrBytes32 | src/ag_hash.c:90-94 | or-ing four bytes placed at bits 24, 16, 8 and 0 adds them up |
| HashBytes.Swap64Bytes | src/ag_hash.c:143-149 | the eight masked terms are bytes 0 to 7 of x moved to bits 56 down to 0, and their bitwise or is those bytes from the most significant end |
| HashBytes.OrBytes64 | src/ag_hash.c:143-149 | or-ing eight bytes placed at bits 56 down to 0 adds them up |
| HashBytes.ReverseValue4 | src/ag_hash.c:90-94 | four bytes in reverse order, read little-endian, are the bytes read big-endian |
| HashBytes.ReverseValue8 | src/ag_hash.c:143-149 | the same for eight bytes |
| HashBytes.Swap32Value | src/ag_hash.c:90-94 | aghs_swap32 gives the word whose little-endian bytes are those of x in reverse order |
| HashBytes.Swap64Value | src/ag_hash.c:143-149 | aghs_swap64 gives the word whose little-endian bytes are those of x in reverse order |
| HashBytes.Swap32Reverses | src/ag_hash.c:90-94 | the bytes of the swapped word are the word's bytes in reverse |
| HashBytes.Swap32Involution | src/ag_hash.c:90-94 | swapping twice gives the word back |
| HashBytes.Swap64Reverses | src/ag_hash.c:143-149 | the bytes of the swapped word are the word's bytes in reverse |
| HashBytes.Swap64Involution | src/ag_hash.c:143-149 | swapping twice gives the word back |
| HashBytes.ReadLe32Align | src/ag_hash.c:97-107 | the four branches: a plain read for little-endian, a swapped read for big-endian, the aligned cast reading the same bytes as the memcpy (what it gives is ReadLe32AlignValue) |
| HashBytes.ReadLe64Align | src/ag_hash.c:152-162 | the same for eight bytes (see ReadLe64AlignValue) |
| HashBytes.ReadLe32AlignValue | src/ag_hash.c:97-107 | the read is the four bytes little-endian, or big-endian after the swap |
| HashBytes.ReadLe64AlignValue | src/ag_hash.c:152-162 | the same for eight bytes |
| HashBytes.LeBytesOfValue | src/ag_hash.c:83-88 | a value assembled from bytes splits back into those bytes |
| HashBytes.LeValueOfBytes | src/ag_hash.c:83-88 | a number below 256^n is the value of its n low bytes |
| HashBytes.LaneAtInjective | src/ag_hash.c:152-162 | different 8-byte lanes read as different numbers |
| HashBits.Rotl64 | src/ag_hash.c:56 | for 0 < r < 64: the low 64 - r bits moved up by r and the high r bits brought in at the bottom, a 64-bit word (undone by RotlInverse) |
| HashBits.Xor64 | src/ag_hash.c:181 | `a ^ b` on 64-bit words, a 64-bit word (undone by Xor64Inverse) |
| Bitwise.Xor | src/ag_hash.c:181 | `a ^ b` on n bits, below 2^n: bit by bit, set where exactly one operand is set |
| Bitwise.XorInverse | src/ag_hash.c:181 | `(a ^ b) ^ b == a` on n bits |
| Bitwise.XorSymmetric | src/ag_hash.c:181 | `a ^ b == b ^ a` |
| HashBits.RotlInverse | src/ag_hash.c:56 | rotating left by r and then by 64 - r gives the word back |
| HashBits.Xor64Inverse | src/ag_hash.c:181 | `(a ^ b) ^ b == a` on 64-bit words |
| HashBits.MulInverse1 | src/ag_hash.c:164 | multiplying by PRIME64_1 modulo 2^64 is undone by its inverse |
| HashBits.MulInverse2 | src/ag_hash.c:165 | multiplying by PRIME64_2 modulo 2^64 is undone by its inverse |
| HashBits.Round | src/ag_hash.c:170-176 | `acc + input * PRIME64_2`, rotated by 31, times PRIME64_1, each modulo 2^64 (inverted by UnroundRound and UnroundAccRound) |
| HashBits.UnroundRound | src/ag_hash.c:170-176 | the round is a bijection of the lane for a fixed accumulator |
| HashBits.UnroundAccRound | src/ag_hash.c:170-176 | the round is a bijection of the accumulator for a fixed lane |
| HashBits.MergeRound | src/ag_hash.c:178-184 | the value after a round from 0, xor-ed into the hash, times PRIME64_1 plus PRIME64_4 modulo 2^64 (inverted by UnmergeMergeRound) |
| HashBits.UnmergeMergeRound | src/ag_hash.c:178-184 | the merge round is a bijection of the merged accumulator for a fixed hash |
| HashBits.Avalanche | src/ag_hash.c:186-194 | xor with the word shifted right by 33, times PRIME64_2, xor-shift by 29, times PRIME64_3, xor-shift by 32, all modulo 2^64 |
| XxHash64.Process8 | src/ag_hash.c:217-223 | the hash xor-ed with a round of the lane from 0, rotated by 27, times PRIME64_1 plus PRIME64_4 modulo 2^64 (inverted by Unprocess8Process8) |
| XxHash64.Process4 | src/ag_hash.c:212-215 | the hash xor-ed with the word times PRIME64_1, rotated by 23, times PRIME64_2 plus PRIME64_3 modulo 2^64 (inverted by Unprocess4Process4) |
| XxHash64.Process1 | src/ag_hash.c:207-210 | the hash xor-ed with the byte times PRIME64_5, rotated by 11, times PRIME64_1 modulo 2^64 (inverted by Unprocess1Process1) |
| XxHash64.Unprocess8Process8 | src/ag_hash.c:217-223 | PROCESS8_64 is a bijection of the hash for a fixed lane |
| XxHash64.Unprocess4Process4 | src/ag_hash.c:212-215 | PROCESS4_64 is a bijection of the hash for a fixed word |
| XxHash64.Unprocess1Process1 | src/ag_hash.c:207-210 | PROCESS1_64 is a bijection of the hash for a fixed byte |
| XxHash64.FirstPiece | src/ag_hash.c:225-336 | the next step of the switch is a lane exactly when 8 or more bytes are left, a word exactly when 4 to 7 are left, else a byte; it starts at the current position and fits in what is left |
| XxHash64.UnmixMix | src/ag_hash.c:207-223 | any sequence of PROCESS steps is undone by undoing them last to first |
| XxHash64.TailInjective | src/ag_hash.c:225-336 | for fixed bytes, the tail never maps two different hashes to the same one |
| XxHash64.PiecesConsume | src/ag_hash.c:225-336 | the cut of r bytes stands for exactly r bytes |
| XxHash64.PiecesWithin | src/ag_hash.c:225-336 | every piece of the cut of r bytes at p ends by p + r: finalize never reads past its input |
| XxHash64.PiecesGreedy | src/ag_hash.c:225-336 | the step-by-step cut is the greedy one: as many lanes as fit, then at most one word, then at most three bytes |
| XxHash64.LaneStep | src/ag_hash.c:217-223 | with 8 or more bytes left, the tail is PROCESS8_64 on the lane at p followed by the tail of the rest |
| XxHash64.WordStep | src/ag_hash.c:212-215 | with 4 to 7 bytes left, the tail is PROCESS4_64 on the word at p followed by the tail of the rest |
| XxHash64.ByteStep | src/ag_hash.c:207-210 | with 1 to 3 bytes left, the tail is PROCESS1_64 on the byte at p followed by the tail of the rest |
| AgHash.ProcessLane | src/ag_hash.c:217-223 | p moves on by 8 and the rest of the tail from the new hash is the tail from the old one |
| AgHash.ProcessWord | src/ag_hash.c:212-215 | p moves on by 4 and the rest of the tail from the new hash is the tail from the old one |
| AgHash.ProcessByte | src/ag_hash.c:207-210 | p moves on by 1 and the rest of the tail from the new hash is the tail from the old one |
| AgHash.ProcessLanes | src/ag_hash.c:225-323 | the fallthrough PROCESS8_64 steps leave fewer than 8 of the residue's bytes, with the tail unchanged |
| AgHash.ProcessBytes | src/ag_hash.c:326-333 | the fallthrough PROCESS1_64 steps mix in exactly the bytes left |
| AgHash.Finalize | src/ag_hash.c:199-342 | every residue `len & 31` ends in the avalanche of the tail of those bytes, so the `assert(0)` after the switch is unreachable |
| XxHash64.InitLanes | src/ag_hash.c:362-365 | v1..v4 from the seed: seed + PRIME64_1 + PRIME64_2, seed + PRIME64_2, seed, seed - PRIME64_1, modulo 2^64 |
| XxHash64.StripeInjective | src/ag_hash.c:367-376 | for fixed accumulators, different 32-byte stripes give different accumulators |
| XxHash64.StripeLanesInjective | src/ag_hash.c:367-376 | for fixed bytes, different accumulators before a stripe give different accumulators after it |
| XxHash64.StripesInjective | src/ag_hash.c:367-376 | for fixed bytes, the do-while over k stripes takes different starting accumulators to different final ones |
| XxHash64.StripesSeedInjective | src/ag_hash.c:360-376 | for a fixed input of 32 bytes or more, different seeds leave the stripe loop with different accumulators |
| XxHash64.Converge | src/ag_hash.c:378-383 | the sum of v1..v4 rotated by 1, 7, 12 and 18, then one merge round per accumulator, modulo 2^64 |
| XxHash64.Accumulator | src/ag_hash.c:360-387 | for 32 bytes or more, the converged accumulators after the `len / 32` stripes from the seed's lanes; otherwise seed + PRIME64_5 modulo 2^64 |
| XxHash64.Xxh64 | src/ag_hash.c:345-392 | for inputs shorter than 2^64 bytes: the avalanche of the tail of the last `len mod 32` bytes, mixed into the accumulator plus the length |
| AgHash.ProcessStripe | src/ag_hash.c:367-375 | one lane into each of v1..v4 in order, p moving on by 32 |
| AgHash.ProcessStripes | src/ag_hash.c:360-376 | the do-while takes every whole 32-byte stripe, `len / 32` of them, and stops with `len mod 32` bytes left |
| AgHash.Accumulate | src/ag_hash.c:360-387 | stripes and convergence for 32 bytes or more; `seed + PRIME64_5` modulo 2^64 otherwise; the tail starts after the last whole stripe |
| XxHash64.TailIsRest | src/ag_hash.c:389-391 | the tail starts after the `n / 32` stripes, consumes the `n mod 32` bytes left and reads none past the end |
| AgHash.EndianAlign | src/ag_hash.c:345-392 | XXH64 of the first `len` bytes whatever the alignment; a NULL input gives the hash of zero bytes |
| AgHash.Hash64WithSeed | src/ag_hash.c:395-398 | XXH64 of the input, little-endian, with the given seed |
| AgHash.Hash64 | src/ag_hash.c:401-404 | XXH64 of the input, little-endian, with seed 0: the same as with_seed at 0 |

## Left out

- Machine words: `uint8_t`, `uint32_t`, `uint64_t` and `size_t` are
  integers in their ranges. Every wrap-around of the hash (sums, products,
  `seed - PRIME64_1`, `h64 += len`) is written out modulo 2^64. `<<` keeps
  the low bits of the product with a power of two, `>>` divides by one, and
  `&`, `|` and `^` are bit-by-bit functions on the low n bits. The
  rotation and the avalanche's shifts are written as the divisions and
  products they compute rather than through these functions.
- Fixed-width overflow of `gr_size_t` (`i * 2`, `++cnt`) in the heap: counts
  are unbounded naturals.
- `len & 31` is written as `len % 32`. The two are equal for unsigned
  `len`, but the bit-level equation is not proved.
- HashBits.Rotl64: defined only for rotations 1 to 63, because the C macro
  is undefined for 0 and the source only rotates by constants from 1 to 31.
- HashBits.Avalanche: its mixing is modelled, but no inverse is proved.
- Concrete hash values of particular inputs are not stated; the
  properties above are stated for all inputs.
- XxHash64.MixPiece: a piece that would reach past the end of the input
  leaves the hash unchanged instead of reading out of bounds.
  `XxHash64.PiecesWithin` and `XxHash64.TailIsRest` show this never
  happens for the pieces finalize mixes.
- AgHash.Finalize: the switch on `len & 31` is modelled as its effect per
  residue, not as the 32 case labels:
  - one PROCESS8_64 per whole lane;
  - then PROCESS4_64 if a word is left;
  - then one PROCESS1_64 per byte left.
  The steps are the same as the fallthrough chains. The early returns
  become a single avalanche at the end.
- AgHash.EndianAlign: the function is split into `Accumulate`, the length
  addition (`XxHash64.AddLength`) and `Finalize`.
- The dummy address 32 that replaces a NULL input: the input is a byte
  sequence and NULL is `None`, and the replacement address is never read.
- The aligned load through a cast and the unaligned `memcpy`: both read the
  same bytes at the read position, in the byte order of a little-endian
  host (the only order the library targets).
- Pointer arithmetic, `void *` element handles and function-pointer
  dispatch: positions are indices, items are a type parameter, and the
  comparator is a function value.
- The commented-out 32-bit section of `src/ag_hash.c` (lines 110-124):
  not code.
- The Gromer library (growth policy, allocation, reallocation moving
  `h->gr`): an external library. Only the used slots and `gr_push` as
  append-one are modelled. `gr_push` pushes NULL in the source; the
  model pushes the item, whose slot the same `aghp_put` overwrites.
- `aghp_new` and `aghp_del`: allocation becomes the constructor
  `AgHeap.Heap.Init`. Freeing has no counterpart.
- Misuse the source does not check: a polarity other than 1 or -1,
  `aghp_ify` with `cnt != 0`, and `aghp_sort` without a prior
  `aghp_ify_for_sort` are excluded by preconditions.
- AgHeap.Heap.Sort: in `aghp_nth( h, h->cnt + 1 ) = aghp_get( h )` C does
  not fix whether `h->cnt` is read before or after the call. The model
  reads it after the call, the only order in which the heapsort works.
- The printing helper and the Unity test framework calls of `test/test_basic.c`, and its
  pseudo-random inputs: the scenarios are stated for every list of
  integers.
- `src/alogir.h` and `src/ag_hash.h`: typedefs, prototypes and version
  macros only. The version macros are the constants of
  `AgHash.VersionNumber`.
