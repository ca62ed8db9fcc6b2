/**
 * The xxHash64 entry points of src/ag_hash.c. The tail switch of
 * aghs_64_finalize and the stripe loop of aghs_64_endian_align are written
 * as the step-by-step updates of the source and proved equal to the XXH64
 * function of the input bytes. A pointer to the input is the sequence of
 * its `len` bytes; a position in it is an index.
 */
module AgHash {
  import opened Wrappers
  import opened HashBytes
  import opened HashBits
  import opened XxHash64

  const AG_HASH_VERSION_MAJOR: nat := 0
  const AG_HASH_VERSION_MINOR: nat := 6
  const AG_HASH_VERSION_RELEASE: nat := 5

  /** aghs_version_number: major * 10000 + minor * 100 + release, from
      which the three parts can be read back. */
  function VersionNumber(): (v: nat)
    ensures v == 605
    ensures v / 10000 == AG_HASH_VERSION_MAJOR
    ensures (v / 100) % 100 == AG_HASH_VERSION_MINOR
    ensures v % 100 == AG_HASH_VERSION_RELEASE
  {
    AG_HASH_VERSION_MAJOR * 100 * 100 + AG_HASH_VERSION_MINOR * 100 + AG_HASH_VERSION_RELEASE
  }

  /** PROCESS8_64: the lane at p is mixed into the hash and p moves on by
      8. What is left of the tail after it is the rest of the r bytes. */
  method ProcessLane(h: u64, b: seq<u8>, p: nat, ghost r: nat, endian: Endianness, align: Alignment)
    returns (h': u64, p': nat)
    requires 8 <= r && p + r <= |b|
    ensures p' == p + 8
    ensures Tail(h', b, p', r - 8, endian) == Tail(h, b, p, r, endian)
  {
    h' := Process8(h, ReadLe64Align(b, p, endian, align));
    p' := p + 8;
    ReadLe64AlignValue(b, p, endian, align);
    LaneStep(h, b, p, r, endian);
  }

  /** PROCESS4_64: the word at p is mixed into the hash and p moves on
      by 4. */
  method ProcessWord(h: u64, b: seq<u8>, p: nat, ghost r: nat, endian: Endianness, align: Alignment)
    returns (h': u64, p': nat)
    requires 4 <= r < 8 && p + r <= |b|
    ensures p' == p + 4
    ensures Tail(h', b, p', r - 4, endian) == Tail(h, b, p, r, endian)
  {
    h' := Process4(h, ReadLe32Align(b, p, endian, align));
    p' := p + 4;
    ReadLe32AlignValue(b, p, endian, align);
    WordStep(h, b, p, r, endian);
  }

  /** PROCESS1_64: the byte at p is mixed into the hash and p moves on
      by 1. */
  method ProcessByte(h: u64, b: seq<u8>, p: nat, ghost r: nat, endian: Endianness)
    returns (h': u64, p': nat)
    requires 1 <= r < 4 && p + r <= |b|
    ensures p' == p + 1
    ensures Tail(h', b, p', r - 1, endian) == Tail(h, b, p, r, endian)
  {
    h' := Process1(h, b[p]);
    p' := p + 1;
    ByteStep(h, b, p, r, endian);
  }

  /** The PROCESS8_64 steps of the finalize switch: the cases 8 to 31 fall
      through one PROCESS8_64 per whole lane, leaving fewer than 8 of the
      r0 bytes. */
  method ProcessLanes(h0: u64, b: seq<u8>, p0: nat, r0: nat, endian: Endianness, align: Alignment)
    returns (h: u64, p: nat, r: nat)
    requires r0 < 32 && p0 + r0 <= |b|
    ensures r < 8 && p + r == p0 + r0
    ensures Tail(h, b, p, r, endian) == Tail(h0, b, p0, r0, endian)
  {
    h, p, r := h0, p0, r0;
    if r >= 24 {
      h, p := ProcessLane(h, b, p, r, endian, align);
      h, p := ProcessLane(h, b, p, r - 8, endian, align);
      h, p := ProcessLane(h, b, p, r - 16, endian, align);
      r := r - 24;
    } else if r >= 16 {
      h, p := ProcessLane(h, b, p, r, endian, align);
      h, p := ProcessLane(h, b, p, r - 8, endian, align);
      r := r - 16;
    } else if r >= 8 {
      h, p := ProcessLane(h, b, p, r, endian, align);
      r := r - 8;
    }
  }

  /** The PROCESS1_64 steps of the finalize switch: cases 3, 2 and 1 fall
      through one PROCESS1_64 per byte left. */
  method ProcessBytes(h0: u64, b: seq<u8>, p0: nat, r0: nat, endian: Endianness)
    returns (h: u64)
    requires r0 < 4 && p0 + r0 <= |b|
    ensures h == Tail(h0, b, p0, r0, endian)
  {
    var p, r := p0, r0;
    h := h0;
    if r >= 3 {
      h, p := ProcessByte(h, b, p, r, endian);
      r := r - 1;
    }
    if r >= 2 {
      h, p := ProcessByte(h, b, p, r, endian);
      r := r - 1;
    }
    if r >= 1 {
      h, p := ProcessByte(h, b, p, r, endian);
      r := r - 1;
    }
  }

  /** aghs_64_finalize: mixes the last `len & 31` bytes, at p0, into the
      hash and applies the avalanche. Every case of the switch runs one
      PROCESS8_64 per whole lane, then PROCESS4_64 if a word is left, then
      PROCESS1_64 per byte left, and returns through the avalanche; the
      steps here are the same for each of the 32 residues, so there is no
      path to the `assert(0)` after the switch. */
  method Finalize(h0: u64, b: seq<u8>, p0: nat, len: nat, endian: Endianness, align: Alignment)
    returns (h: u64)
    requires p0 + len % 32 <= |b|
    ensures h == Avalanche(Tail(h0, b, p0, len % 32, endian))
  {
    var p, r;
    h, p, r := ProcessLanes(h0, b, p0, len % 32, endian, align);
    if r >= 4 {
      h, p := ProcessWord(h, b, p, r, endian, align);
      r := r - 4;
    }
    h := ProcessBytes(h, b, p, r, endian);
    h := Avalanche(h);
  }

  /** The body of the do-while of aghs_64_endian_align: one lane into each
      of v1..v4 in turn, p moving on by 8 after each, so one stripe of 32
      bytes. */
  method ProcessStripe(v1: u64, v2: u64, v3: u64, v4: u64, b: seq<u8>, p0: nat,
                       endian: Endianness, align: Alignment)
    returns (w1: u64, w2: u64, w3: u64, w4: u64, p: nat)
    requires p0 + 32 <= |b|
    ensures p == p0 + 32
    ensures Lanes(w1, w2, w3, w4) == Stripe(Lanes(v1, v2, v3, v4), b, p0, endian)
  {
    p := p0;
    w1 := Round(v1, ReadLe64Align(b, p, endian, align));
    p := p + 8;
    w2 := Round(v2, ReadLe64Align(b, p, endian, align));
    p := p + 8;
    w3 := Round(v3, ReadLe64Align(b, p, endian, align));
    p := p + 8;
    w4 := Round(v4, ReadLe64Align(b, p, endian, align));
    p := p + 8;
    ReadLe64AlignValue(b, p0, endian, align);
    ReadLe64AlignValue(b, p0 + 8, endian, align);
    ReadLe64AlignValue(b, p0 + 16, endian, align);
    ReadLe64AlignValue(b, p0 + 24, endian, align);
  }

  /** The do-while of aghs_64_endian_align over n >= 32 bytes: it runs while
      a whole stripe is left before the end, so it takes all n / 32 whole
      stripes and stops with n mod 32 bytes left. */
  method ProcessStripes(v: Lanes, b: seq<u8>, n: nat, endian: Endianness, align: Alignment)
    returns (w: Lanes, p: nat)
    requires 32 <= n <= |b|
    ensures p == 32 * (n / 32)
    ensures w == Stripes(v, b, 0, n / 32, endian)
  {
    var limit := n - 32;
    var v1, v2, v3, v4 := v.v1, v.v2, v.v3, v.v4;
    p := 0;
    var more := true;
    ghost var stripes: nat := n / 32;
    ghost var k: nat := stripes;
    while more
      invariant k <= stripes && p + 32 * k == 32 * stripes
      invariant more <==> k > 0
      invariant Stripes(Lanes(v1, v2, v3, v4), b, p, k, endian) == Stripes(v, b, 0, stripes, endian)
      decreases k
    {
      v1, v2, v3, v4, p := ProcessStripe(v1, v2, v3, v4, b, p, endian, align);
      k := k - 1;
      more := p <= limit;
    }
    w := Lanes(v1, v2, v3, v4);
  }

  /** The branch of aghs_64_endian_align on `len >= 32`: the stripes and
      their convergence, or seed + PRIME64_5 for a shorter input, with the
      position the tail starts at. */
  method Accumulate(b: seq<u8>, seed: u64, endian: Endianness, align: Alignment) returns (acc: u64, p: nat)
    ensures acc == Accumulator(b, seed, endian) && p == 32 * (|b| / 32)
  {
    if |b| >= 32 {
      var v;
      v, p := ProcessStripes(InitLanes(seed), b, |b|, endian, align);
      acc := LaneSum(v);
      acc := MergeRound(acc, v.v1);
      acc := MergeRound(acc, v.v2);
      acc := MergeRound(acc, v.v3);
      acc := MergeRound(acc, v.v4);
    } else {
      p := 0;
      acc := Wrap64(seed + PRIME64_5);
    }
  }

  /** aghs_64_endian_align: XXH64 of the `len` bytes at `input`. A NULL
      input is hashed as zero bytes, and the alignment makes no
      difference. */
  method EndianAlign(input: Option<seq<u8>>, len: nat, seed: u64, endian: Endianness, align: Alignment)
    returns (h: u64)
    requires len < TWO_64
    requires input.Some? ==> len <= |input.value|
    ensures h == Xxh64(if input.Some? then input.value[..len] else [], seed, endian)
  {
    var b: seq<u8>;
    var n := len;
    if input.None? {
      n := 0;
      b := [];
    } else {
      b := input.value[..len];
    }
    var p;
    h, p := Accumulate(b, seed, endian, align);
    h := AddLength(h, n);
    h := Finalize(h, b, p, n, endian, align);
  }

  /** aghs_64_with_seed: little-endian, unaligned reads. */
  method Hash64WithSeed(input: Option<seq<u8>>, len: nat, seed: u64) returns (h: u64)
    requires len < TWO_64
    requires input.Some? ==> len <= |input.value|
    ensures h == Xxh64(if input.Some? then input.value[..len] else [], seed, LittleEndian)
  {
    h := EndianAlign(input, len, seed, LittleEndian, Unaligned);
  }

  /** aghs_64: aghs_64_with_seed with seed 0. */
  method Hash64(input: Option<seq<u8>>, len: nat) returns (h: u64)
    requires len < TWO_64
    requires input.Some? ==> len <= |input.value|
    ensures h == Xxh64(if input.Some? then input.value[..len] else [], 0, LittleEndian)
  {
    h := EndianAlign(input, len, 0, LittleEndian, Unaligned);
  }
}
