/**
 * XXH64 as a function of the input bytes, phase by phase: four lane
 * accumulators take every whole 32-byte stripe, they converge into one
 * accumulator, the input length is added, the remaining bytes are consumed
 * greedily as 8-byte lanes, 4-byte words and single bytes, and the
 * avalanche mixes the result. The imperative code of src/ag_hash.c is
 * proved equal to this.
 */
module XxHash64 {
  import opened HashBytes
  import opened HashBits

  /** PROCESS8_64: mix an 8-byte lane into the hash. */
  function Process8(h: u64, lane: u64): u64 {
    Wrap64(Rotl64(Xor64(h, Round(0, lane)), 27) * PRIME64_1 + PRIME64_4)
  }

  /** PROCESS4_64: mix a 4-byte word into the hash. */
  function Process4(h: u64, word: u32): u64 {
    Wrap64(Rotl64(Xor64(h, Wrap64(word * PRIME64_1)), 23) * PRIME64_2 + PRIME64_3)
  }

  /** PROCESS1_64: mix one byte into the hash. */
  function Process1(h: u64, byte: u8): u64 {
    Wrap64(Rotl64(Xor64(h, Wrap64(byte * PRIME64_5)), 11) * PRIME64_1)
  }

  /** The hash before a PROCESS8_64 step, recovered from the one after. */
  function Unprocess8(r: u64, lane: u64): u64 {
    Xor64(Rotl64(Wrap64(Wrap64(r - PRIME64_4) * PRIME64_1_INVERSE), 37), Round(0, lane))
  }

  function Unprocess4(r: u64, word: u32): u64 {
    Xor64(Rotl64(Wrap64(Wrap64(r - PRIME64_3) * PRIME64_2_INVERSE), 41), Wrap64(word * PRIME64_1))
  }

  function Unprocess1(r: u64, byte: u8): u64 {
    Xor64(Rotl64(Wrap64(r * PRIME64_1_INVERSE), 53), Wrap64(byte * PRIME64_5))
  }

  /** For a fixed input, each step of the tail is a bijection of the hash:
      two different hashes never meet in the same result. */
  lemma Unprocess8Process8(h: u64, lane: u64)
    ensures Unprocess8(Process8(h, lane), lane) == h
  {
    var k := Round(0, lane);
    var x := Xor64(h, k);
    var t := Rotl64(x, 27);
    var r := Wrap64(t * PRIME64_1 + PRIME64_4);
    assert Process8(h, lane) == r;
    var m := Wrap64(Wrap64(r - PRIME64_4) * PRIME64_1_INVERSE);
    assert m == t by { UndoMulAdd1(t); }
    assert Rotl64(m, 37) == x by { RotlInverse(x, 27, 37); }
    assert Unprocess8(r, lane) == Xor64(x, k);
    Xor64Inverse(h, k);
  }

  lemma Unprocess4Process4(h: u64, word: u32)
    ensures Unprocess4(Process4(h, word), word) == h
  {
    var k := Wrap64(word * PRIME64_1);
    var x := Xor64(h, k);
    var t := Rotl64(x, 23);
    var r := Wrap64(t * PRIME64_2 + PRIME64_3);
    assert Process4(h, word) == r;
    var m := Wrap64(Wrap64(r - PRIME64_3) * PRIME64_2_INVERSE);
    assert m == t by { UndoMulAdd2(t); }
    assert Rotl64(m, 41) == x by { RotlInverse(x, 23, 41); }
    assert Unprocess4(r, word) == Xor64(x, k);
    Xor64Inverse(h, k);
  }

  lemma Unprocess1Process1(h: u64, byte: u8)
    ensures Unprocess1(Process1(h, byte), byte) == h
  {
    var k := Wrap64(byte * PRIME64_5);
    var x := Xor64(h, k);
    var t := Rotl64(x, 11);
    var r := Wrap64(t * PRIME64_1);
    assert Process1(h, byte) == r;
    var m := Wrap64(r * PRIME64_1_INVERSE);
    assert m == t by { MulInverse1(t); }
    assert Rotl64(m, 53) == x by { RotlInverse(x, 11, 53); }
    assert Unprocess1(r, byte) == Xor64(x, k);
    Xor64Inverse(h, k);
  }

  /** A piece of the tail, by the position it starts at: an 8-byte lane,
      a 4-byte word or a single byte. */
  datatype Piece = Lane(at: nat) | Word(at: nat) | Byte(at: nat)

  /** The number of input bytes a piece stands for. */
  function PieceSize(x: Piece): nat {
    match x
    case Lane(_) => 8
    case Word(_) => 4
    case Byte(_) => 1
  }

  /** Every piece ends at or before byte n. */
  predicate Within(xs: seq<Piece>, n: nat) {
    forall x | x in xs :: x.at + PieceSize(x) <= n
  }

  /** The piece the r bytes at p start with, by the rule of XXH64: a lane
      when 8 or more bytes are left, else a word when 4 or more are left,
      else a byte. */
  function FirstPiece(p: nat, r: nat): (x: Piece)
    requires 1 <= r
    ensures x.at == p && 1 <= PieceSize(x) <= r
    ensures PieceSize(x) == 8 <==> r >= 8
    ensures PieceSize(x) == 4 <==> 4 <= r < 8
  {
    if r >= 8 then Lane(p) else if r >= 4 then Word(p) else Byte(p)
  }

  /** The r bytes at p cut into pieces, first piece first; they end by
      p + r. */
  function Pieces(p: nat, r: nat): (xs: seq<Piece>)
    decreases r
  {
    if r == 0 then []
    else
      var x := FirstPiece(p, r);
      [x] + Pieces(p + PieceSize(x), r - PieceSize(x))
  }

  /** Mixing one piece of b into the hash: PROCESS8_64, PROCESS4_64 or
      PROCESS1_64 on the lane, word or byte it starts at. A piece that
      would reach past the end of b leaves the hash alone; PiecesWithin
      shows that the cut of a tail never has one. */
  function MixPiece(h: u64, b: seq<u8>, x: Piece, endian: Endianness): u64 {
    if x.at + PieceSize(x) <= |b| then
      match x
      case Lane(i) => Process8(h, LaneAt(b, i, endian))
      case Word(i) => Process4(h, WordAt(b, i, endian))
      case Byte(i) => Process1(h, b[i])
    else h
  }

  function UnmixPiece(r: u64, b: seq<u8>, x: Piece, endian: Endianness): u64 {
    if x.at + PieceSize(x) <= |b| then
      match x
      case Lane(i) => Unprocess8(r, LaneAt(b, i, endian))
      case Word(i) => Unprocess4(r, WordAt(b, i, endian))
      case Byte(i) => Unprocess1(r, b[i])
    else r
  }

  lemma UnmixMixPiece(h: u64, b: seq<u8>, x: Piece, endian: Endianness)
    ensures UnmixPiece(MixPiece(h, b, x, endian), b, x, endian) == h
  {
    if x.at + PieceSize(x) <= |b| {
      match x
      case Lane(i) => Unprocess8Process8(h, LaneAt(b, i, endian));
      case Word(i) => Unprocess4Process4(h, WordAt(b, i, endian));
      case Byte(i) => Unprocess1Process1(h, b[i]);
    }
  }

  /** The pieces mixed into the hash in order. */
  function Mix(h: u64, b: seq<u8>, xs: seq<Piece>, endian: Endianness): u64
    decreases |xs|
  {
    if xs == [] then h else Mix(MixPiece(h, b, xs[0], endian), b, xs[1..], endian)
  }

  /** The hash before the pieces, recovered from the hash after them by
      undoing the pieces last to first. */
  function Unmix(r: u64, b: seq<u8>, xs: seq<Piece>, endian: Endianness): u64
    decreases |xs|
  {
    if xs == [] then r else UnmixPiece(Unmix(r, b, xs[1..], endian), b, xs[0], endian)
  }

  lemma {:induction false} UnmixMix(h: u64, b: seq<u8>, xs: seq<Piece>, endian: Endianness)
    ensures Unmix(Mix(h, b, xs, endian), b, xs, endian) == h
    decreases |xs|
  {
    if xs != [] {
      var g := MixPiece(h, b, xs[0], endian);
      UnmixMix(g, b, xs[1..], endian);
      assert Unmix(Mix(h, b, xs, endian), b, xs, endian) == UnmixPiece(g, b, xs[0], endian);
      UnmixMixPiece(h, b, xs[0], endian);
    }
  }

  /** The r bytes of b at p mixed into h piece by piece. */
  function Tail(h: u64, b: seq<u8>, p: nat, r: nat, endian: Endianness): u64 {
    Mix(h, b, Pieces(p, r), endian)
  }

  /** Every piece of the cut of r bytes at p ends by p + r: the tail never
      reads past the bytes it is given. */
  lemma {:induction false} PiecesWithin(p: nat, r: nat)
    ensures Within(Pieces(p, r), p + r)
    decreases r
  {
    if r != 0 {
      var x := FirstPiece(p, r);
      var rest := Pieces(p + PieceSize(x), r - PieceSize(x));
      PiecesWithin(p + PieceSize(x), r - PieceSize(x));
      assert Pieces(p, r) == [x] + rest;
      forall y | y in [x] + rest
        ensures y.at + PieceSize(y) <= p + r
      {
        if y != x {
          assert y in rest;
        }
      }
    }
  }

  /** For fixed bytes, the tail never maps two different hashes to the
      same one. */
  lemma TailInjective(h1: u64, h2: u64, b: seq<u8>, p: nat, r: nat, endian: Endianness)
    requires Tail(h1, b, p, r, endian) == Tail(h2, b, p, r, endian)
    ensures h1 == h2
  {
    UnmixMix(h1, b, Pieces(p, r), endian);
    UnmixMix(h2, b, Pieces(p, r), endian);
  }

  /** With 8 or more bytes left, the tail starts with a lane. */
  lemma LaneStep(h: u64, b: seq<u8>, p: nat, r: nat, endian: Endianness)
    requires 8 <= r && p + r <= |b|
    ensures Tail(h, b, p, r, endian) == Tail(Process8(h, LaneAt(b, p, endian)), b, p + 8, r - 8, endian)
  {
    var xs := Pieces(p, r);
    assert xs[0] == Lane(p) && xs[1..] == Pieces(p + 8, r - 8);
  }

  /** With 4 to 7 bytes left, the tail starts with a word. */
  lemma WordStep(h: u64, b: seq<u8>, p: nat, r: nat, endian: Endianness)
    requires 4 <= r < 8 && p + r <= |b|
    ensures Tail(h, b, p, r, endian) == Tail(Process4(h, WordAt(b, p, endian)), b, p + 4, r - 4, endian)
  {
    var xs := Pieces(p, r);
    assert xs[0] == Word(p) && xs[1..] == Pieces(p + 4, r - 4);
  }

  /** With 1 to 3 bytes left, the tail starts with a byte. */
  lemma ByteStep(h: u64, b: seq<u8>, p: nat, r: nat, endian: Endianness)
    requires 1 <= r < 4 && p + r <= |b|
    ensures Tail(h, b, p, r, endian) == Tail(Process1(h, b[p]), b, p + 1, r - 1, endian)
  {
    var xs := Pieces(p, r);
    assert xs[0] == Byte(p) && xs[1..] == Pieces(p + 1, r - 1);
  }

  /** The number of input bytes a sequence of pieces stands for. */
  function Consumed(xs: seq<Piece>): nat
    decreases |xs|
  {
    if xs == [] then 0 else PieceSize(xs[0]) + Consumed(xs[1..])
  }

  /** The tail consumes exactly its r bytes. */
  lemma {:induction false} PiecesConsume(p: nat, r: nat)
    ensures Consumed(Pieces(p, r)) == r
    decreases r
  {
    if r >= 8 {
      PiecesConsume(p + 8, r - 8);
    } else if r >= 4 {
      PiecesConsume(p + 4, r - 4);
    } else if r >= 1 {
      PiecesConsume(p + 1, r - 1);
    }
  }

  /** k lanes one after the other from p on. */
  function LaneRun(p: nat, k: nat): (xs: seq<Piece>)
    ensures |xs| == k
    decreases k
  {
    if k == 0 then [] else [Lane(p)] + LaneRun(p + 8, k - 1)
  }

  /** k single bytes one after the other from p on. */
  function ByteRun(p: nat, k: nat): (xs: seq<Piece>)
    ensures |xs| == k
    decreases k
  {
    if k == 0 then [] else [Byte(p)] + ByteRun(p + 1, k - 1)
  }

  /** The cut of fewer than 8 bytes at p in closed form: one word when 4
      or more are left, then single bytes. */
  function ShortPieces(p: nat, r: nat): seq<Piece>
    requires r < 8
  {
    if r >= 4 then [Word(p)] + ByteRun(p + 4, r - 4) else ByteRun(p, r)
  }

  /** Fewer than 4 bytes are cut into single bytes. */
  lemma {:induction false} PiecesBytes(p: nat, r: nat)
    requires r < 4
    ensures Pieces(p, r) == ByteRun(p, r)
    decreases r
  {
    if r >= 1 {
      PiecesBytes(p + 1, r - 1);
    }
  }

  lemma PiecesShort(p: nat, r: nat)
    requires r < 8
    ensures Pieces(p, r) == ShortPieces(p, r)
  {
    if r >= 4 {
      PiecesBytes(p + 4, r - 4);
    } else {
      PiecesBytes(p, r);
    }
  }

  /** With 8 or more bytes left, the cut starts with a lane. */
  lemma PiecesLane(p: nat, r: nat)
    requires 8 <= r
    ensures Pieces(p, r) == [Lane(p)] + Pieces(p + 8, r - 8)
  {
    assert FirstPiece(p, r) == Lane(p);
  }

  /** Of 8 * lanes + r bytes, the first 8 * lanes are cut into lanes. */
  lemma {:induction false} PiecesLanes(p: nat, lanes: nat, r: nat)
    ensures Pieces(p, 8 * lanes + r) == LaneRun(p, lanes) + Pieces(p + 8 * lanes, r)
    decreases lanes
  {
    var q := p + 8 * lanes;
    if lanes == 0 {
      assert LaneRun(p, lanes) + Pieces(q, r) == Pieces(q, r);
    } else {
      var run, rest := LaneRun(p + 8, lanes - 1), Pieces(q, r);
      assert p + 8 + 8 * (lanes - 1) == q && 8 * lanes + r - 8 == 8 * (lanes - 1) + r;
      PiecesLanes(p + 8, lanes - 1, r);
      assert Pieces(p + 8, 8 * (lanes - 1) + r) == run + rest;
      PiecesLane(p, 8 * lanes + r);
      assert Pieces(p, 8 * lanes + r) == [Lane(p)] + (run + rest);
      assert LaneRun(p, lanes) == [Lane(p)] + run;
      ConsAppend(Lane(p), run, rest);
    }
  }

  /** The step-by-step cut of the tail is the closed-form one: with
      r = 8 * lanes + rest and rest < 8, as many lanes as fit, then at most
      one word, then at most three bytes. */
  lemma PiecesGreedy(p: nat, lanes: nat, rest: nat)
    requires rest < 8
    ensures Pieces(p, 8 * lanes + rest) == LaneRun(p, lanes) + ShortPieces(p + 8 * lanes, rest)
  {
    PiecesLanes(p, lanes, rest);
    PiecesShort(p + 8 * lanes, rest);
  }

  /** Prepending to a concatenation prepends to its first part. */
  lemma ConsAppend(x: Piece, a: seq<Piece>, c: seq<Piece>)
    ensures [x] + (a + c) == ([x] + a) + c
  {
  }

  /** The four stripe accumulators v1..v4. */
  datatype Lanes = Lanes(v1: u64, v2: u64, v3: u64, v4: u64)

  /** Their starting values for a seed. */
  function InitLanes(seed: u64): Lanes {
    Lanes(Wrap64(seed + PRIME64_1 + PRIME64_2), Wrap64(seed + PRIME64_2), seed, Wrap64(seed - PRIME64_1))
  }

  /** One 32-byte stripe at p: one lane into each accumulator in turn. */
  function Stripe(v: Lanes, b: seq<u8>, p: nat, endian: Endianness): Lanes
    requires p + 32 <= |b|
  {
    Lanes(Round(v.v1, LaneAt(b, p, endian)),
          Round(v.v2, LaneAt(b, p + 8, endian)),
          Round(v.v3, LaneAt(b, p + 16, endian)),
          Round(v.v4, LaneAt(b, p + 24, endian)))
  }

  /** The accumulators after k stripes from p on. */
  function Stripes(v: Lanes, b: seq<u8>, p: nat, k: nat, endian: Endianness): Lanes
    requires p + 32 * k <= |b|
    decreases k
  {
    if k == 0 then v else Stripes(Stripe(v, b, p, endian), b, p + 32, k - 1, endian)
  }

  /** The stripe is recovered from the accumulators before and after it:
      two different 32-byte stripes never give the same accumulators. */
  lemma StripeInjective(v: Lanes, b: seq<u8>, p: nat, c: seq<u8>, q: nat, endian: Endianness)
    requires p + 32 <= |b| && q + 32 <= |c|
    requires Stripe(v, b, p, endian) == Stripe(v, c, q, endian)
    ensures b[p..p + 32] == c[q..q + 32]
  {
    LaneInjective(v.v1, b, p, c, q, endian);
    LaneInjective(v.v2, b, p + 8, c, q + 8, endian);
    LaneInjective(v.v3, b, p + 16, c, q + 16, endian);
    LaneInjective(v.v4, b, p + 24, c, q + 24, endian);
    JoinLanes(b, p, c, q);
  }

  /** For fixed bytes, the accumulators before a stripe are recovered from
      those after it. */
  lemma StripeLanesInjective(v: Lanes, w: Lanes, b: seq<u8>, p: nat, endian: Endianness)
    requires p + 32 <= |b|
    requires Stripe(v, b, p, endian) == Stripe(w, b, p, endian)
    ensures v == w
  {
    UnroundAccRound(v.v1, LaneAt(b, p, endian));
    UnroundAccRound(w.v1, LaneAt(b, p, endian));
    UnroundAccRound(v.v2, LaneAt(b, p + 8, endian));
    UnroundAccRound(w.v2, LaneAt(b, p + 8, endian));
    UnroundAccRound(v.v3, LaneAt(b, p + 16, endian));
    UnroundAccRound(w.v3, LaneAt(b, p + 16, endian));
    UnroundAccRound(v.v4, LaneAt(b, p + 24, endian));
    UnroundAccRound(w.v4, LaneAt(b, p + 24, endian));
  }

  /** For fixed bytes, the stripe loop never takes two different starting
      accumulators to the same final ones. */
  lemma {:induction false} StripesInjective(v: Lanes, w: Lanes, b: seq<u8>, p: nat, k: nat, endian: Endianness)
    requires p + 32 * k <= |b|
    requires Stripes(v, b, p, k, endian) == Stripes(w, b, p, k, endian)
    ensures v == w
    decreases k
  {
    if k > 0 {
      StripesInjective(Stripe(v, b, p, endian), Stripe(w, b, p, endian), b, p + 32, k - 1, endian);
      StripeLanesInjective(v, w, b, p, endian);
    }
  }

  /** For a fixed input of 32 bytes or more, two different seeds leave the
      stripe loop with different accumulators. */
  lemma StripesSeedInjective(s1: u64, s2: u64, data: seq<u8>, endian: Endianness)
    requires |data| >= 32
    requires Stripes(InitLanes(s1), data, 0, |data| / 32, endian)
          == Stripes(InitLanes(s2), data, 0, |data| / 32, endian)
    ensures s1 == s2
  {
    StripesInjective(InitLanes(s1), InitLanes(s2), data, 0, |data| / 32, endian);
  }

  /** Four equal 8-byte pieces make equal 32-byte stripes. */
  lemma JoinLanes(b: seq<u8>, p: nat, c: seq<u8>, q: nat)
    requires p + 32 <= |b| && q + 32 <= |c|
    requires b[p..p + 8] == c[q..q + 8] && b[p + 8..p + 16] == c[q + 8..q + 16]
    requires b[p + 16..p + 24] == c[q + 16..q + 24] && b[p + 24..p + 32] == c[q + 24..q + 32]
    ensures b[p..p + 32] == c[q..q + 32]
  {
    assert b[p..p + 16] == b[p..p + 8] + b[p + 8..p + 16];
    assert c[q..q + 16] == c[q..q + 8] + c[q + 8..q + 16];
    assert b[p + 16..p + 32] == b[p + 16..p + 24] + b[p + 24..p + 32];
    assert c[q + 16..q + 32] == c[q + 16..q + 24] + c[q + 24..q + 32];
    assert b[p..p + 32] == b[p..p + 16] + b[p + 16..p + 32];
    assert c[q..q + 32] == c[q..q + 16] + c[q + 16..q + 32];
  }

  /** A lane is recovered from its accumulator before and after a round. */
  lemma LaneInjective(acc: u64, b: seq<u8>, i: nat, c: seq<u8>, j: nat, endian: Endianness)
    requires i + 8 <= |b| && j + 8 <= |c|
    requires Round(acc, LaneAt(b, i, endian)) == Round(acc, LaneAt(c, j, endian))
    ensures b[i..i + 8] == c[j..j + 8]
  {
    UnroundRound(acc, LaneAt(b, i, endian));
    UnroundRound(acc, LaneAt(c, j, endian));
    LaneAtInjective(b, i, c, j, endian);
  }

  /** The accumulators converge into one hash. */
  function LaneSum(v: Lanes): u64 {
    Wrap64(Rotl64(v.v1, 1) + Rotl64(v.v2, 7) + Rotl64(v.v3, 12) + Rotl64(v.v4, 18))
  }

  function Converge(v: Lanes): u64 {
    MergeRound(MergeRound(MergeRound(MergeRound(LaneSum(v), v.v1), v.v2), v.v3), v.v4)
  }

  /** The accumulator before the length is added: the converged stripes
      for inputs of 32 bytes or more, seed + PRIME64_5 for shorter ones. */
  function Accumulator(data: seq<u8>, seed: u64, endian: Endianness): u64 {
    if |data| >= 32 then Converge(Stripes(InitLanes(seed), data, 0, |data| / 32, endian))
    else Wrap64(seed + PRIME64_5)
  }

  /** The input length added to the accumulator modulo 2^64. */
  function AddLength(acc: u64, n: nat): u64 {
    Wrap64(acc + n)
  }

  /** XXH64 of the bytes `data` with a seed, reading lanes and words in the
      given byte order. Inputs of 32 bytes or more go through the stripes;
      shorter ones start from seed + PRIME64_5. The length is added before
      the tail, which starts after the last whole stripe. */
  function Xxh64(data: seq<u8>, seed: u64, endian: Endianness): u64
    requires |data| < TWO_64
  {
    var n := |data|;
    Avalanche(Tail(AddLength(Accumulator(data, seed, endian), n), data, 32 * (n / 32), n % 32, endian))
  }

  /** The tail of an n-byte input starts after the n / 32 whole stripes,
      consumes exactly the n mod 32 bytes left and reads none past the
      end. */
  lemma TailIsRest(n: nat)
    ensures 32 * (n / 32) + n % 32 == n
    ensures Consumed(Pieces(32 * (n / 32), n % 32)) == n % 32
    ensures Within(Pieces(32 * (n / 32), n % 32), n)
  {
    PiecesConsume(32 * (n / 32), n % 32);
    PiecesWithin(32 * (n / 32), n % 32);
  }
}
