/**
 * The 64-bit mixing steps of the xxHash64 adaptation in src/ag_hash.c: the
 * rotation, the PRIME64 constants, the lane round, the merge round and the
 * avalanche. C's unsigned arithmetic wraps modulo 2^64; here every sum and
 * product is taken modulo 2^64 explicitly by Wrap64, `x >> s` is `x / 2^s`
 * and `^` is Xor of module Bitwise on 64 bits.
 */
module HashBits {
  import opened Bitwise
  import opened HashBytes

  const TWO_64: int := 0x1_0000_0000_0000_0000

  /** x modulo 2^64: what storing x into a uint64_t keeps. */
  function Wrap64(x: int): u64 {
    x - TWO_64 * (x / TWO_64)
  }

  /** Adding a multiple of 2^64 does not change what a uint64_t keeps. */
  lemma WrapShift(x: u64, k: int)
    ensures Wrap64(x + TWO_64 * k) == x
  {
    var y := x + TWO_64 * k;
    assert y / TWO_64 == k;
  }

  /** Wrapping twice is wrapping once, and wrapping after adding or
      multiplying does not depend on whether the operands were wrapped. */
  lemma WrapOf(x: int, k: int)
    ensures Wrap64(x + TWO_64 * k) == Wrap64(x)
  {
    WrapShift(Wrap64(x), k + x / TWO_64);
  }

  /** Adding c and then subtracting it, both modulo 2^64, gives back what
      a uint64_t kept of y. */
  lemma AddSubtract(y: int, c: int)
    ensures Wrap64(Wrap64(y + c) - c) == Wrap64(y)
  {
    var k := (y + c) / TWO_64;
    assert Wrap64(y + c) - c == y + TWO_64 * (-k);
    WrapOf(y, -k);
  }

  /** `a ^ b` on uint64_t. */
  function Xor64(a: u64, b: u64): u64 {
    Pow2Values();
    Xor(a, b, 64)
  }

  lemma Xor64Inverse(a: u64, b: u64)
    ensures Xor64(Xor64(a, b), b) == a
  {
    Pow2Values();
    XorInverse(a, b, 64);
  }

  /** Splitting x < p * q into x / p and x mod p stays in range, and so
      does putting the two halves back in the other order. */
  lemma SplitFits(x: int, p: int, q: int)
    requires p > 0 && q > 0 && 0 <= x < p * q
    ensures 0 <= x / p < q && 0 <= x - x / p * p < p
    ensures (x - x / p * p) * q + x / p < p * q
  {
    var lo := x / p;
    var rest := x - lo * p;
    assert 0 <= rest < p;
    assert lo < q by {
      if lo >= q {
        MulMono(q, lo, p);
      }
    }
    MulMono(rest, p - 1, q);
  }

  /** Swapping the halves of x twice gives them back. */
  lemma SplitSwapped(x: int, p: int, q: int)
    requires p > 0 && q > 0 && 0 <= x < p * q
    ensures var lo := x / p; var rest := x - lo * p; var y := rest * q + lo;
            y / q == rest && y - y / q * q == lo
  {
    SplitFits(x, p, q);
    var lo := x / p;
    var rest := x - lo * p;
    DivUnique(rest * q + lo, rest, lo, q);
  }

  lemma RotlFits(x: u64, r: nat)
    requires 0 < r < 64
    ensures var p, q := Pow2(64 - r), Pow2(r);
            0 <= x / p < q && 0 <= x - x / p * p < p && (x - x / p * p) * q + x / p < TWO_64
  {
    Pow2Add(64 - r, r);
    Pow2Values();
    SplitFits(x, Pow2(64 - r), Pow2(r));
  }

  /** aghs_rotl64, (x << r) | (x >> (64 - r)) on a uint64_t: the low 64 - r
      bits move up by r places and the high r bits come back in at the
      bottom. The source only rotates by constants between 1 and 31. */
  function Rotl64(x: u64, r: nat): u64
    requires 0 < r < 64
  {
    RotlFits(x, r);
    var p, q := Pow2(64 - r), Pow2(r);
    (x - x / p * p) * q + x / p
  }

  /** Rotating by r and then by 64 - r gives the word back. */
  lemma RotlInverse(x: u64, r: nat, s: nat)
    requires 0 < r < 64 && r + s == 64
    ensures Rotl64(Rotl64(x, r), s) == x
  {
    var p, q := Pow2(s), Pow2(r);
    Pow2Add(s, r);
    Pow2Values();
    SplitSwapped(x, p, q);
    var lo := x / p;
    var rest := x - lo * p;
    assert Rotl64(x, r) == rest * q + lo;
  }

  const PRIME64_1: u64 := 11400714785074694791
  const PRIME64_2: u64 := 14029467366897019727
  const PRIME64_3: u64 := 1609587929392839161
  const PRIME64_4: u64 := 9650029242287828579
  const PRIME64_5: u64 := 2870177450012600261

  /** The inverses of PRIME64_1 and PRIME64_2 modulo 2^64: the primes are
      odd, so multiplying by them is a bijection on uint64_t. */
  const PRIME64_1_INVERSE: u64 := 614540362697595703
  const PRIME64_2_INVERSE: u64 := 839798700976720815

  /** Multiplying by a prime and then by its inverse gives the word back. */
  lemma MulInverse1(x: u64)
    ensures Wrap64(Wrap64(x * PRIME64_1) * PRIME64_1_INVERSE) == x
  {
    var k := (x * PRIME64_1) / TWO_64;
    var t := (PRIME64_1 * PRIME64_1_INVERSE - 1) / TWO_64;
    assert PRIME64_1 * PRIME64_1_INVERSE == 1 + TWO_64 * t;
    assert Wrap64(x * PRIME64_1) * PRIME64_1_INVERSE
        == x + TWO_64 * (x * t - k * PRIME64_1_INVERSE);
    WrapShift(x, x * t - k * PRIME64_1_INVERSE);
  }

  lemma MulInverse2(x: u64)
    ensures Wrap64(Wrap64(x * PRIME64_2) * PRIME64_2_INVERSE) == x
  {
    var k := (x * PRIME64_2) / TWO_64;
    var t := (PRIME64_2 * PRIME64_2_INVERSE - 1) / TWO_64;
    assert PRIME64_2 * PRIME64_2_INVERSE == 1 + TWO_64 * t;
    assert Wrap64(x * PRIME64_2) * PRIME64_2_INVERSE
        == x + TWO_64 * (x * t - k * PRIME64_2_INVERSE);
    WrapShift(x, x * t - k * PRIME64_2_INVERSE);
  }

  /** Undoing `t * PRIME64_1 + PRIME64_4` modulo 2^64. */
  lemma UndoMulAdd1(t: u64)
    ensures Wrap64(Wrap64(Wrap64(t * PRIME64_1 + PRIME64_4) - PRIME64_4) * PRIME64_1_INVERSE) == t
  {
    AddSubtract(t * PRIME64_1, PRIME64_4);
    MulInverse1(t);
  }

  /** Undoing `t * PRIME64_2 + PRIME64_3` modulo 2^64. */
  lemma UndoMulAdd2(t: u64)
    ensures Wrap64(Wrap64(Wrap64(t * PRIME64_2 + PRIME64_3) - PRIME64_3) * PRIME64_2_INVERSE) == t
  {
    AddSubtract(t * PRIME64_2, PRIME64_3);
    MulInverse2(t);
  }

  /** aghs_64_round: add the lane times PRIME64_2, rotate by 31, multiply
      by PRIME64_1. */
  function Round(acc: u64, input: u64): u64 {
    Wrap64(Rotl64(Wrap64(acc + input * PRIME64_2), 31) * PRIME64_1)
  }

  /** Round with its steps undone in reverse order. */
  function Unround(acc: u64, r: u64): u64 {
    Wrap64(Wrap64(Rotl64(Wrap64(r * PRIME64_1_INVERSE), 33) - acc) * PRIME64_2_INVERSE)
  }

  /** Every round is a bijection of the lane: Unround recovers it, so two
      different lanes never give the same accumulator. */
  lemma {:induction false} UnroundRound(acc: u64, input: u64)
    ensures Unround(acc, Round(acc, input)) == input
  {
    var s := Wrap64(acc + input * PRIME64_2);
    var t := Rotl64(s, 31);
    MulInverse1(t);
    RotlInverse(s, 31, 33);
    assert Wrap64(Round(acc, input) * PRIME64_1_INVERSE) == t;
    var m := Wrap64(input * PRIME64_2);
    assert Wrap64(s - acc) == m by {
      var k1 := (acc + input * PRIME64_2) / TWO_64;
      var k2 := (input * PRIME64_2) / TWO_64;
      assert s - acc == m + TWO_64 * (k2 - k1);
      WrapShift(m, k2 - k1);
    }
    MulInverse2(input);
  }

  /** Round with its steps undone for a fixed lane: the accumulator back. */
  function UnroundAcc(input: u64, r: u64): u64 {
    Wrap64(Rotl64(Wrap64(r * PRIME64_1_INVERSE), 33) - input * PRIME64_2)
  }

  /** For a fixed lane the round is also a bijection of the accumulator:
      two different accumulators never round to the same one. */
  lemma {:induction false} UnroundAccRound(acc: u64, input: u64)
    ensures UnroundAcc(input, Round(acc, input)) == acc
  {
    var r := Round(acc, input);
    var s := RoundRotated(acc, input, r);
    UnroundAccOf(input, r, s);
    AddSubtractWord(acc, input * PRIME64_2);
  }

  /** Undoing the multiplication and the rotation of a round gives the
      accumulator plus the lane times PRIME64_2. */
  lemma RoundRotated(acc: u64, input: u64, r: u64) returns (s: u64)
    requires r == Round(acc, input)
    ensures s == Wrap64(acc + input * PRIME64_2)
    ensures Rotl64(Wrap64(r * PRIME64_1_INVERSE), 33) == s
  {
    s := Wrap64(acc + input * PRIME64_2);
    var t := Rotl64(s, 31);
    MulInverse1(t);
    RotlInverse(s, 31, 33);
  }

  /** UnroundAcc once the rotation has been undone. */
  lemma UnroundAccOf(input: u64, r: u64, s: u64)
    requires Rotl64(Wrap64(r * PRIME64_1_INVERSE), 33) == s
    ensures UnroundAcc(input, r) == Wrap64(s - input * PRIME64_2)
  {
  }

  /** Adding c and then subtracting it, both modulo 2^64, gives a word back. */
  lemma AddSubtractWord(x: u64, c: int)
    ensures Wrap64(Wrap64(x + c) - c) == x
  {
    AddSubtract(x, c);
    WrapShift(x, 0);
  }

  /** aghs_64_merge_round: fold a stripe accumulator into the hash. */
  function MergeRound(acc: u64, val: u64): u64 {
    Wrap64(Xor64(acc, Round(0, val)) * PRIME64_1 + PRIME64_4)
  }

  /** MergeRound with its steps undone in reverse order. */
  function Unmerge(acc: u64, r: u64): u64 {
    Unround(0, Xor64(Wrap64(Wrap64(r - PRIME64_4) * PRIME64_1_INVERSE), acc))
  }

  /** For a fixed hash, the merged accumulator is recovered from the
      result. */
  lemma {:induction false} UnmergeMergeRound(acc: u64, val: u64)
    ensures Unmerge(acc, MergeRound(acc, val)) == val
  {
    UndoMulAdd1(Xor64(acc, Round(0, val)));
    Xor64Cancel(acc, Round(0, val));
    UnroundRound(0, val);
  }

  /** Exclusive or with a, after exclusive or with a, leaves b. */
  lemma Xor64Cancel(a: u64, b: u64)
    ensures Xor64(Xor64(a, b), a) == b
  {
    Pow2Values();
    XorInverse(b, a, 64);
    XorSymmetric(a, b, 64);
  }

  /** aghs_64_avalanche: xor with the word shifted right by 33, multiply by
      PRIME64_2, xor-shift by 29, multiply by PRIME64_3, xor-shift by 32. */
  function Avalanche(h: u64): u64 {
    var a := Xor64(h, h / 0x2_0000_0000);
    var b := Wrap64(a * PRIME64_2);
    var c := Xor64(b, b / 0x2000_0000);
    var d := Wrap64(c * PRIME64_3);
    Xor64(d, d / 0x1_0000_0000)
  }
}
