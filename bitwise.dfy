/**
 * C's bitwise operators on unsigned words, over the integers: a word of n
 * bits is a number below 2^n, `x << s` on it is x * 2^s modulo 2^n,
 * `x >> s` is x / 2^s, and `&`, `|` and `^` combine the two operands bit
 * by bit from the least significant end. The lemmas say what the masks
 * and shifts of src/ag_hash.c compute: a shifted and masked word is one of
 * its bytes moved to another place, and or-ing bytes at different places
 * adds them up.
 */
module Bitwise {

  /** 2^n, positive so that it can be divided by. */
  function Pow2(n: nat): (r: nat)
    ensures r > 0
  {
    if n == 0 then 1 else 2 * Pow2(n - 1)
  }

  /** 2^(a + b) == 2^a * 2^b. */
  lemma {:induction false} Pow2Add(a: nat, b: nat)
    ensures Pow2(a + b) == Pow2(a) * Pow2(b)
  {
    if b > 0 {
      Pow2Add(a, b - 1);
      assert Pow2(a + b) == 2 * Pow2(a + b - 1);
    }
  }

  /** The powers of two at byte boundaries as numerals, a helper for the
      proofs below. */
  lemma Pow2Values()
    ensures Pow2(8) == 0x100 && Pow2(16) == 0x1_0000 && Pow2(24) == 0x100_0000
    ensures Pow2(32) == 0x1_0000_0000 && Pow2(40) == 0x100_0000_0000
    ensures Pow2(48) == 0x1_0000_0000_0000 && Pow2(56) == 0x100_0000_0000_0000
    ensures Pow2(64) == 0x1_0000_0000_0000_0000
  {
    assert Pow2(4) == 16;
    Pow2Add(4, 4);
    Pow2Add(8, 8);
    Pow2Add(16, 8);
    Pow2Add(16, 16);
    Pow2Add(32, 8);
    Pow2Add(32, 16);
    Pow2Add(32, 24);
    Pow2Add(32, 32);
  }

  lemma MulMono(a: int, b: int, c: int)
    requires a <= b && c >= 0
    ensures a * c <= b * c
  {
  }

  /** Division by q has one answer: the quotient of a * q + b, 0 <= b < q,
      is a. */
  lemma DivUnique(y: int, a: int, b: int, q: int)
    requires q > 0 && 0 <= b < q && y == a * q + b
    ensures y / q == a
  {
    var d := y / q;
    assert 0 <= y - d * q < q;
    assert (a - d) * q == (y - d * q) - b;
    if a - d >= 1 {
      MulMono(1, a - d, q);
    } else if a - d <= -1 {
      MulMono(a - d, -1, q);
    }
  }

  lemma MulTwice(w: int, p: int)
    ensures 2 * (w * p) == w * (2 * p)
  {
  }

  /** Dividing by p and then by q is dividing by p * q. */
  lemma DivDiv(y: nat, p: nat, q: nat)
    requires p > 0 && q > 0
    ensures y / p / q == y / (p * q)
  {
    var a, b := y / p, y - y / p * p;
    var c, d := a / q, a - a / q * q;
    assert y == c * (p * q) + (d * p + b);
    MulMono(d, q - 1, p);
    DivUnique(y, c, d * p + b, p * q);
  }

  /** `a & b` on the n low bits of a and b. */
  function And(a: nat, b: nat, n: nat): (r: nat)
    ensures r < Pow2(n)
  {
    if n == 0 then 0
    else
      var bit := if a - 2 * (a / 2) == 1 && b - 2 * (b / 2) == 1 then 1 else 0;
      bit + 2 * And(a / 2, b / 2, n - 1)
  }

  /** `a | b` on the n low bits of a and b. */
  function Or(a: nat, b: nat, n: nat): (r: nat)
    ensures r < Pow2(n)
  {
    if n == 0 then 0
    else
      var bit := if a - 2 * (a / 2) == 1 || b - 2 * (b / 2) == 1 then 1 else 0;
      bit + 2 * Or(a / 2, b / 2, n - 1)
  }

  /** `a ^ b` on the n low bits of a and b. */
  function Xor(a: nat, b: nat, n: nat): (r: nat)
    ensures r < Pow2(n)
  {
    if n == 0 then 0
    else
      var bit := if a - 2 * (a / 2) == b - 2 * (b / 2) then 0 else 1;
      bit + 2 * Xor(a / 2, b / 2, n - 1)
  }

  /** Exclusive or with b undoes itself. */
  lemma {:induction false} XorInverse(a: nat, b: nat, n: nat)
    requires a < Pow2(n)
    ensures Xor(Xor(a, b, n), b, n) == a
  {
    if n > 0 {
      var x := Xor(a, b, n);
      var bit := if a - 2 * (a / 2) == b - 2 * (b / 2) then 0 else 1;
      var rest := Xor(a / 2, b / 2, n - 1);
      assert x == bit + 2 * rest;
      assert x / 2 == rest && x - 2 * (x / 2) == bit;
      XorInverse(a / 2, b / 2, n - 1);
    }
  }

  /** Exclusive or does not depend on the order of its operands. */
  lemma {:induction false} XorSymmetric(a: nat, b: nat, n: nat)
    ensures Xor(a, b, n) == Xor(b, a, n)
  {
    if n > 0 {
      XorSymmetric(a / 2, b / 2, n - 1);
    }
  }

  /** `x << s` on an n-bit word: the bits shifted past bit n - 1 are lost. */
  function Shl(x: nat, s: nat, n: nat): nat {
    var y := x * Pow2(s);
    y - Pow2(n) * (y / Pow2(n))
  }

  lemma DivNonNegative(x: nat, p: nat)
    requires p > 0
    ensures x / p >= 0
  {
  }

  /** `x >> s` on an unsigned word. */
  function Shr(x: nat, s: nat): nat {
    DivNonNegative(x, Pow2(s));
    x / Pow2(s)
  }

  /** Byte t / 8 of x: bits t to t + 7. */
  function ByteAt(x: nat, t: nat): nat {
    var z := Shr(x, t);
    z - 256 * (z / 256)
  }

  /** A zero mask keeps nothing. */
  lemma {:induction false} AndZero(a: nat, n: nat)
    ensures And(a, 0, n) == 0
  {
    if n > 0 {
      AndZero(a / 2, n - 1);
    }
  }

  /** The lowest bit of an odd mask 2p - 1 is set and the rest is p - 1. */
  lemma HalveOddMask(p: nat)
    requires p > 0
    ensures var m := 2 * p - 1; m - 2 * (m / 2) == 1 && m / 2 == p - 1
  {
    DivUnique(2 * p - 1, p - 1, 1, 2);
  }

  /** y mod 2p from the lowest bit of y and y / 2 mod p. */
  lemma ModDouble(y: nat, p: nat)
    requires p > 0
    ensures var q := y / 2;
            y - 2 * p * (y / (2 * p)) == (y - 2 * q) + 2 * (q - p * (q / p))
  {
    var q := y / 2;
    DivDiv(y, 2, p);
    assert y / (2 * p) == q / p;
  }

  /** The t low bits of y, read one bit at a time. */
  function LowBits(y: nat, t: nat): nat {
    if t == 0 then 0 else (y - 2 * (y / 2)) + 2 * LowBits(y / 2, t - 1)
  }

  /** The mask of the t low bits keeps y mod 2^t. */
  lemma AndLowMask(y: nat, t: nat, n: nat)
    requires t <= n
    ensures And(y, Pow2(t) - 1, n) == y - Pow2(t) * (y / Pow2(t))
  {
    AndLowBits(y, t, n);
    LowBitsMod(y, t);
  }

  /** The mask of the t low bits keeps the t low bits. */
  lemma {:induction false} AndLowBits(y: nat, t: nat, n: nat)
    requires t <= n
    ensures And(y, Pow2(t) - 1, n) == LowBits(y, t)
  {
    if t == 0 {
      AndZero(y, n);
    } else {
      AndLowBits(y / 2, t - 1, n - 1);
      AndLowBitsStep(y, t, Pow2(t - 1), Pow2(t), n);
    }
  }

  /** The inductive step of AndLowBits, for q = 2p. */
  lemma AndLowBitsStep(y: nat, t: nat, p: nat, q: nat, n: nat)
    requires t > 0 && n > 0 && p > 0 && q == 2 * p
    requires And(y / 2, p - 1, n - 1) == LowBits(y / 2, t - 1)
    ensures And(y, q - 1, n) == LowBits(y, t)
  {
    AndOddMask(y, p, n);
  }

  /** The t low bits of y are y mod 2^t. */
  lemma {:induction false} LowBitsMod(y: nat, t: nat)
    ensures LowBits(y, t) == y - Pow2(t) * (y / Pow2(t))
  {
    if t > 0 {
      LowBitsMod(y / 2, t - 1);
      ModDouble(y, Pow2(t - 1));
    }
  }

  /** An odd mask 2p - 1 keeps the lowest bit and masks the rest with p - 1. */
  lemma AndOddMask(y: nat, p: nat, n: nat)
    requires p > 0 && n > 0
    ensures And(y, 2 * p - 1, n) == (y - 2 * (y / 2)) + 2 * And(y / 2, p - 1, n - 1)
  {
    HalveOddMask(p);
  }

  /** The mask of the byte at bit k keeps that byte of y, in place. */
  lemma {:induction false} AndByte(y: nat, k: nat, n: nat)
    requires k + 8 <= n
    ensures And(y, 255 * Pow2(k), n) == ByteAt(y, k) * Pow2(k)
  {
    if k == 0 {
      AndLowByte(y, Pow2(k), n);
    } else {
      AndByte(y / 2, k - 1, n - 1);
      AndByteStep(y, k, Pow2(k - 1), Pow2(k), n);
    }
  }

  /** The base case of AndByte: the mask 255 keeps y mod 256. */
  lemma AndLowByte(y: nat, q: nat, n: nat)
    requires q == 1 && 8 <= n
    ensures And(y, 255 * q, n) == ByteAt(y, 0) * q
  {
    var b := y - 256 * (y / 256);
    assert ByteAt(y, 0) == b by {
      assert Pow2(0) == 1;
      assert Shr(y, 0) == y;
    }
    assert And(y, 255, n) == b by {
      assert Pow2(8) == 256 by { Pow2Add(4, 4); }
      AndLowMask(y, 8, n);
    }
  }

  /** The inductive step of AndByte, for q = 2p = 2^k. */
  lemma AndByteStep(y: nat, k: nat, p: nat, q: nat, n: nat)
    requires k > 0 && n > 0 && p == Pow2(k - 1) && q == 2 * p
    requires And(y / 2, 255 * p, n - 1) == ByteAt(y / 2, k - 1) * p
    ensures And(y, 255 * q, n) == ByteAt(y, k) * q
  {
    var m := 255 * p;
    assert 255 * q == 2 * m;
    AndEven(y, m, n);
    ByteHalf(y, k);
    MulTwice(ByteAt(y, k), p);
  }

  /** An even mask drops the lowest bit and masks the rest. */
  lemma AndEven(y: nat, m: nat, n: nat)
    requires n > 0
    ensures And(y, 2 * m, n) == 2 * And(y / 2, m, n - 1)
  {
    assert (2 * m) - 2 * ((2 * m) / 2) == 0 && (2 * m) / 2 == m;
  }

  /** Byte k / 8 of y is byte (k - 1) / 8 of y / 2, one bit lower. */
  lemma ByteHalf(y: nat, k: nat)
    requires k > 0
    ensures ByteAt(y / 2, k - 1) == ByteAt(y, k)
  {
    DivDiv(y, 2, Pow2(k - 1));
  }

  /** Or with zero keeps an n-bit word. */
  lemma {:induction false} OrZero(a: nat, n: nat)
    requires a < Pow2(n)
    ensures Or(a, 0, n) == a
  {
    if n > 0 {
      OrZero(a / 2, n - 1);
    }
  }

  /** Or of a multiple of 2^k and a number below 2^k is their sum. */
  lemma {:induction false} OrDisjoint(c: nat, b: nat, k: nat, n: nat)
    requires b < Pow2(k) && c * Pow2(k) + b < Pow2(n)
    ensures Or(c * Pow2(k), b, n) == c * Pow2(k) + b
  {
    if k == 0 {
      OrZero(c, n);
    } else if n > 0 {
      var q := Pow2(k - 1);
      OrDisjointStep(c, b, q, Pow2(n - 1));
      OrDisjoint(c, b / 2, k - 1, n - 1);
    }
  }

  /** The arithmetic step of OrDisjoint: the low bit of c * 2q is clear,
      and the rest of the sum is one bit lower. */
  lemma OrDisjointStep(c: nat, b: nat, q: nat, m: nat)
    requires q > 0 && b < 2 * q && c * (2 * q) + b < 2 * m
    ensures var a := c * (2 * q);
            a - 2 * (a / 2) == 0 && a / 2 == c * q && b / 2 < q && c * q + b / 2 < m
            && (b - 2 * (b / 2)) + 2 * (c * q + b / 2) == a + b
  {
    var a := c * (2 * q);
    assert a == 2 * (c * q);
  }

  /** Shifting x left by s and keeping n bits leaves byte t of x at bit
      s + t, as long as that byte is below bit n. */
  lemma ShlByte(x: nat, s: nat, t: nat, n: nat)
    requires s + t + 8 <= n
    ensures ByteAt(Shl(x, s, n), s + t) == ByteAt(x, t)
  {
    var ps, pt, pst := Pow2(s), Pow2(t), Pow2(s + t);
    Pow2Add(s, t);
    var e := n - (s + t) - 8;
    var pe := Pow2(e);
    Pow2Add(8, e);
    Pow2Add(s + t, 8 + e);
    Pow2Values();
    var pn := Pow2(n);
    var y := x * ps;
    var q := y / pn;
    var w := y - pn * q;
    var a := x / pt;
    var r := x - pt * a;
    ModBounds(x, pt);
    ShlSplit(x, a, r, q, ps, pt, pe, pst, pn);
    DivUnique(w, a - 256 * (q * pe), r * ps, pst);
    var z := w / pst;
    ModBounds(a, 256);
    DivUnique(z, a / 256 - q * pe, a - 256 * (a / 256), 256);
  }

  lemma ModBounds(x: int, p: int)
    requires p > 0
    ensures 0 <= x - p * (x / p) < p
  {
  }

  /** The arithmetic step of ShlByte: x * 2^s taken modulo 2^n, written
      as a multiple of 2^(s + t) plus a remainder below it. */
  lemma ShlSplit(x: int, a: int, r: int, q: int, ps: int, pt: int, pe: int, pst: int, pn: int)
    requires ps > 0 && 0 <= r < pt && x == pt * a + r
    requires pst == ps * pt && pn == pst * (256 * pe)
    ensures x * ps - pn * q == (a - 256 * (q * pe)) * pst + r * ps
    ensures 0 <= r * ps < pst
  {
    MulMono(r, pt - 1, ps);
    assert (pt - 1) * ps == pst - ps;
    assert x * ps == a * pst + r * ps;
    assert pn * q == (256 * (q * pe)) * pst;
  }

  /** `(x << s) & (0xff << k)` keeps byte k - s of x, moved to bit k. */
  lemma ShlMask(x: nat, s: nat, k: nat, n: nat)
    requires s <= k && k + 8 <= n
    ensures And(Shl(x, s, n), 255 * Pow2(k), n) == ByteAt(x, k - s) * Pow2(k)
  {
    AndByte(Shl(x, s, n), k, n);
    ShlByte(x, s, k - s, n);
    assert s + (k - s) == k;
  }

  /** `(x >> s) & (0xff << k)` keeps byte s + k of x, moved to bit k. */
  lemma ShrMask(x: nat, s: nat, k: nat, n: nat)
    requires k + 8 <= n
    ensures And(Shr(x, s), 255 * Pow2(k), n) == ByteAt(x, s + k) * Pow2(k)
  {
    AndByte(Shr(x, s), k, n);
    ShrShr(x, s, k);
  }

  /** Shifting right by s and then by k is shifting right by s + k. */
  lemma ShrShr(x: nat, s: nat, k: nat)
    ensures Shr(Shr(x, s), k) == Shr(x, s + k)
  {
    DivDiv(x, Pow2(s), Pow2(k));
    Pow2Add(s, k);
  }

  /** `(x >> s) & 0xff` is byte s of x. */
  lemma ShrLowByte(x: nat, s: nat, n: nat)
    requires 8 <= n
    ensures And(Shr(x, s), 255, n) == ByteAt(x, s)
  {
    ShrMask(x, s, 0, n);
    assert Pow2(0) == 1;
  }

  /** Or-ing a number c placed above bit k + 8 with a byte b placed at
      bit k appends b to c. */
  lemma OrByte(acc: nat, c: nat, b: nat, t: nat, k: nat, n: nat)
    requires acc == c * Pow2(k + 8) && t == b * Pow2(k)
    requires b < 256 && k + 8 <= n && c < Pow2(n - k - 8)
    ensures Or(acc, t, n) == (c * 256 + b) * Pow2(k)
    ensures c * 256 + b < Pow2(n - k)
  {
    var p := Pow2(k);
    assert Pow2(8) == 256 by { Pow2Values(); }
    Pow2Add(k, 8);
    Pow2Add(n - k - 8, 8);
    Pow2Add(k, n - k);
    OrBytePlace(c, b, p, Pow2(n - k - 8));
    OrDisjoint(c, t, k + 8, n);
  }

  /** Or-ing a number c placed above bit 8 with a byte b appends b to c. */
  lemma OrLowByte(acc: nat, c: nat, b: nat, n: nat)
    requires acc == c * Pow2(8) && b < 256 && 8 <= n && c < Pow2(n - 8)
    ensures Or(acc, b, n) == c * 256 + b
  {
    Pow2Values();
    Pow2Add(n - 8, 8);
    MulMono(c, Pow2(n - 8) - 1, 256);
    OrDisjoint(c, b, 8, n);
  }

  /** Or-ing four bytes placed at bits k + 24, k + 16, k + 8 and k, in that
      order, writes them side by side from the most significant down. */
  lemma OrFourBytes(t0: nat, t1: nat, t2: nat, t3: nat, b0: nat, b1: nat, b2: nat, b3: nat, k: nat, n: nat)
    requires b0 < 256 && b1 < 256 && b2 < 256 && b3 < 256 && k + 32 <= n
    requires t0 == b0 * Pow2(k + 24) && t1 == b1 * Pow2(k + 16)
    requires t2 == b2 * Pow2(k + 8) && t3 == b3 * Pow2(k)
    ensures var c3 := ((b0 * 256 + b1) * 256 + b2) * 256 + b3;
            Or(Or(Or(t0, t1, n), t2, n), t3, n) == c3 * Pow2(k) && c3 < Pow2(n - k)
  {
    var c1 := b0 * 256 + b1;
    var c2 := c1 * 256 + b2;
    var a1 := Or(t0, t1, n);
    var a2 := Or(a1, t2, n);
    assert b0 < Pow2(n - k - 24) by {
      assert Pow2(8) == 256 by { Pow2Values(); }
      Pow2Add(8, n - k - 32);
    }
    OrByte(t0, b0, b1, t1, k + 16, n);
    OrByte(a1, c1, b2, t2, k + 8, n);
    OrByte(a2, c2, b3, t3, k, n);
  }

  /** Or-ing four more bytes below a number c placed above bit k + 32
      appends them to c. */
  lemma OrFourMoreBytes(acc: nat, c: nat, t0: nat, t1: nat, t2: nat, t3: nat,
                        b0: nat, b1: nat, b2: nat, b3: nat, k: nat, n: nat)
    requires b0 < 256 && b1 < 256 && b2 < 256 && b3 < 256 && k + 32 <= n
    requires acc == c * Pow2(k + 32) && c < Pow2(n - k - 32)
    requires t0 == b0 * Pow2(k + 24) && t1 == b1 * Pow2(k + 16)
    requires t2 == b2 * Pow2(k + 8) && t3 == b3 * Pow2(k)
    ensures var c4 := (((c * 256 + b0) * 256 + b1) * 256 + b2) * 256 + b3;
            Or(Or(Or(Or(acc, t0, n), t1, n), t2, n), t3, n) == c4 * Pow2(k) && c4 < Pow2(n - k)
  {
    var c1 := c * 256 + b0;
    var c2 := c1 * 256 + b1;
    var c3 := c2 * 256 + b2;
    var a1 := Or(acc, t0, n);
    var a2 := Or(a1, t1, n);
    var a3 := Or(a2, t2, n);
    OrByte(acc, c, b0, t0, k + 24, n);
    OrByte(a1, c1, b1, t1, k + 16, n);
    OrByte(a2, c2, b2, t2, k + 8, n);
    OrByte(a3, c3, b3, t3, k, n);
  }

  /** The arithmetic step of OrByte. */
  lemma OrBytePlace(c: nat, b: nat, p: nat, q: nat)
    requires b < 256 && c < q && p > 0
    ensures c * (p * 256) + b * p == (c * 256 + b) * p
    ensures b * p < p * 256 && c * 256 + b < q * 256
    ensures (c * 256 + b) * p < p * (q * 256)
  {
    MulMono(b, 255, p);
    MulMono(c * 256 + b, q * 256 - 1, p);
  }

  lemma ByteBound(x: nat, t: nat)
    ensures ByteAt(x, t) < 256
  {
  }
}
