/**
 * The byte-level helpers of src/ag_hash.c: the 4- and 8-byte reads, the
 * byte swaps and the endian- and alignment-aware reads built from them.
 * C's uint8_t, uint32_t and uint64_t are the integer ranges u8, u32 and
 * u64; the input is a sequence of bytes and a read position an index into
 * it. The library targets a little-endian host, so a memcpy of n bytes into
 * a word gives the value whose least significant byte comes first.
 */
module HashBytes {
  import opened Bitwise

  type u8 = x: int | 0 <= x < 0x100
  type u32 = x: int | 0 <= x < 0x1_0000_0000
  type u64 = x: int | 0 <= x < 0x1_0000_0000_0000_0000

  /** aghs_endianess: the byte order a read assumes. */
  datatype Endianness = BigEndian | LittleEndian

  /** aghs_alignment: whether a read may assume an aligned pointer. */
  datatype Alignment = Aligned | Unaligned

  /** 256^n, the number of values n bytes can hold; positive, so that it
      can be divided by. */
  function Pow256(n: nat): (r: nat)
    ensures r > 0
  {
    if n == 0 then 1 else 0x100 * Pow256(n - 1)
  }

  /** 256^4 and 256^8 as numerals, a helper for the proofs below. */
  lemma Pow256Values()
    ensures Pow256(4) == 0x1_0000_0000 && Pow256(8) == 0x1_0000_0000_0000_0000
  {
    assert Pow256(2) == 0x1_0000;
    assert Pow256(6) == 0x1_0000_0000_0000;
  }

  /** The value of the bytes s, least significant first. */
  function LeValue(s: seq<u8>): (r: nat)
    ensures r < Pow256(|s|)
  {
    if s == [] then 0 else s[0] + 0x100 * LeValue(s[1..])
  }

  /** The n low bytes of x, least significant first. */
  function LeBytes(x: nat, n: nat): (r: seq<u8>)
    ensures |r| == n
  {
    if n == 0 then [] else [x - 0x100 * (x / 0x100)] + LeBytes(x / 0x100, n - 1)
  }

  /** Splitting the value of a byte sequence gives the bytes back. */
  lemma {:induction false} LeBytesOfValue(s: seq<u8>)
    ensures LeBytes(LeValue(s), |s|) == s
  {
    if s != [] {
      LeBytesOfValue(s[1..]);
      var v := LeValue(s[1..]);
      assert (s[0] + 0x100 * v) / 0x100 == v;
      assert LeBytes(LeValue(s), |s|) == [s[0]] + s[1..];
    }
  }

  /** A number below 256^n is the value of its n low bytes. */
  lemma {:induction false} LeValueOfBytes(x: nat, n: nat)
    requires x < Pow256(n)
    ensures LeValue(LeBytes(x, n)) == x
  {
    if n > 0 {
      LeValueOfBytes(x / 0x100, n - 1);
      assert LeBytes(x, n)[1..] == LeBytes(x / 0x100, n - 1);
    }
  }

  /** The bytes of s in the opposite order. */
  function Reverse(s: seq<u8>): seq<u8> {
    seq(|s|, k requires 0 <= k < |s| => s[|s| - 1 - k])
  }

  /** aghs_read32: the four bytes at i as a word. */
  function Read32(b: seq<u8>, i: nat): u32
    requires i + 4 <= |b|
  {
    Pow256Values();
    LeValue(b[i..i + 4])
  }

  /** aghs_read64: the eight bytes at i as a word. */
  function Read64(b: seq<u8>, i: nat): u64
    requires i + 8 <= |b|
  {
    Pow256Values();
    LeValue(b[i..i + 8])
  }

  /** The bytes of a read word are the bytes read. */
  lemma Read32Bytes(b: seq<u8>, i: nat)
    requires i + 4 <= |b|
    ensures LeBytes(Read32(b, i), 4) == b[i..i + 4]
  {
    LeBytesOfValue(b[i..i + 4]);
  }

  lemma Read64Bytes(b: seq<u8>, i: nat)
    requires i + 8 <= |b|
    ensures LeBytes(Read64(b, i), 8) == b[i..i + 8]
  {
    LeBytesOfValue(b[i..i + 8]);
  }

  /** aghs_swap32, written as the source writes it: two left shifts and
      two right shifts, each masked to one byte, or-ed together. */
  function Swap32(x: u32): u32 {
    Pow2Values();
    Or(Or(Or(And(Shl(x, 24, 32), 0xff000000, 32), And(Shl(x, 8, 32), 0x00ff0000, 32), 32),
          And(Shr(x, 8), 0x0000ff00, 32), 32),
       And(Shr(x, 24), 0x000000ff, 32), 32)
  }

  /** aghs_swap64, as the source writes it. */
  function Swap64(x: u64): u64 {
    Pow2Values();
    Or(Or(Or(Or(Or(Or(Or(And(Shl(x, 56, 64), 0xff00000000000000, 64),
                         And(Shl(x, 40, 64), 0x00ff000000000000, 64), 64),
                      And(Shl(x, 24, 64), 0x0000ff0000000000, 64), 64),
                   And(Shl(x, 8, 64), 0x000000ff00000000, 64), 64),
                And(Shr(x, 8), 0x00000000ff000000, 64), 64),
             And(Shr(x, 24), 0x0000000000ff0000, 64), 64),
          And(Shr(x, 40), 0x000000000000ff00, 64), 64),
       And(Shr(x, 56), 0x00000000000000ff, 64), 64)
  }

  /** Each masked term of aghs_swap32 is one byte of x in its new place,
      and together they are the bytes of x from the most significant down. */
  lemma Swap32Bytes(x: u32)
    ensures Swap32(x) == ((ByteAt(x, 0) * 256 + ByteAt(x, 8)) * 256 + ByteAt(x, 16)) * 256 + ByteAt(x, 24)
  {
    var t0 := And(Shl(x, 24, 32), 0xff000000, 32);
    var t1 := And(Shl(x, 8, 32), 0x00ff0000, 32);
    var t2 := And(Shr(x, 8), 0x0000ff00, 32);
    var t3 := And(Shr(x, 24), 0x000000ff, 32);
    assert t0 == ByteAt(x, 0) * Pow2(24) by { Pow2Values(); ShlMask(x, 24, 24, 32); }
    assert t1 == ByteAt(x, 8) * Pow2(16) by { Pow2Values(); ShlMask(x, 8, 16, 32); }
    assert t2 == ByteAt(x, 16) * Pow2(8) by { Pow2Values(); ShrMask(x, 8, 8, 32); }
    ShrLowByte(x, 24, 32);
    ByteBound(x, 0);
    ByteBound(x, 8);
    ByteBound(x, 16);
    ByteBound(x, 24);
    OrBytes32(t0, t1, t2, t3, ByteAt(x, 0), ByteAt(x, 8), ByteAt(x, 16), ByteAt(x, 24));
  }

  /** The or-ing step of Swap32Bytes. */
  lemma OrBytes32(t0: nat, t1: nat, t2: nat, t3: nat, b0: nat, b1: nat, b2: nat, b3: nat)
    requires b0 < 256 && b1 < 256 && b2 < 256 && b3 < 256
    requires t0 == b0 * Pow2(24) && t1 == b1 * Pow2(16) && t2 == b2 * Pow2(8) && t3 == b3
    ensures Or(Or(Or(t0, t1, 32), t2, 32), t3, 32) == ((b0 * 256 + b1) * 256 + b2) * 256 + b3
  {
    Pow2Values();
    assert Pow2(0) == 1;
    OrFourBytes(t0, t1, t2, t3, b0, b1, b2, b3, 0, 32);
  }

  /** Each masked term of aghs_swap64 is one byte of x in its new place,
      and together they are the bytes of x from the most significant down. */
  lemma Swap64Bytes(x: u64)
    ensures Swap64(x) == ((((((ByteAt(x, 0) * 256 + ByteAt(x, 8)) * 256 + ByteAt(x, 16)) * 256
                       + ByteAt(x, 24)) * 256 + ByteAt(x, 32)) * 256 + ByteAt(x, 40)) * 256
                       + ByteAt(x, 48)) * 256 + ByteAt(x, 56)
  {
    ByteBound(x, 0);
    ByteBound(x, 8);
    ByteBound(x, 16);
    ByteBound(x, 24);
    ByteBound(x, 32);
    ByteBound(x, 40);
    ByteBound(x, 48);
    ByteBound(x, 56);
    Swap64HighTerms(x);
    Swap64LowTerms(x);
    OrBytes64(And(Shl(x, 56, 64), 0xff00000000000000, 64), And(Shl(x, 40, 64), 0x00ff000000000000, 64),
              And(Shl(x, 24, 64), 0x0000ff0000000000, 64), And(Shl(x, 8, 64), 0x000000ff00000000, 64),
              And(Shr(x, 8), 0x00000000ff000000, 64), And(Shr(x, 24), 0x0000000000ff0000, 64),
              And(Shr(x, 40), 0x000000000000ff00, 64), And(Shr(x, 56), 0x00000000000000ff, 64),
              ByteAt(x, 0), ByteAt(x, 8), ByteAt(x, 16), ByteAt(x, 24),
              ByteAt(x, 32), ByteAt(x, 40), ByteAt(x, 48), ByteAt(x, 56));
  }

  /** The four left-shifted terms of aghs_swap64. */
  lemma Swap64HighTerms(x: u64)
    ensures And(Shl(x, 56, 64), 0xff00000000000000, 64) == ByteAt(x, 0) * Pow2(56)
    ensures And(Shl(x, 40, 64), 0x00ff000000000000, 64) == ByteAt(x, 8) * Pow2(48)
    ensures And(Shl(x, 24, 64), 0x0000ff0000000000, 64) == ByteAt(x, 16) * Pow2(40)
    ensures And(Shl(x, 8, 64), 0x000000ff00000000, 64) == ByteAt(x, 24) * Pow2(32)
  {
    Pow2Values();
    ShlMask(x, 56, 56, 64);
    ShlMask(x, 40, 48, 64);
    ShlMask(x, 24, 40, 64);
    ShlMask(x, 8, 32, 64);
  }

  /** The four right-shifted terms of aghs_swap64. */
  lemma Swap64LowTerms(x: u64)
    ensures And(Shr(x, 8), 0x00000000ff000000, 64) == ByteAt(x, 32) * Pow2(24)
    ensures And(Shr(x, 24), 0x0000000000ff0000, 64) == ByteAt(x, 40) * Pow2(16)
    ensures And(Shr(x, 40), 0x000000000000ff00, 64) == ByteAt(x, 48) * Pow2(8)
    ensures And(Shr(x, 56), 0x00000000000000ff, 64) == ByteAt(x, 56)
  {
    Pow2Values();
    ShrMask(x, 8, 24, 64);
    ShrMask(x, 24, 16, 64);
    ShrMask(x, 40, 8, 64);
    ShrLowByte(x, 56, 64);
  }

  /** The or-ing step of Swap64Bytes. */
  lemma OrBytes64(t0: nat, t1: nat, t2: nat, t3: nat, t4: nat, t5: nat, t6: nat, t7: nat,
                  b0: nat, b1: nat, b2: nat, b3: nat, b4: nat, b5: nat, b6: nat, b7: nat)
    requires b0 < 256 && b1 < 256 && b2 < 256 && b3 < 256
    requires b4 < 256 && b5 < 256 && b6 < 256 && b7 < 256
    requires t0 == b0 * Pow2(56) && t1 == b1 * Pow2(48) && t2 == b2 * Pow2(40) && t3 == b3 * Pow2(32)
    requires t4 == b4 * Pow2(24) && t5 == b5 * Pow2(16) && t6 == b6 * Pow2(8) && t7 == b7
    ensures Or(Or(Or(Or(Or(Or(Or(t0, t1, 64), t2, 64), t3, 64), t4, 64), t5, 64), t6, 64), t7, 64)
         == ((((((b0 * 256 + b1) * 256 + b2) * 256 + b3) * 256 + b4) * 256 + b5) * 256 + b6) * 256 + b7
  {
    var c3 := ((b0 * 256 + b1) * 256 + b2) * 256 + b3;
    var a3 := Or(Or(Or(t0, t1, 64), t2, 64), t3, 64);
    OrHighBytes64(t0, t1, t2, t3, b0, b1, b2, b3);
    Pow2Values();
    assert Pow2(0) == 1;
    OrFourMoreBytes(a3, c3, t4, t5, t6, t7, b4, b5, b6, b7, 0, 64);
  }

  /** The four high bytes of OrBytes64. */
  lemma OrHighBytes64(t0: nat, t1: nat, t2: nat, t3: nat, b0: nat, b1: nat, b2: nat, b3: nat)
    requires b0 < 256 && b1 < 256 && b2 < 256 && b3 < 256
    requires t0 == b0 * Pow2(56) && t1 == b1 * Pow2(48) && t2 == b2 * Pow2(40) && t3 == b3 * Pow2(32)
    ensures var c3 := ((b0 * 256 + b1) * 256 + b2) * 256 + b3;
            Or(Or(Or(t0, t1, 64), t2, 64), t3, 64) == c3 * Pow2(32) && c3 < Pow2(32)
  {
    OrFourBytes(t0, t1, t2, t3, b0, b1, b2, b3, 32, 64);
  }

  /** Byte j of the n low bytes of x is bits 8j to 8j + 7 of x. */
  lemma {:induction false} LeBytesAt(x: nat, n: nat, j: nat)
    requires j < n
    ensures LeBytes(x, n)[j] == ByteAt(x, 8 * j)
  {
    if j == 0 {
      assert Pow2(0) == 1;
    } else {
      LeBytesAt(x / 0x100, n - 1, j - 1);
      assert LeBytes(x, n)[j] == LeBytes(x / 0x100, n - 1)[j - 1];
      ByteAbove(x, 8 * (j - 1));
    }
  }

  /** Byte t / 8 of x / 256 is byte t / 8 + 1 of x. */
  lemma ByteAbove(x: nat, t: nat)
    ensures ByteAt(x / 0x100, t) == ByteAt(x, t + 8)
  {
    assert Pow2(8) == 0x100 by { Pow2Values(); }
    ShrShr(x, 8, t);
  }

  /** The word aghs_swap32 builds is the bytes of x in reverse order. */
  lemma Swap32Value(x: u32)
    ensures Swap32(x) == LeValue(Reverse(LeBytes(x, 4)))
  {
    var s := LeBytes(x, 4);
    LeBytesAt(x, 4, 0);
    LeBytesAt(x, 4, 1);
    LeBytesAt(x, 4, 2);
    LeBytesAt(x, 4, 3);
    Swap32Bytes(x);
    ReverseValue4(s);
  }

  /** Four bytes reversed, as a little-endian number. */
  lemma ReverseValue4(s: seq<u8>)
    requires |s| == 4
    ensures LeValue(Reverse(s)) == (((s[0] as int) * 0x100 + s[1]) * 0x100 + s[2]) * 0x100 + s[3]
  {
    var r := Reverse(s);
    assert r[3..][1..] == [];
    assert LeValue(r[3..]) == s[0];
    assert r[2..][1..] == r[3..];
    assert LeValue(r[2..]) == s[1] + 0x100 * LeValue(r[3..]);
    assert r[1..][1..] == r[2..];
    assert LeValue(r[1..]) == s[2] + 0x100 * LeValue(r[2..]);
    assert LeValue(r) == s[3] + 0x100 * LeValue(r[1..]);
  }

  /** The word aghs_swap64 builds is the bytes of x in reverse order. */
  lemma Swap64Value(x: u64)
    ensures Swap64(x) == LeValue(Reverse(LeBytes(x, 8)))
  {
    var s := LeBytes(x, 8);
    LeBytesAt(x, 8, 0);
    LeBytesAt(x, 8, 1);
    LeBytesAt(x, 8, 2);
    LeBytesAt(x, 8, 3);
    LeBytesAt(x, 8, 4);
    LeBytesAt(x, 8, 5);
    LeBytesAt(x, 8, 6);
    LeBytesAt(x, 8, 7);
    Swap64Bytes(x);
    ReverseValue8(s);
  }

  /** Eight bytes reversed, as a little-endian number. */
  lemma ReverseValue8(s: seq<u8>)
    requires |s| == 8
    ensures LeValue(Reverse(s)) == (((((((s[0] as int) * 0x100 + s[1]) * 0x100 + s[2]) * 0x100 + s[3]) * 0x100
                                    + s[4]) * 0x100 + s[5]) * 0x100 + s[6]) * 0x100 + s[7]
  {
    var r := Reverse(s);
    assert r[7..][1..] == [];
    assert LeValue(r[7..]) == s[0];
    assert r[6..][1..] == r[7..];
    assert LeValue(r[6..]) == s[1] + 0x100 * LeValue(r[7..]);
    assert r[5..][1..] == r[6..];
    assert LeValue(r[5..]) == s[2] + 0x100 * LeValue(r[6..]);
    assert r[4..][1..] == r[5..];
    assert LeValue(r[4..]) == s[3] + 0x100 * LeValue(r[5..]);
    assert r[3..][1..] == r[4..];
    assert LeValue(r[3..]) == s[4] + 0x100 * LeValue(r[4..]);
    assert r[2..][1..] == r[3..];
    assert LeValue(r[2..]) == s[5] + 0x100 * LeValue(r[3..]);
    assert r[1..][1..] == r[2..];
    assert LeValue(r[1..]) == s[6] + 0x100 * LeValue(r[2..]);
    assert LeValue(r) == s[7] + 0x100 * LeValue(r[1..]);
  }

  /** The bytes of a swapped word are the word's bytes reversed. */
  lemma Swap32Reverses(x: u32)
    ensures LeBytes(Swap32(x), 4) == Reverse(LeBytes(x, 4))
  {
    Swap32Value(x);
    LeBytesOfValue(Reverse(LeBytes(x, 4)));
  }

  lemma Swap64Reverses(x: u64)
    ensures LeBytes(Swap64(x), 8) == Reverse(LeBytes(x, 8))
  {
    Swap64Value(x);
    LeBytesOfValue(Reverse(LeBytes(x, 8)));
  }

  /** Swapping twice gives the word back. */
  lemma {:induction false} Swap32Involution(x: u32)
    ensures Swap32(Swap32(x)) == x
  {
    var r := Reverse(LeBytes(x, 4));
    Swap32Reverses(x);
    Swap32Value(Swap32(x));
    assert Reverse(r) == LeBytes(x, 4);
    Pow256Values();
    LeValueOfBytes(x, 4);
  }

  lemma {:induction false} Swap64Involution(x: u64)
    ensures Swap64(Swap64(x)) == x
  {
    var r := Reverse(LeBytes(x, 8));
    Swap64Reverses(x);
    Swap64Value(Swap64(x));
    assert Reverse(r) == LeBytes(x, 8);
    Pow256Values();
    LeValueOfBytes(x, 8);
  }

  /** aghs_read_le32_align. The aligned branch loads through a cast where
      the unaligned one copies; on the host both see the same four bytes. */
  function ReadLe32Align(b: seq<u8>, i: nat, endian: Endianness, align: Alignment): u32
    requires i + 4 <= |b|
  {
    if align == Unaligned then
      (if endian == LittleEndian then Read32(b, i) else Swap32(Read32(b, i)))
    else
      (if endian == LittleEndian then Read32(b, i) else Swap32(Read32(b, i)))
  }

  /** aghs_read_le64_align. */
  function ReadLe64Align(b: seq<u8>, i: nat, endian: Endianness, align: Alignment): u64
    requires i + 8 <= |b|
  {
    if align == Unaligned then
      (if endian == LittleEndian then Read64(b, i) else Swap64(Read64(b, i)))
    else
      (if endian == LittleEndian then Read64(b, i) else Swap64(Read64(b, i)))
  }

  /** The bytes b[i..j] as a little-endian number: the byte at i is the
      least significant. */
  function LeValueAt(b: seq<u8>, i: nat, j: nat): (r: nat)
    requires i <= j <= |b|
    ensures r < Pow256(j - i)
    decreases j - i
  {
    if i == j then 0 else b[i] + 0x100 * LeValueAt(b, i + 1, j)
  }

  /** The bytes b[i..j] as a big-endian number: the byte at i is the most
      significant. */
  function BeValueAt(b: seq<u8>, i: nat, j: nat): (r: nat)
    requires i <= j <= |b|
    ensures r < Pow256(j - i)
    decreases j - i
  {
    if i == j then 0 else b[j - 1] + 0x100 * BeValueAt(b, i, j - 1)
  }

  lemma {:induction false} LeValueAtSlice(b: seq<u8>, i: nat, j: nat)
    requires i <= j <= |b|
    ensures LeValueAt(b, i, j) == LeValue(b[i..j])
    decreases j - i
  {
    if i < j {
      LeValueAtSlice(b, i + 1, j);
      assert b[i..j][1..] == b[i + 1..j];
    }
  }

  lemma {:induction false} BeValueAtSlice(b: seq<u8>, i: nat, j: nat)
    requires i <= j <= |b|
    ensures BeValueAt(b, i, j) == LeValue(Reverse(b[i..j]))
    decreases j - i
  {
    if i < j {
      BeValueAtSlice(b, i, j - 1);
      assert Reverse(b[i..j])[1..] == Reverse(b[i..j - 1]);
    }
  }

  /** The number the lane at i stands for in the given byte order. */
  function LaneAt(b: seq<u8>, i: nat, endian: Endianness): u64
    requires i + 8 <= |b|
  {
    Pow256Values();
    if endian == LittleEndian then LeValueAt(b, i, i + 8) else BeValueAt(b, i, i + 8)
  }

  /** The number the word at i stands for in the given byte order. */
  function WordAt(b: seq<u8>, i: nat, endian: Endianness): u32
    requires i + 4 <= |b|
  {
    Pow256Values();
    if endian == LittleEndian then LeValueAt(b, i, i + 4) else BeValueAt(b, i, i + 4)
  }

  /** Whatever the alignment, a little-endian read gives the bytes at i as
      a little-endian number and a big-endian read, which swaps the word
      it loads, gives them as a big-endian number. */
  lemma ReadLe64AlignValue(b: seq<u8>, i: nat, endian: Endianness, align: Alignment)
    requires i + 8 <= |b|
    ensures ReadLe64Align(b, i, endian, align) == LaneAt(b, i, endian)
  {
    LeValueAtSlice(b, i, i + 8);
    BeValueAtSlice(b, i, i + 8);
    Read64Bytes(b, i);
    Swap64Value(Read64(b, i));
  }

  lemma ReadLe32AlignValue(b: seq<u8>, i: nat, endian: Endianness, align: Alignment)
    requires i + 4 <= |b|
    ensures ReadLe32Align(b, i, endian, align) == WordAt(b, i, endian)
  {
    LeValueAtSlice(b, i, i + 4);
    BeValueAtSlice(b, i, i + 4);
    Read32Bytes(b, i);
    Swap32Value(Read32(b, i));
  }

  /** Different bytes are different lanes. */
  lemma LaneAtInjective(b: seq<u8>, i: nat, c: seq<u8>, j: nat, endian: Endianness)
    requires i + 8 <= |b| && j + 8 <= |c|
    requires LaneAt(b, i, endian) == LaneAt(c, j, endian)
    ensures b[i..i + 8] == c[j..j + 8]
  {
    LeValueAtSlice(b, i, i + 8);
    BeValueAtSlice(b, i, i + 8);
    LeValueAtSlice(c, j, j + 8);
    BeValueAtSlice(c, j, j + 8);
    if endian == LittleEndian {
      LeBytesOfValue(b[i..i + 8]);
      LeBytesOfValue(c[j..j + 8]);
    } else {
      LeBytesOfValue(Reverse(b[i..i + 8]));
      LeBytesOfValue(Reverse(c[j..j + 8]));
      assert Reverse(Reverse(b[i..i + 8])) == b[i..i + 8];
      assert Reverse(Reverse(c[j..j + 8])) == c[j..j + 8];
    }
  }
}
