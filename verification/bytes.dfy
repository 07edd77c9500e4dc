/**
 * Fixed-width unsigned integers and their native (little-endian, x86-64)
 * byte images, as the store reads and writes them with reinterpret_cast.
 */
module Bytes {

  type u8 = x: int | 0 <= x < 0x100
  type u16 = x: int | 0 <= x < 0x1_0000
  type u32 = x: int | 0 <= x < 0x1_0000_0000
  type u64 = x: int | 0 <= x < 0x1_0000_0000_0000_0000

  /** 256 to the power n: one more than the largest n-byte value. */
  function Pow256(n: nat): (p: nat)
    ensures p >= 1
  {
    if n == 0 then 1 else 256 * Pow256(n - 1)
  }

  lemma Pow256Widths()
    ensures Pow256(2) == 0x1_0000
    ensures Pow256(4) == 0x1_0000_0000
    ensures Pow256(8) == 0x1_0000_0000_0000_0000
  {
    assert Pow256(1) == 256;
    assert Pow256(2) == 0x1_0000;
    assert Pow256(3) == 0x100_0000;
    assert Pow256(4) == 0x1_0000_0000;
    assert Pow256(5) == 0x100_0000_0000;
    assert Pow256(6) == 0x1_0000_0000_0000;
    assert Pow256(7) == 0x100_0000_0000_0000;
  }

  /** The unsigned value of a little-endian byte string. */
  function LittleEndian(b: seq<u8>): (v: nat)
    ensures v < Pow256(|b|)
  {
    if b == [] then 0 else b[0] + 256 * LittleEndian(b[1..])
  }

  /** The width-byte little-endian image of n. */
  function ToLittleEndian(n: nat, width: nat): (b: seq<u8>)
    requires n < Pow256(width)
    ensures |b| == width
  {
    if width == 0 then [] else [n % 256] + ToLittleEndian(n / 256, width - 1)
  }

  /** Decoding an encoded value gives the value back. */
  lemma {:induction false} LittleEndianRoundTrip(n: nat, width: nat)
    requires n < Pow256(width)
    ensures LittleEndian(ToLittleEndian(n, width)) == n
  {
    if width > 0 {
      var b := ToLittleEndian(n, width);
      assert b[1..] == ToLittleEndian(n / 256, width - 1);
      LittleEndianRoundTrip(n / 256, width - 1);
    }
  }

  /** Encoding a decoded value gives the bytes back. */
  lemma {:induction false} LittleEndianReencode(b: seq<u8>)
    ensures ToLittleEndian(LittleEndian(b), |b|) == b
  {
    if b != [] {
      var v := LittleEndian(b[1..]);
      assert LittleEndian(b) == b[0] + 256 * v;
      assert (b[0] + 256 * v) % 256 == b[0];
      assert (b[0] + 256 * v) / 256 == v;
      LittleEndianReencode(b[1..]);
      assert b == [b[0]] + b[1..];
    }
  }

  /** The two-byte native image of a u16 length prefix. */
  function U16Bytes(n: u16): (b: seq<u8>)
    ensures |b| == 2
  {
    Pow256Widths();
    ToLittleEndian(n, 2)
  }

  /** The u16 stored at offset at of b. */
  function U16At(b: seq<u8>, at: nat): (n: u16)
    requires at + 2 <= |b|
    ensures n == LittleEndian(b[at..at + 2])
  {
    Pow256Widths();
    LittleEndian(b[at..at + 2])
  }

  /** The u32 stored at offset at of b. */
  function U32At(b: seq<u8>, at: nat): (n: u32)
    requires at + 4 <= |b|
    ensures n == LittleEndian(b[at..at + 4])
  {
    Pow256Widths();
    LittleEndian(b[at..at + 4])
  }

  /** The u64 stored at offset at of b. */
  function U64At(b: seq<u8>, at: nat): (n: u64)
    requires at + 8 <= |b|
    ensures n == LittleEndian(b[at..at + 8])
  {
    Pow256Widths();
    LittleEndian(b[at..at + 8])
  }

  /** Reading back a u16 written with U16Bytes, wherever it sits. */
  lemma U16RoundTrip(n: u16, pre: seq<u8>, post: seq<u8>)
    ensures U16At(pre + U16Bytes(n) + post, |pre|) == n
  {
    Pow256Widths();
    var b := pre + U16Bytes(n) + post;
    assert b[|pre|..|pre| + 2] == U16Bytes(n);
    LittleEndianRoundTrip(n, 2);
  }

  /** Writing back a u16 read with U16At gives the same two bytes. */
  lemma U16Reencode(b: seq<u8>, at: nat)
    requires at + 2 <= |b|
    ensures U16Bytes(U16At(b, at)) == b[at..at + 2]
  {
    LittleEndianReencode(b[at..at + 2]);
  }
}
