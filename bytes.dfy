/** Fixed-width unsigned integers and little-endian byte order, as used by
    every multi-byte field of an SMBIOS structure. */
module Bytes {

  type u8 = x: int | 0 <= x < 0x100
  type u16 = x: int | 0 <= x < 0x1_0000
  type u32 = x: int | 0 <= x < 0x1_0000_0000
  type u64 = x: int | 0 <= x < 0x1_0000_0000_0000_0000

  /** 256 to the power n: one past the largest value n bytes can hold. */
  function Pow256(n: nat): (r: nat)
    ensures r >= 1
  {
    if n == 0 then 1 else 256 * Pow256(n - 1)
  }

  lemma Pow256Widths()
    ensures Pow256(2) == 0x1_0000
    ensures Pow256(8) == 0x1_0000_0000_0000_0000
  {
  }

  /** The number a byte string denotes in little-endian order: bs[0] is the
      least significant byte. */
  function LeValue(bs: seq<u8>): (r: nat)
    ensures r < Pow256(|bs|)
  {
    if bs == [] then 0 else bs[0] + 256 * LeValue(bs[1..])
  }

  /** The n-byte little-endian representation of x (bytes above n are dropped). */
  function LeBytes(x: nat, n: nat): (bs: seq<u8>)
    ensures |bs| == n
  {
    if n == 0 then [] else [x % 256] + LeBytes(x / 256, n - 1)
  }

  /** Writing a value that fits and reading it back gives the value. */
  lemma {:induction false} LeValueOfLeBytes(x: nat, n: nat)
    requires x < Pow256(n)
    ensures LeValue(LeBytes(x, n)) == x
  {
    if n > 0 {
      LeValueOfLeBytes(x / 256, n - 1);
      assert LeBytes(x, n)[1..] == LeBytes(x / 256, n - 1);
    }
  }

  /** Reading a byte string and writing it back gives the same bytes. */
  lemma {:induction false} LeBytesOfLeValue(bs: seq<u8>)
    ensures LeBytes(LeValue(bs), |bs|) == bs
  {
    if bs != [] {
      var v := LeValue(bs);
      assert v % 256 == bs[0] && v / 256 == LeValue(bs[1..]);
      LeBytesOfLeValue(bs[1..]);
    }
  }

  /** u16::from_le_bytes: low byte first. */
  function Le16(b: seq<u8>): (r: u16)
    requires |b| == 2
    ensures r % 256 == b[0] && r / 256 == b[1]
  {
    Pow256Widths();
    assert LeValue(b[1..]) == b[1] by { assert b[1..][1..] == []; }
    LeValue(b)
  }

  /** u64::from_le_bytes. */
  function Le64(b: seq<u8>): (r: u64)
    requires |b| == 8
    ensures LeBytes(r, 8) == b
  {
    Pow256Widths();
    LeBytesOfLeValue(b);
    LeValue(b)
  }
}
