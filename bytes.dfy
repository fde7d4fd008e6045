/** Fixed-width unsigned integers, little-endian byte strings, and the
    bounds-checked slice of a memory-mapped file. */
module Bytes {
  import opened Wrappers

  type byte = x: int | 0 <= x < 0x100
  type u16 = x: int | 0 <= x < 0x1_0000
  type u32 = x: int | 0 <= x < 0x1_0000_0000
  type u64 = x: int | 0 <= x < 0x1_0000_0000_0000_0000

  /** 256 to the power `n`: the number of values `n` bytes can hold. */
  function Pow256(n: nat): (p: nat)
    ensures p >= 1
  {
    if n == 0 then 1 else 0x100 * Pow256(n - 1)
  }

  /** Unsigned value of a little-endian byte string (`u32::from_le_bytes` and
      the packed integer fields of the archive records). */
  function LittleEndian(s: seq<byte>): (n: nat)
    ensures n < Pow256(|s|)
  {
    if s == [] then 0 else s[0] + 0x100 * LittleEndian(s[1..])
  }

  /** The `width`-byte little-endian encoding of `n`. */
  function ToLittleEndian(n: nat, width: nat): (s: seq<byte>)
    requires n < Pow256(width)
    ensures |s| == width
    ensures LittleEndian(s) == n
  {
    if width == 0 then [] else [n % 0x100] + ToLittleEndian(n / 0x100, width - 1)
  }

  /** Encoding the value of a byte string gives back the byte string. */
  lemma {:induction false} ToLittleEndianOfLittleEndian(s: seq<byte>)
    ensures ToLittleEndian(LittleEndian(s), |s|) == s
  {
    if s != [] {
      var n := LittleEndian(s);
      assert n % 0x100 == s[0] && n / 0x100 == LittleEndian(s[1..]);
      ToLittleEndianOfLittleEndian(s[1..]);
    }
  }

  function U16At(s: seq<byte>, at: nat): (n: u16)
    requires at + 2 <= |s|
    ensures n == LittleEndian(s[at..at + 2])
  {
    LittleEndian(s[at..at + 2])
  }

  function U32At(s: seq<byte>, at: nat): (n: u32)
    requires at + 4 <= |s|
    ensures n == LittleEndian(s[at..at + 4])
  {
    assert Pow256(4) == 0x1_0000_0000;
    LittleEndian(s[at..at + 4])
  }

  function U64At(s: seq<byte>, at: nat): (n: u64)
    requires at + 8 <= |s|
    ensures n == LittleEndian(s[at..at + 8])
  {
    assert Pow256(8) == 0x1_0000_0000_0000_0000;
    LittleEndian(s[at..at + 8])
  }

  /** The mapped file's `as_slice(offset, len)`: the `len` bytes at `offset`,
      or nothing when the range runs past the end of the file. */
  function Slice(file: seq<byte>, offset: nat, len: nat): (r: Option<seq<byte>>)
    ensures r.Some? <==> offset + len <= |file|
    ensures r.Some? ==> |r.value| == len && r.value == file[offset..offset + len]
  {
    if offset + len <= |file| then Some(file[offset..offset + len]) else None
  }
}
