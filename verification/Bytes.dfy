/** Bytes and the little-endian fixed-width fields that the engine overlays on them. */
module Bytes {

  type byte = x: int | 0 <= x < 0x100
  type u16 = x: int | 0 <= x < 0x1_0000
  type u32 = x: int | 0 <= x < 0x1_0000_0000
  type i32 = x: int | -0x8000_0000 <= x < 0x8000_0000
  type i8 = x: int | -0x80 <= x < 0x80

  function Min(a: int, b: int): int { if a <= b then a else b }

  /** A sum or difference stored back into a `uint16_t`. */
  function Wrap16(x: int): u16 { x % 0x1_0000 }

  function U16At(b: seq<byte>, at: nat): u16
    requires at + 2 <= |b|
  {
    b[at] as int + 0x100 * b[at + 1] as int
  }

  function PutU16(b: seq<byte>, at: nat, v: u16): (r: seq<byte>)
    requires at + 2 <= |b|
    ensures |r| == |b| && U16At(r, at) == v
    ensures forall k | 0 <= k < |b| && !(at <= k < at + 2) :: r[k] == b[k]
    ensures forall p: nat | p + 2 <= |b| && (p + 2 <= at || at + 2 <= p) :: U16At(r, p) == U16At(b, p)
  {
    b[at := v % 0x100][at + 1 := v / 0x100]
  }

  /** `memcpy(b + at, d, |d|)`. */
  function Splice(b: seq<byte>, at: nat, d: seq<byte>): (r: seq<byte>)
    requires at + |d| <= |b|
    ensures |r| == |b| && r[at..at + |d|] == d
    ensures forall k | 0 <= k < |b| && !(at <= k < at + |d|) :: r[k] == b[k]
    ensures forall p: nat | p + 2 <= |b| && (p + 2 <= at || at + |d| <= p) :: U16At(r, p) == U16At(b, p)
  {
    b[..at] + d + b[at + |d|..]
  }

  /** The four bytes of a 32-bit field. */
  function EncodeU32(v: u32): (r: seq<byte>)
    ensures |r| == 4
  {
    [v % 0x100, v / 0x100 % 0x100, v / 0x1_0000 % 0x100, v / 0x100_0000]
  }

  function DecodeU32(b: seq<byte>): u32
    requires |b| == 4
  {
    b[0] as int + 0x100 * b[1] as int + 0x1_0000 * b[2] as int + 0x100_0000 * b[3] as int
  }

  /** Two's complement. */
  function EncodeI32(v: i32): (r: seq<byte>)
    ensures |r| == 4
  {
    EncodeU32(if v < 0 then v + 0x1_0000_0000 else v)
  }

  function DecodeI32(b: seq<byte>): i32
    requires |b| == 4
  {
    var u := DecodeU32(b);
    if u < 0x8000_0000 then u else u - 0x1_0000_0000
  }

  function EncodeI8(v: i8): byte { if v < 0 then v + 0x100 else v }

  function DecodeI8(b: byte): i8 { if b < 0x80 then b else b - 0x100 }

  lemma U32RoundTrip(v: u32)
    ensures DecodeU32(EncodeU32(v)) == v
  {
    assert v / 0x1_0000 == v / 0x100 / 0x100;
    assert v / 0x100_0000 == v / 0x1_0000 / 0x100;
  }

  lemma I32RoundTrip(v: i32)
    ensures DecodeI32(EncodeI32(v)) == v
  {
    U32RoundTrip(if v < 0 then v + 0x1_0000_0000 else v);
  }
}
