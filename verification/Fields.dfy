/** Fields by position: the bytes that a number has in a file or on a page, the least significant first. */
module Fields {
  import opened Bytes

  ghost predicate U16Is(b: seq<byte>, at: nat, v: int) {
    at + 2 <= |b| && v == b[at] as int + 0x100 * b[at + 1] as int
  }

  ghost predicate U32Is(b: seq<byte>, at: nat, v: int) {
    && at + 4 <= |b|
    && v == b[at] as int + 0x100 * b[at + 1] as int + 0x1_0000 * b[at + 2] as int + 0x100_0000 * b[at + 3] as int
  }

  /** Two's complement. */
  ghost predicate I32Is(b: seq<byte>, at: nat, v: int) {
    U32Is(b, at, if v < 0 then v + 0x1_0000_0000 else v)
  }

  ghost predicate I8Is(b: seq<byte>, at: nat, v: int) {
    at < |b| && b[at] as int == if v < 0 then v + 0x100 else v
  }

  /** The bytes of `x` are those of `b` from `at` on. */
  ghost predicate HoldsAt(b: seq<byte>, at: nat, x: seq<byte>) {
    at + |x| <= |b| && b[at..at + |x|] == x
  }

  lemma HoldsBoth(b: seq<byte>, at: nat, x: seq<byte>, y: seq<byte>)
    ensures HoldsAt(b, at, x + y) <==> HoldsAt(b, at, x) && HoldsAt(b, at + |x|, y)
  {
    if at + |x| + |y| <= |b| {
      var z := b[at..at + |x| + |y|];
      assert z == b[at..at + |x|] + b[at + |x|..at + |x| + |y|];
      assert z[..|x|] == b[at..at + |x|] && z[|x|..] == b[at + |x|..at + |x| + |y|];
      assert (x + y)[..|x|] == x && (x + y)[|x|..] == y;
    }
  }

  lemma LastDigit(a: byte, q: int, v: int)
    ensures v == a as int + 0x100 * q <==> a == v % 0x100 && q == v / 0x100
  {
  }

  lemma FourDigits(a: byte, b: byte, c: byte, d: byte, v: u32)
    ensures v == a as int + 0x100 * b as int + 0x1_0000 * c as int + 0x100_0000 * d as int <==>
      a == v % 0x100 && b == v / 0x100 % 0x100 && c == v / 0x1_0000 % 0x100 && d == v / 0x100_0000
  {
    var r: int := d;
    var q := c as int + 0x100 * r;
    var p := b as int + 0x100 * q;
    LastDigit(a, p, v);
    LastDigit(b, q, v / 0x100);
    LastDigit(c, r, v / 0x1_0000);
  }

  /** `EncodeU32` writes the field, and nothing else does. */
  lemma U32Holds(b: seq<byte>, at: nat, v: u32)
    ensures U32Is(b, at, v) <==> HoldsAt(b, at, EncodeU32(v))
  {
    if at + 4 <= |b| {
      FourDigits(b[at], b[at + 1], b[at + 2], b[at + 3], v);
      var z := b[at..at + 4];
      assert z == [b[at], b[at + 1], b[at + 2], b[at + 3]];
    }
  }

  lemma I32Holds(b: seq<byte>, at: nat, v: i32)
    ensures I32Is(b, at, v) <==> HoldsAt(b, at, EncodeI32(v))
  {
    U32Holds(b, at, if v < 0 then v + 0x1_0000_0000 else v);
  }
}
