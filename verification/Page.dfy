/** A buffer frame, and the raw copies and 16-bit stores made inside its 4096 bytes. */
module Pages {
  import opened Bytes
  import opened PageLayout

  class Page {
    var pageId: int
    var pinCount: int
    var isDirty: bool
    const data: array<byte>

    constructor ()
      ensures pageId == INVALID_PAGE_ID && pinCount == 0 && !isDirty
      ensures Sized() && fresh(data) && Content() == seq(PAGE_SIZE, _ => 0)
    {
      pageId, pinCount, isDirty := INVALID_PAGE_ID, 0, false;
      data := new byte[PAGE_SIZE](_ => 0);
      new;
      assert data[..] == seq(PAGE_SIZE, _ => 0);
    }

    predicate Sized() { data.Length == PAGE_SIZE }

    ghost function Content(): PageBytes
      requires Sized()
      reads data
    {
      data[..]
    }
  }

  /** `memcpy` of `d` to `a + at`. */
  method CopyInto(a: array<byte>, at: nat, d: seq<byte>)
    requires at + |d| <= a.Length
    modifies a
    ensures a[..] == Splice(old(a[..]), at, d)
  {
    forall k | 0 <= k < |d| {
      a[at + k] := d[k];
    }
    ghost var r := Splice(old(a[..]), at, d);
    forall k | 0 <= k < a.Length
      ensures a[k] == r[k]
    {
      if at <= k < at + |d| {
        assert r[k] == r[at..at + |d|][k - at];
      }
    }
  }

  /** `memmove` of `n` bytes from `a + from` to `a + to`; the two ranges may overlap. */
  method MoveWithin(a: array<byte>, to: nat, from: nat, n: nat)
    requires to + n <= a.Length && from + n <= a.Length
    modifies a
    ensures a[..] == Splice(old(a[..]), to, old(a[from..from + n]))
  {
    forall k | 0 <= k < n {
      a[to + k] := a[from + k];
    }
    ghost var r := Splice(old(a[..]), to, old(a[from..from + n]));
    forall k | 0 <= k < a.Length
      ensures a[k] == r[k]
    {
      if to <= k < to + n {
        assert r[k] == r[to..to + n][k - to];
      }
    }
  }

  method StoreU16(a: array<byte>, at: nat, v: u16)
    requires at + 2 <= a.Length
    modifies a
    ensures a[..] == PutU16(old(a[..]), at, v)
  {
    a[at] := v % 0x100;
    a[at + 1] := v / 0x100;
  }

  /** The four bytes of directory slot `i`. */
  ghost function PutSlot(b: seq<byte>, i: nat, offset: u16, length: u16): seq<byte>
    requires SlotPos(i) + SLOT_SIZE <= |b|
  {
    PutU16(PutU16(b, SlotPos(i), offset), SlotPos(i) + 2, length)
  }

  method StoreSlot(a: array<byte>, i: nat, offset: u16, length: u16)
    requires SlotPos(i) + SLOT_SIZE <= a.Length
    modifies a
    ensures a[..] == PutSlot(old(a[..]), i, offset, length)
  {
    StoreU16(a, SlotPos(i), offset);
    StoreU16(a, SlotPos(i) + 2, length);
  }

  method LoadU16(a: array<byte>, at: nat) returns (v: u16)
    requires at + 2 <= a.Length
    ensures v == U16At(a[..], at)
  {
    v := a[at] as int + 0x100 * a[at + 1] as int;
  }
}
