/** Pages and rows byte by byte: what stands at which offset. */
module DiskLayout {
  import opened Bytes
  import opened Fields
  import opened PageLayout
  import opened Rows

  /** A new page: its id, the offset of its last byte as the free offset, and no slots. */
  lemma NewPageBytes(b: PageBytes, pageId: i32)
    ensures var r := Initialized(b, pageId);
      && I32Is(r, 0, pageId) && U16Is(r, 4, 4095) && U16Is(r, 6, 0)
      && forall k | 8 <= k < 4096 :: r[k] == b[k]
  {
    var r := Initialized(b, pageId);
    I32Holds(r, 0, pageId);
    hide EncodeI32, I32Is;
    assert r[0..4] == EncodeI32(pageId);
  }

  /**
   An insertion: the free offset and the slot count in the header, the tuple's offset and length in a slot right
   after the directory, the tuple right below the others; no other byte changes.
   */
  lemma InsertedBytes(b: PageBytes, data: seq<byte>)
    requires DirectoryFits(b) && |data| + SLOT_SIZE <= FreeSpace(b)
    ensures var r, slots, free := Inserted(b, data), SlotCount(b), FreeOffset(b);
      && U16Is(b, 4, free) && U16Is(b, 6, slots)
      && U16Is(r, 4, free - |data|) && U16Is(r, 6, slots + 1)
      && U16Is(r, 8 + 4 * slots, free - |data| + 1) && U16Is(r, 10 + 4 * slots, |data|)
      && HoldsAt(r, free - |data| + 1, data)
      && forall k | 0 <= k < 4 || 8 <= k < 8 + 4 * slots || 12 + 4 * slots <= k <= free - |data| || free < k < 4096 ::
           r[k] == b[k]
  {
    var off := FreeOffset(b) - |data| + 1;
    var b1 := Splice(b, off, data);
    SlotAndHeader(b1, SlotPos(SlotCount(b)), off, |data|, SlotCount(b) + 1);
    hide Splice, PutU16, U16At;
    SameRange(b1, Inserted(b, data), off, off + |data|);
  }

  lemma SameRange(b: seq<byte>, r: seq<byte>, from: nat, to: nat)
    requires from <= to <= |b| == |r| && forall k | from <= k < to :: r[k] == b[k]
    ensures r[from..to] == b[from..to]
  {
  }

  /** The four stores after the copy. */
  lemma SlotAndHeader(b: seq<byte>, pos: nat, off: u16, length: u16, count: u16)
    requires |b| == 4096 && 8 <= pos <= 4092 && off > 0
    ensures var r := PutU16(PutU16(PutU16(PutU16(b, pos, off), pos + 2, length), 6, count), 4, off - 1);
      && U16Is(r, 4, off - 1) && U16Is(r, 6, count) && U16Is(r, pos, off) && U16Is(r, pos + 2, length)
      && forall k | 0 <= k < 4 || 8 <= k < pos || pos + 4 <= k < 4096 :: r[k] == b[k]
  {
    hide PutU16;
  }

  /** A deletion: two zero bytes in place of the slot's length. */
  lemma DeletedBytes(b: PageBytes, i: nat)
    requires i < MAX_SLOTS
    ensures var r := Deleted(b, i);
      U16Is(r, 10 + 4 * i, 0) && forall k | 0 <= k < 4096 && k != 10 + 4 * i && k != 11 + 4 * i :: r[k] == b[k]
  {
  }

  /** An update within the old length: the new bytes at the old offset, and the slot's new length. */
  lemma OverwrittenBytes(b: PageBytes, i: nat, data: seq<byte>)
    requires WellFormed(b) && i < SlotCount(b) && 0 < |data| <= SlotLength(b, i)
    ensures var r, at := Overwritten(b, i, data), SlotOffset(b, i);
      && U16Is(r, 8 + 4 * i, at) && U16Is(r, 10 + 4 * i, |data|) && HoldsAt(r, at, data)
      && forall k | 0 <= k < 10 + 4 * i || 12 + 4 * i <= k < at || at + |data| <= k < 4096 :: r[k] == b[k]
  {
    assert Live(b, i);
    var at := SlotOffset(b, i);
    var b1 := Splice(b, at, data);
    assert b1[at..at + |data|] == data;
    hide Splice, PutU16;
    SameRange(b1, Overwritten(b, i, data), at, at + |data|);
  }

  /** An update that outgrows the old length: the tuple right below the others, its slot and the free offset changed. */
  lemma RegrownBytes(b: PageBytes, i: nat, data: seq<byte>)
    requires WellFormed(b) && i < SlotCount(b) && 0 < |data| <= FreeSpace(b)
    ensures i < MAX_SLOTS
    ensures var r, free := Regrown(b, i, data), FreeOffset(b);
      && U16Is(r, 4, free - |data|) && U16Is(r, 8 + 4 * i, free - |data| + 1) && U16Is(r, 10 + 4 * i, |data|)
      && HoldsAt(r, free - |data| + 1, data)
      && forall k | 0 <= k < 4 || 6 <= k < 8 + 4 * i || 12 + 4 * i <= k <= free - |data| || free < k < 4096 ::
           r[k] == b[k]
  {
    var off := FreeOffset(b) - |data| + 1;
    var b1 := Splice(b, off, data);
    SlotAndFree(b1, SlotPos(i), off, |data|);
    hide Splice, PutU16, U16At;
    SameRange(b1, Regrown(b, i, data), off, off + |data|);
  }

  lemma SlotAndFree(b: seq<byte>, pos: nat, off: u16, length: u16)
    requires |b| == 4096 && 8 <= pos <= 4092 && off > 0
    ensures var r := PutU16(PutU16(PutU16(b, pos, off), pos + 2, length), 4, off - 1);
      && U16Is(r, 4, off - 1) && U16Is(r, pos, off) && U16Is(r, pos + 2, length)
      && forall k | 0 <= k < 4 || 6 <= k < pos || pos + 4 <= k < 4096 :: r[k] == b[k]
  {
    hide PutU16;
  }

  /** A value of a row: one byte for a BOOLEAN, four for an INTEGER, right after the values before it. */
  lemma ValueBytes(values: seq<Value>, columns: seq<Column>, i: nat)
    requires Matches(values, columns) && i < |values|
    ensures Offset(columns, 0) == 0
    ensures var row, at, end := RowBytes(values, columns), Offset(columns, i), Offset(columns, i + 1);
      match values[i]
      case Integer(n) => I32Is(row, at, n) && end == at + 4
      case Boolean(b) => I8Is(row, at, b) && end == at + 1
      case NoValue => end == at
  {
    ValueHolds(values, columns, i);
    hide RowBytes, EncodeI32, I32Is;
    var row, at := RowBytes(values, columns), Offset(columns, i);
    if values[i].Integer? { I32Holds(row, at, values[i].i); }
    if values[i].Boolean? { assert row[at..at + 1][0] == row[at]; }
  }

  lemma ValueHolds(values: seq<Value>, columns: seq<Column>, i: nat)
    requires Matches(values, columns) && i < |values|
    ensures HoldsAt(RowBytes(values, columns), Offset(columns, i), Encode(values[i]))
  {
    var row, p := RowBytes(values, columns), RowPrefix(values, columns, i + 1);
    PrefixesNest(values, columns, i + 1, |columns|);
    assert p == RowPrefix(values, columns, i) + Encode(values[i]);
    hide RowBytes, RowPrefix, Encode, Offset;
    var at, end := |RowPrefix(values, columns, i)|, |p|;
    assert row[at..end] == p[at..] == Encode(values[i]);
  }
}
