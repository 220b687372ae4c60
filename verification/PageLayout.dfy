/**
 The slotted page: an 8-byte header, 4-byte slots growing up from it, and tuple bytes
 growing down from the end of the page. Everything is read out of the page's 4096 bytes,
 so that "the directory never overlaps a tuple" is a theorem about them.
 */
module PageLayout {
  import opened Bytes

  const PAGE_SIZE := 4096
  const HEADER_SIZE := 8
  const SLOT_SIZE := 4
  const MAX_SLOTS := 1022
  const INVALID_PAGE_ID := -1

  type PageBytes = b: seq<byte> | |b| == PAGE_SIZE witness seq(PAGE_SIZE, _ => 0)

  function ZeroPage(): PageBytes { seq(PAGE_SIZE, _ => 0) }

  // ---- header and slot fields ----

  function HeaderPageId(b: PageBytes): i32 { DecodeI32(b[0..4]) }

  function FreeOffset(b: PageBytes): u16 { U16At(b, 4) }

  function SlotCount(b: PageBytes): u16 { U16At(b, 6) }

  function SlotPos(i: nat): nat { HEADER_SIZE + SLOT_SIZE * i }

  /** One past the last directory byte. */
  function DirEnd(b: PageBytes): nat { SlotPos(SlotCount(b)) }

  function SlotOffset(b: PageBytes, i: nat): u16
    requires i < MAX_SLOTS
  {
    U16At(b, SlotPos(i))
  }

  function SlotLength(b: PageBytes, i: nat): u16
    requires i < MAX_SLOTS
  {
    U16At(b, SlotPos(i) + 2)
  }

  function SlotEnd(b: PageBytes, i: nat): nat
    requires i < MAX_SLOTS
  {
    SlotOffset(b, i) + SlotLength(b, i)
  }

  /** A slot of length 0 is a deleted record. */
  predicate Live(b: PageBytes, i: nat)
    requires i < MAX_SLOTS
  {
    SlotLength(b, i) > 0
  }

  // ---- the page invariant ----

  predicate DirectoryFits(b: PageBytes) {
    DirEnd(b) <= FreeOffset(b) + 1 <= PAGE_SIZE
  }

  ghost predicate InTupleArea(b: PageBytes)
    requires DirectoryFits(b)
  {
    forall i | 0 <= i < SlotCount(b) && Live(b, i) ::
      FreeOffset(b) < SlotOffset(b, i) && SlotEnd(b, i) <= PAGE_SIZE
  }

  ghost predicate PairwiseDisjoint(b: PageBytes)
    requires DirectoryFits(b)
  {
    forall i, j | 0 <= i < j < SlotCount(b) && Live(b, i) && Live(b, j) ::
      SlotEnd(b, j) <= SlotOffset(b, i) || SlotEnd(b, i) <= SlotOffset(b, j)
  }

  ghost predicate WellFormed(b: PageBytes) {
    DirectoryFits(b) && InTupleArea(b) && PairwiseDisjoint(b)
  }

  /** Live tuples lie below one another in slot order: what keeps compaction safe. */
  ghost predicate Descending(b: PageBytes)
    requires DirectoryFits(b)
  {
    forall i, j | 0 <= i < j < SlotCount(b) && Live(b, i) && Live(b, j) ::
      SlotEnd(b, j) <= SlotOffset(b, i)
  }

  // ---- what a page means ----

  function Tuple(b: PageBytes, i: nat): seq<byte>
    requires i < MAX_SLOTS && (Live(b, i) ==> SlotEnd(b, i) <= PAGE_SIZE)
  {
    if Live(b, i) then b[SlotOffset(b, i)..SlotEnd(b, i)] else []
  }

  /** The record in every slot, `[]` where it was deleted. */
  ghost function Slots(b: PageBytes): (s: seq<seq<byte>>)
    requires WellFormed(b)
    ensures |s| == SlotCount(b) <= MAX_SLOTS
  {
    seq(SlotCount(b), i requires 0 <= i < SlotCount(b) => Tuple(b, i))
  }

  /** Bytes between the directory and the lowest tuple. */
  function FreeSpace(b: PageBytes): nat
    requires DirectoryFits(b)
  {
    FreeOffset(b) + 1 - DirEnd(b)
  }

  // ---- byte-level effect of the page operations ----

  function Initialized(b: PageBytes, pageId: i32): PageBytes {
    PutU16(PutU16(Splice(b, 0, EncodeI32(pageId)), 4, PAGE_SIZE - 1), 6, 0)
  }

  function Inserted(b: PageBytes, data: seq<byte>): PageBytes
    requires DirectoryFits(b) && |data| + SLOT_SIZE <= FreeSpace(b)
  {
    var n := SlotCount(b);
    var off := FreeOffset(b) - |data| + 1;
    var b1 := Splice(b, off, data);
    var b2 := PutU16(PutU16(b1, SlotPos(n), off), SlotPos(n) + 2, |data|);
    PutU16(PutU16(b2, 6, n + 1), 4, off - 1)
  }

  function Deleted(b: PageBytes, i: nat): PageBytes
    requires i < MAX_SLOTS
  {
    PutU16(b, SlotPos(i) + 2, 0)
  }

  /** `Update` when the new record is no longer than the old one. */
  function Overwritten(b: PageBytes, i: nat, data: seq<byte>): PageBytes
    requires i < MAX_SLOTS && SlotOffset(b, i) + |data| <= PAGE_SIZE
  {
    PutU16(Splice(b, SlotOffset(b, i), data), SlotPos(i) + 2, |data|)
  }

  /** `Update` when the new record is longer: it moves to the bottom of the tuple area. */
  function Regrown(b: PageBytes, i: nat, data: seq<byte>): PageBytes
    requires DirectoryFits(b) && i < MAX_SLOTS && 0 < |data| <= FreeSpace(b)
  {
    var off := FreeOffset(b) - |data| + 1;
    var b1 := Splice(b, off, data);
    PutU16(PutU16(PutU16(b1, SlotPos(i), off), SlotPos(i) + 2, |data|), 4, off - 1)
  }

  // ---- those effects on what the page means ----

  lemma InitializedPage(b: PageBytes, pageId: i32)
    ensures var r := Initialized(b, pageId);
      && WellFormed(r) && Descending(r)
      && HeaderPageId(r) == pageId
      && Slots(r) == []
      && FreeSpace(r) == PAGE_SIZE - HEADER_SIZE
  {
    I32RoundTrip(pageId);
    assert Initialized(b, pageId)[0..4] == EncodeI32(pageId);
  }

  /** Slot `i` and the tuple bytes it points at are the same in `r` as in `b`. */
  ghost predicate SameSlot(b: PageBytes, r: PageBytes, i: nat)
    requires i < MAX_SLOTS
  {
    && SlotOffset(r, i) == SlotOffset(b, i)
    && SlotLength(r, i) == SlotLength(b, i)
    && (Live(b, i) ==>
        SlotEnd(b, i) <= PAGE_SIZE && forall k | SlotOffset(b, i) <= k < SlotEnd(b, i) :: r[k] == b[k])
  }

  /** What an operation on slot `s` writes: the other slots stay, slot `s` gets `data`. */
  ghost predicate SlotBecomes(b: PageBytes, r: PageBytes, s: nat, data: seq<byte>)
    requires DirectoryFits(b) && DirectoryFits(r) && s < SlotCount(r)
  {
    && r[0..4] == b[0..4]
    && (forall i | 0 <= i < SlotCount(b) && i != s :: SameSlot(b, r, i))
    && SlotLength(r, s) == |data|
    && (data != [] ==> SlotEnd(r, s) <= PAGE_SIZE && r[SlotOffset(r, s)..SlotEnd(r, s)] == data)
  }

  /** Where slot `s` may now lie: below everything, or inside the room it had. */
  ghost predicate SlotRoom(b: PageBytes, r: PageBytes, s: nat)
    requires DirectoryFits(b) && DirectoryFits(r) && s < SlotCount(r)
  {
    && SlotCount(r) == (if s == SlotCount(b) then s + 1 else SlotCount(b))
    && FreeOffset(r) <= FreeOffset(b)
    && (Live(r, s) ==>
        && FreeOffset(r) < SlotOffset(r, s)
        && (SlotEnd(r, s) <= FreeOffset(b) + 1 || KeepsRoom(b, r, s)))
  }

  ghost predicate KeepsRoom(b: PageBytes, r: PageBytes, s: nat)
    requires DirectoryFits(b) && s < MAX_SLOTS
  {
    && s < SlotCount(b)
    && (Live(r, s) ==> Live(b, s) && SlotOffset(r, s) == SlotOffset(b, s) && SlotEnd(r, s) <= SlotEnd(b, s))
  }

  lemma SlotWrittenGeometry(b: PageBytes, r: PageBytes, s: nat, data: seq<byte>)
    requires WellFormed(b) && DirectoryFits(r) && s < SlotCount(r) && SlotBecomes(b, r, s, data)
    requires SlotRoom(b, r, s)
    ensures WellFormed(r)
    ensures Descending(b) && (s == SlotCount(b) || KeepsRoom(b, r, s)) ==> Descending(r)
  {
    forall i | 0 <= i < SlotCount(b) && i != s
      ensures SlotOffset(r, i) == SlotOffset(b, i) && SlotLength(r, i) == SlotLength(b, i)
    {
      assert SameSlot(b, r, i);
    }
  }

  /** Reads a whole page off what was written to one slot. */
  lemma SlotWritten(b: PageBytes, r: PageBytes, s: nat, data: seq<byte>)
    requires WellFormed(b) && DirectoryFits(r) && s < SlotCount(r) && SlotBecomes(b, r, s, data)
    requires SlotRoom(b, r, s)
    ensures WellFormed(r) && HeaderPageId(r) == HeaderPageId(b)
    ensures Slots(r) == if s == SlotCount(b) then Slots(b) + [data] else Slots(b)[s := data]
    ensures Descending(b) && (s == SlotCount(b) || KeepsRoom(b, r, s)) ==> Descending(r)
  {
    SlotWrittenGeometry(b, r, s, data);
    forall i | 0 <= i < SlotCount(b) && i != s
      ensures Tuple(r, i) == Tuple(b, i)
    {
      assert SameSlot(b, r, i);
    }
  }

  lemma InsertedPage(b: PageBytes, data: seq<byte>)
    requires WellFormed(b) && |data| + SLOT_SIZE <= FreeSpace(b)
    ensures var r := Inserted(b, data);
      && WellFormed(r)
      && (Descending(b) ==> Descending(r))
      && HeaderPageId(r) == HeaderPageId(b)
      && Slots(r) == Slots(b) + [data]
      && FreeSpace(r) == FreeSpace(b) - |data| - SLOT_SIZE
  {
    var r := Inserted(b, data);
    var n := SlotCount(b);
    assert SlotOffset(r, n) == FreeOffset(b) - |data| + 1 && SlotLength(r, n) == |data|;
    assert r[SlotOffset(r, n)..SlotEnd(r, n)] == data;
    assert forall i | 0 <= i < n :: SameSlot(b, r, i);
    SlotWritten(b, r, n, data);
  }

  lemma DeletedPage(b: PageBytes, i: nat)
    requires WellFormed(b) && i < SlotCount(b)
    ensures var r := Deleted(b, i);
      && WellFormed(r)
      && (Descending(b) ==> Descending(r))
      && HeaderPageId(r) == HeaderPageId(b)
      && Slots(r) == Slots(b)[i := []]
      && FreeSpace(r) == FreeSpace(b)
  {
    var r := Deleted(b, i);
    assert forall j | 0 <= j < SlotCount(b) && j != i :: SameSlot(b, r, j);
    SlotWritten(b, r, i, []);
  }

  lemma OverwrittenPage(b: PageBytes, i: nat, data: seq<byte>)
    requires WellFormed(b) && i < SlotCount(b) && 0 < |data| <= SlotLength(b, i)
    ensures var r := Overwritten(b, i, data);
      && WellFormed(r)
      && (Descending(b) ==> Descending(r))
      && HeaderPageId(r) == HeaderPageId(b)
      && Slots(r) == Slots(b)[i := data]
      && FreeSpace(r) == FreeSpace(b)
  {
    var r := Overwritten(b, i, data);
    assert Live(b, i);
    assert forall j | 0 <= j < SlotCount(b) && j != i :: SameSlot(b, r, j);
    assert SlotLength(r, i) == |data| && SlotOffset(r, i) == SlotOffset(b, i);
    assert r[SlotOffset(r, i)..SlotEnd(r, i)] == data;
    SlotWritten(b, r, i, data);
  }

  /**
   The growing update keeps the page well-formed and the records right, but it keeps the
   tuples in descending order exactly when no later slot is live.
   */
  lemma RegrownPage(b: PageBytes, i: nat, data: seq<byte>)
    requires WellFormed(b) && i < SlotCount(b) && Live(b, i)
    requires SlotLength(b, i) < |data| <= FreeSpace(b)
    ensures var r := Regrown(b, i, data);
      && WellFormed(r)
      && (Descending(b) ==>
          (Descending(r) <==> forall j | i < j < SlotCount(b) :: Slots(b)[j] == []))
      && HeaderPageId(r) == HeaderPageId(b)
      && Slots(r) == Slots(b)[i := data]
      && FreeSpace(r) == FreeSpace(b) - |data|
  {
    var r := Regrown(b, i, data);
    RegrownSlots(b, i, data);
    SlotWritten(b, r, i, data);
    if Descending(b) { RegrownOrder(b, r, i, data); }
  }

  lemma RegrownOrder(b: PageBytes, r: PageBytes, i: nat, data: seq<byte>)
    requires WellFormed(b) && Descending(b) && WellFormed(r) && SlotCount(r) == SlotCount(b)
    requires i < SlotCount(r) && data != [] && SlotBecomes(b, r, i, data)
    requires SlotEnd(r, i) <= FreeOffset(b) + 1
    ensures Descending(r) <==> forall j | i < j < SlotCount(b) :: Slots(b)[j] == []
  {
    forall j | 0 <= j < SlotCount(b) && j != i
      ensures SlotOffset(r, j) == SlotOffset(b, j) && SlotLength(r, j) == SlotLength(b, j)
      ensures Slots(b)[j] == [] <==> !Live(r, j)
      ensures Live(r, j) ==> SlotEnd(r, j) > SlotOffset(r, i)
    {
      assert SameSlot(b, r, j);
      assert Slots(b)[j] == Tuple(b, j);
    }
  }

  lemma RegrownSlots(b: PageBytes, i: nat, data: seq<byte>)
    requires WellFormed(b) && i < SlotCount(b) && Live(b, i)
    requires SlotLength(b, i) < |data| <= FreeSpace(b)
    ensures var r := Regrown(b, i, data);
      && DirectoryFits(r) && SlotCount(r) == SlotCount(b)
      && SlotLength(r, i) == |data|
      && SlotOffset(r, i) == FreeOffset(r) + 1 == FreeOffset(b) - |data| + 1
      && SlotBecomes(b, r, i, data)
  {
    var r := Regrown(b, i, data);
    assert r[SlotOffset(r, i)..SlotEnd(r, i)] == data;
    assert forall j | 0 <= j < SlotCount(b) && j != i :: SameSlot(b, r, j);
  }
}
