/** The operations on one slotted page, in place on its bytes. */
module PageManagement {
  import opened Bytes
  import opened PageLayout
  import opened Compaction
  import opened Pages

  /** What a page is to the layers above: its records by slot, and its contiguous free space. */
  datatype SlottedPage = SlottedPage(slots: seq<seq<byte>>, free: nat)

  ghost function ViewOf(b: PageBytes): (p: SlottedPage)
    requires WellFormed(b)
  {
    SlottedPage(Slots(b), FreeSpace(b))
  }

  /** The page is usable, safe to compact, and labelled with its own id. */
  ghost predicate Sound(b: PageBytes, pageId: int) {
    WellFormed(b) && Descending(b) && HeaderPageId(b) == pageId
  }

  const EMPTY_PAGE := SlottedPage([], PAGE_SIZE - HEADER_SIZE)

  predicate Fits(p: SlottedPage, size: nat) {
    size + SLOT_SIZE <= p.free
  }

  function WithInserted(p: SlottedPage, data: seq<byte>): SlottedPage
    requires Fits(p, |data|)
  {
    SlottedPage(p.slots + [data], p.free - |data| - SLOT_SIZE)
  }

  function WithDeleted(p: SlottedPage, i: nat): SlottedPage
    requires i < |p.slots|
  {
    p.(slots := p.slots[i := []])
  }

  /** A longer record moves to fresh space; a shorter one stays, and frees nothing. */
  function WithUpdated(p: SlottedPage, i: nat, data: seq<byte>): SlottedPage
    requires i < |p.slots| && (|data| <= |p.slots[i]| || |data| <= p.free)
  {
    SlottedPage(p.slots[i := data], if |data| <= |p.slots[i]| then p.free else p.free - |data|)
  }

  /** Everything but header, directory and live records, were it contiguous. */
  ghost function Slack(p: SlottedPage): int {
    PAGE_SIZE - HEADER_SIZE - SLOT_SIZE * |p.slots| - LiveBytes(p.slots)
  }

  ghost predicate Roomy(p: SlottedPage) { p.free <= Slack(p) }

  ghost function WithCompacted(p: SlottedPage): SlottedPage
    requires Roomy(p)
  {
    p.(free := Slack(p))
  }

  lemma RoomyBound(p: SlottedPage)
    requires Roomy(p)
    ensures |p.slots| <= MAX_SLOTS && (p.free >= SLOT_SIZE ==> |p.slots| < MAX_SLOTS)
  {
  }

  lemma RoomyInserted(p: SlottedPage, data: seq<byte>)
    requires Roomy(p) && Fits(p, |data|)
    ensures Roomy(WithInserted(p, data))
    ensures Slack(WithInserted(p, data)) == Slack(p) - |data| - SLOT_SIZE
  {
    LiveBytesAppend(p.slots, data);
  }

  lemma RoomyReplaced(p: SlottedPage, i: nat, data: seq<byte>, free: nat)
    requires Roomy(p) && i < |p.slots|
    requires (free == p.free && |data| <= |p.slots[i]|) || (|data| <= p.free && free == p.free - |data|)
    ensures Roomy(SlottedPage(p.slots[i := data], free))
  {
    LiveBytesUpdate(p.slots, i, data);
  }

  lemma ViewIsRoomy(b: PageBytes)
    requires WellFormed(b)
    ensures Roomy(ViewOf(b))
  {
    LiveBytesFit(b);
  }

  lemma CompactedView(b: PageBytes)
    requires WellFormed(b) && CompactSafe(b)
    ensures WellFormed(Compacted(b)) && Roomy(ViewOf(b))
    ensures ViewOf(Compacted(b)) == WithCompacted(ViewOf(b))
  {
    ViewIsRoomy(b);
    CompactedShape(b);
    CompactedSlots(b);
  }

  // ---- the 16-bit space check ----

  /** `HasEnoughSpace` as computed: both sides are stored into a `uint16_t`. */
  predicate HasSpace16(b: PageBytes, size: u16) {
    Wrap16(size + SLOT_SIZE) <= Wrap16(FreeOffset(b) + 1 - (HEADER_SIZE + SlotCount(b) * SLOT_SIZE))
  }

  /**
   The check agrees with the inequality it stands for exactly when the size does not wrap,
   or wraps to more than the page has.
   */
  lemma SpaceCheckExact(b: PageBytes, size: u16)
    requires WellFormed(b)
    ensures (HasSpace16(b, size) <==> size + SLOT_SIZE <= FreeSpace(b))
      <==> (size <= 65531 || FreeSpace(b) < size - 65532)
    ensures SlotCount(b) <= MAX_SLOTS
  {
    assert 0 <= FreeSpace(b) < 0x1_0000;
  }

  /** For each of the four sizes that wrap, an empty page lacks the room, and the check admits the record. */
  lemma WrappedCheckAdmits(pageId: i32, size: u16)
    requires size >= 65532
    ensures var b := Initialized(ZeroPage(), pageId);
      WellFormed(b) && FreeSpace(b) == 4088 < size + SLOT_SIZE && HasSpace16(b, size)
  {
    InitializedPage(ZeroPage(), pageId);
    SpaceCheckExact(Initialized(ZeroPage(), pageId), size);
    hide Initialized;
  }

  /** The stores of an insertion, one after the other. */
  lemma InsertedStores(b: PageBytes, data: seq<byte>)
    requires DirectoryFits(b) && |data| + SLOT_SIZE <= FreeSpace(b)
    ensures var free, n := U16At(b, 4), U16At(b, 6); var off := free - |data| + 1;
      && Wrap16(off) == off && 1 <= off && off + |data| <= PAGE_SIZE && |data| <= 65535
      && SlotPos(n) + SLOT_SIZE <= PAGE_SIZE && n + 1 <= MAX_SLOTS
      && Inserted(b, data) == PutU16(PutU16(PutSlot(Splice(b, off, data), n, off, |data|), 6, n + 1), 4, off - 1)
  {
    hide PutU16, Splice, U16At;
  }

  class PageDataManager {
    constructor () {}

    method InitializePage(page: Page, pageId: i32)
      requires page.Sized()
      modifies page.data
      ensures page.Content() == Initialized(old(page.Content()), pageId)
      ensures Sound(page.Content(), pageId)
      ensures ViewOf(page.Content()) == EMPTY_PAGE
    {
      CopyInto(page.data, 0, EncodeI32(pageId));
      StoreU16(page.data, 4, PAGE_SIZE - 1);
      StoreU16(page.data, 6, 0);
      InitializedPage(old(page.Content()), pageId);
    }

    method HasEnoughSpace(page: Page, tupleSize: u16) returns (ok: bool)
      requires page.Sized() && WellFormed(page.Content())
      ensures ok <==> HasSpace16(page.Content(), tupleSize)
      ensures tupleSize <= 65531 ==> (ok <==> Fits(ViewOf(page.Content()), tupleSize))
    {
      var free := LoadU16(page.data, 4);
      var count := LoadU16(page.data, 6);
      var requiredSpace := Wrap16(tupleSize + SLOT_SIZE);
      var availableSpace := Wrap16(free + 1 - (HEADER_SIZE + count * SLOT_SIZE));
      SpaceCheckExact(page.Content(), tupleSize);
      ok := requiredSpace <= availableSpace;
    }

    /** Defined for every size on which the space check does not admit a record that has no room. */
    method InsertTuple(page: Page, tupleData: seq<byte>) returns (ok: bool, slotId: u16)
      requires page.Sized() && WellFormed(page.Content()) && |tupleData| <= 65535
      requires |tupleData| <= 65531 || FreeSpace(page.Content()) < |tupleData| - 65532
      modifies page.data
      ensures ok <==> old(Fits(ViewOf(page.Content()), |tupleData|))
      ensures !ok ==> page.Content() == old(page.Content())
      ensures ok ==> page.Content() == Inserted(old(page.Content()), tupleData)
      ensures WellFormed(page.Content()) && HeaderPageId(page.Content()) == old(HeaderPageId(page.Content()))
      ensures old(Descending(page.Content())) ==> Descending(page.Content())
      ensures ok ==> slotId == old(SlotCount(page.Content()))
      ensures ok ==> ViewOf(page.Content()) == WithInserted(old(ViewOf(page.Content())), tupleData)
    {
      slotId := 0;
      SpaceCheckExact(page.Content(), |tupleData|);
      ok := HasEnoughSpace(page, |tupleData|);
      if ok {
        InsertedPage(page.Content(), tupleData);
        slotId := PlaceTuple(page, tupleData);
      }
    }

    /** The writes of a successful insert: tuple bytes, slot, count, free-space offset. */
    method PlaceTuple(page: Page, tupleData: seq<byte>) returns (slotId: u16)
      requires page.Sized() && DirectoryFits(page.Content())
      requires |tupleData| + SLOT_SIZE <= FreeSpace(page.Content())
      modifies page.data
      ensures slotId == old(SlotCount(page.Content()))
      ensures page.Content() == Inserted(old(page.Content()), tupleData)
    {
      hide PutU16, PutSlot, Splice, U16At, Inserted, DirectoryFits, FreeSpace, Wrap16, SlotPos;
      InsertedStores(page.Content(), tupleData);
      var free := LoadU16(page.data, 4);
      slotId := LoadU16(page.data, 6);
      var newFreeSpaceOffset := Wrap16(free - |tupleData| + 1);
      CopyInto(page.data, newFreeSpaceOffset, tupleData);
      StoreSlot(page.data, slotId, newFreeSpaceOffset, |tupleData|);
      StoreU16(page.data, 6, slotId + 1);
      StoreU16(page.data, 4, newFreeSpaceOffset - 1);
    }

    method GetTuple(page: Page, slotId: u16) returns (ok: bool, tupleData: seq<byte>)
      requires page.Sized() && WellFormed(page.Content())
      ensures ok <==> slotId < SlotCount(page.Content())
      ensures ok ==> tupleData == Slots(page.Content())[slotId]
    {
      tupleData := [];
      var count := LoadU16(page.data, 6);
      if slotId >= count {
        return false, [];
      }
      var offset := LoadU16(page.data, HEADER_SIZE + slotId * SLOT_SIZE);
      var length := LoadU16(page.data, HEADER_SIZE + slotId * SLOT_SIZE + 2);
      if length > 0 {
        assert Live(page.Content(), slotId);
        tupleData := page.data[offset..offset + length];
      }
      ok := true;
    }

    method DeleteTuple(page: Page, slotId: u16) returns (ok: bool)
      requires page.Sized() && WellFormed(page.Content())
      modifies page.data
      ensures ok <==> slotId < old(SlotCount(page.Content()))
      ensures page.Content() == if ok then Deleted(old(page.Content()), slotId) else old(page.Content())
      ensures WellFormed(page.Content()) && HeaderPageId(page.Content()) == old(HeaderPageId(page.Content()))
      ensures old(Descending(page.Content())) ==> Descending(page.Content())
      ensures ok ==> ViewOf(page.Content()) == WithDeleted(old(ViewOf(page.Content())), slotId)
    {
      var count := LoadU16(page.data, 6);
      if slotId >= count {
        return false;
      }
      StoreU16(page.data, HEADER_SIZE + slotId * SLOT_SIZE + 2, 0);
      DeletedPage(old(page.Content()), slotId);
      ok := true;
    }

    /** Defined on every well-formed page; keeps the records exactly as `CompactionExact` says. */
    method CompactOnePage(page: Page)
      requires page.Sized() && WellFormed(page.Content())
      modifies page.data
      ensures page.Content() == Compacted(old(page.Content()))
      ensures WellFormed(page.Content()) && Descending(page.Content())
      ensures HeaderPageId(page.Content()) == old(HeaderPageId(page.Content()))
      ensures old(CompactSafe(page.Content())) ==>
        Roomy(old(ViewOf(page.Content()))) && ViewOf(page.Content()) == WithCompacted(old(ViewOf(page.Content())))
    {
      hide Moved, Splice, PutU16, Lengths, Total, InTupleArea, PairwiseDisjoint, Descending, ViewOf, HeaderPageId;
      ghost var b0 := page.Content();
      ReadyAtStart(b0);
      CompactedShape(b0);
      if CompactSafe(b0) { CompactedView(b0); }
      var count := LoadU16(page.data, 6);
      var writePtr := PAGE_SIZE - 1;
      for i := 0 to count
        invariant Ready(page.Content(), i, writePtr)
        invariant SlotCount(page.Content()) == count
        invariant CompactFrom(page.Content(), i, writePtr) == Compacted(b0)
      {
        var length := LoadU16(page.data, HEADER_SIZE + i * SLOT_SIZE + 2);
        if length == 0 {
          ReadySkip(page.Content(), i, writePtr);
        } else {
          writePtr := MoveSlot(page, i, writePtr);
        }
      }
      StoreU16(page.data, 4, writePtr);
    }

    /** The body of the compaction loop for a live slot. */
    method MoveSlot(page: Page, i: u16, writePtr: int) returns (newPtr: int)
      requires page.Sized() && Ready(page.Content(), i, writePtr)
      requires i < SlotCount(page.Content()) && Live(page.Content(), i)
      modifies page.data
      ensures newPtr == writePtr - old(SlotLength(page.Content(), i))
      ensures page.Content() == Moved(old(page.Content()), i, writePtr)
      ensures SlotCount(page.Content()) == old(SlotCount(page.Content()))
      ensures Ready(page.Content(), i + 1, newPtr)
    {
      ghost var b := page.Content();
      ReadyAgain(b, i, writePtr);
      MovedFields(b, i, writePtr);
      var length := LoadU16(page.data, HEADER_SIZE + i * SLOT_SIZE + 2);
      var offset := LoadU16(page.data, HEADER_SIZE + i * SLOT_SIZE);
      var newOffset := writePtr - length + 1;
      MoveWithin(page.data, newOffset, offset, length);
      StoreU16(page.data, HEADER_SIZE + i * SLOT_SIZE, newOffset);
      newPtr := newOffset - 1;
    }
  }
}
