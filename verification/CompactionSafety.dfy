/** What each page operation does to the condition under which compaction loses nothing. */
module CompactionSafety {
  import opened Bytes
  import opened PageLayout
  import opened Compaction

  /** Where compaction of the whole page puts slot `k`. */
  ghost function NewPlace(b: PageBytes, k: nat): int
    requires k < SlotCount(b) <= MAX_SLOTS
  {
    NewOffset(b, 0, PAGE_SIZE - 1, k)
  }

  lemma SafeIs(b: PageBytes)
    requires WellFormed(b)
    ensures SlotCount(b) <= MAX_SLOTS
    ensures CompactSafe(b) <==>
      forall k, j | 0 <= k < j < SlotCount(b) && Live(b, k) && Live(b, j) :: SlotEnd(b, j) <= NewPlace(b, k)
  {
    if CompactSafe(b) {
      forall k, j | 0 <= k < j < SlotCount(b) && Live(b, k) && Live(b, j)
        ensures SlotEnd(b, j) <= NewPlace(b, k)
      {
      }
    }
  }

  lemma TotalUpdate(s: seq<nat>, i: nat, v: nat)
    requires i < |s|
    ensures Total(s[i := v]) == Total(s) - s[i] + v
  {
    var t := s[i := v];
    TotalSplit(s, i);
    TotalSplit(t, i);
    assert s[..i] == t[..i] && s[i..][1..] == t[i..][1..];
  }

  /** Only the places of slot `s` and of the slots after it depend on the length of slot `s`. */
  lemma PlacesAfter(b: PageBytes, r: PageBytes, s: nat, k: nat)
    requires SlotCount(b) <= SlotCount(r) <= MAX_SLOTS && s < SlotCount(r) && k < SlotCount(b)
    requires SlotCount(r) > SlotCount(b) ==> s == SlotCount(b)
    requires forall j | 0 <= j < SlotCount(b) && j != s :: SlotLength(r, j) == SlotLength(b, j)
    ensures NewPlace(r, k) == NewPlace(b, k) - if k >= s then SlotLength(r, s) - SlotLength(b, s) else 0
  {
    var before, after := Lengths(b)[0..k + 1], Lengths(r)[0..k + 1];
    if k >= s {
      var v: nat := SlotLength(r, s);
      TotalUpdate(before, s, v);
      assert after == before[s := v];
    } else {
      assert after == before;
    }
  }

  /** No new place is below the free area's end. */
  lemma PlaceBound(b: PageBytes, k: nat)
    requires WellFormed(b) && k < SlotCount(b)
    ensures SlotCount(b) <= MAX_SLOTS && FreeOffset(b) + 1 <= NewPlace(b, k)
  {
    NewOffsetBounds(b, k);
    LiveBytesFit(b);
  }

  lemma AppendedSafe(b: PageBytes, r: PageBytes)
    requires WellFormed(b) && WellFormed(r) && SlotCount(b) < MAX_SLOTS && SlotCount(r) == SlotCount(b) + 1
    requires SlotEnd(r, SlotCount(b)) <= FreeOffset(b) + 1
    requires forall j | 0 <= j < SlotCount(b) ::
      SlotLength(r, j) == SlotLength(b, j) && SlotOffset(r, j) == SlotOffset(b, j)
    ensures CompactSafe(r) <==> CompactSafe(b)
  {
    SafeIs(b);
    SafeIs(r);
    hide WellFormed, CompactSafe, NewPlace, U16At;
    forall k | 0 <= k < SlotCount(b)
      ensures NewPlace(r, k) == NewPlace(b, k) && SlotEnd(r, SlotCount(b)) <= NewPlace(b, k)
    {
      PlacesAfter(b, r, SlotCount(b), k);
      PlaceBound(b, k);
    }
  }

  /** An insertion changes nothing about the safety of compaction. */
  lemma InsertedSafe(b: PageBytes, data: seq<byte>)
    requires WellFormed(b) && |data| + SLOT_SIZE <= FreeSpace(b)
    ensures WellFormed(Inserted(b, data))
    ensures CompactSafe(Inserted(b, data)) <==> CompactSafe(b)
  {
    InsertedPage(b, data);
    InsertedFields(b, data);
    hide Inserted, WellFormed, CompactSafe, U16At;
    AppendedSafe(b, Inserted(b, data));
  }

  /** Deleting, or shortening, a record keeps compaction safe. */
  lemma ShrunkSafe(b: PageBytes, r: PageBytes, i: nat)
    requires WellFormed(b) && WellFormed(r) && CompactSafe(b) && i < SlotCount(b) == SlotCount(r)
    requires SlotLength(r, i) <= SlotLength(b, i) && SlotOffset(r, i) == SlotOffset(b, i)
    requires forall j | 0 <= j < SlotCount(b) && j != i ::
      SlotLength(r, j) == SlotLength(b, j) && SlotOffset(r, j) == SlotOffset(b, j)
    ensures CompactSafe(r)
  {
    SafeIs(b);
    SafeIs(r);
    hide WellFormed, CompactSafe, NewPlace;
    forall k, j | 0 <= k < j < SlotCount(r) && Live(r, k) && Live(r, j)
      ensures SlotEnd(r, j) <= NewPlace(r, k)
    {
      PlacesAfter(b, r, i, k);
      assert SlotEnd(r, j) <= SlotEnd(b, j);
      assert Live(b, k) && Live(b, j);
    }
  }

  lemma DeletedSafe(b: PageBytes, i: nat)
    requires WellFormed(b) && i < SlotCount(b) && CompactSafe(b)
    ensures WellFormed(Deleted(b, i)) && CompactSafe(Deleted(b, i))
  {
    DeletedPage(b, i);
    ShrunkSafe(b, Deleted(b, i), i);
  }

  lemma OverwrittenSafe(b: PageBytes, i: nat, data: seq<byte>)
    requires WellFormed(b) && i < SlotCount(b) && 0 < |data| <= SlotLength(b, i) && CompactSafe(b)
    ensures WellFormed(Overwritten(b, i, data)) && CompactSafe(Overwritten(b, i, data))
  {
    OverwrittenPage(b, i, data);
    var r := Overwritten(b, i, data);
    assert forall j | 0 <= j < SlotCount(b) && j != i ::
        SlotLength(r, j) == SlotLength(b, j) && SlotOffset(r, j) == SlotOffset(b, j);
    ShrunkSafe(b, r, i);
  }

  lemma CompactedSafe(b: PageBytes)
    requires WellFormed(b)
    ensures WellFormed(Compacted(b)) && CompactSafe(Compacted(b))
  {
    CompactedShape(b);
    DescendingIsSafe(Compacted(b));
  }

  /**
   What the directory must be like for slot `i` to grow to `size` bytes: the longer record pushes
   it and every later slot further down, and none of them may be pushed onto a later one.
   */
  ghost predicate RegrowSafe(b: PageBytes, i: nat, size: nat)
    requires WellFormed(b) && i < SlotCount(b)
  {
    SlotCount(b) <= MAX_SLOTS &&
    forall k, j | 0 <= k < j < SlotCount(b) && Live(b, k) && Live(b, j) && j != i ::
      SlotEnd(b, j) + (if k >= i then size - SlotLength(b, i) else 0) <= NewPlace(b, k)
  }

  lemma GrownSafe(b: PageBytes, r: PageBytes, i: nat)
    requires WellFormed(b) && WellFormed(r) && i < SlotCount(b) == SlotCount(r) <= MAX_SLOTS
    requires Live(b, i) && Live(r, i) && SlotEnd(r, i) <= FreeOffset(b) + 1
    requires forall j | 0 <= j < SlotCount(b) && j != i ::
      SlotLength(r, j) == SlotLength(b, j) && SlotOffset(r, j) == SlotOffset(b, j)
    ensures CompactSafe(r) <==> RegrowSafe(b, i, SlotLength(r, i))
  {
    SafeIs(r);
    hide WellFormed, CompactSafe, NewPlace, U16At;
    forall k | 0 <= k < SlotCount(b)
      ensures NewPlace(r, k) == NewPlace(b, k) - if k >= i then SlotLength(r, i) - SlotLength(b, i) else 0
      ensures k < i ==> SlotEnd(r, i) <= NewPlace(r, k)
    {
      PlacesAfter(b, r, i, k);
      PlaceBound(b, k);
    }
  }

  /** The exact condition, in terms of the page before the update. */
  lemma RegrownSafe(b: PageBytes, i: nat, data: seq<byte>)
    requires WellFormed(b) && i < SlotCount(b) && Live(b, i)
    requires SlotLength(b, i) < |data| <= FreeSpace(b)
    ensures WellFormed(Regrown(b, i, data))
    ensures CompactSafe(Regrown(b, i, data)) <==> RegrowSafe(b, i, |data|)
  {
    RegrownPage(b, i, data);
    RegrownSlots(b, i, data);
    assert forall j | 0 <= j < SlotCount(b) && j != i :: SameSlot(b, Regrown(b, i, data), j);
    hide Regrown, WellFormed, CompactSafe, U16At;
    GrownSafe(b, Regrown(b, i, data), i);
  }

  /** The last live record of a page can always grow. */
  lemma LastGrowsSafely(b: PageBytes, i: nat, size: nat)
    requires WellFormed(b) && i < SlotCount(b) && CompactSafe(b)
    requires forall j | i < j < SlotCount(b) :: !Live(b, j)
    ensures RegrowSafe(b, i, size)
  {
    SafeIs(b);
  }
}
