/**
 When an insertion loses records. It compacts pages on its way; that keeps every record, whatever the
 tuple bytes are, if and only if compaction is safe on each of the pages it reaches.
 */
module InsertionLoss {
  import opened Bytes
  import opened PageLayout
  import opened Compaction
  import opened PageManagement
  import opened RecordStore
  import opened PagedRecords

  /** The pages differ in tuple bytes at most. */
  ghost predicate SameDirectories(p: Paged, p': Paged)
    requires IsPaged(p)
  {
    && p'.ids == p.ids && p'.next == p.next && p'.pages.Keys == p.pages.Keys
    && forall id | id in p.pages :: WellFormed(p.pages[id]) && SameDirectory(p.pages[id], p'.pages[id])
  }

  /** Every record that there was reads the same after the insertion. */
  ghost predicate KeepsRecords(p: Paged, data: seq<byte>)
    requires IsPaged(p) && InRange(|data|) && p.next < MAX_PAGES
  {
    Labelled(PagedRecords.Insert(p, data).0.pages)
    && forall r | Issued(Meaning(p), r) :: Lookup(Meaning(PagedRecords.Insert(p, data).0), r) == Lookup(Meaning(p), r)
  }

  // ---- the directories alone decide what is compacted ----

  lemma SameRoom(b: PageBytes, c: PageBytes, size: nat)
    requires WellFormed(b) && WellFormed(c) && SameDirectory(b, c)
    ensures Roomy(ViewOf(b)) && Roomy(ViewOf(c))
    ensures Fits(ViewOf(c), size) <==> Fits(ViewOf(b), size)
    ensures Fits(WithCompacted(ViewOf(c)), size) <==> Fits(WithCompacted(ViewOf(b)), size)
    ensures CompactSafe(c) <==> CompactSafe(b)
  {
    ViewIsRoomy(b);
    ViewIsRoomy(c);
    SameDirectoryFields(b, c);
    LengthsOfSlots(b);
    LengthsOfSlots(c);
    assert forall p | 0 <= p < DirEnd(b) :: c[p] == c[..DirEnd(b)][p] && b[p] == b[..DirEnd(b)][p];
    assert FreeOffset(c) == FreeOffset(b);
  }

  lemma PagesAlike(p: Paged, p': Paged, i: nat, size: nat)
    requires IsPaged(p) && IsPaged(p') && SameDirectories(p, p') && Valid(Meaning(p)) && Valid(Meaning(p'))
    requires i < |p.ids|
    ensures var b, c := Meaning(p).pages[p.ids[i]], Meaning(p').pages[p.ids[i]];
      && (Fits(c, size) <==> Fits(b, size)) && (Fits(WithCompacted(c), size) <==> Fits(WithCompacted(b), size))
    ensures CompactSafe(p'.pages[p.ids[i]]) <==> CompactSafe(p.pages[p.ids[i]])
  {
    PageAt(p, i);
    PageAt(p', i);
    SameRoom(p.pages[p.ids[i]], p'.pages[p.ids[i]], size);
  }

  lemma CompactsAlike(p: Paged, p': Paged, size: nat)
    requires IsPaged(p) && IsPaged(p') && SameDirectories(p, p')
    ensures CompactedBy(p', size) == CompactedBy(p, size)
  {
    MeaningIsValid(p);
    MeaningIsValid(p');
    forall i | 0 <= i < |p.ids|
      ensures Fits(Meaning(p').pages[p.ids[i]], size) <==> Fits(Meaning(p).pages[p.ids[i]], size)
      ensures Fits(WithCompacted(Meaning(p').pages[p.ids[i]]), size)
        <==> Fits(WithCompacted(Meaning(p).pages[p.ids[i]]), size)
    {
      PagesAlike(p, p', i, size);
    }
    hide IsPaged, Valid, Fits, WithCompacted, Meaning, SameDirectory, WellFormed;
    assert FirstFit(Meaning(p'), size, 0) == FirstFit(Meaning(p), size, 0);
    assert FirstFitCompacted(Meaning(p'), size, 0) == FirstFitCompacted(Meaning(p), size, 0);
  }

  lemma LosslessAlike(p: Paged, p': Paged, data: seq<byte>)
    requires IsPaged(p) && IsPaged(p') && SameDirectories(p, p')
    ensures Lossless(p', data) <==> Lossless(p, data)
  {
    CompactsAlike(p, p', |data|);
    MeaningIsValid(p);
    MeaningIsValid(p');
    forall i | 0 <= i < |p.ids|
      ensures p.ids[i] in p.pages && WellFormed(p.pages[p.ids[i]])
      ensures p.ids[i] in p'.pages && WellFormed(p'.pages[p.ids[i]])
      ensures CompactSafe(p'.pages[p.ids[i]]) <==> CompactSafe(p.pages[p.ids[i]])
    {
      PageAt(p, i);
      PageAt(p', i);
      PagesAlike(p, p', i, |data|);
    }
  }

  // ---- a safe insertion keeps everything ----

  lemma LosslessKeeps(p: Paged, data: seq<byte>)
    requires IsPaged(p) && InRange(|data|) && p.next < MAX_PAGES && Lossless(p, data)
    ensures KeepsRecords(p, data)
  {
    InsertRefines(p, data);
    MeaningNext(p);
    InsertIsMapInsert(Meaning(p), data);
    hide PagedRecords.Insert, RecordStore.Insert, Lossless, Issued, Lookup, Meaning, Valid;
  }

  // ---- an unsafe one loses some record, for some tuple bytes ----

  /** The records of a page that was compacted are read from its compacted bytes, also if the new one joins them. */
  ghost predicate HasSlotsOf(b: PageBytes, c: PageBytes) {
    && WellFormed(b) && WellFormed(c) && SlotCount(c) <= SlotCount(b)
    && forall i | 0 <= i < SlotCount(c) :: Slots(b)[i] == Slots(c)[i]
  }

  lemma InsertedHasSlots(c: PageBytes, data: seq<byte>)
    requires WellFormed(c) && Fits(ViewOf(c), |data|)
    ensures DirectoryFits(c) && |data| + SLOT_SIZE <= FreeSpace(c) && HasSlotsOf(Inserted(c, data), c)
  {
    InsertedView(c, data);
    InsertedPage(c, data);
    assert |Slots(Inserted(c, data))| == SlotCount(Inserted(c, data));
    assert |Slots(c)| == SlotCount(c);
    hide Inserted, WellFormed, Slots, HeaderPageId, CompactSafe, ViewOf;
  }

  lemma CompactedAt(p: Paged, k: nat, i: nat)
    requires IsPaged(p) && i < k <= |p.ids|
    ensures var id := p.ids[i]; var c := CompactedTo(p, k).pages;
      && id in p.pages && WellFormed(p.pages[id]) && WellFormed(Compacted(p.pages[id]))
      && id in c && c[id] == Compacted(p.pages[id])
  {
    PageAt(p, i);
    CompactedShape(p.pages[p.ids[i]]);
    assert p.ids[..k][i] == p.ids[i];
    hide WellFormed, Compacted;
  }

  lemma HasOwnSlots(b: PageBytes)
    requires WellFormed(b)
    ensures HasSlotsOf(b, b)
  {
  }

  lemma PlacedHasSlots(c: Paged, id: int, data: seq<byte>, k: int)
    requires Labelled(c.pages) && id in c.pages && WellFormed(c.pages[id]) && Fits(ViewOf(c.pages[id]), |data|)
    requires k in c.pages && WellFormed(c.pages[k])
    ensures k in PlacedOn(c, id, data).0.pages && HasSlotsOf(PlacedOn(c, id, data).0.pages[k], c.pages[k])
  {
    hide Inserted, WellFormed, ViewOf, HasSlotsOf, Labelled;
    if k == id { InsertedHasSlots(c.pages[id], data); } else { HasOwnSlots(c.pages[k]); }
  }

  lemma CompactedInSecondPass(p: Paged, data: seq<byte>, j: nat, i: nat)
    requires IsPaged(p) && 0 < |data| <= 65531 && p.next < MAX_PAGES && Valid(Meaning(p))
    requires i <= j < |p.ids| && StopsAt(p, |data|, j)
    ensures var id, q := p.ids[i], PagedRecords.Insert(p, data).0;
      && id in p.pages && WellFormed(p.pages[id]) && WellFormed(Compacted(p.pages[id]))
      && id in q.pages && HasSlotsOf(q.pages[id], Compacted(p.pages[id]))
  {
    assert Labelled(p.pages);
    hide *;
    CompactedAt(p, j + 1, i);
    InsertIsSecondPass(p, data, j);
    PlacedHasSlots(CompactedTo(p, j + 1), p.ids[j], data, p.ids[i]);
  }

  lemma CompactedBeforeNewPage(p: Paged, data: seq<byte>, i: nat)
    requires IsPaged(p) && 0 < |data| <= 65531 && p.next < MAX_PAGES && Valid(Meaning(p)) && i < |p.ids|
    requires FirstFit(Meaning(p), |data|, 0) == FirstFitCompacted(Meaning(p), |data|, 0) == |p.ids|
    ensures var id, q := p.ids[i], PagedRecords.Insert(p, data).0;
      && id in p.pages && WellFormed(p.pages[id]) && WellFormed(Compacted(p.pages[id]))
      && id in q.pages && HasSlotsOf(q.pages[id], Compacted(p.pages[id]))
  {
    hide NewPageWith, Compacted, CompactedTo, WellFormed, Valid, ViewOf, PagedRecords.Insert, Fits, Slots, IsPaged;
    PageAt(p, i);
    CompactedAt(p, |p.ids|, i);
    NewPageInStore(p, data);
  }

  /** What became of the `i`th page of the table, one of those that the insertion compacted. */
  lemma CompactedOnTheWay(p: Paged, data: seq<byte>, i: nat)
    requires IsPaged(p) && InRange(|data|) && p.next < MAX_PAGES && i < CompactedBy(p, |data|)
    ensures var id, q := p.ids[i], PagedRecords.Insert(p, data).0;
      && id in p.pages && WellFormed(p.pages[id]) && WellFormed(Compacted(p.pages[id]))
      && id in q.pages && HasSlotsOf(q.pages[id], Compacted(p.pages[id]))
  {
    MeaningIsValid(p);
    var j := FirstFitCompacted(Meaning(p), |data|, 0);
    assert 0 < |data| <= 65531 && FirstFit(Meaning(p), |data|, 0) == |p.ids|;
    hide PagedRecords.Insert, IsPaged, Valid, Meaning, WellFormed, Compacted, HasSlotsOf;
    if j < |p.ids| { CompactedInSecondPass(p, data, j, i); } else { CompactedBeforeNewPage(p, data, i); }
  }

  /** `p` with other tuple bytes on one page. */
  lemma OtherBytes(p: Paged, id: int, c: PageBytes) returns (p': Paged)
    requires IsPaged(p) && id in p.pages && WellFormed(p.pages[id]) && WellFormed(c) && SameDirectory(p.pages[id], c)
    ensures p' == p.(pages := p.pages[id := c]) && IsPaged(p') && SameDirectories(p, p')
  {
    p' := p.(pages := p.pages[id := c]);
    PageIsWellFormed(p.pages, id);
    assert c[0..4] == c[..DirEnd(p.pages[id])][0..4] && p.pages[id][0..4] == p.pages[id][..DirEnd(p.pages[id])][0..4];
    assert HeaderPageId(c) == id;
    ReplacedIsPaged(p, id, c);
    forall k | k in p.pages ensures WellFormed(p.pages[k]) { PageIsWellFormed(p.pages, k); }
    hide WellFormed;
  }

  lemma SlotsDiffer(b: PageBytes, c: PageBytes) returns (i: u16)
    requires WellFormed(b) && WellFormed(c) && SlotCount(b) == SlotCount(c) && Slots(b) != Slots(c)
    ensures i < SlotCount(c) && Slots(b)[i] != Slots(c)[i]
  {
    hide WellFormed, Slots;
    assert |Slots(b)| == |Slots(c)|;
    var k :| 0 <= k < |Slots(c)| && Slots(b)[k] != Slots(c)[k];
    i := k;
  }

  lemma UnsafeOnTheWay(p: Paged, data: seq<byte>) returns (k: nat)
    requires IsPaged(p) && !Lossless(p, data)
    ensures k < CompactedBy(p, |data|) && p.ids[k] in p.pages
    ensures WellFormed(p.pages[p.ids[k]]) && !CompactSafe(p.pages[p.ids[k]])
  {
    k :| 0 <= k < CompactedBy(p, |data|)
      && !(p.ids[k] in p.pages && WellFormed(p.pages[p.ids[k]]) && CompactSafe(p.pages[p.ids[k]]));
    PageAt(p, k);
  }

  lemma UnsafeLoses(p: Paged, data: seq<byte>) returns (p': Paged)
    requires IsPaged(p) && InRange(|data|) && p.next < MAX_PAGES && !Lossless(p, data)
    ensures IsPaged(p') && SameDirectories(p, p') && !KeepsRecords(p', data)
  {
    hide Lossless, WellFormed, CompactSafe, Compacted, PagedRecords.Insert, Slots, IsPaged, SameDirectory, KeepsRecords;
    hide CompactedBy, HasSlotsOf;
    var k := UnsafeOnTheWay(p, data);
    var id := p.ids[k];
    var c := UnsafeLosesData(p.pages[id]);
    p' := OtherBytes(p, id, c);
    CompactsAlike(p, p', |data|);
    LosesOn(p', data, k);
  }

  /** A compacted page that does not read as before. */
  lemma LosesOn(p: Paged, data: seq<byte>, k: nat)
    requires IsPaged(p) && InRange(|data|) && p.next < MAX_PAGES && k < CompactedBy(p, |data|)
    requires p.ids[k] in p.pages && WellFormed(p.pages[p.ids[k]]) && WellFormed(Compacted(p.pages[p.ids[k]]))
    requires Slots(Compacted(p.pages[p.ids[k]])) != Slots(p.pages[p.ids[k]])
    ensures !KeepsRecords(p, data)
  {
    assert Labelled(p.pages);
    hide WellFormed, Compacted, PagedRecords.Insert, Slots, IsPaged, CompactedBy, HasSlotsOf, Issued, Lookup, Meaning;
    var id := p.ids[k];
    CompactedOnTheWay(p, data, k);
    CompactedShape(p.pages[id]);
    var i := SlotsDiffer(Compacted(p.pages[id]), p.pages[id]);
    if KeepsRecords(p, data) { ReadsDifferently(p, PagedRecords.Insert(p, data).0, id, i); }
  }

  lemma ReadsDifferently(p: Paged, q: Paged, id: int, i: u16)
    requires Labelled(p.pages) && Labelled(q.pages) && id in p.pages && id in q.pages
    requires WellFormed(p.pages[id]) && WellFormed(Compacted(p.pages[id]))
    requires i < SlotCount(p.pages[id]) == SlotCount(Compacted(p.pages[id]))
    requires HasSlotsOf(q.pages[id], Compacted(p.pages[id]))
    requires Slots(Compacted(p.pages[id]))[i] != Slots(p.pages[id])[i]
    ensures Issued(Meaning(p), RecordId(id, i))
    ensures Lookup(Meaning(q), RecordId(id, i)) != Lookup(Meaning(p), RecordId(id, i))
  {
    SlotOfRecord(p, RecordId(id, i));
    SlotOfRecord(q, RecordId(id, i));
    hide WellFormed, Compacted, Slots, Lookup, Issued;
  }

  /**
   The exact condition. With given directories an insertion keeps all records, whatever the tuple bytes
   are, if and only if each page it compacts on its way can be compacted safely.
   */
  lemma InsertionExact(p: Paged, data: seq<byte>)
    requires IsPaged(p) && InRange(|data|) && p.next < MAX_PAGES
    ensures Lossless(p, data) <==> forall p' | IsPaged(p') && SameDirectories(p, p') :: KeepsRecords(p', data)
  {
    if Lossless(p, data) {
      forall p' | IsPaged(p') && SameDirectories(p, p') ensures KeepsRecords(p', data) {
        LosslessAlike(p, p', data);
        LosslessKeeps(p', data);
      }
    } else {
      var p' := UnsafeLoses(p, data);
    }
  }
}
