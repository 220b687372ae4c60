/**
 The record store as its pages' bytes: what insertion, deletion and update do to them, whether or
 not compaction is safe, and when that is what `RecordStore` says of the records.
 */
module PagedRecords {
  import opened Bytes
  import opened PageLayout
  import opened Compaction
  import opened CompactionSafety
  import opened PageManagement
  import opened RecordStore

  /** Page `id` lives at byte `4096 * id` of its file, an offset computed in an `int`. */
  const MAX_PAGES := 0x8_0000

  /** `ids` are the pages of the table in order; `next` is the next page id to allocate. */
  datatype Paged = Paged(ids: seq<int>, pages: map<int, PageBytes>, next: int)

  ghost predicate Labelled(m: map<int, PageBytes>) {
    forall id | id in m :: WellFormed(m[id]) && HeaderPageId(m[id]) == id
  }

  /** Every page can be compacted without losing a record. */
  ghost predicate Safe(m: map<int, PageBytes>)
    requires Labelled(m)
  {
    forall id | id in m :: CompactSafe(m[id])
  }

  ghost predicate IsPaged(p: Paged) {
    && Labelled(p.pages) && p.next >= 0
    && (forall i, j | 0 <= i < j < |p.ids| :: p.ids[i] != p.ids[j])
    && (forall i | 0 <= i < |p.ids| :: p.ids[i] in p.pages)
    && (forall id | id in p.pages :: id in p.ids && 0 <= id < p.next)
  }

  ghost function StoreOf(ids: seq<int>, m: map<int, PageBytes>, next: int): Store
    requires Labelled(m)
  {
    Store(ids, map id | id in m :: ViewOf(m[id]), next)
  }

  /** The records that the bytes hold. */
  ghost function Meaning(p: Paged): Store
    requires Labelled(p.pages)
  {
    StoreOf(p.ids, p.pages, p.next)
  }

  lemma MeaningIsValid(p: Paged)
    requires IsPaged(p)
    ensures Valid(Meaning(p))
  {
    forall id | id in p.pages ensures Roomy(ViewOf(p.pages[id])) { ViewIsRoomy(p.pages[id]); }
    hide WellFormed, ViewOf, Roomy;
  }

  // ---- the operations on the bytes ----

  ghost function PlacedOn(p: Paged, id: int, data: seq<byte>): (Paged, RecordId)
    requires Labelled(p.pages) && id in p.pages && Fits(ViewOf(p.pages[id]), |data|)
  {
    (p.(pages := p.pages[id := Inserted(p.pages[id], data)]), RecordId(id, SlotCount(p.pages[id])))
  }

  /** The first `k` pages of the table compacted, losing whatever that loses. */
  ghost function CompactedTo(p: Paged, k: nat): Paged
    requires Labelled(p.pages) && k <= |p.ids|
  {
    p.(pages := map id | id in p.pages :: if id in p.ids[..k] then Compacted(p.pages[id]) else p.pages[id])
  }

  ghost function NewPageWith(id: i32, data: seq<byte>): PageBytes
    requires Fits(EMPTY_PAGE, |data|)
  {
    InitializedPage(ZeroPage(), id);
    Inserted(Initialized(ZeroPage(), id), data)
  }

  /**
   First fit, then compact and retry, then a new page. Which page is chosen depends on the slots'
   lengths only, so it is that of `RecordStore.Insert` even where compaction is not safe.
   */
  ghost function Insert(p: Paged, data: seq<byte>): (Paged, RecordId)
    requires IsPaged(p) && InRange(|data|) && p.next < MAX_PAGES
  {
    MeaningIsValid(p);
    if data == [] || |data| > 65535 then (p, INVALID_RECORD)
    else
      var i := FirstFit(Meaning(p), |data|, 0);
      if i < |p.ids| then
        PageAt(p, i);
        PlacedOn(p, p.ids[i], data)
      else
        var j := FirstFitCompacted(Meaning(p), |data|, 0);
        if j < |p.ids| then
          RoomOnceCompacted(p, j, |data|);
          PlacedOn(CompactedTo(p, j + 1), p.ids[j], data)
        else
          OnNewPage(CompactedTo(p, |p.ids|), data)
  }

  /** A page id is used up even if the record turns out too long for an empty page. */
  ghost function OnNewPage(p: Paged, data: seq<byte>): (Paged, RecordId)
    requires 0 <= p.next < MAX_PAGES
  {
    if Fits(EMPTY_PAGE, |data|) then
      (Paged(p.ids + [p.next], p.pages[p.next := NewPageWith(p.next, data)], p.next + 1), RecordId(p.next, 0))
    else
      (p.(next := p.next + 1), INVALID_RECORD)
  }

  ghost function Delete(p: Paged, r: RecordId): (Paged, bool)
    requires Labelled(p.pages)
  {
    if Issued(Meaning(p), r) then (p.(pages := p.pages[r.pageId := Deleted(p.pages[r.pageId], r.slotId)]), true)
    else (p, false)
  }

  /** A record no longer than before is overwritten in place, a longer one moves to fresh space. */
  ghost function Update(p: Paged, r: RecordId, data: seq<byte>): (Paged, bool)
    requires Labelled(p.pages)
  {
    if CanUpdate(Meaning(p), r, data) then
      (p.(pages := p.pages[r.pageId := Updated(p.pages[r.pageId], r.slotId, data)]), true)
    else (p, false)
  }

  ghost function Updated(b: PageBytes, i: nat, data: seq<byte>): PageBytes
    requires WellFormed(b) && i < SlotCount(b) && Live(b, i) && data != []
    requires |data| <= SlotLength(b, i) || |data| <= FreeSpace(b)
  {
    if |data| <= SlotLength(b, i) then Overwritten(b, i, data) else Regrown(b, i, data)
  }

  // ---- compaction, page by page ----

  /** Whether or not it loses bytes, compaction keeps every length and frees all the slack. */
  lemma CompactedLengths(b: PageBytes)
    requires WellFormed(b)
    ensures WellFormed(Compacted(b)) && HeaderPageId(Compacted(b)) == HeaderPageId(b) && CompactSafe(Compacted(b))
    ensures Roomy(ViewOf(b)) && SlotCount(Compacted(b)) == SlotCount(b)
    ensures ViewOf(Compacted(b)).free == Slack(ViewOf(b)) == WithCompacted(ViewOf(b)).free
    ensures forall k | 0 <= k < SlotCount(b) :: |Slots(Compacted(b))[k]| == |Slots(b)[k]|
    ensures CompactSafe(b) ==> ViewOf(Compacted(b)) == WithCompacted(ViewOf(b))
  {
    CompactedShape(b);
    CompactedSafe(b);
    ViewIsRoomy(b);
    if CompactSafe(b) { CompactedView(b); }
    hide Compacted, CompactSafe, Descending;
  }

  lemma PageAt(p: Paged, j: nat)
    requires IsPaged(p) && j < |p.ids|
    ensures p.ids[j] in p.pages && WellFormed(p.pages[p.ids[j]]) && HeaderPageId(p.pages[p.ids[j]]) == p.ids[j]
    ensures 0 <= p.ids[j] < p.next && Meaning(p).pages[p.ids[j]] == ViewOf(p.pages[p.ids[j]])
  {
    assert p.ids[j] in p.pages;
    LabelledPage(p.pages, p.ids[j]);
    hide WellFormed, ViewOf, HeaderPageId, Labelled;
  }

  lemma LabelledPage(m: map<int, PageBytes>, id: int)
    requires Labelled(m) && id in m
    ensures WellFormed(m[id]) && HeaderPageId(m[id]) == id
  {
  }

  /** Compacted, a page has the room that `RecordStore` says, whether or not bytes are lost. */
  lemma RoomOnceCompacted(p: Paged, i: nat, size: nat)
    requires IsPaged(p) && Valid(Meaning(p)) && i < |p.ids|
    ensures var id := p.ids[i];
      && Labelled(CompactedTo(p, i + 1).pages) && id in p.pages && WellFormed(p.pages[id])
      && id in CompactedTo(p, i + 1).pages && CompactedTo(p, i + 1).pages[id] == Compacted(p.pages[id])
      && WellFormed(Compacted(p.pages[id]))
      && (Fits(ViewOf(Compacted(p.pages[id])), size) <==> Fits(WithCompacted(Meaning(p).pages[id]), size))
  {
    PageAt(p, i);
    CompactedAreLabelled(p, i + 1);
    CompactedLengths(p.pages[p.ids[i]]);
    assert p.ids[i] in p.ids[..i + 1];
    hide WellFormed, ViewOf, HeaderPageId, Valid, Compacted, Slack;
  }

  /** None of the first `k` pages loses a record when it is compacted. */
  ghost predicate SafeUpTo(p: Paged, k: nat)
    requires IsPaged(p) && k <= |p.ids|
  {
    forall i | 0 <= i < k ::
      p.ids[i] in p.pages && WellFormed(p.pages[p.ids[i]]) && CompactSafe(p.pages[p.ids[i]])
  }

  lemma SafeIsSafeUpTo(p: Paged, k: nat)
    requires IsPaged(p) && k <= |p.ids| && Safe(p.pages)
    ensures SafeUpTo(p, k)
  {
    forall i | 0 <= i < k
      ensures p.ids[i] in p.pages && WellFormed(p.pages[p.ids[i]]) && CompactSafe(p.pages[p.ids[i]])
    {
      PageAt(p, i);
    }
  }

  lemma SafeAt(p: Paged, k: nat, id: int)
    requires IsPaged(p) && k <= |p.ids| && SafeUpTo(p, k) && id in p.ids[..k]
    ensures id in p.pages && WellFormed(p.pages[id]) && CompactSafe(p.pages[id])
  {
    hide CompactSafe;
    var i :| 0 <= i < k && p.ids[..k][i] == id;
    assert p.ids[i] == id;
  }

  /** The page of `id` when the first `k` pages are compacted. */
  lemma CompactedPage(p: Paged, k: nat, id: int)
    requires IsPaged(p) && k <= |p.ids| && id in p.pages
    ensures WellFormed(p.pages[id]) && Roomy(ViewOf(p.pages[id]))
    ensures var b := CompactedTo(p, k).pages[id];
      && WellFormed(b) && HeaderPageId(b) == id
      && (CompactSafe(p.pages[id]) ==> CompactSafe(b))
      && (CompactSafe(p.pages[id]) || id !in p.ids[..k] ==>
            ViewOf(b) == if id in p.ids[..k] then WithCompacted(ViewOf(p.pages[id])) else ViewOf(p.pages[id]))
  {
    CompactedLengths(p.pages[id]);
  }

  lemma OtherPages(p: Paged, c: map<int, PageBytes>)
    requires IsPaged(p) && c.Keys == p.pages.Keys && Labelled(c)
    ensures IsPaged(p.(pages := c))
  {
    hide Labelled;
  }

  lemma CompactedIsPaged(p: Paged, k: nat)
    requires IsPaged(p) && k <= |p.ids|
    ensures IsPaged(CompactedTo(p, k)) && CompactedTo(p, k).ids == p.ids && CompactedTo(p, k).next == p.next
  {
    CompactedAreLabelled(p, k);
    hide IsPaged, Labelled, CompactedTo;
    OtherPages(p, CompactedTo(p, k).pages);
  }

  lemma CompactedAreLabelled(p: Paged, k: nat)
    requires IsPaged(p) && k <= |p.ids|
    ensures var c := CompactedTo(p, k);
      Labelled(c.pages) && c.pages.Keys == p.pages.Keys && c == p.(pages := c.pages)
  {
    var c := CompactedTo(p, k).pages;
    hide WellFormed, HeaderPageId, IsPaged, Compacted;
    forall id | id in c ensures WellFormed(c[id]) && HeaderPageId(c[id]) == id { CompactedPage(p, k, id); }
  }

  lemma CompactedAreSafe(p: Paged, k: nat)
    requires IsPaged(p) && k <= |p.ids| && Safe(p.pages)
    ensures Labelled(CompactedTo(p, k).pages) && Safe(CompactedTo(p, k).pages)
  {
    CompactedAreLabelled(p, k);
    hide WellFormed, CompactSafe, IsPaged, CompactedTo, HeaderPageId, Labelled;
    var c := CompactedTo(p, k).pages;
    forall id | id in c ensures WellFormed(c[id]) && CompactSafe(c[id]) {
      PageIsWellFormed(p.pages, id);
      PageIsWellFormed(c, id);
      CompactedPage(p, k, id);
    }
  }

  lemma CompactedPageMeans(p: Paged, k: nat, id: int)
    requires IsPaged(p) && k <= |p.ids| && SafeUpTo(p, k) && id in p.pages && Labelled(CompactedTo(p, k).pages)
    requires id in CompactedTo(p, k).pages
    ensures WellFormed(p.pages[id]) && WellFormed(CompactedTo(p, k).pages[id]) && Roomy(ViewOf(p.pages[id]))
    ensures ViewOf(CompactedTo(p, k).pages[id]) ==
      if id in p.ids[..k] then WithCompacted(ViewOf(p.pages[id])) else ViewOf(p.pages[id])
  {
    if id in p.ids[..k] { SafeAt(p, k, id); }
    CompactedPage(p, k, id);
  }

  /** Compacting safe pages is what `RecordStore` says it is, whatever the pages after them are like. */
  lemma CompactedMeans(p: Paged, k: nat)
    requires IsPaged(p) && k <= |p.ids| && SafeUpTo(p, k)
    ensures Valid(Meaning(p)) && Labelled(p.pages) && Labelled(CompactedTo(p, k).pages)
    ensures Meaning(CompactedTo(p, k)) == CompactFirst(Meaning(p), k)
  {
    assert Labelled(p.pages);
    hide WellFormed, CompactSafe, ViewOf, IsPaged, Slack, CompactedTo, HeaderPageId, Labelled, SafeUpTo;
    hide Valid, Roomy, WithCompacted, Meaning, CompactFirst;
    MeaningIsValid(p);
    CompactedAreLabelled(p, k);
    var c := CompactedTo(p, k).pages;
    forall id | id in p.pages
      ensures WellFormed(p.pages[id]) && WellFormed(c[id]) && Roomy(ViewOf(p.pages[id]))
      ensures ViewOf(c[id]) == if id in p.ids[..k] then WithCompacted(ViewOf(p.pages[id])) else ViewOf(p.pages[id])
    {
      CompactedPageMeans(p, k, id);
    }
    ViewsCompacted(p, c, k);
  }

  lemma ViewsCompacted(p: Paged, c: map<int, PageBytes>, k: nat)
    requires Labelled(p.pages) && Labelled(c) && c.Keys == p.pages.Keys && k <= |p.ids| && Valid(Meaning(p))
    requires forall id | id in p.pages ::
      && WellFormed(p.pages[id]) && WellFormed(c[id]) && Roomy(ViewOf(p.pages[id]))
      && ViewOf(c[id]) == if id in p.ids[..k] then WithCompacted(ViewOf(p.pages[id])) else ViewOf(p.pages[id])
    ensures Meaning(p.(pages := c)) == CompactFirst(Meaning(p), k)
  {
    hide WellFormed, ViewOf, Slack, HeaderPageId, Valid, Roomy, WithCompacted;
    var s, t, q := Meaning(p), CompactFirst(Meaning(p), k), Meaning(p.(pages := c));
    assert q.pages.Keys == t.pages.Keys == s.pages.Keys == p.pages.Keys;
    forall id | id in p.pages
      ensures q.pages[id] == t.pages[id]
    {
      assert q.pages[id] == ViewOf(c[id]) && s.pages[id] == ViewOf(p.pages[id]);
    }
    assert q.pages == t.pages;
  }

  lemma PageIsWellFormed(m: map<int, PageBytes>, id: int)
    requires Labelled(m) && id in m
    ensures WellFormed(m[id]) && HeaderPageId(m[id]) == id
  {
  }

  // ---- what the bytes mean afterwards ----

  /** Another page image in place of one. */
  lemma PageReplaced(ids: seq<int>, m: map<int, PageBytes>, next: int, id: int, b: PageBytes)
    requires Labelled(m) && id in m && WellFormed(b) && HeaderPageId(b) == id
    ensures WellFormed(m[id]) && Labelled(m[id := b])
    ensures var s := StoreOf(ids, m, next);
      id in s.pages && s.pages[id] == ViewOf(m[id])
      && StoreOf(ids, m[id := b], next) == s.(pages := s.pages[id := ViewOf(b)])
    ensures Safe(m) ==> (Safe(m[id := b]) <==> CompactSafe(b))
  {
    hide ViewOf, HeaderPageId, CompactSafe;
    PageIsWellFormed(m, id);
    hide WellFormed;
    assert WellFormed(m[id := b][id]);
  }

  lemma ReplacedIsPaged(p: Paged, id: int, b: PageBytes)
    requires IsPaged(p) && id in p.pages && WellFormed(b) && HeaderPageId(b) == id
    ensures IsPaged(p.(pages := p.pages[id := b]))
  {
    PageReplaced(p.ids, p.pages, p.next, id, b);
    hide Labelled, WellFormed, HeaderPageId;
    OtherPages(p, p.pages[id := b]);
  }

  lemma InsertedView(b: PageBytes, data: seq<byte>)
    requires WellFormed(b) && Fits(ViewOf(b), |data|)
    ensures DirectoryFits(b) && |data| + SLOT_SIZE <= FreeSpace(b)
    ensures var c := Inserted(b, data);
      && WellFormed(c) && HeaderPageId(c) == HeaderPageId(b) && (CompactSafe(c) <==> CompactSafe(b))
      && ViewOf(c) == WithInserted(ViewOf(b), data)
  {
    InsertedPage(b, data);
    InsertedSafe(b, data);
    hide Inserted, CompactSafe, HeaderPageId, InTupleArea, PairwiseDisjoint, U16At;
  }

  /** One record more on one page, safe for compaction or not. */
  lemma RecordAdded(p: Paged, id: int, data: seq<byte>)
    requires IsPaged(p) && id in p.pages && WellFormed(p.pages[id]) && Fits(ViewOf(p.pages[id]), |data|)
    ensures var (q, r) := PlacedOn(p, id, data); var s := Meaning(p);
      && IsPaged(q) && Labelled(q.pages) && q.ids == p.ids && q.next == p.next
      && id in s.pages && Fits(s.pages[id], |data|) && |s.pages[id].slots| <= MAX_SLOTS
      && (Meaning(q), r) == PlaceAt(s, id, data)
      && (Safe(p.pages) ==> Safe(q.pages))
  {
    assert Labelled(p.pages);
    hide Inserted, WellFormed, CompactSafe, HeaderPageId, ViewOf, Labelled, IsPaged;
    InsertedView(p.pages[id], data);
    PageIsWellFormed(p.pages, id);
    SlotsOfView(p.pages[id]);
    var b := Inserted(p.pages[id], data);
    PageReplaced(p.ids, p.pages, p.next, id, b);
    ReplacedIsPaged(p, id, b);
  }

  lemma SlotsOfView(b: PageBytes)
    requires WellFormed(b)
    ensures |ViewOf(b).slots| == SlotCount(b) <= MAX_SLOTS
  {
  }

  lemma NewPageIs(id: i32, data: seq<byte>)
    requires Fits(EMPTY_PAGE, |data|)
    ensures var b := NewPageWith(id, data);
      && WellFormed(b) && HeaderPageId(b) == id && CompactSafe(b)
      && ViewOf(b) == WithInserted(EMPTY_PAGE, data)
  {
    var e := Initialized(ZeroPage(), id);
    InitializedPage(ZeroPage(), id);
    InsertedPage(e, data);
    DescendingIsSafe(Inserted(e, data));
    hide Initialized, Inserted, WellFormed, CompactSafe, HeaderPageId;
  }

  lemma OnNewPageRefines(p: Paged, data: seq<byte>)
    requires IsPaged(p) && p.next < MAX_PAGES
    ensures var (q, r) := OnNewPage(p, data);
      && IsPaged(q) && (Meaning(q), r) == PlaceOnNewPage(Meaning(p), data)
      && (Safe(p.pages) ==> Safe(q.pages))
  {
    hide WellFormed, HeaderPageId, CompactSafe, ViewOf, NewPageWith, Fits;
    if Fits(EMPTY_PAGE, |data|) {
      NewPageIs(p.next, data);
      var q, b := OnNewPage(p, data).0, NewPageWith(p.next, data);
      assert p.next !in p.pages;
      assert q.pages == p.pages[p.next := b];
      assert Meaning(q).pages == Meaning(p).pages[p.next := ViewOf(b)];
    }
  }

  // ---- insertion ----

  /** The same ids are issued, and each record has the length it had. */
  ghost predicate SameLengths(s: Store, t: Store) {
    forall q :: |Lookup(t, q)| == |Lookup(s, q)| && (Issued(t, q) <==> Issued(s, q))
  }

  lemma CompactedKeepsLengths(p: Paged, k: nat)
    requires IsPaged(p) && k <= |p.ids|
    ensures Labelled(CompactedTo(p, k).pages) && SameLengths(Meaning(p), Meaning(CompactedTo(p, k)))
  {
    CompactedAreLabelled(p, k);
    var c := CompactedTo(p, k).pages;
    forall id | id in p.pages
      ensures WellFormed(p.pages[id]) && SlotCount(c[id]) == SlotCount(p.pages[id])
      ensures forall i | 0 <= i < SlotCount(c[id]) :: |Slots(c[id])[i]| == |Slots(p.pages[id])[i]|
    {
      CompactedLengths(p.pages[id]);
    }
    hide WellFormed, Compacted, CompactedTo, IsPaged, HeaderPageId;
  }

  /** What an insertion does whether or not compaction is safe: nobody else gets longer, shorter, live or dead. */
  ghost predicate InsertsUnder(s: Store, t: Store, r: RecordId, data: seq<byte>) {
    && !Issued(s, r) && r.pageId >= 0 && Lookup(t, r) == data
    && forall q :: (q != r ==> |Lookup(t, q)| == |Lookup(s, q)|) && (Issued(t, q) <==> Issued(s, q) || q == r)
  }

  /** How many pages, from the first one on, the insertion of `size` bytes compacts. */
  ghost function CompactedBy(p: Paged, size: nat): (k: nat)
    requires IsPaged(p)
    ensures k <= |p.ids|
  {
    MeaningIsValid(p);
    if !(0 < size <= 65531) || FirstFit(Meaning(p), size, 0) < |p.ids| then 0
    else
      var j := FirstFitCompacted(Meaning(p), size, 0);
      if j < |p.ids| then j + 1 else j
  }

  /** Every page that the insertion compacts can be compacted without losing a record. */
  ghost predicate Lossless(p: Paged, data: seq<byte>)
    requires IsPaged(p)
  {
    SafeUpTo(p, CompactedBy(p, |data|))
  }

  lemma SafeIsLossless(p: Paged, data: seq<byte>)
    requires IsPaged(p) && Safe(p.pages)
    ensures Lossless(p, data)
  {
    SafeIsSafeUpTo(p, CompactedBy(p, |data|));
  }

  /** The id and the pages are those of `RecordStore.Insert`, and so are the records if nothing is lost. */
  ghost predicate InsertedAs(p: Paged, q: Paged, r: RecordId, data: seq<byte>)
    requires IsPaged(p) && InRange(|data|)
  {
    && IsPaged(q) && p.next <= q.next <= p.next + 1 && Valid(Meaning(p))
    && r == RecordStore.Insert(Meaning(p), data).1
    && q.ids == RecordStore.Insert(Meaning(p), data).0.ids && q.next == RecordStore.Insert(Meaning(p), data).0.next
    && (Safe(p.pages) ==> Safe(q.pages))
    && (Lossless(p, data) ==> Meaning(q) == RecordStore.Insert(Meaning(p), data).0)
    && (0 < |data| <= MAX_RECORD ==> InsertsUnder(Meaning(p), Meaning(q), r, data))
    && (data == [] || |data| > MAX_RECORD ==> r == INVALID_RECORD && SameLengths(Meaning(p), Meaning(q)))
  }

  lemma NowInserted(p: Paged, q: Paged, r: RecordId, data: seq<byte>)
    requires IsPaged(p) && IsPaged(q) && 0 < |data| <= 65531 && Valid(Meaning(p))
    requires var (t, r') := RecordStore.Insert(Meaning(p), data);
      && r == r' && q.ids == t.ids && q.next == t.next && p.next <= q.next <= p.next + 1
      && (Safe(p.pages) ==> Safe(q.pages)) && (Lossless(p, data) ==> Meaning(q) == t)
    requires |data| <= MAX_RECORD ==> InsertsUnder(Meaning(p), Meaning(q), r, data)
    requires |data| > MAX_RECORD ==> r == INVALID_RECORD && SameLengths(Meaning(p), Meaning(q))
    ensures InsertedAs(p, q, r, data)
  {
    hide IsPaged, Meaning, Safe, Lossless, InsertsUnder, SameLengths, RecordStore.Insert, Valid;
  }

  lemma MapInsertUnder(s: Store, c: Store, t: Store, r: RecordId, data: seq<byte>)
    requires SameLengths(s, c) && MapInsert(c, t, r, data)
    ensures InsertsUnder(s, t, r, data)
  {
    hide Issued, Lookup;
  }

  lemma NothingElse(s: Store)
    ensures SameLengths(s, s)
  {
  }

  lemma InsertFacts(p: Paged, data: seq<byte>)
    requires IsPaged(p) && InRange(|data|) && p.next < MAX_PAGES
    ensures InsertedAs(p, Insert(p, data).0, Insert(p, data).1, data)
  {
    MeaningIsValid(p);
    if 0 < |data| <= 65531 {
      var i, j := FirstFit(Meaning(p), |data|, 0), FirstFitCompacted(Meaning(p), |data|, 0);
      if i < |p.ids| {
        InsertInPlace(p, data, i);
      } else if j < |p.ids| {
        InsertInCompacted(p, data, j);
      } else {
        InsertBehind(p, data);
      }
    } else {
      NothingElse(Meaning(p));
      hide IsPaged, Meaning, Safe, Lossless, SameLengths, Valid;
    }
  }

  lemma InsertIsFirstFit(p: Paged, data: seq<byte>, i: nat)
    requires IsPaged(p) && Valid(Meaning(p)) && p.next < MAX_PAGES && 0 < |data| <= 65531
    requires i < |p.ids| && NoRoom(Meaning(p), i, |data|)
    requires p.ids[i] in p.pages && WellFormed(p.pages[p.ids[i]]) && Fits(ViewOf(p.pages[p.ids[i]]), |data|)
    ensures Insert(p, data) == PlacedOn(p, p.ids[i], data)
  {
    PageAt(p, i);
    hide WellFormed, ViewOf, Fits, PlacedOn, IsPaged, Valid;
    assert FirstFit(Meaning(p), |data|, 0) == i;
  }

  lemma InsertIsFirstFitCompacted(p: Paged, data: seq<byte>, i: nat)
    requires IsPaged(p) && Valid(Meaning(p)) && p.next < MAX_PAGES && 0 < |data| <= 65531
    requires i < |p.ids| && NoRoom(Meaning(p), |p.ids|, |data|) && NoRoomCompacted(Meaning(p), i, |data|)
    requires Fits(WithCompacted(Meaning(p).pages[p.ids[i]]), |data|)
    ensures var c, id := CompactedTo(p, i + 1), p.ids[i];
      && Labelled(c.pages) && id in c.pages && Fits(ViewOf(c.pages[id]), |data|)
      && Insert(p, data) == PlacedOn(c, id, data)
  {
    RoomOnceCompacted(p, i, |data|);
    PageAt(p, i);
    FirstFitsAre(Meaning(p), |data|, i);
    hide WellFormed, ViewOf, Fits, PlacedOn, IsPaged, Valid, CompactedTo, Compacted, WithCompacted, Labelled, Roomy;
    hide NoRoom, NoRoomCompacted, FirstFit, FirstFitCompacted;
  }

  lemma InsertIsOnNewPage(p: Paged, data: seq<byte>)
    requires IsPaged(p) && Valid(Meaning(p)) && p.next < MAX_PAGES && 0 < |data| <= 65531
    requires NoRoom(Meaning(p), |p.ids|, |data|) && NoRoomCompacted(Meaning(p), |p.ids|, |data|)
    ensures Insert(p, data) == OnNewPage(CompactedTo(p, |p.ids|), data)
  {
    assert Labelled(p.pages);
    hide Fits, PlacedOn, IsPaged, Valid, CompactedTo, OnNewPage;
    assert FirstFit(Meaning(p), |data|, 0) == |p.ids|;
    assert FirstFitCompacted(Meaning(p), |data|, 0) == |p.ids|;
  }

  lemma NoneCompacted(p: Paged)
    requires Labelled(p.pages)
    ensures CompactedTo(p, 0) == p
  {
    assert CompactedTo(p, 0).pages == p.pages;
  }

  lemma OneMoreCompacted(p: Paged, k: nat)
    requires IsPaged(p) && k < |p.ids|
    ensures var c, id := CompactedTo(p, k), p.ids[k];
      && Labelled(c.pages) && id in c.pages && id in p.pages && c.pages[id] == p.pages[id]
      && CompactedTo(p, k + 1) == c.(pages := c.pages[id := Compacted(c.pages[id])])
  {
    CompactedAreLabelled(p, k);
    PageAt(p, k);
    hide Labelled, WellFormed, Compacted;
    var c := CompactedTo(p, k);
    assert p.ids[..k + 1] == p.ids[..k] + [p.ids[k]];
    assert CompactedTo(p, k + 1).pages == c.pages[p.ids[k] := Compacted(c.pages[p.ids[k]])];
  }

  /** Unless it compacts an unsafe page, insertion does what `RecordStore` says. */
  lemma InsertRefines(p: Paged, data: seq<byte>)
    requires IsPaged(p) && InRange(|data|) && p.next < MAX_PAGES
    ensures var (q, r) := Insert(p, data);
      && IsPaged(q) && Valid(Meaning(p))
      && (Lossless(p, data) ==> (Meaning(q), r) == RecordStore.Insert(Meaning(p), data))
      && (Safe(p.pages) ==> Safe(q.pages) && (Meaning(q), r) == RecordStore.Insert(Meaning(p), data))
  {
    InsertFacts(p, data);
    if Safe(p.pages) { SafeIsLossless(p, data); }
    hide IsPaged, Safe, Lossless, Meaning, Insert, RecordStore.Insert, InsertsUnder, SameLengths, Valid;
  }

  lemma InsertInPlace(p: Paged, data: seq<byte>, i: nat)
    requires IsPaged(p) && 0 < |data| <= 65531 && p.next < MAX_PAGES && Valid(Meaning(p))
    requires i == FirstFit(Meaning(p), |data|, 0) < |p.ids|
    ensures InsertedAs(p, Insert(p, data).0, Insert(p, data).1, data)
  {
    PageAt(p, i);
    InsertInFirstPass(Meaning(p), data, i);
    assert Insert(p, data) == PlacedOn(p, p.ids[i], data);
    hide *;
    NothingElse(Meaning(p));
    OntoPage(p, p, p.ids[i], data);
    NowPlaced(p, p, p.ids[i], data);
  }

  /** The record goes to a page of `c`, which is `p` with some pages compacted. */
  lemma OntoPage(p: Paged, c: Paged, id: int, data: seq<byte>)
    requires IsPaged(c) && Labelled(c.pages) && id in c.pages
    requires WellFormed(c.pages[id]) && Fits(ViewOf(c.pages[id]), |data|)
    requires Labelled(p.pages) && SameLengths(Meaning(p), Meaning(c))
    ensures id in Meaning(c).pages && Fits(Meaning(c).pages[id], |data|) && |Meaning(c).pages[id].slots| <= MAX_SLOTS
    ensures var (q, r) := PlacedOn(c, id, data);
      && IsPaged(q) && q.ids == c.ids && q.next == c.next
      && (Meaning(q), r) == PlaceAt(Meaning(c), id, data)
      && InsertsUnder(Meaning(p), Meaning(q), r, data) && |data| <= MAX_RECORD
      && (Safe(c.pages) ==> Safe(q.pages))
  {
    hide *;
    MeaningIsValid(c);
    RecordAdded(c, id, data);
    RoomForRecord(c.pages[id], |data|);
    RecordStore.Placed(Meaning(c), id, data);
    MapInsertUnder(Meaning(p), Meaning(c), Meaning(PlacedOn(c, id, data).0), PlacedOn(c, id, data).1, data);
  }

  lemma RoomForRecord(b: PageBytes, size: nat)
    requires WellFormed(b) && Fits(ViewOf(b), size)
    ensures size <= MAX_RECORD
  {
    ViewIsRoomy(b);
    FitsBounds(ViewOf(b), size);
  }

  lemma NowPlaced(p: Paged, c: Paged, id: int, data: seq<byte>)
    requires IsPaged(p) && Labelled(p.pages) && Valid(Meaning(p)) && c.ids == p.ids && c.next == p.next
    requires 0 < |data| && InRange(|data|) && p.next < MAX_PAGES
    requires Labelled(c.pages) && id in c.pages && WellFormed(c.pages[id]) && Fits(ViewOf(c.pages[id]), |data|)
    requires id in Meaning(c).pages && Fits(Meaning(c).pages[id], |data|) && |Meaning(c).pages[id].slots| <= MAX_SLOTS
    requires |data| <= MAX_RECORD == 4084
    requires var (q, r) := PlacedOn(c, id, data); var (t, r') := RecordStore.Insert(Meaning(p), data);
      && IsPaged(q) && q.ids == t.ids && q.next == t.next == p.next && r == r'
      && InsertsUnder(Meaning(p), Meaning(q), r, data)
      && (Safe(p.pages) ==> Safe(q.pages)) && (Lossless(p, data) ==> Meaning(q) == t)
    ensures InsertedAs(p, PlacedOn(c, id, data).0, PlacedOn(c, id, data).1, data)
  {
    hide *;
    NowInserted(p, PlacedOn(c, id, data).0, PlacedOn(c, id, data).1, data);
  }

  /** The record goes to the `j`th page of the table, found in the second pass. */
  ghost predicate StopsAt(p: Paged, size: nat, j: nat)
    requires Labelled(p.pages) && Valid(Meaning(p))
  {
    FirstFit(Meaning(p), size, 0) == |p.ids| && FirstFitCompacted(Meaning(p), size, 0) == j
  }

  lemma SecondPassInStore(p: Paged, data: seq<byte>, j: nat)
    requires IsPaged(p) && 0 < |data| <= 65531 && Valid(Meaning(p))
    requires j < |p.ids| && StopsAt(p, |data|, j)
    ensures var (t, r), c, id := RecordStore.Insert(Meaning(p), data), CompactFirst(Meaning(p), j + 1), p.ids[j];
      && id in c.pages && Fits(c.pages[id], |data|) && |c.pages[id].slots| <= MAX_SLOTS
      && (t, r) == PlaceAt(c, id, data)
      && t.ids == p.ids && t.next == p.next
      && id in p.pages && WellFormed(p.pages[id]) && r == RecordId(id, SlotCount(p.pages[id]))
  {
    PageAt(p, j);
    SlotsOfView(p.pages[p.ids[j]]);
    InsertInSecondPass(Meaning(p), data, j);
    CompactOneMore(Meaning(p), j);
    hide IsPaged, WellFormed, ViewOf, Fits, Valid, RecordStore.Insert, FirstFit, FirstFitCompacted;
  }

  lemma PlacedIs(c: Paged, id: int, data: seq<byte>)
    requires Labelled(c.pages) && id in c.pages && Fits(ViewOf(c.pages[id]), |data|)
    ensures PlacedOn(c, id, data).1 == RecordId(id, SlotCount(c.pages[id]))
  {
  }

  lemma InsertIsSecondPass(p: Paged, data: seq<byte>, j: nat)
    requires IsPaged(p) && 0 < |data| <= 65531 && p.next < MAX_PAGES && Valid(Meaning(p))
    requires j < |p.ids| && StopsAt(p, |data|, j)
    ensures var c, id := CompactedTo(p, j + 1), p.ids[j];
      && Labelled(c.pages) && id in c.pages && WellFormed(c.pages[id]) && Fits(ViewOf(c.pages[id]), |data|)
      && id in p.pages && WellFormed(p.pages[id]) && c.pages[id] == Compacted(p.pages[id])
      && Insert(p, data) == PlacedOn(c, id, data) && Insert(p, data).1 == RecordId(id, SlotCount(p.pages[id]))
  {
    RoomOnceCompacted(p, j, |data|);
    InsertIsFirstFitCompacted(p, data, j);
    CompactedShape(p.pages[p.ids[j]]);
    PlacedIs(CompactedTo(p, j + 1), p.ids[j], data);
    hide WellFormed, ViewOf, Fits, PlacedOn, IsPaged, Valid, CompactedTo, Compacted, Insert;
  }

  lemma StopsAfter(p: Paged, size: nat, j: nat)
    requires IsPaged(p) && 0 < size <= 65531 && Labelled(p.pages) && Valid(Meaning(p))
    requires j < |p.ids| && StopsAt(p, size, j)
    ensures CompactedBy(p, size) == j + 1
  {
    hide IsPaged, Labelled, Valid, Meaning;
  }

  lemma SecondPassMeans(p: Paged, data: seq<byte>, j: nat)
    requires IsPaged(p) && 0 < |data| <= 65531 && p.next < MAX_PAGES && Labelled(p.pages) && Valid(Meaning(p))
    requires j < |p.ids| && StopsAt(p, |data|, j) && SafeUpTo(p, j + 1)
    ensures var q := Insert(p, data).0;
      Labelled(q.pages) && Meaning(q) == RecordStore.Insert(Meaning(p), data).0
  {
    hide *;
    InsertIsSecondPass(p, data, j);
    SecondPassInStore(p, data, j);
    CompactedIsPaged(p, j + 1);
    CompactedMeans(p, j + 1);
    RecordAdded(CompactedTo(p, j + 1), p.ids[j], data);
  }

  lemma InsertInCompacted(p: Paged, data: seq<byte>, j: nat)
    requires IsPaged(p) && 0 < |data| <= 65531 && p.next < MAX_PAGES && Valid(Meaning(p))
    requires j < |p.ids| && StopsAt(p, |data|, j)
    ensures InsertedAs(p, Insert(p, data).0, Insert(p, data).1, data)
  {
    assert Labelled(p.pages);
    assert Lossless(p, data) ==> SafeUpTo(p, CompactedBy(p, |data|));
    hide *;
    StopsAfter(p, |data|, j);
    if Lossless(p, data) { SecondPassMeans(p, data, j); }
    if Safe(p.pages) { CompactedAreSafe(p, j + 1); }
    InsertIsSecondPass(p, data, j);
    SecondPassInStore(p, data, j);
    var c, id := CompactedTo(p, j + 1), p.ids[j];
    CompactedIsPaged(p, j + 1);
    CompactedKeepsLengths(p, j + 1);
    OntoPage(p, c, id, data);
    NowPlaced(p, c, id, data);
  }

  lemma NewPageInStore(p: Paged, data: seq<byte>)
    requires IsPaged(p) && 0 < |data| <= 65531 && p.next < MAX_PAGES && Valid(Meaning(p))
    requires FirstFit(Meaning(p), |data|, 0) == FirstFitCompacted(Meaning(p), |data|, 0) == |p.ids|
    ensures var c := CompactedTo(p, |p.ids|); var (t, r) := RecordStore.Insert(Meaning(p), data);
      && Insert(p, data) == OnNewPage(c, data) && r == OnNewPage(c, data).1
      && (t, r) == PlaceOnNewPage(CompactFirst(Meaning(p), |p.ids|), data)
      && t.ids == OnNewPage(c, data).0.ids && t.next == OnNewPage(c, data).0.next == p.next + 1 && p.next >= 0
  {
    InsertInNewPage(Meaning(p), data);
    hide FirstFit, FirstFitCompacted, Fits, Valid, Labelled, NewPageWith, RecordStore.Insert;
  }

  lemma InsertBehind(p: Paged, data: seq<byte>)
    requires IsPaged(p) && 0 < |data| <= 65531 && p.next < MAX_PAGES && Valid(Meaning(p))
    requires FirstFit(Meaning(p), |data|, 0) == FirstFitCompacted(Meaning(p), |data|, 0) == |p.ids|
    ensures InsertedAs(p, Insert(p, data).0, Insert(p, data).1, data)
  {
    NewPageInStore(p, data);
    assert MAX_RECORD == 4084;
    assert Lossless(p, data) ==> SafeUpTo(p, |p.ids|);
    hide *;
    var c := CompactedTo(p, |p.ids|);
    CompactedIsPaged(p, |p.ids|);
    if Safe(p.pages) { CompactedAreSafe(p, |p.ids|); }
    if Lossless(p, data) { CompactedMeans(p, |p.ids|); }
    CompactedKeepsLengths(p, |p.ids|);
    OnNewPageRefines(c, data);
    MeaningIsValid(c);
    MeaningNext(c);
    PlacedOnNewPage(Meaning(c), data);
    var (q, r) := Insert(p, data);
    if |data| <= 4084 {
      MapInsertUnder(Meaning(p), Meaning(c), Meaning(q), r, data);
    } else {
      SameTwice(Meaning(p), Meaning(c), Meaning(q));
    }
    NowInserted(p, q, r, data);
  }

  lemma MeaningNext(p: Paged)
    requires IsPaged(p)
    ensures Meaning(p).next == p.next >= 0 && Meaning(p).ids == p.ids
  {
  }

  lemma SameTwice(s: Store, c: Store, t: Store)
    requires SameLengths(s, c) && MapSame(c, t)
    ensures SameLengths(s, t)
  {
    hide Issued, Lookup;
  }

  // ---- deletion and update ----

  lemma SlotOfRecord(p: Paged, r: RecordId)
    requires Labelled(p.pages)
    ensures Issued(Meaning(p), r) <==> r.pageId in p.pages && r.slotId < SlotCount(p.pages[r.pageId])
    ensures Issued(Meaning(p), r) ==>
      && WellFormed(p.pages[r.pageId]) && SlotCount(p.pages[r.pageId]) <= MAX_SLOTS
      && Lookup(Meaning(p), r) == Slots(p.pages[r.pageId])[r.slotId]
      && |Lookup(Meaning(p), r)| == SlotLength(p.pages[r.pageId], r.slotId)
    ensures !Issued(Meaning(p), r) ==> Lookup(Meaning(p), r) == []
  {
  }

  lemma DeleteRefines(p: Paged, r: RecordId)
    requires IsPaged(p)
    ensures var (q, ok) := Delete(p, r);
      && IsPaged(q) && (Meaning(q), ok) == RecordStore.Delete(Meaning(p), r)
      && (Safe(p.pages) ==> Safe(q.pages))
  {
    SlotOfRecord(p, r);
    if Issued(Meaning(p), r) {
      var b := p.pages[r.pageId];
      DeletedPage(b, r.slotId);
      if CompactSafe(b) { DeletedSafe(b, r.slotId); }
      assert ViewOf(Deleted(b, r.slotId)) == WithDeleted(ViewOf(b), r.slotId);
      hide Deleted, WellFormed, HeaderPageId, ViewOf, CompactSafe, IsPaged;
      PageReplaced(p.ids, p.pages, p.next, r.pageId, Deleted(b, r.slotId));
      ReplacedIsPaged(p, r.pageId, Deleted(b, r.slotId));
    }
  }

  /** The exact condition under which an update that succeeds leaves compaction safe. */
  ghost predicate UpdateSafe(p: Paged, r: RecordId, data: seq<byte>)
    requires Labelled(p.pages)
  {
    CanUpdate(Meaning(p), r, data) && |data| > |Lookup(Meaning(p), r)| ==>
      RegrowSafe(p.pages[r.pageId], r.slotId, |data|)
  }

  /** One slot holds other bytes, and the free space is `free`. */
  lemma SlotReplacedView(b: PageBytes, c: PageBytes, i: nat, data: seq<byte>, free: nat)
    requires WellFormed(b) && WellFormed(c) && i < SlotCount(b) && Slots(c) == Slots(b)[i := data]
    requires DirectoryFits(c) && FreeSpace(c) == free
    ensures |ViewOf(b).slots[i]| == SlotLength(b, i) && ViewOf(c) == SlottedPage(ViewOf(b).slots[i := data], free)
    ensures ViewOf(b).free == FreeSpace(b)
  {
    assert Live(b, i) ==> SlotEnd(b, i) <= PAGE_SIZE;
    hide InTupleArea, PairwiseDisjoint;
  }

  lemma OverwrittenView(b: PageBytes, i: nat, data: seq<byte>)
    requires WellFormed(b) && i < SlotCount(b) && 0 < |data| <= SlotLength(b, i)
    ensures var c := Overwritten(b, i, data);
      && WellFormed(c) && HeaderPageId(c) == HeaderPageId(b) && (CompactSafe(b) ==> CompactSafe(c))
      && |ViewOf(b).slots[i]| == SlotLength(b, i) && ViewOf(c) == WithUpdated(ViewOf(b), i, data)
  {
    assert Live(b, i) && SlotEnd(b, i) <= PAGE_SIZE;
    hide Overwritten, CompactSafe, HeaderPageId, InTupleArea, PairwiseDisjoint, ViewOf, Slots, U16At;
    OverwrittenPage(b, i, data);
    if CompactSafe(b) { OverwrittenSafe(b, i, data); }
    SlotReplacedView(b, Overwritten(b, i, data), i, data, FreeSpace(b));
  }

  lemma RegrownView(b: PageBytes, i: nat, data: seq<byte>)
    requires WellFormed(b) && i < SlotCount(b) && Live(b, i) && SlotLength(b, i) < |data| <= FreeSpace(b)
    ensures var c := Regrown(b, i, data);
      && WellFormed(c) && HeaderPageId(c) == HeaderPageId(b)
      && (CompactSafe(c) <==> RegrowSafe(b, i, |data|))
      && |ViewOf(b).slots[i]| == SlotLength(b, i) && ViewOf(c) == WithUpdated(ViewOf(b), i, data)
  {
    hide Regrown, CompactSafe, RegrowSafe, HeaderPageId, InTupleArea, PairwiseDisjoint, ViewOf, Slots, U16At;
    RegrownPage(b, i, data);
    RegrownSafe(b, i, data);
    SlotReplacedView(b, Regrown(b, i, data), i, data, FreeSpace(b) - |data|);
  }

  lemma UpdatedPage(b: PageBytes, i: nat, data: seq<byte>)
    requires WellFormed(b) && i < SlotCount(b) && Live(b, i) && data != []
    requires |data| <= SlotLength(b, i) || |data| <= FreeSpace(b)
    ensures var c := Updated(b, i, data);
      && WellFormed(c) && HeaderPageId(c) == HeaderPageId(b)
      && |ViewOf(b).slots[i]| == SlotLength(b, i) && ViewOf(c) == WithUpdated(ViewOf(b), i, data)
      && (CompactSafe(b) ==> (CompactSafe(c) <==> |data| <= SlotLength(b, i) || RegrowSafe(b, i, |data|)))
  {
    if |data| <= SlotLength(b, i) {
      OverwrittenView(b, i, data);
    } else {
      RegrownView(b, i, data);
    }
    hide Overwritten, Regrown, WellFormed, CompactSafe, HeaderPageId, RegrowSafe, ViewOf;
  }

  lemma UpdateRefines(p: Paged, r: RecordId, data: seq<byte>)
    requires IsPaged(p)
    ensures var (q, ok) := Update(p, r, data);
      && IsPaged(q) && (Meaning(q), ok) == RecordStore.Update(Meaning(p), r, data)
      && (Safe(p.pages) ==> (Safe(q.pages) <==> UpdateSafe(p, r, data)))
  {
    SlotOfRecord(p, r);
    if CanUpdate(Meaning(p), r, data) {
      var b := p.pages[r.pageId];
      var c := Updated(b, r.slotId, data);
      UpdatedPage(b, r.slotId, data);
      hide Updated, WellFormed, HeaderPageId, ViewOf, CompactSafe, IsPaged, RegrowSafe;
      PageReplaced(p.ids, p.pages, p.next, r.pageId, c);
      ReplacedIsPaged(p, r.pageId, c);
    }
  }
}
