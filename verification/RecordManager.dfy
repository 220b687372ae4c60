/** The record manager: pages through the buffer pool, refining `PagedRecords`. */
module RecordManagement {
  import opened Bytes
  import opened PageLayout
  import opened Compaction
  import opened Pages
  import opened PageManagement
  import opened BufferPool
  import opened PageSessions
  import opened BufferManagement
  import opened RecordStore
  import opened PagedRecords

  const DEFAULT_POOL_SIZE: nat := 10

  // ---- the store that a pool and a page list hold ----

  ghost predicate Holds(p: Pool, ids: seq<int>)
    requires Shaped(p)
  {
    && (forall i, j | 0 <= i < j < |ids| :: ids[i] != ids[j])
    && (forall i | 0 <= i < |ids| :: 0 <= ids[i] < p.nextPageId && Stored(p, ids[i]))
  }

  ghost function ImageOf(p: Pool, ids: seq<int>): map<int, PageBytes>
    requires Shaped(p) && Holds(p, ids)
  {
    map id | id in ids && Stored(p, id) :: ContentOf(p, id)
  }

  ghost function ImageBefore(p: Pool, ids: seq<int>): map<int, PageBytes> {
    if Shaped(p) && Holds(p, ids) then ImageOf(p, ids) else map[]
  }

  /** The disk has these pages as they are. */
  ghost predicate OnDisk(disk: map<int, PageBytes>, m: map<int, PageBytes>) {
    forall id | id in m :: id in disk && disk[id] == m[id]
  }

  lemma HeldIds(p: Pool, ids: seq<int>)
    requires Shaped(p) && Holds(p, ids)
    ensures forall id :: id in ImageOf(p, ids) <==> id in ids
    ensures forall id | id in ids :: 0 <= id < p.nextPageId && Stored(p, id)
    ensures forall i | 0 <= i < |ids| :: ids[i] in ImageOf(p, ids)
  {
    forall id | id in ids
      ensures 0 <= id < p.nextPageId && Stored(p, id)
    {
      var i :| 0 <= i < |ids| && ids[i] == id;
    }
  }

  lemma IdleFacts(p: Pool, ids: seq<int>)
    requires Idle(p) && Holds(p, ids)
    ensures forall id :: id in ImageOf(p, ids) <==> id in ids
    ensures forall i, j | 0 <= i < j < |ids| :: ids[i] != ids[j]
    ensures forall id | id in p.disk :: 0 <= id < p.nextPageId
  {
    HeldIds(p, ids);
    hide Inv;
  }

  lemma ReadBack(disk: map<int, PageBytes>, m: map<int, PageBytes>, ids: seq<int>)
    requires OnDisk(disk, m)
    requires forall id :: id in m <==> id in ids
    ensures forall i | 0 <= i < |ids| :: ids[i] in disk
    ensures (map id | id in disk && id in ids :: disk[id]) == m
  {
    var n := map id | id in disk && id in ids :: disk[id];
    forall id
      ensures id in n <==> id in m
    {
      assert id in m <==> id in ids;
    }
    assert n.Keys == m.Keys;
    assert forall id | id in m :: n[id] == m[id];
    assert n == m;
    forall i | 0 <= i < |ids|
      ensures ids[i] in disk
    {
      var id := ids[i];
      assert id in ids;
      assert id in m;
    }
  }

  lemma HeldIsPaged(p: Pool, ids: seq<int>)
    requires Shaped(p) && Holds(p, ids) && Labelled(ImageOf(p, ids)) && p.nextPageId >= 0
    ensures IsPaged(Paged(ids, ImageOf(p, ids), p.nextPageId))
  {
    HeldIds(p, ids);
    hide Shaped, Labelled, Stored, ImageOf;
  }

  /** After a session on page `id` that left `data` there, the image differs at `id` only. */
  lemma ImageAfter(p: Pool, q: Pool, ids: seq<int>, id: int, data: PageBytes)
    requires Shaped(p) && Shaped(q) && Holds(p, ids) && q.nextPageId == p.nextPageId && id in ids
    requires forall k :: Stored(q, k) <==> Stored(p, k)
    requires forall k | Stored(p, k) :: ContentOf(q, k) == if k == id then data else ContentOf(p, k)
    ensures Holds(q, ids) && ImageOf(q, ids) == ImageOf(p, ids)[id := data]
  {
    HeldIds(p, ids);
    hide Stored, ContentOf;
  }

  lemma LabelledAfter(m: map<int, PageBytes>, id: int, data: PageBytes)
    requires Labelled(m) && WellFormed(data) && HeaderPageId(data) == id
    ensures Labelled(m[id := data])
  {
    hide WellFormed, HeaderPageId;
  }

  lemma ImageAppended(p: Pool, q: Pool, ids: seq<int>, id: int, data: PageBytes)
    requires Shaped(p) && Shaped(q) && Holds(p, ids) && id == p.nextPageId && q.nextPageId == id + 1
    requires id >= 0
    requires forall k :: Stored(q, k) <==> Stored(p, k) || k == id
    requires forall k | Stored(p, k) && k != id :: ContentOf(q, k) == ContentOf(p, k)
    requires ContentOf(q, id) == data
    ensures Holds(q, ids + [id]) && ImageOf(q, ids + [id]) == ImageOf(p, ids)[id := data]
  {
    HeldIds(p, ids);
    hide Stored, ContentOf;
  }

  lemma ImageKept(p: Pool, q: Pool, ids: seq<int>)
    requires Shaped(p) && Shaped(q) && Holds(p, ids) && q.nextPageId >= p.nextPageId
    requires forall k :: Stored(q, k) <==> Stored(p, k)
    requires forall k | Stored(p, k) :: ContentOf(q, k) == ContentOf(p, k)
    ensures Holds(q, ids) && ImageOf(q, ids) == ImageOf(p, ids)
  {
    HeldIds(p, ids);
    hide Stored, ContentOf;
  }

  /** Page `id`, with `data`, has been brought into frame `f` of the idle pool `p`. */
  ghost predicate Opened(p: Pool, q: Pool, id: int, f: nat, data: PageBytes)
    requires Shaped(p)
  {
    && InSession(q, id, data) && q.table[id] == f
    && q.nextPageId == p.nextPageId
    && SameStore(p, q)
    && Stored(p, id) && Unchanged(q, id, data)
  }

  /** The table page `id` is open in frame `f`, with `data` now where `before` was fetched. */
  ghost predicate Open(p: Pool, q: Pool, ids: seq<int>, id: int, f: nat, before: PageBytes, data: PageBytes) {
    && Shaped(p) && Holds(p, ids) && id in ids && 0 <= p.nextPageId <= MAX_PAGES
    && Labelled(ImageOf(p, ids))
    && exists o: Pool :: Opened(p, o, id, f, before) && q == Write(o, id, data)
  }

  lemma SessionContents(p: Pool, o: Pool, q: Pool, u: Pool, id: int, f: nat,
                        before: PageBytes, data: PageBytes, dirty: bool)
    requires Shaped(p) && Opened(p, o, id, f, before) && q == Write(o, id, data) && (dirty || data == before)
    requires u == Unpin(q, id, dirty).0
    ensures Shaped(u)
    ensures forall k :: Stored(u, k) <==> Stored(p, k)
    ensures forall k | Stored(p, k) :: ContentOf(u, k) == if k == id then data else ContentOf(p, k)
  {
    SessionWrites(o, id, before, data);
    SessionEnds(q, id, data, dirty);
    hide InSession, Inv, Unpin, Write, Stored, ContentOf;
  }

  lemma SessionClosed(p: Pool, q: Pool, ids: seq<int>, id: int, f: nat, before: PageBytes, data: PageBytes, dirty: bool)
    requires Open(p, q, ids, id, f, before, data) && (dirty || data == before)
    requires WellFormed(data) && HeaderPageId(data) == id
    ensures Consistent(q)
    ensures var (u, ok) := Unpin(q, id, dirty);
      && ok && Idle(u) && Shaped(u) && 0 <= u.nextPageId == p.nextPageId <= MAX_PAGES
      && Holds(u, ids) && ImageOf(u, ids) == ImageOf(p, ids)[id := data]
      && Labelled(ImageOf(u, ids))
  {
    var o :| Opened(p, o, id, f, before) && q == Write(o, id, data);
    SessionWrites(o, id, before, data);
    SessionEnds(q, id, data, dirty);
    var u := Unpin(q, id, dirty).0;
    SessionContents(p, o, q, u, id, f, before, data, dirty);
    hide *;
    ImageAfter(p, u, ids, id, data);
    LabelledAfter(ImageOf(p, ids), id, data);
  }

  lemma NothingWritten(p: Pool, o: Pool, ids: seq<int>, id: int, f: nat, data: PageBytes)
    requires Shaped(p) && Holds(p, ids) && id in ids && 0 <= p.nextPageId <= MAX_PAGES
    requires Labelled(ImageOf(p, ids)) && Opened(p, o, id, f, data)
    ensures Open(p, o, ids, id, f, data, data)
  {
    assert Write(o, id, data) == o;
  }

  lemma SomethingWritten(p: Pool, q: Pool, ids: seq<int>, id: int, f: nat, before: PageBytes, data: PageBytes)
    requires Open(p, q, ids, id, f, before, before)
    ensures f < |q.frames|
    ensures Open(p, q.(frames := q.frames[f := q.frames[f].(data := data)]), ids, id, f, before, data)
  {
    var o :| Opened(p, o, id, f, before) && q == Write(o, id, before);
    assert o == q;
    assert q.(frames := q.frames[f := q.frames[f].(data := data)]) == Write(o, id, data);
  }

  // ---- page operations, seen from the page list ----

  /** Another page image in place of one, with its label. */
  lemma PutBack(p: Paged, id: int, b: PageBytes)
    requires Labelled(p.pages) && id in p.pages && WellFormed(b) && HeaderPageId(b) == id
    ensures Labelled(p.pages[id := b]) && (b == p.pages[id] ==> p.(pages := p.pages[id := b]) == p)
  {
    hide WellFormed, HeaderPageId;
    assert p.pages[id := p.pages[id]] == p.pages;
  }

  lemma DeletedOnPage(p: Paged, r: RecordId, b: PageBytes, ok: bool)
    requires Labelled(p.pages) && r.pageId in p.pages && (ok <==> r.slotId < SlotCount(p.pages[r.pageId]))
    requires WellFormed(b) && HeaderPageId(b) == r.pageId
    requires ok ==> SlotCount(p.pages[r.pageId]) <= MAX_SLOTS
    requires b == if ok then Deleted(p.pages[r.pageId], r.slotId) else p.pages[r.pageId]
    ensures (p.(pages := p.pages[r.pageId := b]), ok) == PagedRecords.Delete(p, r)
  {
    SlotOfRecord(p, r);
    PutBack(p, r.pageId, b);
    hide WellFormed, Deleted, HeaderPageId, Labelled, Issued;
  }

  ghost predicate RoomToUpdate(b: PageBytes, slotId: nat, data: seq<byte>)
    requires WellFormed(b)
  {
    && slotId < SlotCount(b) <= MAX_SLOTS && Live(b, slotId)
    && (|data| <= SlotLength(b, slotId) || |data| <= FreeSpace(b))
  }

  lemma UpdatedOnPage(p: Paged, r: RecordId, data: seq<byte>, b: PageBytes, ok: bool)
    requires Labelled(p.pages) && r.pageId in p.pages && WellFormed(p.pages[r.pageId]) && 0 < |data| <= 65535
    requires WellFormed(b) && HeaderPageId(b) == r.pageId
    requires ok <==> RoomToUpdate(p.pages[r.pageId], r.slotId, data)
    requires b == if ok then Updated(p.pages[r.pageId], r.slotId, data) else p.pages[r.pageId]
    ensures (p.(pages := p.pages[r.pageId := b]), ok) == PagedRecords.Update(p, r, data)
  {
    SlotOfRecord(p, r);
    PutBack(p, r.pageId, b);
    assert ViewOf(p.pages[r.pageId]).free == FreeSpace(p.pages[r.pageId]);
    hide WellFormed, Updated, HeaderPageId, Labelled, Issued, Lookup, FreeSpace, Slots;
  }

  /** The record went to page `id`, if and only if it fits there. */
  ghost predicate PlacedOrNot(p: Paged, q: Paged, id: int, data: seq<byte>, done: bool, r: RecordId) {
    && Labelled(p.pages) && id in p.pages && WellFormed(p.pages[id])
    && (done <==> Fits(ViewOf(p.pages[id]), |data|))
    && (if done then (q, r) == PlacedOn(p, id, data) else q == p)
  }

  lemma InsertedOnPage(p: Paged, id: int, data: seq<byte>, b: PageBytes, done: bool, r: RecordId)
    requires Labelled(p.pages) && id in p.pages && WellFormed(p.pages[id])
    requires WellFormed(b) && HeaderPageId(b) == id
    requires done <==> Fits(ViewOf(p.pages[id]), |data|)
    requires !done ==> b == p.pages[id]
    requires done ==> b == Inserted(p.pages[id], data) && r == RecordId(id, SlotCount(p.pages[id]))
    ensures Labelled(p.pages[id := b])
    ensures PlacedOrNot(p, p.(pages := p.pages[id := b]), id, data, done, r)
  {
    PutBack(p, id, b);
    hide WellFormed, ViewOf, HeaderPageId, Labelled, Inserted;
  }

  ghost function WithPageCompacted(p: Paged, id: int): Paged
    requires Labelled(p.pages) && id in p.pages
  {
    p.(pages := p.pages[id := Compacted(p.pages[id])])
  }

  lemma CompactedOnPage(p: Paged, id: int)
    requires Labelled(p.pages) && id in p.pages
    ensures WellFormed(p.pages[id]) && WellFormed(Compacted(p.pages[id])) && HeaderPageId(Compacted(p.pages[id])) == id
    ensures Labelled(p.pages[id := Compacted(p.pages[id])])
    ensures WithPageCompacted(p, id) == p.(pages := p.pages[id := Compacted(p.pages[id])])
  {
    CompactedLengths(p.pages[id]);
    PutBack(p, id, Compacted(p.pages[id]));
  }

  lemma NothingToDelete(p: Paged, r: RecordId)
    requires Labelled(p.pages) && !Issued(Meaning(p), r)
    ensures PagedRecords.Delete(p, r) == (p, false)
  {
  }

  lemma NothingToUpdate(p: Paged, r: RecordId, data: seq<byte>)
    requires Labelled(p.pages) && (Lookup(Meaning(p), r) == [] || data == [] || |data| > 65535)
    ensures PagedRecords.Update(p, r, data) == (p, false)
  {
  }

  /** What `Update` reads off a page, and what it decides by it. */
  lemma UpdateReads(b: PageBytes, slotId: nat, data: seq<byte>)
    requires WellFormed(b)
    ensures SlotCount(b) == U16At(b, 6) <= 1022 == MAX_SLOTS && DirectoryFits(b)
    ensures Wrap16(U16At(b, 4) + 1 - (HEADER_SIZE + U16At(b, 6) * SLOT_SIZE)) == FreeSpace(b)
    ensures slotId >= SlotCount(b) ==> !RoomToUpdate(b, slotId, data)
    ensures slotId < SlotCount(b) ==>
      && SlotPos(slotId) + 4 <= 4096 && SlotLength(b, slotId) == U16At(b, SlotPos(slotId) + 2)
      && (Live(b, slotId) <==> SlotLength(b, slotId) > 0) && (!Live(b, slotId) ==> !RoomToUpdate(b, slotId, data))
  {
    hide U16At, InTupleArea, PairwiseDisjoint;
  }

  /** When there is room, the update's writes stay inside the page and keep it well-formed. */
  lemma UpdateOnRoomyPage(b: PageBytes, slotId: nat, data: seq<byte>)
    requires WellFormed(b) && slotId < SlotCount(b) && Live(b, slotId) && 0 < |data| <= 65535
    ensures DirectoryFits(b) && SlotCount(b) <= MAX_SLOTS
    ensures RoomToUpdate(b, slotId, data) <==> |data| <= SlotLength(b, slotId) || |data| <= FreeSpace(b)
    ensures |data| <= SlotLength(b, slotId) ==>
      && SlotOffset(b, slotId) + |data| <= PAGE_SIZE && Updated(b, slotId, data) == Overwritten(b, slotId, data)
      && WellFormed(Overwritten(b, slotId, data))
      && HeaderPageId(Overwritten(b, slotId, data)) == HeaderPageId(b)
    ensures SlotLength(b, slotId) < |data| <= FreeSpace(b) ==>
      && Updated(b, slotId, data) == Regrown(b, slotId, data) && WellFormed(Regrown(b, slotId, data))
      && HeaderPageId(Regrown(b, slotId, data)) == HeaderPageId(b)
  {
    if |data| <= SlotLength(b, slotId) || |data| <= FreeSpace(b) { UpdatedPage(b, slotId, data); }
    hide Overwritten, Regrown, HeaderPageId;
  }

  /** The pool after a page was allocated in frame `f` and given the bytes `data`. */
  ghost predicate FilledNew(p: Pool, w: Pool, f: nat, data: PageBytes)
    requires Consistent(p)
  {
    var (q, g) := New(p);
    g == Some(f) && f < |q.frames| && w == q.(frames := q.frames[f := q.frames[f].(data := data)])
  }

  lemma NowFilledNew(p: Pool, q: Pool, w: Pool, f: nat, data: PageBytes)
    requires Consistent(p) && New(p) == (q, Some(f)) && f < |q.frames|
    requires w == q.(frames := q.frames[f := q.frames[f].(data := data)])
    ensures FilledNew(p, w, f, data)
  {
  }

  /** A page allocated, filled and unpinned: dirty, it joins the store; clean, it is forgotten. */
  lemma NewPageStored(p: Pool, w: Pool, ids: seq<int>, f: nat, data: PageBytes, dirty: bool)
    requires Idle(p) && Holds(p, ids) && 0 <= p.nextPageId < MAX_PAGES && Labelled(ImageOf(p, ids))
    requires WellFormed(data) && HeaderPageId(data) == p.nextPageId
    requires FilledNew(p, w, f, data)
    ensures Consistent(w)
    ensures var u := Unpin(w, p.nextPageId, dirty).0; var ids' := if dirty then ids + [p.nextPageId] else ids;
      && Idle(u) && u.nextPageId == p.nextPageId + 1 && Holds(u, ids')
      && ImageOf(u, ids') == (if dirty then ImageOf(p, ids)[p.nextPageId := data] else ImageOf(p, ids))
      && Labelled(ImageOf(u, ids'))
  {
    var q := New(p).0;
    var id := p.nextPageId;
    NewSessionStarts(p);
    assert w == Write(q, id, data);
    SessionWrites(q, id, ZeroPage(), data);
    SessionEnds(w, id, data, dirty);
    var u := Unpin(w, id, dirty).0;
    LabelledAfter(ImageOf(p, ids), id, data);
    NewPageContents(p, q, w, u, id, data, dirty);
    hide InSession, Inv, Unpin, Write, New, Stored, ContentOf, Labelled, Idle, WellFormed;
    if dirty {
      ImageAppended(p, u, ids, id, data);
    } else {
      ImageKept(p, u, ids);
    }
  }

  lemma NewPageContents(p: Pool, q: Pool, w: Pool, u: Pool, id: int, data: PageBytes, dirty: bool)
    requires Shaped(p) && Shaped(q) && Shaped(w) && Shaped(u)
    requires SameStore(p, q) && !Stored(q, id)
    requires forall k :: Stored(w, k) <==> Stored(q, k)
    requires forall k | Stored(q, k) :: ContentOf(w, k) == if k == id then data else ContentOf(q, k)
    requires forall k :: Stored(u, k) <==> Stored(w, k) || (dirty && k == id)
    requires forall k | Stored(w, k) :: ContentOf(u, k) == ContentOf(w, k)
    ensures forall k :: Stored(u, k) <==> Stored(p, k) || (dirty && k == id)
    ensures forall k | Stored(p, k) :: k != id && ContentOf(u, k) == ContentOf(p, k)
  {
    hide Stored, ContentOf;
  }

  /** The idle pool `u` holds the pages of `p` with the record inserted on a new one. */
  ghost predicate NewPageAdded(u: Pool, ids: seq<int>, p: Paged, data: seq<byte>, ok: bool, r: RecordId) {
    var ids' := if ok then ids + [r.pageId] else ids;
    && Idle(u) && 0 <= u.nextPageId <= MAX_PAGES && 0 <= p.next < MAX_PAGES
    && Holds(u, ids') && Labelled(ImageOf(u, ids'))
    && (Paged(ids', ImageOf(u, ids'), u.nextPageId), if ok then r else INVALID_RECORD) == OnNewPage(p, data)
  }

  lemma NewPageAdds(p: Pool, w: Pool, ids: seq<int>, f: nat, b: PageBytes, data: seq<byte>, ok: bool, r: RecordId)
    requires Idle(p) && Holds(p, ids) && 0 <= p.nextPageId < MAX_PAGES && Labelled(ImageOf(p, ids))
    requires WellFormed(b) && HeaderPageId(b) == p.nextPageId == r.pageId
    requires FilledNew(p, w, f, b)
    requires ok <==> Fits(EMPTY_PAGE, |data|)
    requires ok ==> b == NewPageWith(p.nextPageId, data) && r.slotId == 0
    ensures Consistent(w)
    ensures NewPageAdded(Unpin(w, r.pageId, ok).0, ids, Paged(ids, ImageOf(p, ids), p.nextPageId), data, ok, r)
  {
    assert MAX_PAGES == 0x8_0000;
    hide *;
    ConsistentAfterNew(p, w, f, b);
    if ok {
      NewPageStored(p, w, ids, f, b, true);
      Joined(Unpin(w, r.pageId, true).0, ids, ImageOf(p, ids), b, data, r);
    } else {
      NewPageStored(p, w, ids, f, b, false);
      Forgotten(Unpin(w, r.pageId, false).0, ids, ImageOf(p, ids), p.nextPageId, data, r);
    }
  }

  lemma NewPageIsAdded(u: Pool, ids: seq<int>, p: Paged, data: seq<byte>, ok: bool, r: RecordId)
    requires NewPageAdded(u, ids, p, data, ok, r)
    ensures Idle(u) && Shaped(u) && 0 <= u.nextPageId <= MAX_PAGES && 0 <= p.next < MAX_PAGES
    ensures var ids' := if ok then ids + [r.pageId] else ids;
      && Holds(u, ids') && Labelled(ImageOf(u, ids'))
      && (Paged(ids', ImageOf(u, ids'), u.nextPageId), if ok then r else INVALID_RECORD) == OnNewPage(p, data)
  {
  }

  lemma ConsistentAfterNew(p: Pool, w: Pool, f: nat, b: PageBytes)
    requires Idle(p) && 0 <= p.nextPageId && FilledNew(p, w, f, b)
    ensures Consistent(w) && Shaped(p) && Shaped(w)
  {
    NewSessionStarts(p);
    SessionWrites(New(p).0, p.nextPageId, ZeroPage(), b);
    hide Inv, New;
  }

  lemma Joined(u: Pool, ids: seq<int>, m: map<int, PageBytes>, b: PageBytes, data: seq<byte>, r: RecordId)
    requires Fits(EMPTY_PAGE, |data|) && 0 <= r.pageId < 0x8_0000 && b == NewPageWith(r.pageId, data) && r.slotId == 0
    requires Idle(u) && Shaped(u) && 0 <= u.nextPageId <= 0x8_0000 == MAX_PAGES && u.nextPageId == r.pageId + 1
    requires Holds(u, ids + [r.pageId]) && ImageOf(u, ids + [r.pageId]) == m[r.pageId := b]
    requires Labelled(m[r.pageId := b])
    ensures NewPageAdded(u, ids, Paged(ids, m, r.pageId), data, true, r)
  {
    hide Idle, Holds, ImageOf, Labelled, NewPageWith, Shaped, Fits;
  }

  lemma Forgotten(u: Pool, ids: seq<int>, m: map<int, PageBytes>, next: int, data: seq<byte>, r: RecordId)
    requires !Fits(EMPTY_PAGE, |data|) && 0 <= next < 0x8_0000
    requires Idle(u) && Shaped(u) && 0 <= u.nextPageId <= 0x8_0000 == MAX_PAGES && u.nextPageId == next + 1
    requires Holds(u, ids) && ImageOf(u, ids) == m && Labelled(m)
    ensures NewPageAdded(u, ids, Paged(ids, m, next), data, false, r)
  {
    hide Idle, Holds, ImageOf, Labelled, Shaped, Fits;
  }

  lemma TriedInsert(p: Paged, q: Paged, i: nat, data: seq<byte>, done: bool, r: RecordId)
    requires IsPaged(p) && p.next < MAX_PAGES && Valid(Meaning(p)) && i < |p.ids| && 0 < |data| <= 65531
    requires PlacedOrNot(p, q, p.ids[i], data, done, r)
    requires NoRoom(Meaning(p), i, |data|)
    ensures done ==> (q, r) == PagedRecords.Insert(p, data)
    ensures !done ==> q == p && NoRoom(Meaning(p), i + 1, |data|)
  {
    PageAt(p, i);
    if done { InsertIsFirstFit(p, data, i); }
    hide WellFormed, ViewOf, Fits, PlacedOn, PagedRecords.Insert, IsPaged, Valid;
  }

  /** In the second pass the first `i` pages are compacted; `c` are the pages before page `i` is. */
  lemma TriedCompacted(p: Paged, c: Paged, q: Paged, i: nat, data: seq<byte>, done: bool, r: RecordId)
    requires IsPaged(p) && p.next < MAX_PAGES && Valid(Meaning(p)) && i < |p.ids| && 0 < |data| <= 65531
    requires c == CompactedTo(p, i) && Labelled(c.pages) && p.ids[i] in c.pages
    requires PlacedOrNot(WithPageCompacted(c, p.ids[i]), q, p.ids[i], data, done, r)
    requires NoRoom(Meaning(p), |p.ids|, |data|) && NoRoomCompacted(Meaning(p), i, |data|)
    ensures done ==> (q, r) == PagedRecords.Insert(p, data)
    ensures !done ==> q == CompactedTo(p, i + 1) && NoRoomCompacted(Meaning(p), i + 1, |data|)
  {
    OneMoreCompacted(p, i);
    assert WithPageCompacted(c, p.ids[i]) == CompactedTo(p, i + 1);
    RoomOnceCompacted(p, i, |data|);
    if done { InsertIsFirstFitCompacted(p, data, i); }
    hide WellFormed, ViewOf, Fits, PlacedOn, PagedRecords.Insert, IsPaged, Valid, CompactedTo, Compacted, Slack;
  }

  /** The page that an allocation hands out is all zeros. */
  lemma NewIsZero(p: Pool)
    requires Idle(p)
    ensures var (q, g) := New(p);
      g.Some? ==> p.nextPageId in q.table && q.table[p.nextPageId] == g.value && g.value < |q.frames|
                  && q.frames[g.value].data == ZeroPage()
  {
  }

  lemma InitializedIs(b: PageBytes, pageId: i32, data: seq<byte>)
    requires b == Initialized(ZeroPage(), pageId)
    ensures WellFormed(b) && HeaderPageId(b) == pageId && ViewOf(b) == EMPTY_PAGE && SlotCount(b) == 0
    ensures Fits(EMPTY_PAGE, |data|) ==>
      DirectoryFits(b) && |data| + SLOT_SIZE <= FreeSpace(b) && Inserted(b, data) == NewPageWith(pageId, data)
  {
    InitializedPage(ZeroPage(), pageId);
    assert |Slots(b)| == SlotCount(b);
    hide Initialized, Inserted, HeaderPageId;
  }

  lemma FlushedStore(p: Pool, ids: seq<int>)
    requires Idle(p) && Holds(p, ids)
    ensures var u := FlushSet(p, p.table.Keys);
      && Idle(u) && u.nextPageId == p.nextPageId
      && Holds(u, ids) && ImageOf(u, ids) == ImageOf(p, ids)
      && forall id | id in ImageOf(u, ids) :: id in u.disk && u.disk[id] == ImageOf(u, ids)[id]
  {
    FlushSetKeeps(p, p.table.Keys);
    FlushSetFacts(p, p.table.Keys);
    var u := FlushSet(p, p.table.Keys);
    assert Idle(u) by { hide Inv, FlushSet; FlushedPins(p); }
    hide Inv, FlushSet, Idle;
    ImageKept(p, u, ids);
    HeldIds(u, ids);
  }

  lemma FlushedPins(p: Pool)
    requires Idle(p)
    ensures var u := FlushSet(p, p.table.Keys);
      && Unpinned(u) && |u.frames| == |p.frames| && u.table == p.table && u.nextPageId == p.nextPageId
      && (forall id | id in u.disk :: id in p.disk || id in p.table)
  {
    FlushSetFacts(p, p.table.Keys);
  }

  lemma FetchSucceeds(p: Pool, id: int, read: PageBytes)
    requires Idle(p)
    ensures Fetch(p, id, read).1.Some? && New(p).1.Some?
  {
    NeverNull(p, id, read);
  }

  /** Reading from pages that the disk has leaves them on the disk. */
  lemma FetchStaysOnDisk(p: Pool, ids: seq<int>, id: int, read: PageBytes)
    requires Idle(p) && Holds(p, ids)
    ensures OnDisk(p.disk, ImageOf(p, ids)) ==> OnDisk(Fetch(p, id, read).0.disk, ImageOf(p, ids))
  {
    FetchWritesContent(p, id, read);
    hide Fetch, Inv;
  }

  lemma UnpinWritesNothing(p: Pool, id: int, dirty: bool)
    requires Shaped(p)
    ensures Unpin(p, id, dirty).0.disk == p.disk
  {
  }

  lemma FetchOpens(p: Pool, ids: seq<int>, id: int, read: PageBytes)
    requires Idle(p) && Holds(p, ids) && 0 <= p.nextPageId <= MAX_PAGES && id in ids
    requires Labelled(ImageOf(p, ids))
    requires id !in p.table && id in p.disk ==> read == p.disk[id]
    ensures var (q, f) := Fetch(p, id, read);
      && f.Some? && q.nextPageId == p.nextPageId && id in q.table && f.value == q.table[id]
      && f.value < |q.frames| && id in ImageOf(p, ids)
      && q.frames[f.value].data == ImageOf(p, ids)[id]
      && WellFormed(ImageOf(p, ids)[id]) && HeaderPageId(ImageOf(p, ids)[id]) == id
      && Open(p, q, ids, id, f.value, ImageOf(p, ids)[id], ImageOf(p, ids)[id])
  {
    HeldIds(p, ids);
    SessionStarts(p, id, read);
    var (q, f) := Fetch(p, id, read);
    NothingWritten(p, q, ids, id, f.value, ImageOf(p, ids)[id]);
    hide Inv, SameStore, Unchanged, Fetch, Open, Holds, Idle;
  }

  lemma InvalidIsNoPage(p: Pool, ids: seq<int>)
    requires Shaped(p) && Holds(p, ids)
    ensures INVALID_PAGE_ID !in ids
  {
    HeldIds(p, ids);
  }

  /** The stores of a growing update, one after the other. */
  lemma RegrownStores(b: PageBytes, i: nat, data: seq<byte>)
    requires DirectoryFits(b) && i < MAX_SLOTS && 0 < |data| <= FreeSpace(b)
    ensures var off := U16At(b, 4) - |data| + 1;
      && Wrap16(off) == off && 1 <= off && Wrap16(off - 1) == off - 1 && off + |data| <= PAGE_SIZE && |data| <= 65535
      && SlotPos(i) + SLOT_SIZE <= PAGE_SIZE
      && Regrown(b, i, data) == PutU16(PutSlot(Splice(b, off, data), i, off, |data|), 4, off - 1)
  {
    hide PutU16, Splice, U16At;
  }

  method OverwriteTuple(page: Page, slotId: u16, data: seq<byte>)
    requires page.Sized() && slotId < MAX_SLOTS && |data| <= 65535
    requires SlotOffset(page.Content(), slotId) + |data| <= PAGE_SIZE
    modifies page.data
    ensures page.Content() == Overwritten(old(page.Content()), slotId, data)
  {
    hide Splice, PutU16, U16At;
    var offset := LoadU16(page.data, HEADER_SIZE + slotId * SLOT_SIZE);
    CopyInto(page.data, offset, data);
    StoreU16(page.data, HEADER_SIZE + slotId * SLOT_SIZE + 2, |data|);
  }

  method RegrowTuple(page: Page, slotId: u16, data: seq<byte>)
    requires page.Sized() && slotId < MAX_SLOTS
    requires DirectoryFits(page.Content()) && 0 < |data| <= FreeSpace(page.Content())
    modifies page.data
    ensures page.Content() == Regrown(old(page.Content()), slotId, data)
  {
    hide PutU16, PutSlot, Splice, U16At, Regrown, DirectoryFits, FreeSpace, Wrap16, SlotPos;
    RegrownStores(page.Content(), slotId, data);
    var free := LoadU16(page.data, 4);
    var newOffset := Wrap16(free - |data| + 1);
    CopyInto(page.data, newOffset, data);
    StoreSlot(page.data, slotId, newOffset, |data|);
    StoreU16(page.data, 4, Wrap16(newOffset - 1));
  }

  lemma SlotCountInStore(p: Paged, id: int)
    requires Labelled(p.pages) && id in p.pages
    ensures id in Meaning(p).pages && |Meaning(p).pages[id].slots| == SlotCount(p.pages[id])
  {
  }

  lemma NothingStored(p: Pool)
    requires Inv(p) && p.table == map[] && p.disk == map[]
    ensures Holds(p, []) && ImageOf(p, []) == map[]
  {
  }

  class RecordManager {
    const pool: BufferPoolManager
    const pageData: PageDataManager
    var pageIds: seq<int>
    ghost const Repr: set<object>

    ghost predicate Built() {
      pool.Built() && pageData !in pool.Repr && this !in pool.Repr && Repr == {this} + pool.Repr
    }

    ghost predicate Valid()
      reads this, Repr
    {
      && Built()
      && Idle(pool.View()) && 0 <= pool.nextPageId <= MAX_PAGES
      && Holds(pool.View(), pageIds)
      && Labelled(ImageOf(pool.View(), pageIds))
    }

    /** The bytes of this table's pages, wherever they are at the moment. */
    ghost function Image(): map<int, PageBytes>
      requires Valid()
      reads this, Repr
    {
      ImageOf(pool.View(), pageIds)
    }

    /** The pages of the table, as bytes. */
    ghost function AsPaged(): Paged
      requires Valid()
      reads this, Repr
    {
      Paged(pageIds, Image(), pool.nextPageId)
    }

    /** The store that the pages implement. */
    ghost function Abs(): Store
      requires Valid()
      reads this, Repr
    {
      StoreOf(pageIds, Image(), pool.nextPageId)
    }

    ghost predicate SafeToCompact()
      requires Valid()
      reads this, Repr
    {
      Safe(Image())
    }

    /** The disk has every page of the table as it is now. */
    ghost predicate Durable()
      requires Valid()
      reads this, Repr
    {
      OnDisk(pool.disk.pages, Image())
    }

    constructor (disk: DiskManager)
      ensures Built() && fresh(Repr - {disk}) && fresh(pool) && pool.disk == disk && disk.pages == old(disk.pages)
      ensures pageIds == [] && pool.nextPageId == 0 && |pool.pages| == 10 && Started()
      ensures disk.pages == map[] ==> Valid() && Abs() == EMPTY_STORE
    {
      var bufferPool := new BufferPoolManager(DEFAULT_POOL_SIZE, disk);
      pool := bufferPool;
      pageData := new PageDataManager();
      pageIds := [];
      Repr := {this} + bufferPool.Repr;
      new;
      hide Inv, Unpinned, BufferPoolManager.Built;
      StartedEmpty();
    }

    lemma StartedEmpty()
      requires Started() && pageIds == [] && pool.nextPageId == 0
      ensures pool.disk.pages == map[] ==> Valid() && Abs() == EMPTY_STORE
    {
      if pool.disk.pages == map[] {
        NothingStored(pool.View());
        hide Inv;
      }
    }

    /** The pool as it is before the first page is fetched. */
    ghost predicate Started()
      reads Repr
    {
      && Built() && pool.pages != [] && pool.pageTable == map[]
      && Inv(pool.View()) && Unpinned(pool.View())
    }

    // ---- one page at a time ----

    /** Page `pageId` was opened, when the pool was `p`, as `page` with the bytes `before`. */
    ghost predicate Holding(p: Pool, pageId: int, page: Page, f: nat, before: PageBytes)
      requires Built() && page.Sized()
      reads this, Repr, page.data
    {
      && f < |pool.pages| && page == pool.pages[f]
      && Open(p, pool.View(), pageIds, pageId, f, before, page.Content())
    }

    /** `FetchPage` of a page of the table: it never comes back null. */
    method OpenPage(pageId: int) returns (page: Page, ghost f: nat)
      requires Valid() && pageId in pageIds
      modifies pool.Repr
      ensures pageIds == old(pageIds) && Built() && page.Sized() && page.data in pool.Repr
      ensures pageId in old(Image()) && page.Content() == old(Image())[pageId]
      ensures ImageBefore(old(pool.View()), pageIds) == old(Image())
      ensures old(pool.View()).nextPageId == old(pool.nextPageId) == pool.nextPageId
      ensures WellFormed(page.Content()) && HeaderPageId(page.Content()) == pageId
      ensures Holding(old(pool.View()), pageId, page, f, page.Content())
      ensures old(Durable()) ==> OnDisk(pool.disk.pages, old(Image()))
    {
      hide *;
      PoolFacts(pageId);
      ghost var p := pool.View();
      var fetched := pool.FetchPage(pageId);
      FetchSucceeds(p, pageId, ZeroPage());
      FrameIs(pool.pageTable[pageId]);
      FetchStaysOnDisk(p, pageIds, pageId, fetched.Content());
      FetchOpens(p, pageIds, pageId, fetched.Content());
      page := fetched;
      f := pool.pageTable[pageId];
      pool.ViewFacts(f);
      NowHolding(p, pageId, page, f);
    }

    lemma NowHolding(p: Pool, pageId: int, page: Page, f: nat)
      requires Built() && page.Sized() && f < |pool.pages| && page == pool.pages[f]
      requires Open(p, pool.View(), pageIds, pageId, f, page.Content(), page.Content())
      ensures Holding(p, pageId, page, f, page.Content()) && page.data in pool.Repr
    {
    }

    lemma HoldingFacts(p: Pool, pageId: int, page: Page, f: nat, before: PageBytes)
      requires Built() && page.Sized() && Holding(p, pageId, page, f, before)
      ensures pool.Built() && f < |pool.pages| && page == pool.pages[f]
      ensures forall i | 0 <= i < |pool.pages| && i != f :: pool.pages[i].data != page.data && pool.pages[i].Sized()
      ensures Open(p, pool.View(), pageIds, pageId, f, before, page.Content())
      ensures SameButBytes(pool.View(), f)
      ensures forall i | 0 <= i < |pool.pages| && i != f :: FrameOf(pool.pages[i]) == pool.View().frames[i]
    {
    }

    /** The pool is as in `q`, leaving aside the bytes in frame `f` and the other frames. */
    ghost predicate SameButBytes(q: Pool, f: nat)
      requires pool.Built() && f < |pool.pages|
      reads pool, pool.disk, pool.pages[f]
    {
      && |q.frames| == |pool.pages|
      && q.frames[f].pageId == pool.pages[f].pageId && q.frames[f].pins == pool.pages[f].pinCount
      && q.frames[f].dirty == pool.pages[f].isDirty
      && q == Pool(q.frames, pool.pageTable, pool.freeList, pool.lruList, pool.lruPos, pool.nextHandle,
                   pool.nextPageId, pool.disk.pages)
    }

    lemma WroteBytes(q: Pool, page: Page, f: nat)
      requires pool.Built() && page.Sized() && f < |pool.pages| && page == pool.pages[f]
      requires SameButBytes(q, f)
      requires forall i | 0 <= i < |pool.pages| && i != f ::
        pool.pages[i].Sized() && FrameOf(pool.pages[i]) == q.frames[i]
      ensures f < |q.frames|
      ensures pool.View() == q.(frames := q.frames[f := q.frames[f].(data := page.Content())])
    {
      assert pool.Frames() == q.frames[f := FrameOf(page)];
    }

    /** The holder of the page wrote to its bytes, and to nothing else. */
    lemma StillHolding(p: Pool, q: Pool, pageId: int, page: Page, f: nat, before: PageBytes)
      requires Built() && pool.Built() && page.Sized() && f < |pool.pages| && page == pool.pages[f]
      requires Open(p, q, pageIds, pageId, f, before, before)
      requires SameButBytes(q, f)
      requires forall i | 0 <= i < |pool.pages| && i != f ::
        pool.pages[i].Sized() && FrameOf(pool.pages[i]) == q.frames[i]
      ensures Holding(p, pageId, page, f, before)
    {
      WroteBytes(q, page, f);
      hide Open;
      SomethingWritten(p, q, pageIds, pageId, f, before, page.Content());
    }

    lemma PoolFacts(pageId: int)
      requires Valid()
      ensures Built() && pool.Built() && this !in pool.Repr && Consistent(pool.View()) && Idle(pool.View())
      ensures Shaped(pool.View()) && Holds(pool.View(), pageIds) && Labelled(ImageOf(pool.View(), pageIds))
      ensures 0 <= pool.View().nextPageId == pool.nextPageId <= MAX_PAGES
      ensures pool.View().table == pool.pageTable && pool.View().disk == pool.disk.pages
      ensures Image() == ImageOf(pool.View(), pageIds) == ImageBefore(pool.View(), pageIds)
      ensures pageId in pageIds <==> pageId in Image()
      ensures Labelled(Image()) && Abs() == StoreOf(pageIds, Image(), pool.nextPageId) == Meaning(AsPaged())
      ensures AsPaged() == Paged(pageIds, Image(), pool.nextPageId) && IsPaged(AsPaged())
      ensures SafeToCompact() <==> Safe(Image())
      ensures Durable() <==> OnDisk(pool.disk.pages, Image())
    {
      HeldIds(pool.View(), pageIds);
      HeldIsPaged(pool.View(), pageIds);
      hide Labelled, IsPaged, Holds;
    }

    /** `UnpinPage` of the open page, whose bytes may have changed since. */
    method ClosePage(pageId: int, page: Page, dirty: bool, ghost p: Pool, ghost f: nat, ghost before: PageBytes)
      requires Built() && page.Sized() && Holding(p, pageId, page, f, before)
      requires dirty || page.Content() == before
      requires WellFormed(page.Content()) && HeaderPageId(page.Content()) == pageId
      modifies pool.Repr
      ensures pageIds == old(pageIds) && Valid() && pool.nextPageId == p.nextPageId
      ensures Image() == ImageBefore(p, pageIds)[pageId := old(page.Content())]
      ensures pool.disk.pages == old(pool.disk.pages)
    {
      UnpinWritesNothing(pool.View(), pageId, dirty);
      SessionClosed(p, pool.View(), pageIds, pageId, f, before, page.Content(), dirty);
      hide *;
      var ok := pool.UnpinPage(pageId, dirty);
    }

    // ---- reading ----

    /** What the id `r` means, read off its page. */
    lemma RecordOnPage(r: RecordId)
      requires Valid() && (r.pageId == INVALID_PAGE_ID || r.pageId in pageIds)
      ensures r.pageId == INVALID_PAGE_ID ==> Lookup(Abs(), r) == [] && !Issued(Abs(), r)
      ensures r.pageId != INVALID_PAGE_ID ==>
        && r.pageId in pageIds && r.pageId in Image() && WellFormed(Image()[r.pageId])
        && Image()[r.pageId := Image()[r.pageId]] == Image()
        && (Issued(Abs(), r) <==> r.slotId < SlotCount(Image()[r.pageId]))
        && (Issued(Abs(), r) ==> SlotCount(Image()[r.pageId]) <= MAX_SLOTS)
        && Lookup(Abs(), r) == (if Issued(Abs(), r) then Slots(Image()[r.pageId])[r.slotId] else [])
    {
      InvalidIsNoPage(pool.View(), pageIds);
      HeldIds(pool.View(), pageIds);
      if r.pageId in Image() { SlotOfRecord(AsPaged(), r); }
    }

    /** What `Get` reads off the page. */
    method ReadRecord(page: Page, slotId: u16) returns (ok: bool, data: seq<byte>)
      requires page.Sized() && WellFormed(page.Content())
      ensures ok <==> slotId < SlotCount(page.Content()) && Slots(page.Content())[slotId] != []
      ensures ok ==> data == Slots(page.Content())[slotId]
    {
      var count := LoadU16(page.data, 6);
      if slotId >= count {
        return false, [];
      }
      var length := LoadU16(page.data, HEADER_SIZE + slotId * SLOT_SIZE + 2);
      if length == 0 {
        return false, [];
      }
      ok, data := pageData.GetTuple(page, slotId);
    }

    method Get(r: RecordId) returns (ok: bool, data: seq<byte>)
      requires Valid() && (r.pageId == INVALID_PAGE_ID || r.pageId in pageIds)
      modifies pool.Repr
      ensures Valid() && pageIds == old(pageIds) && Image() == old(Image()) && Abs() == old(Abs())
      ensures old(Durable()) ==> Durable()
      ensures ok <==> Lookup(old(Abs()), r) != []
      ensures ok ==> data == Lookup(old(Abs()), r)
    {
      hide *;
      RecordOnPage(r);
      PoolFacts(r.pageId);
      if r.pageId == INVALID_PAGE_ID {
        return false, [];
      }
      ghost var p := pool.View();
      var page, f := OpenPage(r.pageId);
      ok, data := ReadRecord(page, r.slotId);
      ClosePage(r.pageId, page, false, p, f, page.Content());
      PoolFacts(r.pageId);
    }

    method ReadSlotCount(page: Page) returns (count: u16)
      requires page.Sized()
      ensures count == SlotCount(page.Content())
    {
      count := LoadU16(page.data, 6);
    }

    method GetSlotCount(pageId: int) returns (count: u16)
      requires Valid() && pageId in pageIds
      modifies pool.Repr
      ensures Valid() && pageIds == old(pageIds) && Image() == old(Image()) && Abs() == old(Abs())
      ensures old(Durable()) ==> Durable()
      ensures pageId in Abs().pages && count == |Abs().pages[pageId].slots|
    {
      hide *;
      PoolFacts(pageId);
      SlotCountInStore(AsPaged(), pageId);
      ghost var p, m := pool.View(), Image();
      assert m[pageId := m[pageId]] == m;
      var page, f := OpenPage(pageId);
      count := ReadSlotCount(page);
      ClosePage(pageId, page, false, p, f, page.Content());
      PoolFacts(pageId);
    }

    // ---- deleting ----

    method Delete(r: RecordId) returns (ok: bool)
      requires Valid() && (r.pageId == INVALID_PAGE_ID || r.pageId in pageIds)
      modifies pool.Repr
      ensures Valid() && pageIds == old(pageIds) && (AsPaged(), ok) == PagedRecords.Delete(old(AsPaged()), r)
      ensures (Abs(), ok) == RecordStore.Delete(old(Abs()), r)
      ensures old(SafeToCompact()) ==> SafeToCompact()
    {
      hide *;
      RecordOnPage(r);
      PoolFacts(r.pageId);
      DeleteRefines(AsPaged(), r);
      if r.pageId == INVALID_PAGE_ID {
        NothingToDelete(AsPaged(), r);
        return false;
      }
      ghost var p, pages := pool.View(), AsPaged();
      var page, f := OpenPage(r.pageId);
      ghost var before := page.Content();
      HoldingFacts(p, r.pageId, page, f, before);
      ghost var q := pool.View();
      ok := pageData.DeleteTuple(page, r.slotId);
      StillHolding(p, q, r.pageId, page, f, before);
      DeletedOnPage(pages, r, page.Content(), ok);
      ClosePage(r.pageId, page, ok, p, f, before);
      PoolFacts(r.pageId);
    }

    // ---- updating ----

    /** What `Update` does on the page of the record. */
    method UpdateOnPage(page: Page, slotId: u16, data: seq<byte>) returns (ok: bool)
      requires page.Sized() && WellFormed(page.Content()) && 0 < |data| <= 65535
      modifies page.data
      ensures WellFormed(page.Content()) && HeaderPageId(page.Content()) == old(HeaderPageId(page.Content()))
      ensures ok <==> old(RoomToUpdate(page.Content(), slotId, data))
      ensures page.Content() ==
        if ok then Updated(old(page.Content()), slotId, data) else old(page.Content())
    {
      ghost var b := page.Content();
      assert page.data.Length == 4096 && b == page.data[..];
      hide *;
      UpdateReads(b, slotId, data);
      var count := LoadU16(page.data, 6);
      if slotId >= count {
        return false;
      }
      var length := LoadU16(page.data, SlotPos(slotId) + 2);
      if length == 0 {
        return false;
      }
      UpdateOnRoomyPage(b, slotId, data);
      if |data| <= length {
        OverwriteTuple(page, slotId, data);
        return true;
      }
      var free := LoadU16(page.data, 4);
      var availableSpace := Wrap16(free + 1 - (HEADER_SIZE + count * SLOT_SIZE));
      if |data| > availableSpace {
        return false;
      }
      RegrowTuple(page, slotId, data);
      ok := true;
    }

    /** Of a record that grows, the bytes before the update decide whether compaction stays safe. */
    method Update(r: RecordId, data: seq<byte>) returns (ok: bool)
      requires Valid() && (r.pageId == INVALID_PAGE_ID || r.pageId in pageIds)
      modifies pool.Repr
      ensures Valid() && pageIds == old(pageIds) && (AsPaged(), ok) == PagedRecords.Update(old(AsPaged()), r, data)
      ensures (Abs(), ok) == RecordStore.Update(old(Abs()), r, data)
      ensures old(SafeToCompact()) ==> (SafeToCompact() <==> old(UpdateSafe(AsPaged(), r, data)))
    {
      hide *;
      RecordOnPage(r);
      PoolFacts(r.pageId);
      UpdateRefines(AsPaged(), r, data);
      if r.pageId == INVALID_PAGE_ID || data == [] || |data| > 65535 {
        NothingToUpdate(AsPaged(), r, data);
        return false;
      }
      ghost var p, pages := pool.View(), AsPaged();
      var page, f := OpenPage(r.pageId);
      ghost var before := page.Content();
      HoldingFacts(p, r.pageId, page, f, before);
      ghost var q := pool.View();
      ok := UpdateOnPage(page, r.slotId, data);
      StillHolding(p, q, r.pageId, page, f, before);
      UpdatedOnPage(pages, r, data, page.Content(), ok);
      ClosePage(r.pageId, page, ok, p, f, before);
      PoolFacts(r.pageId);
    }

    // ---- inserting ----

    /** The space check repeated outside the page manager. */
    method HasEnoughSpaceForInsert(page: Page, tupleSize: u16) returns (ok: bool)
      requires page.Sized() && WellFormed(page.Content())
      ensures ok <==> HasSpace16(page.Content(), tupleSize)
      ensures tupleSize <= 65531 ==> (ok <==> Fits(ViewOf(page.Content()), tupleSize))
    {
      var free := LoadU16(page.data, 4);
      var count := LoadU16(page.data, 6);
      var requiredSpace := Wrap16(tupleSize + SLOT_SIZE);
      var availableSpace := Wrap16(free + 1 - (HEADER_SIZE + count * SLOT_SIZE));
      SpaceCheckExact(page.Content(), tupleSize);
      ok := requiredSpace <= availableSpace;
    }

    /** One iteration of the first pass. */
    method TryInsert(pageId: int, data: seq<byte>) returns (done: bool, r: RecordId)
      requires Valid() && pageId in pageIds && 0 < |data| <= 65531
      modifies pool.Repr
      ensures Valid() && pageIds == old(pageIds)
      ensures PlacedOrNot(old(AsPaged()), AsPaged(), pageId, data, done, r)
    {
      hide *;
      PoolFacts(pageId);
      ghost var p, pages := pool.View(), AsPaged();
      var page, f := OpenPage(pageId);
      ghost var before := page.Content();
      HoldingFacts(p, pageId, page, f, before);
      ghost var q := pool.View();
      done := HasEnoughSpaceForInsert(page, |data|);
      r := INVALID_RECORD;
      if done {
        var slotId: u16;
        done, slotId := pageData.InsertTuple(page, data);
        r := RecordId(pageId, slotId);
      }
      StillHolding(p, q, pageId, page, f, before);
      InsertedOnPage(pages, pageId, data, page.Content(), done, r);
      ClosePage(pageId, page, done, p, f, before);
      PoolFacts(pageId);
    }

    /** One iteration of the second pass: the page stays compacted even if the record does not fit. */
    method CompactAndTryInsert(pageId: int, data: seq<byte>) returns (done: bool, r: RecordId)
      requires Valid() && pageId in pageIds && 0 < |data| <= 65531
      modifies pool.Repr
      ensures Valid() && pageIds == old(pageIds)
      ensures Labelled(old(AsPaged()).pages) && pageId in old(AsPaged()).pages
      ensures PlacedOrNot(WithPageCompacted(old(AsPaged()), pageId), AsPaged(), pageId, data, done, r)
    {
      hide *;
      PoolFacts(pageId);
      ghost var p, pages := pool.View(), AsPaged();
      var page, f := OpenPage(pageId);
      ghost var before := page.Content();
      HoldingFacts(p, pageId, page, f, before);
      ghost var q := pool.View();
      CompactedOnPage(pages, pageId);
      pageData.CompactOnePage(page);
      var enough := HasEnoughSpaceForInsert(page, |data|);
      done, r := false, INVALID_RECORD;
      if enough {
        var slotId: u16;
        done, slotId := pageData.InsertTuple(page, data);
        r := RecordId(pageId, slotId);
      }
      StillHolding(p, q, pageId, page, f, before);
      ghost var c := WithPageCompacted(pages, pageId);
      assert c.pages[pageId := page.Content()] == pages.pages[pageId := page.Content()];
      InsertedOnPage(c, pageId, data, page.Content(), done, r);
      ClosePage(pageId, page, if enough then done else true, p, f, before);
      PoolFacts(pageId);
    }

    lemma NowValid()
      requires Built() && Idle(pool.View()) && Holds(pool.View(), pageIds)
      requires 0 <= pool.View().nextPageId <= MAX_PAGES && Labelled(ImageOf(pool.View(), pageIds))
      ensures Valid() && Image() == ImageOf(pool.View(), pageIds)
      ensures Abs() == StoreOf(pageIds, Image(), pool.View().nextPageId)
      ensures AsPaged() == Paged(pageIds, Image(), pool.View().nextPageId)
    {
    }

    method InitializeWith(page: Page, pageId: i32, data: seq<byte>) returns (ok: bool, slotId: u16)
      requires page.Sized() && page.Content() == ZeroPage() && |data| <= 65531
      modifies page.data
      ensures WellFormed(page.Content()) && HeaderPageId(page.Content()) == pageId
      ensures ok <==> Fits(EMPTY_PAGE, |data|)
      ensures ok ==> page.Content() == NewPageWith(pageId, data) && slotId == 0
    {
      pageData.InitializePage(page, pageId);
      InitializedIs(page.Content(), pageId, data);
      hide *;
      ok, slotId := pageData.InsertTuple(page, data);
    }

    /** Initialize the page in frame `f` and insert the record. */
    method InitializeFrame(page: Page, ghost f: nat, pageId: i32, data: seq<byte>) returns (ok: bool, slotId: u16)
      requires pool.Built() && f < |pool.pages| && page == pool.pages[f] && |data| <= 65531
      requires page.Sized() && page.Content() == ZeroPage()
      modifies page.data
      ensures page.Sized()
      ensures var b := page.Content(); var q := old(pool.View());
        && WellFormed(b) && HeaderPageId(b) == pageId
        && (ok <==> Fits(EMPTY_PAGE, |data|))
        && (ok ==> b == NewPageWith(pageId, data) && slotId == 0)
        && f < |q.frames| && pool.View() == q.(frames := q.frames[f := q.frames[f].(data := b)])
    {
      hide *;
      ghost var q := pool.View();
      FrameIs(f);
      ok, slotId := InitializeWith(page, pageId, data);
      WroteBytes(q, page, f);
    }

    lemma FrameIs(f: nat)
      requires pool.Built() && f < |pool.pages|
      ensures pool.pages[f].data in pool.Repr && pool.pages[f].Sized()
      ensures forall i | 0 <= i < |pool.pages| && i != f ::
        && pool.pages[i].data != pool.pages[f].data
        && pool.pages[i].Sized() && FrameOf(pool.pages[i]) == pool.View().frames[i]
      ensures SameButBytes(pool.View(), f)
    {
    }

    /** Allocate a page, initialize it and insert the record. */
    method PrepareNewPage(data: seq<byte>)
      returns (ok: bool, newPageId: int, slotId: u16, ghost f: nat, ghost b: PageBytes)
      requires Valid() && 0 < |data| <= 65531 && pool.nextPageId < MAX_PAGES
      modifies pool.Repr
      ensures Built() && pool.Built() && pageIds == old(pageIds) && 0 <= newPageId == old(pool.nextPageId) < 0x8_0000
      ensures FilledNew(old(pool.View()), pool.View(), f, b)
      ensures WellFormed(b) && HeaderPageId(b) == newPageId
      ensures ok <==> Fits(EMPTY_PAGE, |data|)
      ensures ok ==> b == NewPageWith(newPageId, data) && slotId == 0
    {
      hide *;
      PoolFacts(0);
      ghost var p := pool.View();
      var page;
      page, newPageId, f := AllocatePage();
      ghost var q := pool.View();
      ok, slotId := InitializeFrame(page, f, newPageId, data);
      b := page.Content();
      NowFilledNew(p, q, pool.View(), f, b);
    }

    /** `NewPage`: with nothing pinned, it never comes back null. */
    method AllocatePage() returns (page: Page, newPageId: i32, ghost f: nat)
      requires Valid() && pool.nextPageId < MAX_PAGES
      modifies pool.Repr
      ensures Built() && pool.Built() && pageIds == old(pageIds)
      ensures 0 <= newPageId == old(pool.nextPageId) < 0x8_0000
      ensures f < |pool.pages| && page == pool.pages[f] && page.data in pool.Repr
      ensures page.Sized() && page.Content() == ZeroPage()
      ensures New(old(pool.View())) == (pool.View(), Some(f))
    {
      assert 0 <= pool.nextPageId < 0x8_0000;
      hide *;
      PoolFacts(0);
      FetchSucceeds(pool.View(), 0, ZeroPage());
      NewIsZero(pool.View());
      var made, id := pool.NewPage();
      page, newPageId := made, id;
      f := pool.pageTable[id];
      FrameIs(f);
    }

    /** And unpin it. */
    method FillNewPage(data: seq<byte>) returns (ok: bool, newPageId: int, slotId: u16)
      requires Valid() && 0 < |data| <= 65531 && pool.nextPageId < MAX_PAGES
      modifies pool.Repr
      ensures Built() && pageIds == old(pageIds)
      ensures NewPageAdded(pool.View(), pageIds, old(AsPaged()), data, ok, RecordId(newPageId, slotId))
    {
      assert 0 <= pool.nextPageId < MAX_PAGES;
      hide *;
      PoolFacts(0);
      ghost var p := pool.View();
      ghost var f, b;
      ok, newPageId, slotId, f, b := PrepareNewPage(data);
      NewPageAdds(p, pool.View(), pageIds, f, b, data, ok, RecordId(newPageId, slotId));
      var _ := pool.UnpinPage(newPageId, ok);
    }

    /** When no page of the table has room. The new page's id is used up even if it fails. */
    method InsertOnNewPage(data: seq<byte>) returns (r: RecordId)
      requires Valid() && 0 < |data| <= 65531 && pool.nextPageId < MAX_PAGES
      modifies this`pageIds, pool.Repr
      ensures 0 <= old(AsPaged()).next < MAX_PAGES
      ensures Valid() && (AsPaged(), r) == OnNewPage(old(AsPaged()), data)
    {
      hide *;
      PoolFacts(0);
      r := INVALID_RECORD;
      ghost var p, ids := AsPaged(), pageIds;
      var ok, newPageId, slotId := FillNewPage(data);
      NewPageIsAdded(pool.View(), ids, p, data, ok, RecordId(newPageId, slotId));
      if ok {
        pageIds := pageIds + [newPageId];
        r := RecordId(newPageId, slotId);
      }
      NowValid();
    }

    lemma EmptyIsSafe()
      requires Valid() && Abs() == EMPTY_STORE
      ensures SafeToCompact()
    {
      PoolFacts(0);
      assert Image().Keys == Abs().pages.Keys;
      hide Valid, Labelled, CompactSafe;
    }

    lemma AbsFacts()
      requires Valid()
      ensures IsPaged(AsPaged()) && Labelled(AsPaged().pages) && RecordStore.Valid(Abs()) && Abs() == Meaning(AsPaged())
      ensures AsPaged().ids == pageIds == Abs().ids && AsPaged().next == Abs().next == pool.nextPageId
      ensures SafeToCompact() <==> Safe(AsPaged().pages)
      ensures Built() && 0 <= pool.nextPageId <= MAX_PAGES
    {
      PoolFacts(0);
      MeaningIsValid(AsPaged());
      hide Holds, Idle, Labelled, IsPaged, RecordStore.Valid;
    }

    /**
     Both passes and the new page. Sizes from 65532 to 65535 are out of the space check's range
     (see `SpaceCheckExact`); a page file cannot grow past `MAX_PAGES`.
     */
    method Insert(data: seq<byte>) returns (r: RecordId)
      requires Valid() && InRange(|data|) && pool.nextPageId < MAX_PAGES
      modifies this`pageIds, pool.Repr
      ensures Valid() && IsPaged(old(AsPaged())) && old(AsPaged()).next < MAX_PAGES
      ensures (AsPaged(), r) == PagedRecords.Insert(old(AsPaged()), data)
      ensures RecordStore.Valid(old(Abs()))
      ensures Lossless(old(AsPaged()), data) ==> (Abs(), r) == RecordStore.Insert(old(Abs()), data)
      ensures old(SafeToCompact()) ==> SafeToCompact() && (Abs(), r) == RecordStore.Insert(old(Abs()), data)
    {
      AbsFacts();
      InsertRefines(AsPaged(), data);
      hide Valid, SafeToCompact, Abs, AsPaged;
      r := InsertPaged(data);
      AbsFacts();
    }

    method InsertPaged(data: seq<byte>) returns (r: RecordId)
      requires Valid() && InRange(|data|) && pool.nextPageId < MAX_PAGES
      modifies this`pageIds, pool.Repr
      ensures Valid() && IsPaged(old(AsPaged())) && old(AsPaged()).next < MAX_PAGES
      ensures (AsPaged(), r) == PagedRecords.Insert(old(AsPaged()), data)
    {
      ghost var p := AsPaged();
      AbsFacts();
      r := INVALID_RECORD;
      if data == [] || |data| > 65535 {
        return;
      }
      var done := false;
      done, r := FirstPass(data);
      if done {
        return;
      }
      done, r := SecondPass(data);
      if done {
        return;
      }
      InsertIsOnNewPage(p, data);
      hide PagedRecords.Insert, OnNewPage, CompactedTo, Valid, AsPaged;
      r := InsertOnNewPage(data);
    }

    method FirstPass(data: seq<byte>) returns (done: bool, r: RecordId)
      requires Valid() && 0 < |data| <= 65531 && pool.nextPageId < MAX_PAGES
      modifies pool.Repr
      ensures Valid() && pageIds == old(pageIds) && pool.nextPageId == old(pool.nextPageId)
      ensures var p := old(AsPaged());
        && IsPaged(p) && p.next < MAX_PAGES && RecordStore.Valid(Meaning(p))
        && (done ==> (AsPaged(), r) == PagedRecords.Insert(p, data))
        && (!done ==> AsPaged() == p && NoRoom(Meaning(p), |p.ids|, |data|))
    {
      AbsFacts();
      ghost var p := AsPaged();
      assert NoRoom(Meaning(p), 0, |data|);
      hide *;
      r := INVALID_RECORD;
      done := false;
      for i := 0 to |pageIds|
        invariant Valid() && pageIds == old(pageIds) == p.ids && AsPaged() == p && Built()
        invariant NoRoom(Meaning(p), i, |data|)
      {
        done, r := TryInsert(pageIds[i], data);
        TriedInsert(p, AsPaged(), i, data, done, r);
        if done {
          return;
        }
        AbsFacts();
      }
      done := false;
    }

    method SecondPass(data: seq<byte>) returns (done: bool, r: RecordId)
      requires Valid() && 0 < |data| <= 65531 && pool.nextPageId < MAX_PAGES
      requires IsPaged(AsPaged()) && RecordStore.Valid(Meaning(AsPaged()))
      requires NoRoom(Meaning(AsPaged()), |AsPaged().ids|, |data|)
      modifies pool.Repr
      ensures Valid() && pageIds == old(pageIds)
      ensures var p := old(AsPaged());
        && p.next < MAX_PAGES
        && (done ==> (AsPaged(), r) == PagedRecords.Insert(p, data))
        && (!done ==> AsPaged() == CompactedTo(p, |p.ids|) && NoRoomCompacted(Meaning(p), |p.ids|, |data|))
    {
      AbsFacts();
      ghost var p := AsPaged();
      NoneCompacted(p);
      assert NoRoomCompacted(Meaning(p), 0, |data|);
      hide *;
      r := INVALID_RECORD;
      done := false;
      for i := 0 to |pageIds|
        invariant Valid() && pageIds == old(pageIds) == p.ids && AsPaged() == CompactedTo(p, i) && Built()
        invariant NoRoomCompacted(Meaning(p), i, |data|)
      {
        done, r := SecondPassStep(i, data, p);
        if done {
          return;
        }
        AbsFacts();
      }
      done := false;
    }

    /** Page `i` of the second pass, when the first `i` pages of `p` are compacted. */
    method SecondPassStep(i: nat, data: seq<byte>, ghost p: Paged) returns (done: bool, r: RecordId)
      requires Valid() && 0 < |data| <= 65531 && i < |pageIds| && pageIds == p.ids && p.next < MAX_PAGES
      requires IsPaged(p) && Labelled(p.pages) && RecordStore.Valid(Meaning(p))
      requires NoRoom(Meaning(p), |p.ids|, |data|) && NoRoomCompacted(Meaning(p), i, |data|)
      requires AsPaged() == CompactedTo(p, i)
      modifies pool.Repr
      ensures Valid() && pageIds == old(pageIds)
      ensures done ==> (AsPaged(), r) == PagedRecords.Insert(p, data)
      ensures !done ==> AsPaged() == CompactedTo(p, i + 1) && NoRoomCompacted(Meaning(p), i + 1, |data|)
    {
      hide *;
      ghost var c := AsPaged();
      done, r := CompactAndTryInsert(pageIds[i], data);
      TriedCompacted(p, c, AsPaged(), i, data, done, r);
    }

    // ---- committing and restoring ----

    method Flush()
      requires Valid()
      modifies pool.Repr
      ensures Valid() && pageIds == old(pageIds) && Image() == old(Image()) && Abs() == old(Abs())
      ensures Durable() && pool.nextPageId == old(pool.nextPageId)
    {
      ghost var p := pool.View();
      PoolFacts(0);
      FlushedStore(p, pageIds);
      assert p.nextPageId <= MAX_PAGES;
      hide *;
      pool.FlushAllPages();
      NowValid();
      NowDurable();
      PoolFacts(0);
    }

    lemma NowDurable()
      requires Valid()
      requires forall id | id in ImageOf(pool.View(), pageIds) ::
        id in pool.View().disk && pool.View().disk[id] == ImageOf(pool.View(), pageIds)[id]
      ensures Durable()
    {
    }

    method SetPageIds(ids: seq<int>)
      requires Built()
      modifies this`pageIds
      ensures pageIds == ids && (old(Started()) ==> Started())
    {
      pageIds := ids;
    }

    method SetNextPageId(next: int)
      requires Built()
      modifies pool`nextPageId
      ensures pool.nextPageId == next && (old(Started()) ==> Started())
    {
      ghost var p := pool.View();
      assert old(Started()) ==> Inv(p.(nextPageId := next));
      hide Inv;
      pool.nextPageId := next;
      assert pool.View() == p.(nextPageId := next) by {
        assert pool.Frames() == p.frames;
      }
    }

    /** A record manager without pages of its own yet, given the page list and next id of a file. */
    lemma Restored()
      requires Started() && 0 <= pool.nextPageId <= MAX_PAGES
      requires forall id | id in pool.disk.pages :: 0 <= id < pool.nextPageId
      requires forall i, j | 0 <= i < j < |pageIds| :: pageIds[i] != pageIds[j]
      requires forall i | 0 <= i < |pageIds| :: pageIds[i] in pool.disk.pages
      requires Labelled(map id | id in pool.disk.pages && id in pageIds :: pool.disk.pages[id])
      ensures Valid() && Image() == map id | id in pool.disk.pages && id in pageIds :: pool.disk.pages[id]
    {
      var p := pool.View();
      assert Idle(p);
      hide Inv, Labelled;
      assert forall id | id in pageIds :: id in p.disk;
      assert Holds(p, pageIds);
      assert ImageOf(p, pageIds) == map id | id in p.disk && id in pageIds :: p.disk[id];
    }

    /** A record manager just started over the same pages, all of them on the disk, holds the same records. */
    lemma RestoredLike(before: RecordManager)
      requires before.Valid() && before.Durable() && Started()
      requires pool.disk == before.pool.disk && pageIds == before.pageIds && pool.nextPageId == before.pool.nextPageId
      ensures Valid() && Image() == before.Image() && Abs() == before.Abs() && Durable()
      ensures before.SafeToCompact() ==> SafeToCompact()
    {
      hide *;
      before.PoolFacts(0);
      IdleFacts(before.pool.View(), pageIds);
      ReadBack(pool.disk.pages, before.Image(), pageIds);
      Restored();
      PoolFacts(0);
    }
  }
}
