/** A table: rows in a record store, and the iterator that scans them. */
module TableManagement {
  import opened PageLayout
  import opened PageManagement
  import opened Rows
  import opened RecordStore
  import opened StoreScan
  import opened BufferManagement
  import opened RecordManagement

  // ---- the cursor of a scan ----

  /** `r`, on the `k`-th page, is a live record. */
  ghost predicate OnRecord(s: Store, k: nat, r: RecordId)
    requires Valid(s)
  {
    k < |s.ids| && s.ids[k] == r.pageId && r.slotId < |SlotsAt(s, k)| && SlotsAt(s, k)[r.slotId] != []
  }

  /** A cursor is at the end, or on a record of the page it counts. */
  ghost predicate CursorAt(s: Store, k: nat, r: RecordId)
    requires Valid(s)
  {
    r == INVALID_RECORD || OnRecord(s, k, r)
  }

  /** What is still to be visited from a cursor, its own record included. */
  ghost function Ahead(s: Store, k: nat, r: RecordId): seq<RecordId>
    requires Valid(s) && CursorAt(s, k, r)
  {
    if r == INVALID_RECORD then [] else ScanFrom(s, k, r.slotId)
  }

  lemma CursorFacts(s: Store, k: nat, r: RecordId)
    requires Valid(s) && CursorAt(s, k, r)
    ensures r == INVALID_RECORD <==> Ahead(s, k, r) == []
    ensures r != INVALID_RECORD ==>
      && Ahead(s, k, r) == [r] + ScanFrom(s, k, r.slotId + 1)
      && r.pageId in s.ids && Lookup(s, r) != [] && r.slotId < MAX_SLOTS
  {
    if r != INVALID_RECORD { RoomyBound(s.pages[s.ids[k]]); }
  }

  lemma OnePastCursor(s: Store, k: nat, r: RecordId)
    requires Valid(s) && CursorAt(s, k, r) && Ahead(s, k, r) != []
    ensures r.slotId < 65535 && k < |s.ids| && r.pageId == s.ids[k]
    ensures ScanFrom(s, k, r.slotId + 1) == Ahead(s, k, r)[1..]
  {
    CursorFacts(s, k, r);
  }

  /** Where a scan of the whole table starts. */
  lemma FirstRecord(s: Store)
    requires Valid(s)
    ensures s.ids == [] ==> Scan(s) == []
    ensures s.ids != [] ==>
      && s.ids[0] in s.ids
      && (Lookup(s, RecordId(s.ids[0], 0)) != [] ==>
           CursorAt(s, 0, RecordId(s.ids[0], 0)) && Ahead(s, 0, RecordId(s.ids[0], 0)) == Scan(s))
      && (Lookup(s, RecordId(s.ids[0], 0)) == [] ==> Scan(s) == ScanFrom(s, 0, 1))
  {
    if s.ids != [] {
      SlotFacts(s, 0, 0);
      if Lookup(s, RecordId(s.ids[0], 0)) == [] { SkipSlot(s, 0, 0); }
    }
  }

  /** A slot that holds no record, or lies past the page's last one, adds nothing to the scan. */
  lemma SkipSlot(s: Store, k: nat, slot: nat)
    requires Valid(s) && k < |s.ids|
    requires slot < |SlotsAt(s, k)| ==> SlotsAt(s, k)[slot] == []
    ensures ScanFrom(s, k, slot) == ScanFrom(s, k, slot + 1)
  {
    if slot < |SlotsAt(s, k)| { assert [] + ScanFrom(s, k, slot + 1) == ScanFrom(s, k, slot + 1); }
  }

  lemma SlotFacts(s: Store, k: nat, slot: nat)
    requires Valid(s) && k < |s.ids|
    ensures s.ids[k] in s.ids && s.ids[k] in s.pages && s.ids[k] != INVALID_PAGE_ID
    ensures |SlotsAt(s, k)| == |s.pages[s.ids[k]].slots| <= MAX_SLOTS
    ensures slot < 65536 ==>
      Lookup(s, RecordId(s.ids[k], slot)) == if slot < |SlotsAt(s, k)| then SlotsAt(s, k)[slot] else []
    ensures slot < |SlotsAt(s, k)| && SlotsAt(s, k)[slot] != [] ==> OnRecord(s, k, RecordId(s.ids[k], slot))
  {
    RoomyBound(s.pages[s.ids[k]]);
  }

  lemma TableDone(s: Store)
    requires Valid(s)
    ensures ScanFrom(s, |s.ids|, 0) == []
    ensures CursorAt(s, |s.ids|, INVALID_RECORD) && Ahead(s, |s.ids|, INVALID_RECORD) == []
  {
  }

  lemma OnRecordFacts(s: Store, k: nat, r: RecordId)
    requires Valid(s) && OnRecord(s, k, r)
    ensures CursorAt(s, k, r) && Ahead(s, k, r) == ScanFrom(s, k, r.slotId)
  {
  }

  /** The table's records are those of the store `s`. */
  ghost predicate IsStore(records: RecordManager, s: Store)
    reads records, records.Repr
  {
    && records.Valid() && records.Abs() == s && RecordStore.Valid(s)
    && s.ids == records.pageIds
  }

  lemma StoreFacts(records: RecordManager, s: Store)
    requires IsStore(records, s)
    ensures records.Valid() && records.Built() && records.Abs() == s && RecordStore.Valid(s) && s.ids == records.pageIds
    ensures records.Repr == {records} + records.pool.Repr && s.next == records.pool.nextPageId
  {
  }

  lemma StillStore(records: RecordManager, s: Store)
    requires records.Valid() && records.Abs() == s && RecordStore.Valid(s) && s.ids == records.pageIds
    ensures IsStore(records, s)
  {
  }

  /** The inner loop of `operator++`: the slots of one page, from `r` on, up to a live record. */
  method FindOnPage(records: RecordManager, ghost s: Store, k: nat, r: RecordId) returns (found: bool, q: RecordId)
    requires IsStore(records, s) && RecordStore.Valid(s) && k < |s.ids| && r.pageId == s.ids[k]
    modifies records.pool.Repr
    ensures IsStore(records, s) && records.Valid() && records.Image() == old(records.Image())
    ensures old(records.Durable()) ==> records.Durable()
    ensures found ==> OnRecord(s, k, q) && ScanFrom(s, k, q.slotId) == ScanFrom(s, k, r.slotId)
    ensures !found ==> ScanFrom(s, k, r.slotId) == ScanFrom(s, k + 1, 0)
  {
    hide *;
    StoreFacts(records, s);
    ghost var m, durable := records.Image(), records.Durable();
    q := r;
    SlotFacts(s, k, q.slotId);
    var slotCount := records.GetSlotCount(q.pageId);
    while q.slotId < slotCount
      invariant records.Valid() && records.Abs() == s && records.Image() == m && s.ids == records.pageIds
      invariant durable ==> records.Durable()
      invariant q.pageId == s.ids[k] && ScanFrom(s, k, q.slotId) == ScanFrom(s, k, r.slotId)
      decreases slotCount - q.slotId
    {
      SlotFacts(s, k, q.slotId);
      var ok, _ := records.Get(q);
      if ok {
        StillStore(records, s);
        return true, q;
      }
      SkipSlot(s, k, q.slotId);
      q := RecordId(q.pageId, q.slotId + 1);
    }
    ScanPageEnds(s, k, q.slotId);
    StillStore(records, s);
    found := false;
  }

  /** The outer loop: page after page, to the first live record or the end of the table. */
  method FindLive(records: RecordManager, ghost s: Store, k: nat, r: RecordId) returns (l: nat, q: RecordId)
    requires IsStore(records, s) && RecordStore.Valid(s) && k < |s.ids| && r.pageId == s.ids[k]
    modifies records.pool.Repr
    ensures IsStore(records, s) && records.Valid() && records.Image() == old(records.Image())
    ensures old(records.Durable()) ==> records.Durable()
    ensures CursorAt(s, l, q) && Ahead(s, l, q) == ScanFrom(s, k, r.slotId)
  {
    hide *;
    StoreFacts(records, s);
    ghost var m, durable := records.Image(), records.Durable();
    l, q := k, r;
    var found := false;
    while true
      invariant IsStore(records, s) && records.Valid() && records.Image() == m && s.ids == records.pageIds
      invariant durable ==> records.Durable()
      invariant l < |s.ids| && q.pageId == s.ids[l] && ScanFrom(s, l, q.slotId) == ScanFrom(s, k, r.slotId)
      decreases |s.ids| - l
    {
      found, q := FindOnPage(records, s, l, q);
      if found {
        OnRecordFacts(s, l, q);
        return;
      }
      StoreFacts(records, s);
      l := l + 1;
      if l >= |records.pageIds| {
        TableDone(s);
        return l, INVALID_RECORD;
      }
      q := RecordId(records.pageIds[l], 0);
    }
  }

  class TableIterator {
    const records: RecordManager
    var rid: RecordId
    var pageIdx: nat

    constructor (rid: RecordId, records: RecordManager, pageIdx: nat)
      ensures this.rid == rid && this.records == records && this.pageIdx == pageIdx
    {
      this.rid, this.records, this.pageIdx := rid, records, pageIdx;
    }

    method GetRid() returns (r: RecordId)
      ensures r == rid
    {
      r := rid;
    }

    method Equals(other: TableIterator) returns (same: bool)
      ensures same <==> rid == other.rid
    {
      same := rid.pageId == other.rid.pageId && rid.slotId == other.rid.slotId;
    }

    /** `operator*`: the row under the cursor. */
    method Current(ghost s: Store) returns (row: Tuple)
      requires IsStore(records, s) && RecordStore.Valid(s) && CursorAt(s, pageIdx, rid) && Ahead(s, pageIdx, rid) != []
      modifies records.pool.Repr
      ensures IsStore(records, s) && records.Valid() && records.Image() == old(records.Image())
      ensures old(records.Durable()) ==> records.Durable()
      ensures fresh(row.data) && row.data[..] == Lookup(s, old(rid)) && old(rid) == Ahead(s, old(pageIdx), old(rid))[0]
    {
      CursorFacts(s, pageIdx, rid);
      hide *;
      StoreFacts(records, s);
      var ok, raw := records.Get(rid);
      row := new Tuple.FromRaw(raw);
      StillStore(records, s);
    }

    /** `operator++`: on to the first live record after the slot the cursor is on, or to the end. */
    method Next(ghost s: Store)
      requires IsStore(records, s) && RecordStore.Valid(s) && this !in records.Repr
      requires pageIdx < |s.ids| && rid.pageId == s.ids[pageIdx] && rid.slotId < 65535
      modifies this, records.pool.Repr
      ensures IsStore(records, s) && records.Valid() && records.Image() == old(records.Image())
      ensures old(records.Durable()) ==> records.Durable()
      ensures CursorAt(s, pageIdx, rid) && Ahead(s, pageIdx, rid) == old(ScanFrom(s, pageIdx, rid.slotId + 1))
    {
      hide *;
      StoreFacts(records, s);
      var l, q := FindLive(records, s, pageIdx, RecordId(rid.pageId, rid.slotId + 1));
      pageIdx, rid := l, q;
    }
  }

  class TableManager {
    const records: RecordManager

    constructor (disk: DiskManager)
      ensures fresh(records) && fresh(records.pool) && fresh(records.Repr - {disk})
      ensures records.Built() && records.pool.disk == disk
      ensures disk.pages == old(disk.pages)
      ensures records.pageIds == [] && records.pool.nextPageId == 0 && records.Started()
      ensures disk.pages == map[] ==> records.Valid() && records.Abs() == EMPTY_STORE
    {
      records := new RecordManager(disk);
    }

    method InsertTuple(tuple: Tuple) returns (r: RecordId)
      requires records.Valid() && InRange(tuple.data.Length) && records.pool.nextPageId < PagedRecords.MAX_PAGES
      modifies records`pageIds, records.pool.Repr
      ensures records.Valid() && RecordStore.Valid(old(records.Abs()))
      ensures var p := old(records.AsPaged());
        && PagedRecords.IsPaged(p) && p.next < PagedRecords.MAX_PAGES
        && (records.AsPaged(), r) == PagedRecords.Insert(p, old(tuple.data[..]))
      ensures old(records.SafeToCompact()) ==>
        records.SafeToCompact() && (records.Abs(), r) == RecordStore.Insert(old(records.Abs()), old(tuple.data[..]))
    {
      hide *;
      r := records.Insert(tuple.data[..]);
    }

    method DeleteTuple(r: RecordId) returns (ok: bool)
      requires records.Valid() && (r.pageId == INVALID_PAGE_ID || r.pageId in records.pageIds)
      modifies records.pool.Repr
      ensures records.Valid() && records.pageIds == old(records.pageIds)
      ensures (records.Abs(), ok) == RecordStore.Delete(old(records.Abs()), r)
      ensures old(records.SafeToCompact()) ==> records.SafeToCompact()
    {
      hide *;
      ok := records.Delete(r);
    }

    method Flush()
      requires records.Valid()
      modifies records.pool.Repr
      ensures records.Valid() && records.Image() == old(records.Image()) && records.Abs() == old(records.Abs())
      ensures records.pageIds == old(records.pageIds) && records.Durable()
    {
      records.Flush();
    }

    /** The row under an id, empty if there is none. */
    method GetTuple(r: RecordId) returns (row: Tuple)
      requires records.Valid() && (r.pageId == INVALID_PAGE_ID || r.pageId in records.pageIds)
      modifies records.pool.Repr
      ensures records.Valid() && records.Abs() == old(records.Abs())
      ensures fresh(row.data) && row.data[..] == Lookup(old(records.Abs()), r)
    {
      hide *;
      var ok, raw := records.Get(r);
      row := new Tuple.FromRaw(if ok then raw else []);
    }

    /** The cursor on the first live record: everything is still ahead. */
    method Begin(ghost s: Store) returns (it: TableIterator)
      requires IsStore(records, s) && RecordStore.Valid(s)
      modifies records.pool.Repr
      ensures IsStore(records, s) && records.Valid() && records.Image() == old(records.Image())
      ensures old(records.Durable()) ==> records.Durable()
      ensures fresh(it) && it.records == records
      ensures CursorAt(s, it.pageIdx, it.rid) && Ahead(s, it.pageIdx, it.rid) == Scan(s)
    {
      hide *;
      StoreFacts(records, s);
      FirstRecord(s);
      if records.pageIds == [] {
        it := End(s);
        return;
      }
      var first := RecordId(records.pageIds[0], 0);
      it := new TableIterator(first, records, 0);
      var ok, _ := records.Get(first);
      StillStore(records, s);
      if !ok {
        it.Next(s);
      }
    }

    method End(ghost s: Store) returns (it: TableIterator)
      requires RecordStore.Valid(s)
      ensures fresh(it) && it.records == records && it.rid == INVALID_RECORD
      ensures CursorAt(s, it.pageIdx, it.rid) && Ahead(s, it.pageIdx, it.rid) == []
    {
      it := new TableIterator(INVALID_RECORD, records, 0);
    }
  }
}
