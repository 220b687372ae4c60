/**
 The record store as a value: pages of slots, first-fit insertion with compaction, and the
 map from record ids to bytes that it implements.
 */
module RecordStore {
  import opened Bytes
  import opened PageLayout
  import opened Compaction
  import opened PageManagement

  datatype RecordId = RecordId(pageId: int, slotId: u16)

  const INVALID_RECORD := RecordId(INVALID_PAGE_ID, 0)

  /** The largest record: a page less its header and one slot. */
  const MAX_RECORD := 4084

  /** `ids` are the pages of the store in order; `next` is the next page id to allocate. */
  datatype Store = Store(ids: seq<int>, pages: map<int, SlottedPage>, next: int)

  const EMPTY_STORE := Store([], map[], 0)

  ghost predicate Valid(s: Store) {
    && (forall i, j | 0 <= i < j < |s.ids| :: s.ids[i] != s.ids[j])
    && (forall i | 0 <= i < |s.ids| :: s.ids[i] in s.pages && Roomy(s.pages[s.ids[i]]))
    && (forall id | id in s.pages :: id in s.ids && 0 <= id < s.next && Roomy(s.pages[id]))
  }

  /** The record with this id; `[]` if there is none. */
  function Lookup(s: Store, r: RecordId): seq<byte> {
    if r.pageId in s.pages && r.slotId < |s.pages[r.pageId].slots| then s.pages[r.pageId].slots[r.slotId] else []
  }

  /** The id has been given out at some time. */
  predicate Issued(s: Store, r: RecordId) {
    r.pageId in s.pages && r.slotId < |s.pages[r.pageId].slots|
  }

  // ---- insertion ----

  ghost function FirstFit(s: Store, size: nat, k: nat): (i: nat)
    requires Valid(s) && k <= |s.ids|
    ensures k <= i <= |s.ids|
    ensures i < |s.ids| ==> Fits(s.pages[s.ids[i]], size)
    ensures forall j | k <= j < i :: !Fits(s.pages[s.ids[j]], size)
    decreases |s.ids| - k
  {
    if k == |s.ids| || Fits(s.pages[s.ids[k]], size) then k else FirstFit(s, size, k + 1)
  }

  ghost function FirstFitCompacted(s: Store, size: nat, k: nat): (i: nat)
    requires Valid(s) && k <= |s.ids|
    ensures k <= i <= |s.ids|
    ensures i < |s.ids| ==> Fits(WithCompacted(s.pages[s.ids[i]]), size)
    ensures forall j | k <= j < i :: !Fits(WithCompacted(s.pages[s.ids[j]]), size)
    decreases |s.ids| - k
  {
    if k == |s.ids| || Fits(WithCompacted(s.pages[s.ids[k]]), size) then k else FirstFitCompacted(s, size, k + 1)
  }

  ghost function CompactFirst(s: Store, k: nat): Store
    requires Valid(s) && k <= |s.ids|
  {
    s.(pages := map id | id in s.pages :: if id in s.ids[..k] then WithCompacted(s.pages[id]) else s.pages[id])
  }

  function PlaceAt(s: Store, id: int, data: seq<byte>): (r: (Store, RecordId))
    requires id in s.pages && Fits(s.pages[id], |data|) && |s.pages[id].slots| <= MAX_SLOTS
    ensures r.1.pageId == id
  {
    (s.(pages := s.pages[id := WithInserted(s.pages[id], data)]), RecordId(id, |s.pages[id].slots|))
  }

  /** A page is allocated even when the record turns out too long for an empty one. */
  ghost function PlaceOnNewPage(s: Store, data: seq<byte>): (Store, RecordId) {
    if Fits(EMPTY_PAGE, |data|) then
      (Store(s.ids + [s.next], s.pages[s.next := WithInserted(EMPTY_PAGE, data)], s.next + 1), RecordId(s.next, 0))
    else
      (s.(next := s.next + 1), INVALID_RECORD)
  }

  /** The sizes on which the 16-bit space check does not wrap, or that are refused before it. */
  predicate InRange(size: nat) {
    !(65532 <= size <= 65535)
  }

  ghost function Insert(s: Store, data: seq<byte>): (Store, RecordId)
    requires Valid(s) && InRange(|data|)
  {
    if data == [] || |data| > 65535 then (s, INVALID_RECORD)
    else
      var i := FirstFit(s, |data|, 0);
      if i < |s.ids| then
        RoomyBound(s.pages[s.ids[i]]);
        PlaceAt(s, s.ids[i], data)
      else
        var j := FirstFitCompacted(s, |data|, 0);
        if j < |s.ids| then
          assert s.ids[j] in s.ids[..j + 1];
          RoomyBound(s.pages[s.ids[j]]);
          PlaceAt(CompactFirst(s, j + 1), s.ids[j], data)
        else PlaceOnNewPage(CompactFirst(s, |s.ids|), data)
  }

  // ---- deletion and update ----

  function Delete(s: Store, r: RecordId): (Store, bool) {
    if Issued(s, r) then (s.(pages := s.pages[r.pageId := WithDeleted(s.pages[r.pageId], r.slotId)]), true)
    else (s, false)
  }

  /** A longer record needs contiguous room for all of its bytes, but no new slot. */
  predicate CanUpdate(s: Store, r: RecordId, data: seq<byte>) {
    && 0 < |data| <= 65535
    && Lookup(s, r) != []
    && (|data| <= |Lookup(s, r)| || |data| <= s.pages[r.pageId].free)
  }

  function Update(s: Store, r: RecordId, data: seq<byte>): (Store, bool) {
    if CanUpdate(s, r, data) then
      (s.(pages := s.pages[r.pageId := WithUpdated(s.pages[r.pageId], r.slotId, data)]), true)
    else (s, false)
  }

  /** One more page of the second pass of insertion. */
  lemma CompactOneMore(s: Store, k: nat)
    requires Valid(s) && k < |s.ids|
    ensures var c := CompactFirst(s, k); var id := s.ids[k];
      && id in c.pages && c.pages[id] == s.pages[id] && Roomy(c.pages[id])
      && CompactFirst(s, k + 1) == c.(pages := c.pages[id := WithCompacted(c.pages[id])])
  {
    var c := CompactFirst(s, k);
    assert s.ids[..k + 1] == s.ids[..k] + [s.ids[k]];
    assert CompactFirst(s, k + 1).pages == c.pages[s.ids[k] := WithCompacted(c.pages[s.ids[k]])];
  }

  /** None of the first `k` pages has room for the record as it is. */
  ghost predicate NoRoom(s: Store, k: nat, size: nat)
    requires Valid(s) && k <= |s.ids|
  {
    forall j | 0 <= j < k :: !Fits(s.pages[s.ids[j]], size)
  }

  /** Nor would any of them if it were compacted. */
  ghost predicate NoRoomCompacted(s: Store, k: nat, size: nat)
    requires Valid(s) && k <= |s.ids|
  {
    forall j | 0 <= j < k :: !Fits(WithCompacted(s.pages[s.ids[j]]), size)
  }

  lemma FirstFitsAre(s: Store, size: nat, i: nat)
    requires Valid(s) && i < |s.ids| && NoRoom(s, |s.ids|, size) && NoRoomCompacted(s, i, size)
    requires s.ids[i] in s.pages && Fits(WithCompacted(s.pages[s.ids[i]]), size)
    ensures FirstFit(s, size, 0) == |s.ids| && FirstFitCompacted(s, size, 0) == i
  {
    hide Fits, WithCompacted, Roomy;
  }

  /** The first pass stops at the first page with room. */
  lemma InsertInFirstPass(s: Store, data: seq<byte>, i: nat)
    requires Valid(s) && 0 < |data| <= 65531 && i < |s.ids|
    requires NoRoom(s, i, |data|)
    requires Fits(s.pages[s.ids[i]], |data|)
    ensures |s.pages[s.ids[i]].slots| <= MAX_SLOTS
    ensures Insert(s, data) == PlaceAt(s, s.ids[i], data)
  {
    RoomyBound(s.pages[s.ids[i]]);
    hide Fits, PlaceAt;
    assert FirstFit(s, |data|, 0) == i;
  }

  lemma InsertInSecondPass(s: Store, data: seq<byte>, i: nat)
    requires Valid(s) && 0 < |data| <= 65531 && i < |s.ids|
    requires NoRoom(s, |s.ids|, |data|) && NoRoomCompacted(s, i, |data|)
    requires Fits(WithCompacted(s.pages[s.ids[i]]), |data|)
    ensures var c := CompactFirst(s, i + 1);
      && s.ids[i] in c.pages && Fits(c.pages[s.ids[i]], |data|) && |c.pages[s.ids[i]].slots| <= MAX_SLOTS
      && Insert(s, data) == PlaceAt(c, s.ids[i], data)
  {
    RoomyBound(s.pages[s.ids[i]]);
    CompactOneMore(s, i);
    assert s.ids[i] in s.ids[..i + 1];
    assert FirstFit(s, |data|, 0) == |s.ids|;
    assert FirstFitCompacted(s, |data|, 0) == i;
    hide Fits, PlaceAt, CompactFirst;
  }

  lemma InsertInNewPage(s: Store, data: seq<byte>)
    requires Valid(s) && 0 < |data| <= 65531
    requires NoRoom(s, |s.ids|, |data|) && NoRoomCompacted(s, |s.ids|, |data|)
    ensures Insert(s, data) == PlaceOnNewPage(CompactFirst(s, |s.ids|), data)
  {
    assert FirstFit(s, |data|, 0) == |s.ids|;
    assert FirstFitCompacted(s, |data|, 0) == |s.ids|;
  }

  // ---- the store is a map from record ids to bytes ----

  /** `t` is `s` with the new record `data` under the id `r`, never given out before. */
  ghost predicate MapInsert(s: Store, t: Store, r: RecordId, data: seq<byte>) {
    && !Issued(s, r) && r.pageId >= 0
    && (forall q :: Lookup(t, q) == if q == r then data else Lookup(s, q))
    && (forall q :: Issued(t, q) <==> Issued(s, q) || q == r)
  }

  /** No record is different, and no id new. */
  ghost predicate MapSame(s: Store, t: Store) {
    && (forall q :: Lookup(t, q) == Lookup(s, q))
    && (forall q :: Issued(t, q) <==> Issued(s, q))
  }

  lemma Placed(s: Store, id: int, data: seq<byte>)
    requires Valid(s) && id in s.pages && Fits(s.pages[id], |data|)
    ensures |s.pages[id].slots| <= MAX_SLOTS
    ensures var (t, r) := PlaceAt(s, id, data);
      Valid(t) && t.ids == s.ids && t.next == s.next && MapInsert(s, t, r, data)
  {
    RoomyBound(s.pages[id]);
    RoomyInserted(s.pages[id], data);
    hide Slack;
  }

  lemma CompactedFirst(s: Store, k: nat)
    requires Valid(s) && k <= |s.ids|
    ensures Valid(CompactFirst(s, k)) && MapSame(s, CompactFirst(s, k))
    ensures CompactFirst(s, k).ids == s.ids && CompactFirst(s, k).next == s.next
  {
  }

  lemma PlacedOnNewPage(s: Store, data: seq<byte>)
    requires Valid(s) && s.next >= 0
    ensures var (t, r) := PlaceOnNewPage(s, data);
      && Valid(t) && t.next == s.next + 1
      && (|data| <= MAX_RECORD ==> MapInsert(s, t, r, data) && t.ids == s.ids + [r.pageId])
      && (|data| > MAX_RECORD ==> MapSame(s, t) && r == INVALID_RECORD && t.ids == s.ids)
  {
    if |data| <= MAX_RECORD {
      EmptyIsRoomy();
      RoomyInserted(EMPTY_PAGE, data);
      var t := PlaceOnNewPage(s, data).0;
      assert forall id :: id in t.ids <==> id in s.ids || id == s.next;
      assert s.next !in s.ids;
    }
  }

  lemma EmptyIsRoomy()
    ensures Roomy(EMPTY_PAGE) && Slack(EMPTY_PAGE) == EMPTY_PAGE.free
  {
  }

  /**
   Insertion is total on its range: a record of 1 to 4084 bytes gets an id never issued
   before, and all others keep their bytes; any other size in range changes no record.
   */
  lemma InsertIsMapInsert(s: Store, data: seq<byte>)
    requires Valid(s) && s.next >= 0 && InRange(|data|)
    ensures var (t, r) := Insert(s, data);
      && Valid(t) && s.next <= t.next <= s.next + 1
      && (0 < |data| <= MAX_RECORD ==> MapInsert(s, t, r, data))
      && (data == [] || |data| > MAX_RECORD ==> MapSame(s, t) && r == INVALID_RECORD && t.ids == s.ids)
  {
    hide *;
    InRangeIs(|data|);
    if data == [] || |data| > 65535 {
      InsertNothing(s, data);
    } else {
      var i, j := InsertCases(s, data);
      if i < |s.ids| {
        InsertInFirstPass(s, data, i);
        SameAsItself(s);
        PlacedAfter(s, s, s.ids[i], data);
      } else if j < |s.ids| {
        InsertInSecondPass(s, data, j);
        CompactedFirst(s, j + 1);
        PlacedAfter(s, CompactFirst(s, j + 1), s.ids[j], data);
      } else {
        InsertInNewPage(s, data);
        CompactedFirst(s, |s.ids|);
        PlacedOnNewPage(CompactFirst(s, |s.ids|), data);
        SameThenInsert(s, CompactFirst(s, |s.ids|), PlaceOnNewPage(CompactFirst(s, |s.ids|), data), data);
      }
    }
  }

  lemma InRangeIs(size: nat)
    requires InRange(size)
    ensures size <= 65531 || size > 65535
    ensures MAX_RECORD == 4084
  {
  }

  lemma InsertNothing(s: Store, data: seq<byte>)
    requires Valid(s) && InRange(|data|) && (data == [] || |data| > 65535)
    ensures Insert(s, data) == (s, INVALID_RECORD) && MapSame(s, s)
  {
  }

  lemma SameAsItself(s: Store)
    ensures MapSame(s, s)
  {
  }

  lemma SameThenInsert(s: Store, c: Store, placed: (Store, RecordId), data: seq<byte>)
    requires MapSame(s, c)
    ensures MapInsert(c, placed.0, placed.1, data) ==> MapInsert(s, placed.0, placed.1, data)
    ensures MapSame(c, placed.0) ==> MapSame(s, placed.0)
  {
    hide Lookup, Issued;
  }

  /** Where an insertion looks: page `i` as it is, else page `j` compacted, else nowhere. */
  lemma InsertCases(s: Store, data: seq<byte>) returns (i: nat, j: nat)
    requires Valid(s) && 0 < |data| <= 65531
    ensures i <= |s.ids| && NoRoom(s, i, |data|)
    ensures i < |s.ids| ==> s.ids[i] in s.pages && Fits(s.pages[s.ids[i]], |data|)
    ensures j <= |s.ids| && NoRoomCompacted(s, j, |data|)
    ensures j < |s.ids| ==> s.ids[j] in s.pages && Fits(WithCompacted(s.pages[s.ids[j]]), |data|)
  {
    hide Fits, WithCompacted, Roomy;
    i := FirstFit(s, |data|, 0);
    j := FirstFitCompacted(s, |data|, 0);
  }

  /** Placing a record after compacting some pages. */
  lemma PlacedAfter(s: Store, c: Store, id: int, data: seq<byte>)
    requires Valid(c) && MapSame(s, c) && id in c.pages && Fits(c.pages[id], |data|)
    ensures |c.pages[id].slots| <= MAX_SLOTS && |data| <= MAX_RECORD
    ensures var (t, r) := PlaceAt(c, id, data);
      Valid(t) && t.ids == c.ids && t.next == c.next && MapInsert(s, t, r, data)
  {
    Placed(c, id, data);
    assert Roomy(c.pages[id]);
    FitsBounds(c.pages[id], |data|);
    hide *;
    SameThenInsert(s, c, PlaceAt(c, id, data), data);
  }

  lemma FitsBounds(p: SlottedPage, size: nat)
    requires Roomy(p) && Fits(p, size)
    ensures size <= MAX_RECORD
  {
  }

  /** Whether page `id`, compacted, would take the record: header, slots and live bytes leave room. */
  ghost predicate CouldHold(s: Store, id: int, size: nat)
    requires id in s.pages
  {
    HEADER_SIZE + SLOT_SIZE * |s.pages[id].slots| + LiveBytes(s.pages[id].slots) + size + SLOT_SIZE <= PAGE_SIZE
  }

  /**
   Insertion is space-optimal: a page is allocated if and only if the record fits, even after
   compaction, on none of the existing ones.
   */
  lemma InsertSpaceOptimal(s: Store, data: seq<byte>)
    requires Valid(s) && s.next >= 0 && 0 < |data| <= 65531
    ensures var (t, r) := Insert(s, data);
      && (t.next == s.next + 1 <==> forall id | id in s.pages :: !CouldHold(s, id, |data|))
      && (t.next == s.next ==> t.ids == s.ids && r.pageId in s.pages && CouldHold(s, r.pageId, |data|))
      && (t.ids != s.ids <==> t.next == s.next + 1 && |data| <= MAX_RECORD)
  {
    var size := |data|;
    forall id | id in s.pages
      ensures Fits(s.pages[id], size) ==> CouldHold(s, id, size)
      ensures Fits(WithCompacted(s.pages[id]), size) <==> CouldHold(s, id, size)
    {
    }
    var i := FirstFit(s, size, 0);
    if i == |s.ids| {
      var j := FirstFitCompacted(s, size, 0);
      hide Slack, CouldHold;
      if j == |s.ids| {
        forall id | id in s.pages
          ensures !CouldHold(s, id, size)
        {
          var k :| 0 <= k < |s.ids| && s.ids[k] == id;
        }
      } else {
        assert s.ids[j] in s.ids[..j + 1] && s.ids[j] in s.pages;
        CompactedFirst(s, j + 1);
      }
    }
  }

  lemma DeleteIsMapRemove(s: Store, r: RecordId)
    requires Valid(s)
    ensures var (t, ok) := Delete(s, r);
      && Valid(t) && t.ids == s.ids && t.next == s.next
      && (ok <==> Issued(s, r))
      && (forall q :: Lookup(t, q) == if q == r then [] else Lookup(s, q))
      && (forall q :: Issued(t, q) <==> Issued(s, q))
  {
    if Issued(s, r) {
      var p := s.pages[r.pageId];
      RoomyReplaced(p, r.slotId, [], p.free);
      hide Slack;
    }
  }

  lemma UpdateIsMapUpdate(s: Store, r: RecordId, data: seq<byte>)
    requires Valid(s)
    ensures var (t, ok) := Update(s, r, data);
      && Valid(t) && t.ids == s.ids && t.next == s.next
      && (ok <==>
            && Lookup(s, r) != [] && 0 < |data| <= 65535
            && (|data| <= |Lookup(s, r)| || |data| <= s.pages[r.pageId].free))
      && (forall q :: Lookup(t, q) == if ok && q == r then data else Lookup(s, q))
      && (forall q :: Issued(t, q) <==> Issued(s, q))
  {
    if CanUpdate(s, r, data) {
      var p := s.pages[r.pageId];
      RoomyReplaced(p, r.slotId, data, if |data| <= |p.slots[r.slotId]| then p.free else p.free - |data|);
      hide Slack;
    }
  }
}
