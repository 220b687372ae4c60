/** The scan of a record store, and what insertion and deletion do to it. */
module StoreScan {
  import opened Bytes
  import opened PageLayout
  import opened PageManagement
  import opened RecordStore

  ghost function SlotsAt(s: Store, k: nat): seq<seq<byte>>
    requires Valid(s) && k < |s.ids|
  {
    s.pages[s.ids[k]].slots
  }

  ghost function SlotsLeft(s: Store, k: nat, slot: nat): nat
    requires Valid(s)
  {
    if k < |s.ids| && slot < |SlotsAt(s, k)| then |SlotsAt(s, k)| - slot else 0
  }

  /** The live records from slot `slot` of the `k`-th page on. */
  ghost function ScanFrom(s: Store, k: nat, slot: nat): seq<RecordId>
    requires Valid(s) && k <= |s.ids|
    decreases |s.ids| - k, SlotsLeft(s, k, slot)
  {
    if k == |s.ids| then []
    else if slot >= |SlotsAt(s, k)| then ScanFrom(s, k + 1, 0)
    else
      RoomyBound(s.pages[s.ids[k]]);
      (if SlotsAt(s, k)[slot] == [] then [] else [RecordId(s.ids[k], slot)]) + ScanFrom(s, k, slot + 1)
  }

  ghost function Scan(s: Store): seq<RecordId>
    requires Valid(s)
  {
    ScanFrom(s, 0, 0)
  }

  ghost function RowsOf(s: Store, rs: seq<RecordId>): seq<seq<byte>> {
    seq(|rs|, i requires 0 <= i < |rs| => Lookup(s, rs[i]))
  }

  /** The bytes of the live records, in scan order. */
  ghost function AllRows(s: Store): seq<seq<byte>>
    requires Valid(s)
  {
    RowsOf(s, Scan(s))
  }

  // ---- a scan visits each live record once, in order ----

  /** `r` lies at or after slot `slot` of page `k`. */
  ghost predicate AtOrAfter(s: Store, k: nat, slot: nat, r: RecordId) {
    exists i :: k <= i < |s.ids| && s.ids[i] == r.pageId && (i == k ==> r.slotId >= slot)
  }

  lemma NextPage(s: Store, k: nat, slot: nat, r: RecordId)
    requires Valid(s) && k < |s.ids| && slot >= |SlotsAt(s, k)| && Lookup(s, r) != []
    ensures AtOrAfter(s, k, slot, r) <==> AtOrAfter(s, k + 1, 0, r)
  {
  }

  lemma NextSlot(s: Store, k: nat, slot: nat, r: RecordId)
    requires Valid(s) && k < |s.ids| && slot < |SlotsAt(s, k)|
    ensures slot < MAX_SLOTS && Lookup(s, RecordId(s.ids[k], slot)) == SlotsAt(s, k)[slot]
    ensures AtOrAfter(s, k, slot, r) <==> r == RecordId(s.ids[k], slot) || AtOrAfter(s, k, slot + 1, r)
  {
    RoomyBound(s.pages[s.ids[k]]);
    if r == RecordId(s.ids[k], slot) { assert s.ids[k] == r.pageId; }
  }

  lemma {:induction false} ScanFromExact(s: Store, k: nat, slot: nat, r: RecordId)
    requires Valid(s) && k <= |s.ids|
    ensures r in ScanFrom(s, k, slot) <==> Lookup(s, r) != [] && AtOrAfter(s, k, slot, r)
    decreases |s.ids| - k, SlotsLeft(s, k, slot)
  {
    if k < |s.ids| {
      if slot >= |SlotsAt(s, k)| {
        if Lookup(s, r) != [] { NextPage(s, k, slot, r); }
        hide AtOrAfter, Lookup;
        ScanFromExact(s, k + 1, 0, r);
      } else {
        NextSlot(s, k, slot, r);
        hide AtOrAfter, Lookup;
        ScanFromExact(s, k, slot + 1, r);
      }
    }
  }

  /** Exactly the live records are scanned. */
  lemma ScanExact(s: Store, r: RecordId)
    requires Valid(s)
    ensures r in Scan(s) <==> Lookup(s, r) != []
  {
    ScanFromExact(s, 0, 0, r);
    if Lookup(s, r) != [] {
      var i :| 0 <= i < |s.ids| && s.ids[i] == r.pageId;
    }
  }

  /** Page order first, slot order within a page. */
  ghost predicate Before(s: Store, r: RecordId, q: RecordId) {
    exists i, j ::
      0 <= i <= j < |s.ids| && s.ids[i] == r.pageId && s.ids[j] == q.pageId && (i < j || r.slotId < q.slotId)
  }

  lemma FirstIsBefore(s: Store, k: nat, slot: nat, q: RecordId)
    requires Valid(s) && k < |s.ids| && slot < |SlotsAt(s, k)| && q in ScanFrom(s, k, slot + 1)
    ensures slot < MAX_SLOTS && Before(s, RecordId(s.ids[k], slot), q)
  {
    RoomyBound(s.pages[s.ids[k]]);
    ScanFromExact(s, k, slot + 1, q);
    hide Lookup, ScanFrom, Roomy;
    var i :| k <= i < |s.ids| && s.ids[i] == q.pageId && (i == k ==> q.slotId >= slot + 1);
    assert s.ids[k] == RecordId(s.ids[k], slot).pageId;
  }

  lemma {:induction false} ScanFromOrdered(s: Store, k: nat, slot: nat, a: nat, b: nat)
    requires Valid(s) && k <= |s.ids| && a < b < |ScanFrom(s, k, slot)|
    ensures Before(s, ScanFrom(s, k, slot)[a], ScanFrom(s, k, slot)[b])
    decreases |s.ids| - k, SlotsLeft(s, k, slot)
  {
    hide Before;
    if slot >= |SlotsAt(s, k)| {
      ScanFromOrdered(s, k + 1, 0, a, b);
    } else if SlotsAt(s, k)[slot] == [] {
      ScanFromOrdered(s, k, slot + 1, a, b);
    } else if a > 0 {
      ScanFromOrdered(s, k, slot + 1, a - 1, b - 1);
    } else {
      FirstIsBefore(s, k, slot, ScanFrom(s, k, slot + 1)[b - 1]);
    }
  }

  lemma ScanOrdered(s: Store)
    requires Valid(s)
    ensures forall a, b | 0 <= a < b < |Scan(s)| :: Before(s, Scan(s)[a], Scan(s)[b]) && Scan(s)[a] != Scan(s)[b]
  {
    forall a, b | 0 <= a < b < |Scan(s)|
      ensures Before(s, Scan(s)[a], Scan(s)[b]) && Scan(s)[a] != Scan(s)[b]
    {
      ScanFromOrdered(s, 0, 0, a, b);
    }
  }

  // ---- compaction, deletion and insertion, seen by a scan ----

  ghost predicate SameSlots(s: Store, t: Store) {
    && t.ids == s.ids
    && forall id | id in s.pages :: id in t.pages && t.pages[id].slots == s.pages[id].slots
  }

  lemma {:induction false} SameScan(s: Store, t: Store, k: nat, slot: nat)
    requires Valid(s) && Valid(t) && SameSlots(s, t) && k <= |s.ids|
    ensures ScanFrom(t, k, slot) == ScanFrom(s, k, slot)
    decreases |s.ids| - k, SlotsLeft(s, k, slot)
  {
    if k < |s.ids| {
      if slot >= |SlotsAt(s, k)| { SameScan(s, t, k + 1, 0); } else { SameScan(s, t, k, slot + 1); }
    }
  }

  /** The list without the ids of a set, the others in their order. */
  ghost function Without(rs: seq<RecordId>, gone: set<RecordId>): seq<RecordId> {
    if rs == [] then []
    else (if rs[0] in gone then [] else [rs[0]]) + Without(rs[1..], gone)
  }

  /** `t` is `s` with the records of a set deleted. */
  ghost predicate Emptied(s: Store, t: Store, gone: set<RecordId>) {
    && t.ids == s.ids && t.next == s.next
    && (forall id | id in s.pages :: id in t.pages && |t.pages[id].slots| == |s.pages[id].slots|)
    && (forall r :: Lookup(t, r) == if r in gone then [] else Lookup(s, r))
  }

  lemma EmptiedNothing(s: Store)
    ensures Emptied(s, s, {})
  {
  }

  lemma EmptiedOneMore(s: Store, t: Store, gone: set<RecordId>, r: RecordId)
    requires Valid(s) && Valid(t) && Emptied(s, t, gone)
    ensures var u := Delete(t, r).0; Valid(u) && u.next == t.next && Emptied(s, u, gone + {r})
  {
    DeleteIsMapRemove(t, r);
    hide Valid;
    var u := Delete(t, r).0;
    assert forall q :: Lookup(u, q) == if q in gone + {r} then [] else Lookup(s, q);
  }

  lemma WithoutCons(r: RecordId, rest: seq<RecordId>, gone: set<RecordId>)
    ensures Without([r] + rest, gone) == (if r in gone then [] else [r]) + Without(rest, gone)
    ensures r in gone ==> Without([r] + rest, gone) == Without(rest, gone)
  {
    assert ([r] + rest)[1..] == rest;
    assert [] + Without(rest, gone) == Without(rest, gone);
  }

  lemma EmptiedSlot(s: Store, t: Store, gone: set<RecordId>, k: nat, slot: nat)
    requires Valid(s) && Valid(t) && Emptied(s, t, gone) && k < |s.ids| && slot < |SlotsAt(s, k)|
    ensures slot < MAX_SLOTS && |SlotsAt(t, k)| == |SlotsAt(s, k)|
    ensures SlotsAt(t, k)[slot] == if RecordId(s.ids[k], slot) in gone then [] else SlotsAt(s, k)[slot]
  {
    RoomyBound(s.pages[s.ids[k]]);
    var r := RecordId(s.ids[k], slot);
    assert Lookup(s, r) == SlotsAt(s, k)[slot] && Lookup(t, r) == SlotsAt(t, k)[slot];
  }

  lemma ScanStep(s: Store, k: nat, slot: nat)
    requires Valid(s) && k < |s.ids| && slot < |SlotsAt(s, k)|
    ensures slot < MAX_SLOTS
    ensures SlotsAt(s, k)[slot] == [] ==> ScanFrom(s, k, slot) == ScanFrom(s, k, slot + 1)
    ensures SlotsAt(s, k)[slot] != [] ==> ScanFrom(s, k, slot) == [RecordId(s.ids[k], slot)] + ScanFrom(s, k, slot + 1)
  {
    RoomyBound(s.pages[s.ids[k]]);
    assert [] + ScanFrom(s, k, slot + 1) == ScanFrom(s, k, slot + 1);
  }

  /** Deleting a set of records takes exactly those out of the scan. */
  lemma {:induction false} EmptiedScan(s: Store, t: Store, gone: set<RecordId>, k: nat, slot: nat)
    requires Valid(s) && Valid(t) && Emptied(s, t, gone) && k <= |s.ids|
    ensures ScanFrom(t, k, slot) == Without(ScanFrom(s, k, slot), gone)
    decreases |s.ids| - k, SlotsLeft(s, k, slot)
  {
    hide Emptied, Lookup, ScanFrom, Without, Valid;
    EmptiedSizes(s, t, gone, k);
    if k == |s.ids| {
      ScanEnds(s, gone);
      ScanEnds(t, gone);
    } else if slot >= |SlotsAt(s, k)| {
      EmptiedScan(s, t, gone, k + 1, 0);
      ScanPageEnds(s, k, slot);
      ScanPageEnds(t, k, slot);
    } else {
      EmptiedSlot(s, t, gone, k, slot);
      EmptiedScan(s, t, gone, k, slot + 1);
      ScanStep(s, k, slot);
      ScanStep(t, k, slot);
      WithoutCons(RecordId(s.ids[k], slot), ScanFrom(s, k, slot + 1), gone);
    }
  }

  lemma ScanPageEnds(s: Store, k: nat, slot: nat)
    requires Valid(s) && k < |s.ids| && slot >= |SlotsAt(s, k)|
    ensures ScanFrom(s, k, slot) == ScanFrom(s, k + 1, 0)
  {
  }

  lemma ScanEnds(s: Store, gone: set<RecordId>)
    requires Valid(s)
    ensures forall slot: nat :: ScanFrom(s, |s.ids|, slot) == []
    ensures Without([], gone) == []
  {
  }

  lemma EmptiedSizes(s: Store, t: Store, gone: set<RecordId>, k: nat)
    requires Valid(s) && Valid(t) && Emptied(s, t, gone)
    ensures t.ids == s.ids && (k < |s.ids| ==> |SlotsAt(t, k)| == |SlotsAt(s, k)|)
  {
    if k < |s.ids| {
      var id := s.ids[k];
      assert id in s.pages;
      assert |t.pages[id].slots| == |s.pages[id].slots|;
    }
  }

  /** `t` is `s`, possibly compacted, with `data` in a new last slot of the page of `r`. */
  ghost predicate SlotAppended(s: Store, t: Store, r: RecordId, data: seq<byte>) {
    && t.ids == s.ids && r.pageId in s.pages
    && (forall id | id in s.pages :: id in t.pages && t.pages[id].slots ==
          if id == r.pageId then s.pages[id].slots + [data] else s.pages[id].slots)
    && r.slotId == |s.pages[r.pageId].slots| && data != []
  }

  ghost predicate PageAppended(s: Store, t: Store, r: RecordId, data: seq<byte>) {
    && t.ids == s.ids + [r.pageId] && r.pageId !in s.pages && r.slotId == 0 && data != []
    && (forall id | id in s.pages :: id in t.pages && t.pages[id].slots == s.pages[id].slots)
    && r.pageId in t.pages && t.pages[r.pageId].slots == [data]
  }

  lemma InsertShape(s: Store, data: seq<byte>)
    requires Valid(s) && s.next >= 0 && 0 < |data| <= MAX_RECORD
    ensures var (t, r) := Insert(s, data);
      Valid(t) && (if t.ids == s.ids then SlotAppended(s, t, r, data) else PageAppended(s, t, r, data))
  {
    hide *;
    SmallRecord(data);
    InsertIsMapInsert(s, data);
    var i, j := InsertCases(s, data);
    if i < |s.ids| {
      InsertInFirstPass(s, data, i);
      SameSlotsInItself(s);
      PlacedShape(s, s, s.ids[i], data);
    } else if j < |s.ids| {
      InsertInSecondPass(s, data, j);
      CompactedShape(s, j + 1);
      PlacedShape(s, CompactFirst(s, j + 1), s.ids[j], data);
    } else {
      InsertInNewPage(s, data);
      CompactedShape(s, |s.ids|);
      NextIsNew(s);
      NewPageShape(s, CompactFirst(s, |s.ids|), data);
    }
  }

  lemma SmallRecord(data: seq<byte>)
    requires |data| <= MAX_RECORD
    ensures |data| <= 65531 && InRange(|data|)
  {
  }

  lemma SameSlotsInItself(s: Store)
    ensures SameSlotsIn(s, s)
  {
  }

  /** The same pages with the same records, though perhaps compacted. */
  ghost predicate SameSlotsIn(s: Store, c: Store) {
    && c.ids == s.ids && c.next == s.next && c.pages.Keys == s.pages.Keys
    && forall id | id in s.pages :: c.pages[id].slots == s.pages[id].slots
  }

  lemma CompactedShape(s: Store, k: nat)
    requires Valid(s) && k <= |s.ids|
    ensures SameSlotsIn(s, CompactFirst(s, k))
  {
  }

  lemma NextIsNew(s: Store)
    requires Valid(s)
    ensures s.next !in s.pages
  {
  }

  lemma PlacedShape(s: Store, c: Store, id: int, data: seq<byte>)
    requires SameSlotsIn(s, c) && id in c.pages && Fits(c.pages[id], |data|) && |c.pages[id].slots| <= MAX_SLOTS
    requires data != []
    ensures SlotAppended(s, PlaceAt(c, id, data).0, PlaceAt(c, id, data).1, data)
    ensures PlaceAt(c, id, data).0.ids == s.ids
  {
  }

  lemma NewPageShape(s: Store, c: Store, data: seq<byte>)
    requires SameSlotsIn(s, c) && s.next !in s.pages && 0 < |data| <= MAX_RECORD
    ensures PageAppended(s, PlaceOnNewPage(c, data).0, PlaceOnNewPage(c, data).1, data)
    ensures PlaceOnNewPage(c, data).0.ids != s.ids
  {
  }

  /** The part of a scan that one page contributes. */
  ghost function PageScan(id: int, slots: seq<seq<byte>>, slot: nat): seq<RecordId>
    requires |slots| <= MAX_SLOTS
    decreases |slots| - slot
  {
    if slot >= |slots| then []
    else (if slots[slot] == [] then [] else [RecordId(id, slot)]) + PageScan(id, slots, slot + 1)
  }

  lemma {:induction false} ScanByPage(s: Store, k: nat, slot: nat)
    requires Valid(s) && k < |s.ids|
    ensures |SlotsAt(s, k)| <= MAX_SLOTS
    ensures ScanFrom(s, k, slot) == PageScan(s.ids[k], SlotsAt(s, k), slot) + ScanFrom(s, k + 1, 0)
    decreases |SlotsAt(s, k)| - slot
  {
    RoomyBound(s.pages[s.ids[k]]);
    if slot < |SlotsAt(s, k)| { ScanByPage(s, k, slot + 1); }
  }

  lemma {:induction false} PageScanAppended(id: int, slots: seq<seq<byte>>, data: seq<byte>, slot: nat)
    requires |slots| < MAX_SLOTS && data != [] && slot <= |slots|
    ensures PageScan(id, slots + [data], slot) == PageScan(id, slots, slot) + [RecordId(id, |slots|)]
    decreases |slots| - slot
  {
    if slot == |slots| {
      assert PageScan(id, slots + [data], slot) == [RecordId(id, slot)] + PageScan(id, slots + [data], slot + 1);
    } else {
      PageScanAppended(id, slots, data, slot + 1);
    }
  }

  lemma {:induction false} SamePagesScan(s: Store, t: Store, k: nat)
    requires Valid(s) && Valid(t) && t.ids == s.ids && k <= |s.ids|
    requires forall j | k <= j < |s.ids| :: SlotsAt(t, j) == SlotsAt(s, j)
    ensures ScanFrom(t, k, 0) == ScanFrom(s, k, 0)
    decreases |s.ids| - k
  {
    if k < |s.ids| {
      ScanByPage(s, k, 0);
      ScanByPage(t, k, 0);
      SamePagesScan(s, t, k + 1);
    }
  }

  /** A record inserted on page `at` joins the scan after that page's records. */
  lemma AppendedPages(s: Store, t: Store, r: RecordId, data: seq<byte>, at: nat)
    requires Valid(s) && Valid(t) && SlotAppended(s, t, r, data) && at < |s.ids| && s.ids[at] == r.pageId
    ensures t.ids == s.ids && data != [] && r.slotId == |SlotsAt(s, at)| < MAX_SLOTS
    ensures SlotsAt(t, at) == SlotsAt(s, at) + [data]
    ensures forall j | 0 <= j < |s.ids| && j != at :: SlotsAt(t, j) == SlotsAt(s, j)
  {
    RoomyBound(t.pages[t.ids[at]]);
  }

  lemma {:induction false} SlotAppendedScan(s: Store, t: Store, r: RecordId, data: seq<byte>, k: nat, at: nat)
    returns (i: nat)
    requires Valid(s) && Valid(t) && SlotAppended(s, t, r, data) && k <= at < |s.ids| && s.ids[at] == r.pageId
    ensures i <= |ScanFrom(s, k, 0)| && (at == |s.ids| - 1 ==> i == |ScanFrom(s, k, 0)|)
    ensures ScanFrom(t, k, 0) == ScanFrom(s, k, 0)[..i] + [r] + ScanFrom(s, k, 0)[i..]
    decreases at - k
  {
    hide ScanFrom, SlotsAt, SlotAppended, Valid, PageScan;
    AppendedPages(s, t, r, data, at);
    if k == at {
      i := AppendedHere(s, t, r, data, k);
    } else {
      ScanByPage(s, k, 0);
      ScanByPage(t, k, 0);
      var j := SlotAppendedScan(s, t, r, data, k + 1, at);
      var page := PageScan(s.ids[k], SlotsAt(s, k), 0);
      i := |page| + j;
      PrefixedSplit(page, ScanFrom(s, k + 1, 0), r, j);
    }
  }

  lemma AppendedHere(s: Store, t: Store, r: RecordId, data: seq<byte>, k: nat) returns (i: nat)
    requires Valid(s) && Valid(t) && SlotAppended(s, t, r, data) && k < |s.ids| && s.ids[k] == r.pageId
    ensures i <= |ScanFrom(s, k, 0)| && (k == |s.ids| - 1 ==> i == |ScanFrom(s, k, 0)|)
    ensures ScanFrom(t, k, 0) == ScanFrom(s, k, 0)[..i] + [r] + ScanFrom(s, k, 0)[i..]
  {
    ScanEnds(s, {});
    OnAppendedPage(s, t, r, data, k);
    hide *;
    var page := PageScan(r.pageId, SlotsAt(s, k), 0);
    i := |page|;
    TailSplit(page, ScanFrom(s, k + 1, 0), r);
  }

  lemma OnAppendedPage(s: Store, t: Store, r: RecordId, data: seq<byte>, k: nat)
    requires Valid(s) && Valid(t) && SlotAppended(s, t, r, data) && k < |s.ids| && s.ids[k] == r.pageId
    ensures |SlotsAt(s, k)| <= MAX_SLOTS && t.ids == s.ids
    ensures var page, rest := PageScan(r.pageId, SlotsAt(s, k), 0), ScanFrom(s, k + 1, 0);
      ScanFrom(s, k, 0) == page + rest && ScanFrom(t, k, 0) == page + [r] + rest
  {
    AppendedPages(s, t, r, data, k);
    hide ScanFrom, SlotsAt, SlotAppended, Valid, PageScan;
    ScanByPage(s, k, 0);
    ScanByPage(t, k, 0);
    PageScanAppended(r.pageId, SlotsAt(s, k), data, 0);
    SamePagesScan(s, t, k + 1);
  }

  lemma TailSplit(page: seq<RecordId>, rest: seq<RecordId>, r: RecordId)
    ensures page + [r] + rest == (page + rest)[..|page|] + [r] + (page + rest)[|page|..]
  {
  }

  lemma PrefixedSplit(page: seq<RecordId>, rest: seq<RecordId>, r: RecordId, j: nat)
    requires j <= |rest|
    ensures var i := |page| + j;
      page + (rest[..j] + [r] + rest[j..]) == (page + rest)[..i] + [r] + (page + rest)[i..]
  {
  }

  lemma {:induction false} PageAppendedScan(s: Store, t: Store, r: RecordId, data: seq<byte>, k: nat)
    requires Valid(s) && Valid(t) && PageAppended(s, t, r, data) && k <= |s.ids|
    ensures ScanFrom(t, k, 0) == ScanFrom(s, k, 0) + [r]
    decreases |s.ids| - k
  {
    ScanByPage(t, k, 0);
    if k < |s.ids| {
      ScanByPage(s, k, 0);
      PageAppendedScan(s, t, r, data, k + 1);
    } else {
      assert SlotsAt(t, k) == [data];
      assert PageScan(r.pageId, [data], 0) == [r] + PageScan(r.pageId, [data], 1);
    }
  }

  lemma RowsWith(s: Store, t: Store, i: nat, r: RecordId)
    requires Valid(s) && Valid(t) && i <= |Scan(s)|
    requires Scan(t) == Scan(s)[..i] + [r] + Scan(s)[i..]
    requires forall q | q in Scan(s) :: Lookup(t, q) == Lookup(s, q)
    ensures AllRows(t) == AllRows(s)[..i] + [Lookup(t, r)] + AllRows(s)[i..]
  {
    hide Scan, Lookup;
    assert forall j | 0 <= j < |Scan(s)| :: Scan(s)[j] in Scan(s);
  }

  lemma InsertKeepsRows(s: Store, data: seq<byte>)
    requires Valid(s) && s.next >= 0 && 0 < |data| <= MAX_RECORD
    ensures var (t, r) := Insert(s, data);
      && Valid(t) && Lookup(t, r) == data
      && forall q | q in Scan(s) :: Lookup(t, q) == Lookup(s, q)
  {
    InsertIsMapInsert(s, data);
    hide Insert, Lookup, Issued;
    forall q | q in Scan(s) ensures Lookup(Insert(s, data).0, q) == Lookup(s, q) { InsertedElsewhere(s, data, q); }
  }

  lemma InsertedElsewhere(s: Store, data: seq<byte>, q: RecordId)
    requires Valid(s) && s.next >= 0 && 0 < |data| <= MAX_RECORD && q in Scan(s)
    ensures Valid(Insert(s, data).0) && Lookup(Insert(s, data).0, q) == Lookup(s, q)
  {
    ScanExact(s, q);
    InsertIsMapInsert(s, data);
    hide Insert, Scan;
  }

  /** An insertion puts one id into the scan and keeps the order of the others. */
  lemma InsertScan(s: Store, data: seq<byte>) returns (i: nat)
    requires Valid(s) && s.next >= 0 && 0 < |data| <= MAX_RECORD
    ensures var (t, r) := Insert(s, data);
      && Valid(t) && i <= |Scan(s)|
      && Scan(t) == Scan(s)[..i] + [r] + Scan(s)[i..]
      && AllRows(t) == AllRows(s)[..i] + [data] + AllRows(s)[i..]
      && (t.ids != s.ids || r.pageId == s.ids[|s.ids| - 1] ==> i == |Scan(s)|)
  {
    hide Insert, Lookup, AllRows;
    var (t, r) := Insert(s, data);
    InsertShape(s, data);
    InsertKeepsRows(s, data);
    if t.ids == s.ids {
      var at :| 0 <= at < |s.ids| && s.ids[at] == r.pageId;
      i := SlotAppendedScan(s, t, r, data, 0, at);
    } else {
      PageAppendedScan(s, t, r, data, 0);
      i := |Scan(s)|;
    }
    RowsWith(s, t, i, r);
  }

  /** The rows are the multiset of what was inserted. */
  lemma InsertRows(s: Store, data: seq<byte>)
    requires Valid(s) && s.next >= 0 && 0 < |data| <= MAX_RECORD
    ensures Valid(Insert(s, data).0)
    ensures multiset(AllRows(Insert(s, data).0)) == multiset(AllRows(s)) + multiset{data}
  {
    var i := InsertScan(s, data);
    hide *;
    CountsOneMore(AllRows(s), i, data);
  }

  lemma CountsOneMore(rows: seq<seq<byte>>, i: nat, data: seq<byte>)
    requires i <= |rows|
    ensures multiset(rows[..i] + [data] + rows[i..]) == multiset(rows) + multiset{data}
  {
    assert rows == rows[..i] + rows[i..];
  }

  // ---- insertion order ----

  /** No page wastes a byte, and only the last one may have room for a record of `size`. */
  ghost predicate Dense(s: Store, size: nat)
    requires Valid(s)
  {
    && (forall i | 0 <= i < |s.ids| :: s.pages[s.ids[i]].free == Slack(s.pages[s.ids[i]]))
    && (forall i | 0 <= i < |s.ids| - 1 :: !Fits(s.pages[s.ids[i]], size))
  }

  /** On a dense store compaction has nothing to do. */
  lemma DenseCompacted(s: Store, size: nat, k: nat)
    requires Valid(s) && Dense(s, size) && k <= |s.ids|
    ensures CompactFirst(s, k) == s
    ensures forall i | 0 <= i < |s.ids| :: WithCompacted(s.pages[s.ids[i]]) == s.pages[s.ids[i]]
  {
    forall id | id in s.pages
      ensures WithCompacted(s.pages[id]) == s.pages[id]
    {
      var i :| 0 <= i < |s.ids| && s.ids[i] == id;
    }
    hide Slack;
    assert CompactFirst(s, k).pages == s.pages;
  }

  /** Such a store takes a record of the size on its last page, or on a new one. */
  lemma DenseInsertPlace(s: Store, data: seq<byte>)
    requires Valid(s) && s.next >= 0 && 0 < |data| <= MAX_RECORD && Dense(s, |data|)
    ensures var last := |s.ids| - 1;
      if last >= 0 && Fits(s.pages[s.ids[last]], |data|) then
        |s.pages[s.ids[last]].slots| <= MAX_SLOTS && Insert(s, data) == PlaceAt(s, s.ids[last], data)
      else Insert(s, data) == PlaceOnNewPage(s, data)
  {
    var last := |s.ids| - 1;
    if last >= 0 && Fits(s.pages[s.ids[last]], |data|) {
      InsertInFirstPass(s, data, last);
    } else {
      DenseCompacted(s, |data|, |s.ids|);
      hide Insert, WithCompacted, CompactFirst;
      InsertInNewPage(s, data);
    }
  }

  lemma DenseStays(s: Store, data: seq<byte>)
    requires Valid(s) && s.next >= 0 && 0 < |data| <= MAX_RECORD && Dense(s, |data|)
    ensures var (t, r) := Insert(s, data);
      && Valid(t) && t.next >= 0 && Dense(t, |data|)
      && (t.ids != s.ids || r.pageId == s.ids[|s.ids| - 1])
  {
    hide Insert, MapInsert;
    hide Slack;
    DenseInsertPlace(s, data);
    InsertIsMapInsert(s, data);
    var last := |s.ids| - 1;
    if last >= 0 && Fits(s.pages[s.ids[last]], |data|) {
      RoomyInserted(s.pages[s.ids[last]], data);
    } else {
      EmptyIsRoomy();
      RoomyInserted(EMPTY_PAGE, data);
      assert s.next !in s.pages;
    }
  }

  /** Inserting into a dense store appends to the scan. */
  lemma DenseInsert(s: Store, data: seq<byte>)
    requires Valid(s) && s.next >= 0 && 0 < |data| <= MAX_RECORD && Dense(s, |data|)
    ensures var (t, r) := Insert(s, data);
      && Valid(t) && t.next >= 0 && Dense(t, |data|)
      && Scan(t) == Scan(s) + [r] && AllRows(t) == AllRows(s) + [data]
  {
    DenseStays(s, data);
    var i := InsertScan(s, data);
    hide Insert, Scan, Dense;
    assert |AllRows(s)| == |Scan(s)|;
  }

  ghost function InsertAll(s: Store, rows: seq<seq<byte>>, size: nat): Store
    requires Valid(s) && s.next >= 0 && 0 < size <= MAX_RECORD
    requires forall i | 0 <= i < |rows| :: |rows[i]| == size
    decreases |rows|
  {
    if rows == [] then s
    else
      InsertIsMapInsert(s, rows[0]);
      InsertAll(Insert(s, rows[0]).0, rows[1..], size)
  }

  /** With rows of one length, and nothing deleted, the scan returns them in insertion order. */
  lemma {:induction false} InsertionOrder(s: Store, rows: seq<seq<byte>>, size: nat)
    requires Valid(s) && s.next >= 0 && 0 < size <= MAX_RECORD && Dense(s, size)
    requires forall i | 0 <= i < |rows| :: |rows[i]| == size
    ensures Valid(InsertAll(s, rows, size)) && AllRows(InsertAll(s, rows, size)) == AllRows(s) + rows
    decreases |rows|
  {
    hide Insert, Dense, AllRows, Valid;
    if rows != [] {
      DenseInsert(s, rows[0]);
      InsertIsMapInsert(s, rows[0]);
      InsertionOrder(Insert(s, rows[0]).0, rows[1..], size);
      assert AllRows(s) + [rows[0]] + rows[1..] == AllRows(s) + rows;
    }
  }
}