/**
 Whole runs of record-manager calls on the bytes of a table's pages. Ids are never reused, whatever is
 called. The store is a map from ids to bytes as long as no insertion compacts an unsafe page on its way;
 only an update that outgrows its room makes a page unsafe.
 */
module StoreRuns {
  import opened Bytes
  import opened PageLayout
  import opened RecordStore
  import opened PagedRecords

  datatype Call =
    | InsertCall(data: seq<byte>)
    | GetCall(r: RecordId)
    | DeleteCall(r: RecordId)
    | UpdateCall(r: RecordId, data: seq<byte>)

  /** What a call did to the map from ids to bytes. */
  datatype Event =
    | Nothing
    | Added(r: RecordId, data: seq<byte>)
    | Replaced(r: RecordId, data: seq<byte>)
    | Removed(r: RecordId)

  /** What the record manager's methods ask of their callers. */
  ghost predicate Legal(p: Paged, c: Call) {
    match c
    case InsertCall(data) => InRange(|data|) && p.next < MAX_PAGES
    case GetCall(r) => r.pageId == INVALID_PAGE_ID || r.pageId in p.ids
    case DeleteCall(r) => r.pageId == INVALID_PAGE_ID || r.pageId in p.ids
    case UpdateCall(r, _) => r.pageId == INVALID_PAGE_ID || r.pageId in p.ids
  }

  /** The call leaves compaction safe. */
  ghost predicate Careful(p: Paged, c: Call)
    requires Labelled(p.pages)
  {
    c.UpdateCall? ==> UpdateSafe(p, c.r, c.data)
  }

  /** The call compacts no page on which that may lose a record. */
  ghost predicate Faithful(p: Paged, c: Call)
    requires IsPaged(p)
  {
    c.InsertCall? ==> Lossless(p, c.data)
  }

  ghost function Step(p: Paged, c: Call): Paged
    requires IsPaged(p) && Legal(p, c)
  {
    match c
    case InsertCall(data) => PagedRecords.Insert(p, data).0
    case GetCall(_) => p
    case DeleteCall(r) => PagedRecords.Delete(p, r).0
    case UpdateCall(r, data) => PagedRecords.Update(p, r, data).0
  }

  /** What the call reports that it did. */
  ghost function EventOf(p: Paged, c: Call): Event
    requires IsPaged(p) && Legal(p, c)
  {
    match c
    case InsertCall(data) =>
      var r := PagedRecords.Insert(p, data).1;
      if r == INVALID_RECORD then Nothing else Added(r, data)
    case GetCall(_) => Nothing
    case DeleteCall(r) => if PagedRecords.Delete(p, r).1 then Removed(r) else Nothing
    case UpdateCall(r, data) => if PagedRecords.Update(p, r, data).1 then Replaced(r, data) else Nothing
  }

  /** The value of id `r` after an event, given its value before. */
  function After(e: Event, r: RecordId, v: seq<byte>): seq<byte> {
    match e
    case Nothing => v
    case Added(q, data) => if q == r then data else v
    case Replaced(q, data) => if q == r then data else v
    case Removed(q) => if q == r then [] else v
  }

  /** What every legal call does to the record `r`, safe for compaction or not: `s` becomes `t`. */
  ghost predicate Counts(s: Store, t: Store, c: Call, e: Event, r: RecordId) {
    && |Lookup(t, r)| == |After(e, r, Lookup(s, r))|
    && (Issued(s, r) ==> Issued(t, r))
    && (e.Added? ==> c.InsertCall? && !Issued(s, e.r) && Issued(t, e.r) && 0 < |c.data| <= MAX_RECORD)
    && (c.InsertCall? && 0 < |c.data| <= MAX_RECORD ==> e.Added? && e.data == c.data)
    && (e.Replaced? ==> Lookup(s, e.r) != [])
    && (e.Removed? <==> c.DeleteCall? && Issued(s, c.r))
  }

  /** What `StepCounts` says of a call. */
  ghost predicate Stepped(p: Paged, q: Paged, c: Call, e: Event, r: RecordId)
    requires IsPaged(p)
  {
    && IsPaged(q) && q.next >= p.next && Counts(Meaning(p), Meaning(q), c, e, r)
    && (Safe(p.pages) ==> (Safe(q.pages) <==> Careful(p, c)))
    && (Faithful(p, c) ==> Lookup(Meaning(q), r) == After(e, r, Lookup(Meaning(p), r)))
  }

  lemma NowStepped(p: Paged, q: Paged, c: Call, e: Event, r: RecordId)
    requires IsPaged(p) && IsPaged(q) && q.next >= p.next && Counts(Meaning(p), Meaning(q), c, e, r)
    requires Safe(p.pages) ==> (Safe(q.pages) <==> Careful(p, c))
    requires Faithful(p, c) ==> Lookup(Meaning(q), r) == After(e, r, Lookup(Meaning(p), r))
    ensures Stepped(p, q, c, e, r)
  {
    hide IsPaged, Safe, Meaning, Careful, Faithful, Counts, Lookup;
  }

  lemma InsertedCounts(s: Store, t: Store, id: RecordId, data: seq<byte>, r: RecordId)
    requires 0 < |data| <= MAX_RECORD ==> InsertsUnder(s, t, id, data)
    requires data == [] || |data| > MAX_RECORD ==> id == INVALID_RECORD && SameLengths(s, t)
    ensures Counts(s, t, InsertCall(data), if id == INVALID_RECORD then Nothing else Added(id, data), r)
  {
    hide Lookup, Issued;
  }

  lemma InsertedRecord(s: Store, data: seq<byte>, r: RecordId)
    requires Valid(s) && s.next >= 0 && InRange(|data|)
    ensures var (t, id) := RecordStore.Insert(s, data);
      Lookup(t, r) == After(if id == INVALID_RECORD then Nothing else Added(id, data), r, Lookup(s, r))
  {
    InsertIsMapInsert(s, data);
    hide RecordStore.Insert, Lookup, Issued, Valid;
  }

  lemma InsertCounts(p: Paged, data: seq<byte>, r: RecordId)
    requires IsPaged(p) && Legal(p, InsertCall(data))
    ensures Stepped(p, PagedRecords.Insert(p, data).0, InsertCall(data), EventOf(p, InsertCall(data)), r)
  {
    var (q, id) := PagedRecords.Insert(p, data);
    InsertFacts(p, data);
    MeaningNext(p);
    hide PagedRecords.Insert, RecordStore.Insert, InsertsUnder, SameLengths, Counts;
    hide Lookup, Issued, Safe, Lossless, Valid, Meaning, IsPaged, Stepped;
    InsertedCounts(Meaning(p), Meaning(q), id, data, r);
    InsertedRecord(Meaning(p), data, r);
    NowStepped(p, q, InsertCall(data), EventOf(p, InsertCall(data)), r);
  }

  lemma DeletedCounts(s: Store, id: RecordId, r: RecordId)
    requires Valid(s)
    ensures var (t, ok) := RecordStore.Delete(s, id); var e := if ok then Removed(id) else Nothing;
      Counts(s, t, DeleteCall(id), e, r) && Lookup(t, r) == After(e, r, Lookup(s, r))
  {
    DeleteIsMapRemove(s, id);
    hide RecordStore.Delete, Lookup, Issued, Valid;
  }

  lemma DeleteCounts(p: Paged, id: RecordId, r: RecordId)
    requires IsPaged(p) && Legal(p, DeleteCall(id))
    ensures Stepped(p, PagedRecords.Delete(p, id).0, DeleteCall(id), EventOf(p, DeleteCall(id)), r)
  {
    assert PagedRecords.Delete(p, id).0.next == p.next;
    MeaningIsValid(p);
    DeleteRefines(p, id);
    DeletedCounts(Meaning(p), id, r);
    hide PagedRecords.Delete, RecordStore.Delete, Lookup, Issued, Safe, Valid, IsPaged, Stepped, Counts, Meaning;
    NowStepped(p, PagedRecords.Delete(p, id).0, DeleteCall(id), EventOf(p, DeleteCall(id)), r);
  }

  lemma UpdatedCounts(s: Store, id: RecordId, data: seq<byte>, r: RecordId)
    requires Valid(s)
    ensures var (t, ok) := RecordStore.Update(s, id, data); var e := if ok then Replaced(id, data) else Nothing;
      Counts(s, t, UpdateCall(id, data), e, r) && Lookup(t, r) == After(e, r, Lookup(s, r))
  {
    UpdateIsMapUpdate(s, id, data);
    hide RecordStore.Update, Lookup, Issued, Valid;
  }

  lemma UpdateCounts(p: Paged, id: RecordId, data: seq<byte>, r: RecordId)
    requires IsPaged(p) && Legal(p, UpdateCall(id, data))
    ensures Stepped(p, PagedRecords.Update(p, id, data).0, UpdateCall(id, data), EventOf(p, UpdateCall(id, data)), r)
  {
    assert PagedRecords.Update(p, id, data).0.next == p.next;
    MeaningIsValid(p);
    UpdateRefines(p, id, data);
    UpdatedCounts(Meaning(p), id, data, r);
    hide PagedRecords.Update, RecordStore.Update, Lookup, Issued, Safe, Valid, IsPaged, Meaning;
    hide Stepped, UpdateSafe, Counts;
    NowStepped(p, PagedRecords.Update(p, id, data).0, UpdateCall(id, data), EventOf(p, UpdateCall(id, data)), r);
  }

  /**
   Every call, safe or not, keeps count of the ids and of each record's length. The records are what a
   faithful call reports, and where compaction is safe it stays so if and only if the call is careful.
   */
  lemma StepCounts(p: Paged, c: Call, r: RecordId)
    requires IsPaged(p) && Legal(p, c)
    ensures var q, e := Step(p, c), EventOf(p, c);
      && IsPaged(q) && q.next >= p.next && Counts(Meaning(p), Meaning(q), c, e, r)
      && (Safe(p.pages) ==> (Safe(q.pages) <==> Careful(p, c)))
      && (Safe(p.pages) ==> Faithful(p, c))
      && (Faithful(p, c) ==> Lookup(Meaning(q), r) == After(e, r, Lookup(Meaning(p), r)))
  {
    if c.InsertCall? && Safe(p.pages) { SafeIsLossless(p, c.data); }
    hide PagedRecords.Insert, PagedRecords.Delete, PagedRecords.Update;
    hide Lookup, Issued, Safe, Lossless, IsPaged, UpdateSafe, Meaning;
    match c {
      case InsertCall(data) => InsertCounts(p, data, r);
      case GetCall(_) =>
      case DeleteCall(id) => DeleteCounts(p, id, r);
      case UpdateCall(id, data) => UpdateCounts(p, id, data, r);
    }
  }

  ghost predicate LegalRun(p: Paged, calls: seq<Call>)
    requires IsPaged(p)
    decreases |calls|
  {
    calls == [] ||
    (Legal(p, calls[0]) &&
     (StepCounts(p, calls[0], INVALID_RECORD); LegalRun(Step(p, calls[0]), calls[1..])))
  }

  /** Every update of the run leaves compaction safe. */
  ghost predicate CarefulRun(p: Paged, calls: seq<Call>)
    requires IsPaged(p) && LegalRun(p, calls)
    decreases |calls|
  {
    calls == [] ||
    (Careful(p, calls[0]) &&
     (StepCounts(p, calls[0], INVALID_RECORD); CarefulRun(Step(p, calls[0]), calls[1..])))
  }

  /** No insertion of the run compacts a page on which that may lose a record. */
  ghost predicate FaithfulRun(p: Paged, calls: seq<Call>)
    requires IsPaged(p) && LegalRun(p, calls)
    decreases |calls|
  {
    calls == [] ||
    (Faithful(p, calls[0]) &&
     (StepCounts(p, calls[0], INVALID_RECORD); FaithfulRun(Step(p, calls[0]), calls[1..])))
  }

  ghost function Run(p: Paged, calls: seq<Call>): Paged
    requires IsPaged(p) && LegalRun(p, calls)
    decreases |calls|
  {
    if calls == [] then p
    else
      StepCounts(p, calls[0], INVALID_RECORD);
      Run(Step(p, calls[0]), calls[1..])
  }

  ghost function Trace(p: Paged, calls: seq<Call>): (es: seq<Event>)
    requires IsPaged(p) && LegalRun(p, calls)
    ensures |es| == |calls|
    decreases |calls|
  {
    if calls == [] then []
    else
      StepCounts(p, calls[0], INVALID_RECORD);
      [EventOf(p, calls[0])] + Trace(Step(p, calls[0]), calls[1..])
  }

  function Replay(es: seq<Event>, r: RecordId, v: seq<byte>): seq<byte> {
    if es == [] then v else Replay(es[1..], r, After(es[0], r, v))
  }

  /** After a faithful run, an id holds exactly what the calls reported: the store is a map. */
  lemma {:induction false} StoreRefinesMap(p: Paged, calls: seq<Call>, r: RecordId)
    requires IsPaged(p) && LegalRun(p, calls) && FaithfulRun(p, calls)
    ensures IsPaged(Run(p, calls))
    ensures Lookup(Meaning(Run(p, calls)), r) == Replay(Trace(p, calls), r, Lookup(Meaning(p), r))
    decreases |calls|
  {
    hide IsPaged, Safe, Careful, Faithful, Legal, Step, EventOf, After, Lookup, Issued, Meaning, Counts;
    if calls != [] {
      StepCounts(p, calls[0], r);
      StoreRefinesMap(Step(p, calls[0]), calls[1..], r);
    }
  }

  /** Careful updates are one way to a faithful run: every page stays safe. */
  lemma {:induction false} CarefulIsFaithful(p: Paged, calls: seq<Call>)
    requires IsPaged(p) && Safe(p.pages) && LegalRun(p, calls) && CarefulRun(p, calls)
    ensures FaithfulRun(p, calls) && IsPaged(Run(p, calls)) && Safe(Run(p, calls).pages)
    decreases |calls|
  {
    hide IsPaged, Safe, Careful, Faithful, Legal, Step, EventOf, Meaning, Counts;
    if calls != [] {
      StepCounts(p, calls[0], INVALID_RECORD);
      CarefulIsFaithful(Step(p, calls[0]), calls[1..]);
    }
  }

  /** Every state of the run is safe for compaction. */
  ghost predicate AlwaysSafe(p: Paged, calls: seq<Call>)
    requires IsPaged(p) && LegalRun(p, calls)
    decreases |calls|
  {
    Safe(p.pages) &&
    (calls == [] || (StepCounts(p, calls[0], INVALID_RECORD); AlwaysSafe(Step(p, calls[0]), calls[1..])))
  }

  /** A run is careful exactly if compaction loses nothing in any of its states. */
  lemma {:induction false} CarefulExactly(p: Paged, calls: seq<Call>)
    requires IsPaged(p) && Safe(p.pages) && LegalRun(p, calls)
    ensures CarefulRun(p, calls) <==> AlwaysSafe(p, calls)
    decreases |calls|
  {
    assert Labelled(p.pages);
    hide IsPaged, Safe, Careful, Legal, Step, EventOf, Meaning, Counts;
    if calls != [] {
      StepCounts(p, calls[0], INVALID_RECORD);
      if Careful(p, calls[0]) { CarefulExactly(Step(p, calls[0]), calls[1..]); }
    }
  }

  /** After any run, careful or not, a record is as long as the calls reported; a dead one has no bytes. */
  lemma {:induction false} LengthsRefineMap(p: Paged, calls: seq<Call>, r: RecordId, v: seq<byte>)
    requires IsPaged(p) && LegalRun(p, calls) && |v| == |Lookup(Meaning(p), r)|
    ensures IsPaged(Run(p, calls)) && (Issued(Meaning(p), r) ==> Issued(Meaning(Run(p, calls)), r))
    ensures |Lookup(Meaning(Run(p, calls)), r)| == |Replay(Trace(p, calls), r, v)|
    decreases |calls|
  {
    hide IsPaged, Safe, Legal, Step, EventOf, Lookup, Issued, Meaning;
    if calls != [] {
      StepCounts(p, calls[0], r);
      LengthsRefineMap(Step(p, calls[0]), calls[1..], r, After(EventOf(p, calls[0]), r, v));
    }
  }

  /** An id issued before the run is not issued in it. */
  lemma {:induction false} NewIdsAreNew(p: Paged, calls: seq<Call>, j: nat)
    requires IsPaged(p) && LegalRun(p, calls) && j < |calls| && Trace(p, calls)[j].Added?
    ensures !Issued(Meaning(p), Trace(p, calls)[j].r)
    decreases |calls|
  {
    hide IsPaged, Safe, Legal, Step, EventOf, Lookup, Issued, Meaning;
    StepCounts(p, calls[0], Trace(p, calls)[j].r);
    if j > 0 {
      NewIdsAreNew(Step(p, calls[0]), calls[1..], j - 1);
    }
  }

  /** Record ids are never reused, whatever was deleted, compacted, moved or destroyed in between. */
  lemma {:induction false} NeverReused(p: Paged, calls: seq<Call>, i: nat, j: nat)
    requires IsPaged(p) && LegalRun(p, calls) && i < j < |calls|
    requires Trace(p, calls)[i].Added? && Trace(p, calls)[j].Added?
    ensures Trace(p, calls)[i].r != Trace(p, calls)[j].r
    decreases |calls|
  {
    hide IsPaged, Safe, Legal, Step, EventOf, Lookup, Issued, Meaning;
    StepCounts(p, calls[0], INVALID_RECORD);
    if i > 0 {
      NeverReused(Step(p, calls[0]), calls[1..], i - 1, j - 1);
    } else {
      NewIdsAreNew(Step(p, calls[0]), calls[1..], j - 1);
    }
  }

  /** Once deleted, always deleted: no later call brings the id back, and updating it fails. */
  lemma {:induction false} DeadForever(p: Paged, calls: seq<Call>, r: RecordId)
    requires IsPaged(p) && LegalRun(p, calls) && Issued(Meaning(p), r) && Lookup(Meaning(p), r) == []
    ensures var q := Run(p, calls);
      && IsPaged(q) && Issued(Meaning(q), r) && Lookup(Meaning(q), r) == []
      && forall data :: PagedRecords.Update(q, r, data) == (q, false)
    decreases |calls|
  {
    assert Labelled(p.pages);
    hide IsPaged, Safe, Legal, Step, EventOf, Lookup, Issued, Meaning;
    if calls == [] {
      forall data ensures PagedRecords.Update(p, r, data) == (p, false) { DeadStaysDead(p, r, data); }
    } else {
      StepCounts(p, calls[0], r);
      DeadForever(Step(p, calls[0]), calls[1..], r);
    }
  }

  lemma DeadStaysDead(p: Paged, r: RecordId, data: seq<byte>)
    requires IsPaged(p) && Lookup(Meaning(p), r) == []
    ensures PagedRecords.Update(p, r, data) == (p, false)
  {
  }
}
