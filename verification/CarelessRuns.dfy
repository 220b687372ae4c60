/** Two short runs with the same careless update: one loses a record, one does not. */
module CarelessRuns {
  import opened Bytes
  import opened PageLayout
  import opened Compaction
  import opened PageManagement
  import opened RecordStore
  import opened PagedRecords
  import opened StoreRuns

  const EMPTY_TABLE := Paged([], map[], 0)

  function OnePage(b: PageBytes): Paged { Paged([0], map[0 := b], 1) }

  const FIRST := InsertCall([1])
  const SECOND := InsertCall([2])
  const GROW := UpdateCall(RecordId(0, 0), [3, 4])
  const READ := GetCall(RecordId(0, 1))

  /** A record that takes a whole page. */
  function Large(): (data: seq<byte>)
    ensures |data| == 4084
  {
    seq(4084, _ => 0)
  }

  /** The record [1] outgrows its room while [2] lies below it, and a record for which no page has room comes. */
  function CarelessCalls(): seq<Call> {
    [FIRST, SECOND] + [GROW, InsertCall(Large())]
  }

  /** The same update, and then only a read. */
  function HarmlessCalls(): seq<Call> {
    [FIRST, SECOND] + [GROW, READ]
  }

  lemma EmptyIsPaged()
    ensures IsPaged(EMPTY_TABLE) && Safe(EMPTY_TABLE.pages) && Valid(Meaning(EMPTY_TABLE))
    ensures forall r :: !Issued(Meaning(EMPTY_TABLE), r) && Lookup(Meaning(EMPTY_TABLE), r) == []
  {
    MeaningIsValid(EMPTY_TABLE);
  }

  lemma InsertedFirst(data: seq<byte>)
    requires 0 < |data| <= MAX_RECORD
    ensures IsPaged(EMPTY_TABLE) && Fits(EMPTY_PAGE, |data|)
    ensures PagedRecords.Insert(EMPTY_TABLE, data) == (OnePage(NewPageWith(0, data)), RecordId(0, 0))
  {
    EmptyIsPaged();
    InsertIsOnNewPage(EMPTY_TABLE, data);
    NoneCompacted(EMPTY_TABLE);
    hide PagedRecords.Insert, NewPageWith, CompactedTo;
    assert |EMPTY_TABLE.ids| == 0 && EMPTY_TABLE.ids + [0] == [0];
    assert OnNewPage(EMPTY_TABLE, data).0.pages == map[0 := NewPageWith(0, data)];
  }

  lemma OnePageIs(b: PageBytes)
    requires WellFormed(b) && HeaderPageId(b) == 0
    ensures IsPaged(OnePage(b)) && Labelled(OnePage(b).pages) && Valid(Meaning(OnePage(b)))
    ensures Meaning(OnePage(b)) == Store([0], map[0 := ViewOf(b)], 1)
  {
    hide WellFormed, HeaderPageId, Slots;
    assert IsPaged(OnePage(b));
    MeaningIsValid(OnePage(b));
    assert Meaning(OnePage(b)).pages == map[0 := ViewOf(b)];
  }

  lemma InsertedSecond(b: PageBytes, data: seq<byte>)
    requires WellFormed(b) && HeaderPageId(b) == 0 && 0 < |data| && Fits(ViewOf(b), |data|)
    ensures IsPaged(OnePage(b)) && DirectoryFits(b) && |data| + SLOT_SIZE <= FreeSpace(b) && |data| <= MAX_RECORD
    ensures PagedRecords.Insert(OnePage(b), data) == (OnePage(Inserted(b, data)), RecordId(0, SlotCount(b)))
  {
    var p := OnePage(b);
    assert MAX_RECORD == 4084 && MAX_PAGES == 0x8_0000 && p.next == 1 && |p.ids| == 1 && p.ids[0] == 0;
    assert 0 in p.pages && p.pages[0] == b;
    OnePageIs(b);
    RoomForRecord(b, |data|);
    PlacedOnOnly(b, data);
    assert NoRoom(Meaning(p), 0, |data|);
    hide *;
    InsertIsFirstFit(p, data, 0);
  }

  lemma PlacedOnOnly(b: PageBytes, data: seq<byte>)
    requires WellFormed(b) && HeaderPageId(b) == 0 && Fits(ViewOf(b), |data|)
    ensures Labelled(OnePage(b).pages) && DirectoryFits(b) && |data| + SLOT_SIZE <= FreeSpace(b)
    ensures PlacedOn(OnePage(b), 0, data) == (OnePage(Inserted(b, data)), RecordId(0, SlotCount(b)))
  {
    hide WellFormed, HeaderPageId, ViewOf, Inserted;
    InsertedView(b, data);
    assert map[0 := b][0 := Inserted(b, data)] == map[0 := Inserted(b, data)];
  }

  lemma UpdatedOnly(b: PageBytes, i: u16, data: seq<byte>)
    requires WellFormed(b) && HeaderPageId(b) == 0 && i < SlotCount(b) <= MAX_SLOTS && Live(b, i)
    requires SlotLength(b, i) < |data| <= FreeSpace(b)
    ensures IsPaged(OnePage(b)) && DirectoryFits(b)
    ensures PagedRecords.Update(OnePage(b), RecordId(0, i), data) == (OnePage(Regrown(b, i, data)), true)
  {
    OnePageIs(b);
    SlotOfRecord(OnePage(b), RecordId(0, i));
    assert ViewOf(b).free == FreeSpace(b) <= 4088;
    hide WellFormed, HeaderPageId, Slots, Regrown, IsPaged, Lookup;
    assert map[0 := b][0 := Regrown(b, i, data)] == map[0 := Regrown(b, i, data)];
  }

  lemma InsertedNowhere(b: PageBytes, data: seq<byte>)
    requires WellFormed(b) && HeaderPageId(b) == 0 && 0 < |data| <= MAX_RECORD
    requires Roomy(ViewOf(b)) && !Fits(ViewOf(b), |data|) && !Fits(WithCompacted(ViewOf(b)), |data|)
    ensures IsPaged(OnePage(b))
    ensures var (q, r) := PagedRecords.Insert(OnePage(b), data);
      r == RecordId(1, 0) && 0 in q.pages && q.pages[0] == Compacted(b)
  {
    OnePageIs(b);
    assert EMPTY_PAGE.free == 4088;
    hide WellFormed, HeaderPageId, ViewOf, PagedRecords.Insert, Valid, IsPaged, Labelled, Compacted, Slack, NewPageWith;
    InsertIsOnNewPage(OnePage(b), data);
    RoomOnceCompacted(OnePage(b), 0, |data|);
  }

  /** Two calls, and then the rest. */
  lemma RunTwo(p: Paged, p1: Paged, p2: Paged, a: Call, b: Call, rest: seq<Call>)
    requires IsPaged(p) && Legal(p, a) && p1 == Step(p, a)
    requires IsPaged(p1) && Legal(p1, b) && p2 == Step(p1, b)
    requires IsPaged(p2) && LegalRun(p2, rest) && Labelled(p.pages) && Labelled(p1.pages)
    ensures LegalRun(p, [a, b] + rest) && Run(p, [a, b] + rest) == Run(p2, rest)
    ensures Trace(p, [a, b] + rest) == [EventOf(p, a), EventOf(p1, b)] + Trace(p2, rest)
    ensures FaithfulRun(p, [a, b] + rest) <==> Faithful(p, a) && Faithful(p1, b) && FaithfulRun(p2, rest)
    ensures CarefulRun(p, [a, b] + rest) <==> Careful(p, a) && Careful(p1, b) && CarefulRun(p2, rest)
  {
    hide IsPaged, Labelled, Legal, Step, EventOf, Faithful, Careful;
    var calls := [a, b] + rest;
    assert calls[0] == a && calls[1..] == [b] + rest && calls[1..][0] == b && calls[1..][1..] == rest;
  }

  lemma JustOne(p: Paged, q: Paged, c: Call)
    requires IsPaged(p) && Legal(p, c) && q == Step(p, c) && IsPaged(q) && Labelled(p.pages)
    ensures LegalRun(p, [c]) && Run(p, [c]) == q && Trace(p, [c]) == [EventOf(p, c)]
    ensures FaithfulRun(p, [c]) <==> Faithful(p, c)
    ensures CarefulRun(p, [c]) <==> Careful(p, c)
  {
    hide IsPaged, Labelled, Legal, Step, EventOf, Faithful, Careful;
    assert [c][1..] == [];
  }

  /** A run of just two calls. */
  lemma JustTwo(p: Paged, p1: Paged, p2: Paged, a: Call, b: Call)
    requires IsPaged(p) && Legal(p, a) && p1 == Step(p, a)
    requires IsPaged(p1) && Legal(p1, b) && p2 == Step(p1, b) && IsPaged(p2)
    requires Labelled(p.pages) && Labelled(p1.pages)
    ensures LegalRun(p, [a, b]) && Run(p, [a, b]) == p2 && Trace(p, [a, b]) == [EventOf(p, a), EventOf(p1, b)]
    ensures FaithfulRun(p, [a, b]) <==> Faithful(p, a) && Faithful(p1, b)
    ensures CarefulRun(p, [a, b]) <==> Careful(p, a) && Careful(p1, b)
  {
    hide IsPaged, Labelled, Legal, Step, EventOf, Faithful, Careful;
    JustOne(p1, p2, b);
    assert [a, b][1..] == [b];
  }

  /** The pages of the run: after the first insertion, after the second, and after the update. */
  lemma ExamplePages() returns (one: PageBytes, a: PageBytes, b: PageBytes)
    ensures one == NewPageWith(0, [1]) && WellFormed(one) && HeaderPageId(one) == 0 && SlotCount(one) == 1
    ensures Fits(ViewOf(one), 1) && DirectoryFits(one) && 5 <= FreeSpace(one) && a == Inserted(one, [2])
    ensures WellFormed(a) && HeaderPageId(a) == 0 && SlotCount(a) == 2 && Live(a, 0) && SlotLength(a, 0) == 1
    ensures 2 <= FreeSpace(a) && b == Regrown(a, 0, [3, 4])
    ensures WellFormed(b) && HeaderPageId(b) == 0 && Slots(b) == [[3, 4], [2]] && FreeSpace(b) == 4076
    ensures WellFormed(Compacted(b)) && Slots(Compacted(b)) == [[3, 4], [3]]
    ensures SlotCount(b) == 2 == SlotCount(Compacted(b)) && HeaderPageId(Compacted(b)) == 0
  {
    a, b := GrowThenCompactLoses();
    one := NewPageWith(0, [1]);
    var e := Initialized(ZeroPage(), 0);
    assert WellFormed(e) && HeaderPageId(e) == 0 && Slots(e) == [] && |Slots(e)| == SlotCount(e) by {
      InitializedPage(ZeroPage(), 0);
    }
    hide Initialized, Inserted, Regrown, Compacted, HeaderPageId, InTupleArea, PairwiseDisjoint, Descending;
    assert one == Inserted(e, [1]);
    InsertedPage(e, [1]);
    InsertedFields(e, [1]);
    InsertedPage(one, [2]);
    RegrownPage(a, 0, [3, 4]);
    CompactedShape(b);
    assert |Slots(b)| == SlotCount(b);
  }

  lemma NoRoomOnExample(b: PageBytes)
    requires WellFormed(b) && Slots(b) == [[3, 4], [2]] && FreeSpace(b) == 4076
    ensures Roomy(ViewOf(b)) && !Fits(ViewOf(b), 4084) && !Fits(WithCompacted(ViewOf(b)), 4084)
  {
    ViewIsRoomy(b);
    assert Sizes([[3, 4], [2]]) == [2, 1];
    assert Total([2, 1]) == 3 by { assert [2, 1][1..] == [1] && [1][1..] == []; }
  }

  lemma InsertStep(p: Paged, data: seq<byte>, q: Paged, r: RecordId)
    requires IsPaged(p) && InRange(|data|) && p.next < MAX_PAGES
    requires PagedRecords.Insert(p, data) == (q, r) && r.pageId >= 0
    ensures Legal(p, InsertCall(data)) && Step(p, InsertCall(data)) == q && IsPaged(q)
    ensures EventOf(p, InsertCall(data)) == Added(r, data)
  {
    StepCounts(p, InsertCall(data), r);
    hide IsPaged, PagedRecords.Insert, Safe, Counts;
  }

  lemma UpdateStep(p: Paged, r: RecordId, data: seq<byte>, q: Paged)
    requires IsPaged(p) && r.pageId in p.ids && PagedRecords.Update(p, r, data) == (q, true)
    ensures Legal(p, UpdateCall(r, data)) && Step(p, UpdateCall(r, data)) == q && IsPaged(q)
    ensures EventOf(p, UpdateCall(r, data)) == Replaced(r, data)
  {
    StepCounts(p, UpdateCall(r, data), r);
    hide IsPaged, PagedRecords.Update, Safe, Counts;
  }

  /** What the record reads as after the last insertion has compacted its page. */
  lemma ReadAfter(q: Paged, c: PageBytes)
    requires IsPaged(q) && 0 in q.pages && q.pages[0] == c
    requires WellFormed(c) && SlotCount(c) == 2 && Slots(c) == [[3, 4], [3]]
    ensures Lookup(Meaning(q), RecordId(0, 1)) == [3]
  {
    SlotOfRecord(q, RecordId(0, 1));
  }

  /** An insertion that finds no page, or room on the only one, compacts nothing. */
  lemma NothingCompacted(p: Paged, size: nat)
    requires IsPaged(p) && |p.ids| <= 1
    requires |p.ids| == 1 ==> 0 in p.pages && p.ids[0] == 0 && WellFormed(p.pages[0]) && Fits(ViewOf(p.pages[0]), size)
    ensures CompactedBy(p, size) == 0
  {
    MeaningIsValid(p);
    hide WellFormed, ViewOf, Fits;
  }

  lemma ExampleIsUnsafe(b: PageBytes)
    requires WellFormed(b) && HeaderPageId(b) == 0 && Slots(b) == [[3, 4], [2]]
    requires WellFormed(Compacted(b)) && Slots(Compacted(b)) == [[3, 4], [3]]
    ensures Labelled(OnePage(b).pages) && !Safe(OnePage(b).pages)
  {
    OnePageIs(b);
    if CompactSafe(b) { CompactedSlots(b); }
    assert 0 in OnePage(b).pages;
    hide WellFormed, Compacted, HeaderPageId, Slots;
  }

  lemma FirstThreeSteps() returns (p1: Paged, p2: Paged, p3: Paged, b: PageBytes)
    ensures IsPaged(EMPTY_TABLE) && Legal(EMPTY_TABLE, FIRST) && p1 == Step(EMPTY_TABLE, FIRST)
    ensures IsPaged(p1) && Legal(p1, SECOND) && p2 == Step(p1, SECOND)
    ensures IsPaged(p2) && Legal(p2, GROW) && p3 == Step(p2, GROW)
    ensures IsPaged(p3) && p3 == OnePage(b)
    ensures WellFormed(b) && HeaderPageId(b) == 0 && Slots(b) == [[3, 4], [2]] && FreeSpace(b) == 4076
    ensures WellFormed(Compacted(b)) && SlotCount(Compacted(b)) == 2 && Slots(Compacted(b)) == [[3, 4], [3]]
    ensures EventOf(EMPTY_TABLE, FIRST) == Added(RecordId(0, 0), [1]) && Faithful(EMPTY_TABLE, FIRST)
    ensures EventOf(p1, SECOND) == Added(RecordId(0, 1), [2]) && Faithful(p1, SECOND)
    ensures EventOf(p2, GROW) == Replaced(RecordId(0, 0), [3, 4]) && Faithful(p2, GROW)
  {
    assert MAX_RECORD == 4084 && MAX_PAGES == 0x8_0000 && InRange(1) && InRange(4084);
    assert EMPTY_TABLE.next == 0 && |EMPTY_TABLE.ids| == 0;
    var one, a;
    one, a, b := ExamplePages();
    p1, p2, p3 := OnePage(one), OnePage(a), OnePage(b);
    assert p1.next == p2.next == p3.next == 1 && 0 in p2.ids && p1.ids == [0] && 0 in p1.pages && p1.pages[0] == one;
    assert FIRST == InsertCall([1]) && SECOND == InsertCall([2]) && GROW == UpdateCall(RecordId(0, 0), [3, 4]);
    hide *;
    EmptyIsPaged();
    InsertedFirst([1]);
    InsertStep(EMPTY_TABLE, [1], p1, RecordId(0, 0));
    NothingCompacted(EMPTY_TABLE, 1);
    NowFaithful(EMPTY_TABLE, FIRST);
    InsertedSecond(one, [2]);
    InsertStep(p1, [2], p2, RecordId(0, 1));
    NothingCompacted(p1, 1);
    NowFaithful(p1, SECOND);
    UpdatedOnly(a, 0, [3, 4]);
    UpdateStep(p2, RecordId(0, 0), [3, 4], p3);
    NowFaithful(p2, GROW);
  }

  lemma NowFaithful(p: Paged, c: Call)
    requires IsPaged(p) && (c.InsertCall? ==> CompactedBy(p, |c.data|) == 0)
    ensures Faithful(p, c)
  {
  }

  lemma LastStep(p: Paged, b: PageBytes) returns (q: Paged)
    requires IsPaged(p) && p == OnePage(b)
    requires WellFormed(b) && HeaderPageId(b) == 0 && Slots(b) == [[3, 4], [2]] && FreeSpace(b) == 4076
    requires WellFormed(Compacted(b)) && SlotCount(Compacted(b)) == 2 && Slots(Compacted(b)) == [[3, 4], [3]]
    ensures Legal(p, InsertCall(Large())) && q == Step(p, InsertCall(Large()))
    ensures IsPaged(q) && Lookup(Meaning(q), RecordId(0, 1)) == [3]
    ensures EventOf(p, InsertCall(Large())) == Added(RecordId(1, 0), Large())
  {
    assert MAX_RECORD == 4084 && MAX_PAGES == 0x8_0000 && InRange(4084) && p.next == 1;
    q := p;
    hide *;
    NoRoomOnExample(b);
    InsertedNowhere(b, Large());
    q := PagedRecords.Insert(p, Large()).0;
    InsertStep(p, Large(), q, RecordId(1, 0));
    ReadAfter(q, Compacted(b));
  }

  lemma CarelessReplay()
    ensures Replay([Added(RecordId(0, 0), [1]), Added(RecordId(0, 1), [2])] +
                   [Replaced(RecordId(0, 0), [3, 4]), Added(RecordId(1, 0), Large())], RecordId(0, 1), []) == [2]
    ensures Replay([Added(RecordId(0, 0), [1]), Added(RecordId(0, 1), [2])] +
                   [Replaced(RecordId(0, 0), [3, 4]), Nothing], RecordId(0, 1), []) == [2]
  {
    TwoEvents(Added(RecordId(0, 0), [1]), Added(RecordId(0, 1), [2]),
              [Replaced(RecordId(0, 0), [3, 4]), Added(RecordId(1, 0), Large())], RecordId(0, 1), []);
    TwoEvents(Added(RecordId(0, 0), [1]), Added(RecordId(0, 1), [2]),
              [Replaced(RecordId(0, 0), [3, 4]), Nothing], RecordId(0, 1), []);
    var none: seq<Event> := [];
    assert [Replaced(RecordId(0, 0), [3, 4]), Added(RecordId(1, 0), Large())] + none ==
      [Replaced(RecordId(0, 0), [3, 4]), Added(RecordId(1, 0), Large())];
    assert [Replaced(RecordId(0, 0), [3, 4]), Nothing] + none == [Replaced(RecordId(0, 0), [3, 4]), Nothing];
    TwoEvents(Replaced(RecordId(0, 0), [3, 4]), Added(RecordId(1, 0), Large()), none, RecordId(0, 1), [2]);
    TwoEvents(Replaced(RecordId(0, 0), [3, 4]), Nothing, none, RecordId(0, 1), [2]);
  }

  lemma TwoEvents(d: Event, e: Event, rest: seq<Event>, r: RecordId, v: seq<byte>)
    ensures Replay([d, e] + rest, r, v) == Replay(rest, r, After(e, r, After(d, r, v)))
  {
    hide After;
    var es := [d, e] + rest;
    assert es[0] == d && es[1..][0] == e && es[1..][1..] == rest;
  }

  lemma CarelessRunIs()
    ensures IsPaged(EMPTY_TABLE) && LegalRun(EMPTY_TABLE, CarelessCalls())
    ensures Trace(EMPTY_TABLE, CarelessCalls()) ==
      [Added(RecordId(0, 0), [1]), Added(RecordId(0, 1), [2])] +
      [Replaced(RecordId(0, 0), [3, 4]), Added(RecordId(1, 0), Large())]
    ensures IsPaged(Run(EMPTY_TABLE, CarelessCalls()))
    ensures Lookup(Meaning(Run(EMPTY_TABLE, CarelessCalls())), RecordId(0, 1)) == [3]
  {
    var large := InsertCall(Large());
    assert CarelessCalls() == [FIRST, SECOND] + [GROW, large];
    hide *;
    var p1, p2, p3, b := FirstThreeSteps();
    var p4 := LastStep(p3, b);
    JustTwo(p2, p3, p4, GROW, large);
    RunTwo(EMPTY_TABLE, p1, p2, FIRST, SECOND, [GROW, large]);
  }

  /** `CarelessCalls` is legal, and its last call not faithful: [2] has become [3]. */
  lemma CarelessRunLoses()
    ensures IsPaged(EMPTY_TABLE) && Safe(EMPTY_TABLE.pages) && LegalRun(EMPTY_TABLE, CarelessCalls())
    ensures Trace(EMPTY_TABLE, CarelessCalls()) ==
      [Added(RecordId(0, 0), [1]), Added(RecordId(0, 1), [2])] +
      [Replaced(RecordId(0, 0), [3, 4]), Added(RecordId(1, 0), Large())]
    ensures IsPaged(Run(EMPTY_TABLE, CarelessCalls()))
    ensures Lookup(Meaning(Run(EMPTY_TABLE, CarelessCalls())), RecordId(0, 1)) == [3]
    ensures !FaithfulRun(EMPTY_TABLE, CarelessCalls()) && !CarefulRun(EMPTY_TABLE, CarelessCalls())
  {
    hide *;
    EmptyIsPaged();
    CarelessRunIs();
    CarelessReplay();
    if FaithfulRun(EMPTY_TABLE, CarelessCalls()) {
      StoreRefinesMap(EMPTY_TABLE, CarelessCalls(), RecordId(0, 1));
      assert false;
    }
    if CarefulRun(EMPTY_TABLE, CarelessCalls()) {
      CarefulIsFaithful(EMPTY_TABLE, CarelessCalls());
      assert false;
    }
  }

  /** With a read in place of the last insertion nothing compacts the page: not careful, but faithful, and a map. */
  lemma HarmlessRun()
    ensures IsPaged(EMPTY_TABLE) && LegalRun(EMPTY_TABLE, HarmlessCalls())
    ensures FaithfulRun(EMPTY_TABLE, HarmlessCalls()) && !CarefulRun(EMPTY_TABLE, HarmlessCalls())
    ensures IsPaged(Run(EMPTY_TABLE, HarmlessCalls()))
    ensures Lookup(Meaning(Run(EMPTY_TABLE, HarmlessCalls())), RecordId(0, 1)) == [2]
  {
    assert HarmlessCalls() == [FIRST, SECOND] + [GROW, READ];
    hide *;
    EmptyIsPaged();
    var p1, p2, p3, b := FirstThreeSteps();
    ReadStep(p3, b);
    JustTwo(p2, p3, p3, GROW, READ);
    RunTwo(EMPTY_TABLE, p1, p2, FIRST, SECOND, [GROW, READ]);
    CarelessReplay();
    StoreRefinesMap(EMPTY_TABLE, HarmlessCalls(), RecordId(0, 1));
    if CarefulRun(EMPTY_TABLE, HarmlessCalls()) {
      CarefulIsSafe(p1, p2, p3);
      ExampleIsUnsafe(b);
      assert false;
    }
  }

  lemma ReadStep(p: Paged, b: PageBytes)
    requires IsPaged(p) && p == OnePage(b)
    ensures Legal(p, READ) && Step(p, READ) == p && EventOf(p, READ) == Nothing && Faithful(p, READ)
  {
    hide IsPaged;
    assert p.ids[0] == 0;
  }

  lemma CarefulIsSafe(p1: Paged, p2: Paged, p3: Paged)
    requires IsPaged(EMPTY_TABLE) && Safe(EMPTY_TABLE.pages)
    requires Legal(EMPTY_TABLE, FIRST) && p1 == Step(EMPTY_TABLE, FIRST)
    requires IsPaged(p1) && Legal(p1, SECOND) && p2 == Step(p1, SECOND)
    requires IsPaged(p2) && Legal(p2, GROW) && p3 == Step(p2, GROW) && IsPaged(p3)
    requires Labelled(EMPTY_TABLE.pages) && Labelled(p1.pages) && Labelled(p2.pages)
    requires Careful(EMPTY_TABLE, FIRST) && Careful(p1, SECOND) && Careful(p2, GROW)
    ensures Labelled(p3.pages) && Safe(p3.pages)
  {
    StepCounts(EMPTY_TABLE, FIRST, INVALID_RECORD);
    StepCounts(p1, SECOND, INVALID_RECORD);
    StepCounts(p2, GROW, INVALID_RECORD);
    assert Labelled(p3.pages);
    hide *;
  }
}
