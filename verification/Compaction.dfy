/**
 In-place compaction of a slotted page: live tuples are moved, in slot order, to the top
 of the page. The move of one slot can land on the bytes of a slot not yet moved; this
 module proves exactly which pages are safe from that.
 */
module Compaction {
  import opened Bytes
  import opened PageLayout

  function Total(s: seq<nat>): nat {
    if s == [] then 0 else s[0] + Total(s[1..])
  }

  lemma {:induction false} TotalSplit(s: seq<nat>, i: nat)
    requires i <= |s|
    ensures Total(s) == Total(s[..i]) + Total(s[i..])
  {
    if i == 0 {
      assert s[..0] == [] && s[0..] == s;
    } else {
      TotalSplit(s[1..], i - 1);
      assert s[1..][..i - 1] == s[..i][1..] && s[1..][i - 1..] == s[i..];
    }
  }

  lemma TotalGrows(s: seq<nat>, i: nat, k: nat)
    requires i <= k < |s|
    ensures Total(s[i..k + 1]) == Total(s[i..k]) + s[k]
    ensures Total(s[i..k + 1]) == s[i] + Total(s[i + 1..k + 1])
  {
    TotalSplit(s[i..k + 1], k - i);
    assert s[i..k + 1][..k - i] == s[i..k] && s[i..k + 1][k - i..] == [s[k]];
    assert s[i..k + 1][1..] == s[i + 1..k + 1];
  }

  /** Bytes taken by a page's live records. */
  ghost function LiveBytes(slots: seq<seq<byte>>): nat {
    Total(Sizes(slots))
  }

  ghost function Sizes(slots: seq<seq<byte>>): seq<nat> {
    seq(|slots|, i requires 0 <= i < |slots| => |slots[i]|)
  }

  lemma LiveBytesAppend(slots: seq<seq<byte>>, data: seq<byte>)
    ensures LiveBytes(slots + [data]) == LiveBytes(slots) + |data|
  {
    var s := Sizes(slots + [data]);
    TotalSplit(s, |slots|);
    assert s[..|slots|] == Sizes(slots) && s[|slots|..] == [|data|];
  }

  lemma LiveBytesUpdate(slots: seq<seq<byte>>, i: nat, data: seq<byte>)
    requires i < |slots|
    ensures LiveBytes(slots[i := data]) == LiveBytes(slots) - |slots[i]| + |data|
  {
    var s, t := Sizes(slots), Sizes(slots[i := data]);
    TotalSplit(s, i);
    TotalSplit(t, i);
    assert s[..i] == t[..i] && s[i..][1..] == t[i..][1..];
  }

  function Lengths(b: PageBytes): (s: seq<nat>)
    requires SlotCount(b) <= MAX_SLOTS
    ensures |s| == SlotCount(b)
  {
    seq(SlotCount(b), i requires 0 <= i < SlotCount(b) => SlotLength(b, i))
  }

  lemma LengthsOfSlots(b: PageBytes)
    requires WellFormed(b)
    ensures Total(Lengths(b)) == LiveBytes(Slots(b))
  {
    assert Lengths(b) == Sizes(Slots(b));
  }

  // ---- live tuples fit above the directory, in whatever order they lie ----

  ghost function Span(lo: int, hi: int): (r: set<int>)
    requires lo <= hi
    ensures |r| == hi - lo
    ensures forall k :: k in r <==> lo <= k < hi
    decreases hi - lo
  {
    if lo == hi then {} else {lo} + Span(lo + 1, hi)
  }

  ghost function OccupiedFrom(b: PageBytes, i: nat): set<int>
    requires SlotCount(b) <= MAX_SLOTS && i <= SlotCount(b)
    decreases SlotCount(b) - i
  {
    if i == SlotCount(b) then {}
    else Span(SlotOffset(b, i), SlotEnd(b, i)) + OccupiedFrom(b, i + 1)
  }

  lemma {:induction false} OccupiedSize(b: PageBytes, i: nat)
    requires WellFormed(b) && i <= SlotCount(b)
    ensures |OccupiedFrom(b, i)| == Total(Lengths(b)[i..])
    ensures OccupiedFrom(b, i) <= Span(FreeOffset(b) + 1, PAGE_SIZE)
    ensures forall k | k in OccupiedFrom(b, i) ::
      exists j :: i <= j < SlotCount(b) && Live(b, j) && SlotOffset(b, j) <= k < SlotEnd(b, j)
    decreases SlotCount(b) - i
  {
    if i < SlotCount(b) {
      OccupiedSize(b, i + 1);
      assert Lengths(b)[i..][1..] == Lengths(b)[i + 1..];
      assert Span(SlotOffset(b, i), SlotEnd(b, i)) !! OccupiedFrom(b, i + 1);
      forall k | k in Span(SlotOffset(b, i), SlotEnd(b, i))
        ensures Live(b, i) && k in Span(FreeOffset(b) + 1, PAGE_SIZE)
      {
      }
    }
  }

  /** Disjoint tuples cannot be longer, together, than the space they share. */
  lemma LiveBytesFit(b: PageBytes)
    requires WellFormed(b)
    ensures FreeOffset(b) + 1 + LiveBytes(Slots(b)) <= PAGE_SIZE
    ensures FreeOffset(b) + 1 + Total(Lengths(b)) <= PAGE_SIZE
  {
    OccupiedSize(b, 0);
    assert Lengths(b)[0..] == Lengths(b);
    var area := Span(FreeOffset(b) + 1, PAGE_SIZE);
    assert area == OccupiedFrom(b, 0) + (area - OccupiedFrom(b, 0));
    LengthsOfSlots(b);
  }

  // ---- the compaction loop ----

  /** Slots `i..` are where they were, and there is room for them below `writePtr`. */
  ghost predicate Ready(b: PageBytes, i: nat, writePtr: int) {
    && i <= SlotCount(b) <= MAX_SLOTS
    && DirEnd(b) + Total(Lengths(b)[i..]) <= writePtr + 1 <= PAGE_SIZE
    && forall k | i <= k < SlotCount(b) && Live(b, k) ::
         DirEnd(b) <= SlotOffset(b, k) && SlotEnd(b, k) <= PAGE_SIZE
  }

  lemma ReadyAtStart(b: PageBytes)
    requires WellFormed(b)
    ensures Ready(b, 0, PAGE_SIZE - 1)
  {
    LiveBytesFit(b);
    assert Lengths(b)[0..] == Lengths(b);
  }

  /** One iteration on a live slot: move the tuple to end at `writePtr`, then its offset. */
  ghost function Moved(b: PageBytes, i: nat, writePtr: int): PageBytes
    requires Ready(b, i, writePtr) && i < SlotCount(b) && Live(b, i)
  {
    assert Lengths(b)[i..][1..] == Lengths(b)[i + 1..];
    var newOffset := writePtr - SlotLength(b, i) + 1;
    PutU16(Splice(b, newOffset, b[SlotOffset(b, i)..SlotEnd(b, i)]), SlotPos(i), newOffset)
  }

  lemma MovedFields(b: PageBytes, i: nat, writePtr: int)
    requires Ready(b, i, writePtr) && i < SlotCount(b) && Live(b, i)
    ensures var r := Moved(b, i, writePtr);
      && SlotCount(r) == SlotCount(b) && FreeOffset(r) == FreeOffset(b)
      && r[0..4] == b[0..4]
      && SlotOffset(r, i) == writePtr - SlotLength(b, i) + 1 >= DirEnd(b)
      && (forall k | 0 <= k < SlotCount(b) :: SlotLength(r, k) == SlotLength(b, k))
      && (forall k | 0 <= k < SlotCount(b) && k != i :: SlotOffset(r, k) == SlotOffset(b, k))
  {
    assert Lengths(b)[i..][1..] == Lengths(b)[i + 1..];
  }

  lemma ReadyAgain(b: PageBytes, i: nat, writePtr: int)
    requires Ready(b, i, writePtr) && i < SlotCount(b) && Live(b, i)
    ensures var r := Moved(b, i, writePtr);
      && SlotCount(r) == SlotCount(b) && Lengths(r) == Lengths(b)
      && Ready(r, i + 1, writePtr - SlotLength(b, i))
  {
    MovedFields(b, i, writePtr);
    assert Lengths(b)[i..][1..] == Lengths(b)[i + 1..];
    assert Lengths(Moved(b, i, writePtr)) == Lengths(b);
  }

  lemma ReadySkip(b: PageBytes, i: nat, writePtr: int)
    requires Ready(b, i, writePtr) && i < SlotCount(b) && !Live(b, i)
    ensures Ready(b, i + 1, writePtr)
  {
    assert Lengths(b)[i..][1..] == Lengths(b)[i + 1..];
  }

  /** The loop from slot `i` on, and the final store of the free-space offset. */
  ghost function CompactFrom(b: PageBytes, i: nat, writePtr: int): PageBytes
    requires Ready(b, i, writePtr)
    decreases SlotCount(b) - i
  {
    if i == SlotCount(b) then
      PutU16(b, 4, writePtr)
    else if !Live(b, i) then
      ReadySkip(b, i, writePtr);
      CompactFrom(b, i + 1, writePtr)
    else
      ReadyAgain(b, i, writePtr);
      CompactFrom(Moved(b, i, writePtr), i + 1, writePtr - SlotLength(b, i))
  }

  ghost function Compacted(b: PageBytes): PageBytes
    requires WellFormed(b)
  {
    ReadyAtStart(b);
    CompactFrom(b, 0, PAGE_SIZE - 1)
  }

  // ---- where everything ends up ----

  /** Where the loop, standing at slot `i`, will put slot `k`. */
  ghost function NewOffset(b: PageBytes, i: nat, writePtr: int, k: nat): int
    requires i <= k < SlotCount(b) <= MAX_SLOTS
  {
    writePtr + 1 - Total(Lengths(b)[i..k + 1])
  }

  lemma NewOffsetStep(b: PageBytes, i: nat, writePtr: int, k: nat)
    requires i < k < SlotCount(b) <= MAX_SLOTS
    ensures NewOffset(b, i, writePtr, k) == NewOffset(b, i + 1, writePtr - SlotLength(b, i), k)
    ensures NewOffset(b, i, writePtr, k) == NewOffset(b, i, writePtr, k - 1) - SlotLength(b, k)
  {
    TotalGrows(Lengths(b), i, k);
  }

  /** `r` is what the loop makes of `b` from slot `i` on, as far as the directory goes. */
  ghost predicate Packs(b: PageBytes, i: nat, writePtr: int, r: PageBytes)
    requires i <= SlotCount(b) <= MAX_SLOTS
  {
    && SlotCount(r) == SlotCount(b)
    && r[0..4] == b[0..4]
    && FreeOffset(r) == writePtr - Total(Lengths(b)[i..])
    && (forall k | 0 <= k < SlotCount(b) :: SlotLength(r, k) == SlotLength(b, k))
    && (forall k | 0 <= k < i :: SlotOffset(r, k) == SlotOffset(b, k))
    && (forall k | i <= k < SlotCount(b) && Live(b, k) :: SlotOffset(r, k) == NewOffset(b, i, writePtr, k))
    && (forall p | writePtr < p < PAGE_SIZE :: r[p] == b[p])
  }

  lemma NewOffsetsStep(b: PageBytes, i: nat, writePtr: int)
    requires i < SlotCount(b) <= MAX_SLOTS
    ensures Total(Lengths(b)[i..]) == SlotLength(b, i) + Total(Lengths(b)[i + 1..])
    ensures NewOffset(b, i, writePtr, i) == writePtr + 1 - SlotLength(b, i)
    ensures forall k | i < k < SlotCount(b) ::
      NewOffset(b, i, writePtr, k) == NewOffset(b, i + 1, writePtr - SlotLength(b, i), k)
  {
    assert Lengths(b)[i..][1..] == Lengths(b)[i + 1..];
    assert Lengths(b)[i..i + 1] == [SlotLength(b, i)];
    assert Total([SlotLength(b, i)]) == SlotLength(b, i) + Total([]);
    forall k | i < k < SlotCount(b)
      ensures NewOffset(b, i, writePtr, k) == NewOffset(b, i + 1, writePtr - SlotLength(b, i), k)
    {
      NewOffsetStep(b, i, writePtr, k);
    }
  }

  lemma PacksStep(b: PageBytes, i: nat, writePtr: int, m: PageBytes, r: PageBytes)
    requires Ready(b, i, writePtr) && i < SlotCount(b)
    requires m == if Live(b, i) then Moved(b, i, writePtr) else b
    requires SlotCount(m) == SlotCount(b) && Packs(m, i + 1, writePtr - SlotLength(b, i), r)
    ensures Packs(b, i, writePtr, r)
  {
    NewOffsetsStep(b, i, writePtr);
    if Live(b, i) {
      ReadyAgain(b, i, writePtr);
      MovedFields(b, i, writePtr);
      MovedBytes(b, i, writePtr);
    }
  }

  lemma MovedBytes(b: PageBytes, i: nat, writePtr: int)
    requires Ready(b, i, writePtr) && i < SlotCount(b) && Live(b, i)
    ensures forall p | DirEnd(b) <= p < PAGE_SIZE && !(writePtr - SlotLength(b, i) < p <= writePtr) ::
      Moved(b, i, writePtr)[p] == b[p]
    ensures Moved(b, i, writePtr)[writePtr - SlotLength(b, i) + 1..writePtr + 1] == Tuple(b, i)
  {
    MovedFields(b, i, writePtr);
  }

  lemma {:induction false} CompactFromGeometry(b: PageBytes, i: nat, writePtr: int)
    requires Ready(b, i, writePtr)
    ensures Packs(b, i, writePtr, CompactFrom(b, i, writePtr))
    decreases SlotCount(b) - i
  {
    hide Moved, Splice, PutU16, U16At, Tuple, Lengths;
    if i < SlotCount(b) {
      if Live(b, i) {
        var m := Moved(b, i, writePtr);
        ReadyAgain(b, i, writePtr);
        CompactFromGeometry(m, i + 1, writePtr - SlotLength(b, i));
        PacksStep(b, i, writePtr, m, CompactFrom(b, i, writePtr));
      } else {
        ReadySkip(b, i, writePtr);
        CompactFromGeometry(b, i + 1, writePtr);
        PacksStep(b, i, writePtr, b, CompactFrom(b, i, writePtr));
      }
    }
  }

  lemma {:induction false} NewOffsetsDescend(b: PageBytes, k: nat, j: nat)
    requires k < j < SlotCount(b) <= MAX_SLOTS
    ensures NewOffset(b, 0, PAGE_SIZE - 1, j) + SlotLength(b, j) <= NewOffset(b, 0, PAGE_SIZE - 1, k)
  {
    NewOffsetStep(b, 0, PAGE_SIZE - 1, j);
    if k < j - 1 { NewOffsetsDescend(b, k, j - 1); }
  }

  /** Compaction leaves the tuples packed, in descending order, and wastes no byte. */
  lemma CompactedShape(b: PageBytes)
    requires WellFormed(b)
    ensures var r := Compacted(b);
      && WellFormed(r) && Descending(r)
      && HeaderPageId(r) == HeaderPageId(b)
      && SlotCount(r) == SlotCount(b)
      && FreeSpace(r) == PAGE_SIZE - HEADER_SIZE - SLOT_SIZE * SlotCount(b) - LiveBytes(Slots(b))
      && forall k | 0 <= k < SlotCount(b) :: SlotLength(r, k) == SlotLength(b, k)
  {
    var r := Compacted(b);
    ReadyAtStart(b);
    CompactFromGeometry(b, 0, PAGE_SIZE - 1);
    LengthsOfSlots(b);
    LiveBytesFit(b);
    assert Lengths(b)[0..] == Lengths(b);
    forall k, j | 0 <= k < j < SlotCount(b) && Live(b, k) && Live(b, j)
      ensures SlotEnd(r, j) <= SlotOffset(r, k)
    {
      NewOffsetsDescend(b, k, j);
    }
    forall k | 0 <= k < SlotCount(b) && Live(b, k)
      ensures FreeOffset(r) < SlotOffset(r, k) && SlotEnd(r, k) <= PAGE_SIZE
    {
      NewOffsetBounds(b, k);
    }
  }

  lemma NewOffsetBounds(b: PageBytes, k: nat)
    requires WellFormed(b) && k < SlotCount(b)
    ensures PAGE_SIZE - Total(Lengths(b)) <= NewOffset(b, 0, PAGE_SIZE - 1, k) <= PAGE_SIZE - SlotLength(b, k)
  {
    TotalSplit(Lengths(b), k + 1);
    TotalGrows(Lengths(b), 0, k);
    assert Lengths(b)[0..k + 1] == Lengths(b)[..k + 1];
  }

  // ---- when the tuples survive ----

  /** No move, from slot `i` on, lands on a live tuple that has not been moved yet. */
  ghost predicate SafeFrom(b: PageBytes, i: nat, writePtr: int)
    requires i <= SlotCount(b) <= MAX_SLOTS
  {
    forall k, j | i <= k < j < SlotCount(b) && Live(b, k) && Live(b, j) ::
      SlotEnd(b, j) <= NewOffset(b, i, writePtr, k)
  }

  ghost predicate CompactSafe(b: PageBytes)
    requires WellFormed(b)
  {
    SafeFrom(b, 0, PAGE_SIZE - 1)
  }

  lemma SafeStep(b: PageBytes, i: nat, writePtr: int)
    requires Ready(b, i, writePtr) && SafeFrom(b, i, writePtr) && i < SlotCount(b) && Live(b, i)
    ensures var r := Moved(b, i, writePtr);
      SlotCount(r) == SlotCount(b) && SafeFrom(r, i + 1, writePtr - SlotLength(b, i))
  {
    MovedFields(b, i, writePtr);
    ReadyAgain(b, i, writePtr);
    hide Moved;
    var r := Moved(b, i, writePtr);
    forall k, j | i + 1 <= k < j < SlotCount(r) && Live(r, k) && Live(r, j)
      ensures SlotEnd(r, j) <= NewOffset(r, i + 1, writePtr - SlotLength(b, i), k)
    {
      NewOffsetStep(b, i, writePtr, k);
      assert Live(b, k) && Live(b, j);
    }
  }

  /** A move that ends above slot `j` leaves slot `j` alone. */
  lemma TupleAfterMove(b: PageBytes, i: nat, writePtr: int, j: nat)
    requires Ready(b, i, writePtr) && i < j < SlotCount(b) && Live(b, i)
    requires Live(b, j) ==> SlotEnd(b, j) <= writePtr - SlotLength(b, i) + 1
    ensures SameSlot(b, Moved(b, i, writePtr), j)
    ensures (Live(b, j) ==> SlotEnd(b, j) <= PAGE_SIZE) && Tuple(Moved(b, i, writePtr), j) == Tuple(b, j)
  {
    MovedFields(b, i, writePtr);
    MovedBytes(b, i, writePtr);
    hide Moved, U16At;
  }

  lemma TuplesAfterMove(b: PageBytes, i: nat, writePtr: int)
    requires Ready(b, i, writePtr) && SafeFrom(b, i, writePtr) && i < SlotCount(b) && Live(b, i)
    ensures var r := Moved(b, i, writePtr);
      && SlotEnd(r, i) <= PAGE_SIZE && Tuple(r, i) == Tuple(b, i)
      && SameTuples(b, r, i + 1)
  {
    var r := Moved(b, i, writePtr);
    MovedFields(b, i, writePtr);
    MovedBytes(b, i, writePtr);
    assert Tuple(r, i) == Tuple(b, i);
    hide Moved, U16At, Tuple;
    forall j | i < j < SlotCount(b)
      ensures (Live(b, j) ==> SlotEnd(b, j) <= PAGE_SIZE) && SameSlot(b, r, j) && Tuple(r, j) == Tuple(b, j)
    {
      SafeAbove(b, i, writePtr, j);
      TupleAfterMove(b, i, writePtr, j);
    }
  }

  lemma SafeAbove(b: PageBytes, i: nat, writePtr: int, j: nat)
    requires i < j < SlotCount(b) && SlotCount(b) <= MAX_SLOTS && SafeFrom(b, i, writePtr) && Live(b, i)
    ensures Live(b, j) ==> SlotEnd(b, j) <= writePtr - SlotLength(b, i) + 1
  {
    NewOffsetsStep(b, i, writePtr);
  }

  ghost predicate SameTuples(b: PageBytes, r: PageBytes, i: nat) {
    && SlotCount(r) == SlotCount(b) <= MAX_SLOTS
    && forall k | i <= k < SlotCount(b) ::
         && (Live(b, k) ==> SlotEnd(b, k) <= PAGE_SIZE)
         && (Live(r, k) ==> SlotEnd(r, k) <= PAGE_SIZE)
         && Tuple(r, k) == Tuple(b, k)
  }

  lemma {:induction false} CompactFromContents(b: PageBytes, i: nat, writePtr: int)
    requires Ready(b, i, writePtr) && SafeFrom(b, i, writePtr)
    ensures SameTuples(b, CompactFrom(b, i, writePtr), i)
    decreases SlotCount(b) - i
  {
    hide Moved, Splice, PutU16, U16At, Lengths, Tuple, SameTuples;
    var r := CompactFrom(b, i, writePtr);
    CompactFromGeometry(b, i, writePtr);
    if i == SlotCount(b) {
      SkipContents(b, i, writePtr, r);
    } else if Live(b, i) {
      var m := Moved(b, i, writePtr);
      ReadyAgain(b, i, writePtr);
      SafeStep(b, i, writePtr);
      CompactFromContents(m, i + 1, writePtr - SlotLength(b, i));
      CompactFromGeometry(m, i + 1, writePtr - SlotLength(b, i));
      ContentsStep(b, i, writePtr, m, r);
    } else {
      ReadySkip(b, i, writePtr);
      SafeSkip(b, i, writePtr);
      CompactFromContents(b, i + 1, writePtr);
      SkipContents(b, i, writePtr, r);
    }
  }

  lemma SkipContents(b: PageBytes, i: nat, writePtr: int, r: PageBytes)
    requires i <= SlotCount(b) <= MAX_SLOTS && Packs(b, i, writePtr, r)
    requires i < SlotCount(b) ==> !Live(b, i) && SameTuples(b, r, i + 1)
    ensures SameTuples(b, r, i)
  {
  }

  lemma ContentsStep(b: PageBytes, i: nat, writePtr: int, m: PageBytes, r: PageBytes)
    requires Ready(b, i, writePtr) && SafeFrom(b, i, writePtr) && i < SlotCount(b) && Live(b, i)
    requires m == Moved(b, i, writePtr) && SlotCount(m) == SlotCount(b)
    requires SameTuples(m, r, i + 1) && Packs(m, i + 1, writePtr - SlotLength(b, i), r)
    ensures SameTuples(b, r, i)
  {
    MovedFields(b, i, writePtr);
    MovedTupleStays(m, i, writePtr - SlotLength(b, i), r);
    TuplesAfterMove(b, i, writePtr);
  }

  lemma MovedTupleStays(m: PageBytes, i: nat, writePtr: int, r: PageBytes)
    requires i < SlotCount(m) <= MAX_SLOTS && Packs(m, i + 1, writePtr, r)
    requires writePtr < SlotOffset(m, i) && SlotEnd(m, i) <= PAGE_SIZE
    ensures SlotEnd(r, i) <= PAGE_SIZE && Tuple(r, i) == Tuple(m, i)
  {
    assert SameSlot(m, r, i);
  }

  lemma SafeSkip(b: PageBytes, i: nat, writePtr: int)
    requires Ready(b, i, writePtr) && SafeFrom(b, i, writePtr) && i < SlotCount(b) && !Live(b, i)
    ensures SafeFrom(b, i + 1, writePtr)
  {
    forall k, j | i + 1 <= k < j < SlotCount(b) && Live(b, k) && Live(b, j)
      ensures SlotEnd(b, j) <= NewOffset(b, i + 1, writePtr, k)
    {
      NewOffsetStep(b, i, writePtr, k);
    }
  }

  /** Compaction of a safe page changes no record. */
  lemma CompactedSlots(b: PageBytes)
    requires WellFormed(b) && CompactSafe(b)
    ensures WellFormed(Compacted(b)) && Slots(Compacted(b)) == Slots(b)
  {
    CompactedShape(b);
    ReadyAtStart(b);
    CompactFromContents(b, 0, PAGE_SIZE - 1);
  }

  lemma {:induction false} RoomAbove(b: PageBytes, k: nat, bound: nat)
    requires WellFormed(b) && Descending(b) && k <= SlotCount(b) && bound <= PAGE_SIZE
    requires forall i | 0 <= i < k && Live(b, i) :: bound <= SlotOffset(b, i)
    ensures Total(Lengths(b)[0..k]) <= PAGE_SIZE - bound
  {
    if k > 0 {
      TotalGrows(Lengths(b), 0, k - 1);
      RoomAbove(b, k - 1, if Live(b, k - 1) then SlotEnd(b, k - 1) else bound);
    }
  }

  lemma DescendingIsSafe(b: PageBytes)
    requires WellFormed(b) && Descending(b)
    ensures CompactSafe(b)
  {
    forall k, j | 0 <= k < j < SlotCount(b) && Live(b, k) && Live(b, j)
      ensures SlotEnd(b, j) <= NewOffset(b, 0, PAGE_SIZE - 1, k)
    {
      RoomAbove(b, k + 1, SlotOffset(b, k));
    }
  }

  // ---- and when they do not ----

  ghost predicate SameDirectory(b: PageBytes, c: PageBytes)
    requires DirectoryFits(b)
  {
    c[..DirEnd(b)] == b[..DirEnd(b)]
  }

  lemma SameDirectoryFields(b: PageBytes, c: PageBytes)
    requires WellFormed(b) && SameDirectory(b, c)
    ensures WellFormed(c) && SlotCount(c) == SlotCount(b) && Lengths(c) == Lengths(b)
    ensures forall k | 0 <= k < SlotCount(b) ::
      SlotOffset(c, k) == SlotOffset(b, k) && SlotLength(c, k) == SlotLength(b, k)
    ensures CompactSafe(c) <==> CompactSafe(b)
  {
    assert forall p | 0 <= p < DirEnd(b) :: c[p] == c[..DirEnd(b)][p] && b[p] == b[..DirEnd(b)][p];
    assert SlotCount(c) == SlotCount(b) && FreeOffset(c) == FreeOffset(b);
    assert DirEnd(c) == DirEnd(b);
    forall k | 0 <= k < SlotCount(b)
      ensures SlotOffset(c, k) == SlotOffset(b, k) && SlotLength(c, k) == SlotLength(b, k)
    {
      assert SlotPos(k) + 4 <= DirEnd(b);
    }
    assert Lengths(c) == Lengths(b);
    if CompactSafe(b) { SameSafety(b, c); }
    if CompactSafe(c) { SameSafety(c, b); }
  }

  lemma SameSafety(b: PageBytes, c: PageBytes)
    requires SlotCount(c) == SlotCount(b) <= MAX_SLOTS
    requires forall k | 0 <= k < SlotCount(b) ::
      SlotOffset(c, k) == SlotOffset(b, k) && SlotLength(c, k) == SlotLength(b, k)
    requires SafeFrom(b, 0, PAGE_SIZE - 1)
    ensures SafeFrom(c, 0, PAGE_SIZE - 1)
  {
    assert Lengths(c) == Lengths(b);
    forall k, j | 0 <= k < j < SlotCount(c) && Live(c, k) && Live(c, j)
      ensures SlotEnd(c, j) <= NewOffset(c, 0, PAGE_SIZE - 1, k)
    {
      assert Live(b, k) && Live(b, j);
    }
  }

  /** Every byte above the directory is zero, but for a 1 at `mark`. */
  ghost predicate ZeroBut(b: PageBytes, mark: int) {
    forall p | DirEnd(b) <= p < PAGE_SIZE :: b[p] == if p == mark then 1 else 0
  }

  /** A move from unmarked bytes keeps the mark, or covers it. */
  lemma MarkAfterMove(b: PageBytes, i: nat, writePtr: int, mark: int)
    requires Ready(b, i, writePtr) && i < SlotCount(b) && Live(b, i) && ZeroBut(b, mark)
    requires !(SlotOffset(b, i) <= mark < SlotEnd(b, i)) && mark <= writePtr
    ensures ZeroBut(Moved(b, i, writePtr), if mark <= writePtr - SlotLength(b, i) then mark else -1)
  {
    MovedFields(b, i, writePtr);
    MovedBytes(b, i, writePtr);
    var r := Moved(b, i, writePtr);
    var newOffset := writePtr - SlotLength(b, i) + 1;
    assert r[newOffset..writePtr + 1] == b[SlotOffset(b, i)..SlotEnd(b, i)];
    forall p | newOffset <= p <= writePtr
      ensures r[p] == 0
    {
      assert r[p] == r[newOffset..writePtr + 1][p - newOffset];
    }
  }

  lemma {:induction false} ZerosStay(b: PageBytes, i: nat, writePtr: int)
    requires Ready(b, i, writePtr) && ZeroBut(b, -1)
    ensures ZeroBut(CompactFrom(b, i, writePtr), -1)
    decreases SlotCount(b) - i
  {
    hide Moved, Splice, PutU16, U16At, Tuple, Lengths;
    if i < SlotCount(b) {
      if Live(b, i) {
        ReadyAgain(b, i, writePtr);
        MarkAfterMove(b, i, writePtr, -1);
        ZerosStay(Moved(b, i, writePtr), i + 1, writePtr - SlotLength(b, i));
      } else {
        ReadySkip(b, i, writePtr);
        ZerosStay(b, i + 1, writePtr);
      }
    }
  }

  /** The mark lies in no tuple from slot `i` to slot `hit`, whose move will cover it. */
  ghost predicate Doomed(b: PageBytes, i: nat, writePtr: int, hit: nat, mark: int) {
    && i <= hit < SlotCount(b) <= MAX_SLOTS && Live(b, hit)
    && ZeroBut(b, mark) && DirEnd(b) <= mark
    && NewOffset(b, i, writePtr, hit) <= mark <= writePtr
    && forall k | i <= k <= hit && Live(b, k) :: !(SlotOffset(b, k) <= mark < SlotEnd(b, k))
  }

  lemma DoomedStep(b: PageBytes, i: nat, writePtr: int, hit: nat, mark: int)
    requires Ready(b, i, writePtr) && Doomed(b, i, writePtr, hit, mark) && Live(b, i)
    ensures var m := Moved(b, i, writePtr);
      if mark <= writePtr - SlotLength(b, i) then Doomed(m, i + 1, writePtr - SlotLength(b, i), hit, mark)
      else ZeroBut(m, -1)
  {
    MarkAfterMove(b, i, writePtr, mark);
    NewOffsetsStep(b, i, writePtr);
    ReadyAgain(b, i, writePtr);
    MovedFields(b, i, writePtr);
  }

  lemma {:induction false} MarkIsLost(b: PageBytes, i: nat, writePtr: int, hit: nat, mark: int)
    requires Ready(b, i, writePtr) && Doomed(b, i, writePtr, hit, mark)
    ensures ZeroBut(CompactFrom(b, i, writePtr), -1)
    decreases hit - i
  {
    hide Moved, Splice, PutU16, U16At, Tuple, Lengths;
    if !Live(b, i) {
      ReadySkip(b, i, writePtr);
      NewOffsetsStep(b, i, writePtr);
      MarkIsLost(b, i + 1, writePtr, hit, mark);
    } else {
      ReadyAgain(b, i, writePtr);
      DoomedStep(b, i, writePtr, hit, mark);
      if mark <= writePtr - SlotLength(b, i) {
        MarkIsLost(Moved(b, i, writePtr), i + 1, writePtr - SlotLength(b, i), hit, mark);
      } else {
        ZerosStay(Moved(b, i, writePtr), i + 1, writePtr - SlotLength(b, i));
      }
    }
  }

  /** For an unsafe directory there are tuple bytes that compaction destroys. */
  lemma UnsafeLosesData(b: PageBytes) returns (c: PageBytes)
    requires WellFormed(b) && !CompactSafe(b)
    ensures WellFormed(c) && SameDirectory(b, c)
    ensures WellFormed(Compacted(c)) && Slots(Compacted(c)) != Slots(c)
  {
    var k, j :| 0 <= k < j < SlotCount(b) && Live(b, k) && Live(b, j)
      && SlotEnd(b, j) > NewOffset(b, 0, PAGE_SIZE - 1, k);
    var mark := SlotEnd(b, j) - 1;
    c := seq(PAGE_SIZE, p requires 0 <= p < PAGE_SIZE => if p < DirEnd(b) then b[p] else if p == mark then 1 else 0);
    assert SameDirectory(b, c);
    SameDirectoryFields(b, c);
    MarkedTupleLost(c, k, j);
  }

  lemma MarkedTupleLost(c: PageBytes, k: nat, j: nat)
    requires WellFormed(c) && k < j < SlotCount(c) && Live(c, k) && Live(c, j)
    requires SlotEnd(c, j) > NewOffset(c, 0, PAGE_SIZE - 1, k)
    requires ZeroBut(c, SlotEnd(c, j) - 1)
    ensures WellFormed(Compacted(c)) && Slots(Compacted(c)) != Slots(c)
  {
    CompactedShape(c);
    ReadyAtStart(c);
    MarkIsLost(c, 0, PAGE_SIZE - 1, k, SlotEnd(c, j) - 1);
    var r := Compacted(c);
    assert Live(r, j) && DirEnd(r) == DirEnd(c);
    assert Tuple(r, j)[SlotLength(r, j) - 1] == r[SlotEnd(r, j) - 1] == 0;
    assert Tuple(c, j)[SlotLength(c, j) - 1] == c[SlotEnd(c, j) - 1] == 1;
    assert Slots(r)[j] == Tuple(r, j) && Slots(c)[j] == Tuple(c, j);
  }

  /**
   The exact condition: with a given directory, compaction keeps every record whatever the
   tuple bytes are, if and only if no live tuple reaches above the new place of an earlier one.
   */
  lemma CompactionExact(b: PageBytes)
    requires WellFormed(b)
    ensures (forall c: PageBytes | WellFormed(c) && SameDirectory(b, c) ::
               WellFormed(Compacted(c)) && Slots(Compacted(c)) == Slots(c))
      <==> CompactSafe(b)
  {
    if CompactSafe(b) {
      forall c: PageBytes | WellFormed(c) && SameDirectory(b, c)
        ensures WellFormed(Compacted(c)) && Slots(Compacted(c)) == Slots(c)
      {
        SameDirectoryFields(b, c);
        CompactedSlots(c);
      }
    } else {
      var c := UnsafeLosesData(b);
    }
  }

  // ---- an update that grows a record, then compaction ----

  lemma InsertedFields(b: PageBytes, data: seq<byte>)
    requires WellFormed(b) && |data| + SLOT_SIZE <= FreeSpace(b)
    ensures var r := Inserted(b, data); var n := SlotCount(b);
      && SlotCount(r) == n + 1 <= MAX_SLOTS && FreeOffset(r) == FreeOffset(b) - |data|
      && SlotOffset(r, n) == FreeOffset(b) - |data| + 1 && SlotLength(r, n) == |data|
      && forall k | 0 <= k < n :: SlotOffset(r, k) == SlotOffset(b, k) && SlotLength(r, k) == SlotLength(b, k)
  {
  }

  /** `a` is an initialized page on which [1] and then [2] were inserted. */
  ghost predicate TwoInserted(a: PageBytes) {
    var e := Initialized(ZeroPage(), 0);
    && DirectoryFits(e) && 5 <= FreeSpace(e)
    && var one := Inserted(e, [1]);
    && DirectoryFits(one) && 5 <= FreeSpace(one)
    && a == Inserted(one, [2])
  }

  /** A page with the records [1] and [2], the first of them then updated to [3, 4]. */
  lemma GrownExample() returns (a: PageBytes, b: PageBytes)
    ensures TwoInserted(a) && WellFormed(a) && Descending(a) && SlotCount(a) == 2 && Slots(a) == [[1], [2]]
    ensures SlotLength(a, 0) == 1 && FreeSpace(a) == 4078 && b == Regrown(a, 0, [3, 4])
    ensures WellFormed(b) && SlotCount(b) == 2 && Slots(b) == [[3, 4], [2]]
    ensures SlotOffset(b, 0) == 4092 && SlotLength(b, 0) == 2 && SlotOffset(b, 1) == 4094 && SlotLength(b, 1) == 1
  {
    hide Initialized, Inserted, Regrown, TwoInserted, Slots, Descending, InTupleArea, PairwiseDisjoint, DirectoryFits;
    hide FreeSpace, SlotCount, SlotOffset, SlotLength, FreeOffset, U16At, ZeroPage;
    var e := Initialized(ZeroPage(), 0);
    EmptyFields();
    OneInserted(e, [1]);
    var one := Inserted(e, [1]);
    OneInserted(one, [2]);
    a := Inserted(one, [2]);
    ExamplePage(e, one, a);
    b := Regrown(a, 0, [3, 4]);
    ExampleRegrown(a);
  }

  lemma EmptyFields()
    ensures var e := Initialized(ZeroPage(), 0);
      && WellFormed(e) && Descending(e) && Slots(e) == [] && SlotCount(e) == 0
      && FreeOffset(e) == 4095 && FreeSpace(e) == 4088
  {
    InitializedPage(ZeroPage(), 0);
    hide WellFormed, Descending, Slots, ZeroPage;
  }

  lemma OneInserted(b: PageBytes, data: seq<byte>)
    requires WellFormed(b) && Descending(b) && |data| + 4 <= FreeSpace(b)
    ensures var r, n := Inserted(b, data), SlotCount(b);
      && WellFormed(r) && Descending(r) && Slots(r) == Slots(b) + [data] && SlotCount(r) == n + 1 <= MAX_SLOTS
      && FreeSpace(r) == FreeSpace(b) - |data| - 4 && FreeOffset(r) == FreeOffset(b) - |data|
      && SlotOffset(r, n) == FreeOffset(b) - |data| + 1 && SlotLength(r, n) == |data|
      && forall k | 0 <= k < n :: SlotOffset(r, k) == SlotOffset(b, k) && SlotLength(r, k) == SlotLength(b, k)
  {
    InsertedPage(b, data);
    InsertedFields(b, data);
    hide Inserted, Slots, Descending, FreeSpace;
  }

  lemma ExamplePage(e: PageBytes, one: PageBytes, a: PageBytes)
    requires e == Initialized(ZeroPage(), 0) && WellFormed(e) && FreeSpace(e) == 4088 && one == Inserted(e, [1])
    requires WellFormed(one) && FreeSpace(one) == 4083 && a == Inserted(one, [2])
    ensures TwoInserted(a)
  {
    hide Initialized, Inserted, FreeSpace, ZeroPage;
  }

  lemma ExampleRegrown(a: PageBytes)
    requires WellFormed(a) && SlotCount(a) == 2 && Slots(a) == [[1], [2]] && FreeSpace(a) == 4078
    requires FreeOffset(a) == 4093 && SlotLength(a, 0) == 1 && SlotOffset(a, 1) == 4094 && SlotLength(a, 1) == 1
    ensures Live(a, 0)
    ensures var b := Regrown(a, 0, [3, 4]);
      && WellFormed(b) && SlotCount(b) == 2 && Slots(b) == [[3, 4], [2]]
      && SlotOffset(b, 0) == 4092 && SlotLength(b, 0) == 2 && SlotOffset(b, 1) == 4094 && SlotLength(b, 1) == 1
  {
    assert Live(a, 0);
    RegrownPage(a, 0, [3, 4]);
    RegrownSlots(a, 0, [3, 4]);
    hide Regrown, WellFormed, Slots, FreeSpace, Descending;
    assert SameSlot(a, Regrown(a, 0, [3, 4]), 1);
  }

  lemma CompactTwo(b: PageBytes)
    requires WellFormed(b) && SlotCount(b) == 2 && Live(b, 0) && Live(b, 1)
    ensures Ready(b, 0, PAGE_SIZE - 1)
    ensures var m := Moved(b, 0, PAGE_SIZE - 1); var p := PAGE_SIZE - 1 - SlotLength(b, 0);
      && SlotCount(m) == 2 && Live(m, 1) && SlotLength(m, 1) == SlotLength(b, 1) && SlotOffset(m, 1) == SlotOffset(b, 1)
      && Ready(m, 1, p) && p >= SlotLength(b, 1)
      && Compacted(b) == PutU16(Moved(m, 1, p), 4, p - SlotLength(b, 1))
  {
    hide Moved, WellFormed, Ready;
    ReadyAtStart(b);
    ReadyAgain(b, 0, PAGE_SIZE - 1);
    MovedFields(b, 0, PAGE_SIZE - 1);
    var m, p := Moved(b, 0, PAGE_SIZE - 1), PAGE_SIZE - 1 - SlotLength(b, 0);
    ReadyAgain(m, 1, p);
    MovedFields(m, 1, p);
    assert Compacted(b) == CompactFrom(m, 1, p);
    assert CompactFrom(m, 1, p) == CompactFrom(Moved(m, 1, p), 2, p - SlotLength(b, 1));
  }

  /** The first record moves to the top of the page, onto the second. */
  lemma ExampleFirstMove(b: PageBytes)
    requires WellFormed(b) && SlotCount(b) == 2 && Slots(b) == [[3, 4], [2]]
    requires SlotLength(b, 0) == 2 && SlotOffset(b, 1) == 4094 && SlotLength(b, 1) == 1
    ensures Ready(b, 0, PAGE_SIZE - 1)
    ensures var m := Moved(b, 0, PAGE_SIZE - 1);
      && Ready(m, 1, PAGE_SIZE - 3) && SlotCount(m) == 2 && DirEnd(m) == 16 && m[4094..4096] == [3, 4]
      && SlotOffset(m, 0) == 4094 && SlotLength(m, 0) == 2 && SlotOffset(m, 1) == 4094 && SlotLength(m, 1) == 1
  {
    assert Live(b, 0) && Live(b, 1) && Tuple(b, 0) == Slots(b)[0] == [3, 4];
    hide WellFormed, Ready, Moved, Slots, Tuple, U16At;
    CompactTwo(b);
    MovedBytes(b, 0, PAGE_SIZE - 1);
    MovedFields(b, 0, PAGE_SIZE - 1);
  }

  /** The second record is then taken from where the first one lies. */
  lemma ExampleSecondMove(m: PageBytes)
    requires Ready(m, 1, PAGE_SIZE - 3) && SlotCount(m) == 2 && DirEnd(m) == 16 && m[4094..4096] == [3, 4]
    requires SlotOffset(m, 0) == 4094 && SlotLength(m, 0) == 2 && SlotOffset(m, 1) == 4094 && SlotLength(m, 1) == 1
    ensures var r := Moved(m, 1, PAGE_SIZE - 3);
      && r[4094..4096] == [3, 4] && r[4093..4094] == [3] && SlotCount(r) == 2
      && SlotOffset(r, 0) == 4094 && SlotLength(r, 0) == 2 && SlotOffset(r, 1) == 4093 && SlotLength(r, 1) == 1
  {
    assert Tuple(m, 1) == m[4094..4095] == [m[4094]] && m[4094] == m[4094..4096][0];
    hide Ready, Moved, Tuple, U16At;
    MovedBytes(m, 1, PAGE_SIZE - 3);
    MovedFields(m, 1, PAGE_SIZE - 3);
    var r := Moved(m, 1, PAGE_SIZE - 3);
    assert r[4094..4096] == m[4094..4096];
  }

  /** Compaction after a growing update can destroy another record: here [2] becomes [3]. */
  lemma GrowThenCompactLoses() returns (a: PageBytes, b: PageBytes)
    ensures TwoInserted(a) && WellFormed(a) && Descending(a) && SlotCount(a) == 2 && Slots(a) == [[1], [2]]
    ensures SlotLength(a, 0) == 1 && FreeSpace(a) == 4078 && b == Regrown(a, 0, [3, 4])
    ensures WellFormed(b) && Slots(b) == [[3, 4], [2]]
    ensures WellFormed(Compacted(b)) && Slots(Compacted(b)) == [[3, 4], [3]]
  {
    hide TwoInserted, Regrown, InTupleArea, PairwiseDisjoint, Descending, Ready, Moved, Compacted;
    a, b := GrownExample();
    ExampleFirstMove(b);
    ExampleSecondMove(Moved(b, 0, PAGE_SIZE - 1));
    CompactTwo(b);
    CompactedShape(b);
    ReadOff(Moved(Moved(b, 0, PAGE_SIZE - 1), 1, PAGE_SIZE - 3));
  }

  lemma ReadOff(r: PageBytes)
    requires r[4094..4096] == [3, 4] && r[4093..4094] == [3] && SlotCount(r) == 2
    requires SlotOffset(r, 0) == 4094 && SlotLength(r, 0) == 2 && SlotOffset(r, 1) == 4093 && SlotLength(r, 1) == 1
    requires WellFormed(PutU16(r, 4, PAGE_SIZE - 4))
    ensures Slots(PutU16(r, 4, PAGE_SIZE - 4)) == [[3, 4], [3]]
  {
    var c := PutU16(r, 4, PAGE_SIZE - 4);
    hide WellFormed, U16At, PutU16;
    assert c[4094..4096] == r[4094..4096] && c[4093..4094] == r[4093..4094];
    assert Tuple(c, 0) == [3, 4] && Tuple(c, 1) == [3];
  }
}
