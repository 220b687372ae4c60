/** The bytes of the catalog file: what saving writes, and what loading makes of any file. */
module CatalogFormat {
  import opened Bytes
  import opened Fields
  import opened Rows
  import opened CatalogLayout

  const LIMIT := 0x1_0000_0000

  /** The counts and lengths fit the 32-bit fields that hold them. */
  ghost predicate Storable(t: TableRecord) {
    && |t.name| < LIMIT && |t.columns| < LIMIT && |t.pageIds| < LIMIT
    && forall i | 0 <= i < |t.columns| :: |t.columns[i].name| < LIMIT
  }

  ghost predicate AllStorable(ts: seq<TableRecord>) {
    |ts| < LIMIT && forall i | 0 <= i < |ts| :: Storable(ts[i])
  }

  // ---- writing ----

  function TextBytes(s: Text): (b: seq<byte>)
    ensures |b| == |s|
  {
    seq(|s|, i requires 0 <= i < |s| => s[i] as int)
  }

  function EncodeText(s: Text): seq<byte>
    requires |s| < LIMIT
  {
    EncodeU32(|s|) + TextBytes(s)
  }

  function TypeCode(t: TypeId): u32 {
    match t
    case INVALID => 0
    case BOOLEAN => 1
    case INTEGER => 2
  }

  function EncodeColumn(c: Column): seq<byte>
    requires |c.name| < LIMIT
  {
    EncodeText(c.name) + EncodeU32(TypeCode(c.typeId))
  }

  function EncodeColumns(cs: seq<Column>): seq<byte>
    requires forall i | 0 <= i < |cs| :: |cs[i].name| < LIMIT
  {
    if cs == [] then [] else EncodeColumns(cs[..|cs| - 1]) + EncodeColumn(cs[|cs| - 1])
  }

  function EncodePageIds(ids: seq<i32>): seq<byte> {
    if ids == [] then [] else EncodePageIds(ids[..|ids| - 1]) + EncodeI32(ids[|ids| - 1])
  }

  function EncodeTable(t: TableRecord): seq<byte>
    requires Storable(t)
  {
    EncodeU32(t.oid) + EncodeText(t.name) +
    EncodeU32(|t.columns|) + EncodeColumns(t.columns) +
    EncodeU32(|t.pageIds|) + EncodePageIds(t.pageIds) + EncodeI32(t.nextPageId)
  }

  function EncodeTables(ts: seq<TableRecord>): seq<byte>
    requires forall i | 0 <= i < |ts| :: Storable(ts[i])
  {
    if ts == [] then [] else EncodeTables(ts[..|ts| - 1]) + EncodeTable(ts[|ts| - 1])
  }

  function EncodeCatalog(nextOid: u32, ts: seq<TableRecord>): seq<byte>
    requires AllStorable(ts)
  {
    EncodeU32(nextOid) + EncodeU32(|ts|) + EncodeTables(ts)
  }

  // ---- reading ----

  /**
   `istream::read` of `n` bytes into zeroed memory: past the end of the file nothing arrives,
   and nothing after that either. The result is the bytes and what is left of the file.
   */
  function Read(b: seq<byte>, n: nat): (r: (seq<byte>, seq<byte>))
    ensures |r.0| == n && forall i | 0 <= i < n :: r.0[i] == if i < |b| then b[i] else 0
    ensures r.1 == if n <= |b| then b[n..] else []
  {
    ((b + Zeros(n))[..n], b[Min(n, |b|)..])
  }

  function ReadU32(b: seq<byte>): (u32, seq<byte>) {
    var (v, rest) := Read(b, 4);
    (DecodeU32(v), rest)
  }

  function ReadI32(b: seq<byte>): (i32, seq<byte>) {
    var (v, rest) := Read(b, 4);
    (DecodeI32(v), rest)
  }

  function TextOf(b: seq<byte>): (s: Text)
    ensures |s| == |b|
  {
    var s := seq(|b|, i requires 0 <= i < |b| => b[i] as char);
    assert forall i | 0 <= i < |s| :: s[i] as int == b[i];
    s
  }

  function ReadText(b: seq<byte>): (Text, seq<byte>) {
    var (n, rest) := ReadU32(b);
    var (v, rest') := Read(rest, n);
    (TextOf(v), rest')
  }

  /** A code that is no type of the engine behaves as INVALID everywhere. */
  function TypeOfCode(code: u32): (t: TypeId)
    ensures (t == BOOLEAN <==> code == 1) && (t == INTEGER <==> code == 2)
  {
    if code == 1 then BOOLEAN else if code == 2 then INTEGER else INVALID
  }

  function ReadColumn(b: seq<byte>): (Column, seq<byte>) {
    var (name, rest) := ReadText(b);
    var (code, rest') := ReadU32(rest);
    (Column(name, TypeOfCode(code)), rest')
  }

  function ReadColumns(b: seq<byte>, n: nat): (r: (seq<Column>, seq<byte>))
    ensures |r.0| == n
  {
    if n == 0 then ([], b)
    else
      var (cs, rest) := ReadColumns(b, n - 1);
      var (c, rest') := ReadColumn(rest);
      (cs + [c], rest')
  }

  function ReadPageIds(b: seq<byte>, n: nat): (r: (seq<i32>, seq<byte>))
    ensures |r.0| == n
  {
    if n == 0 then ([], b)
    else
      var (ids, rest) := ReadPageIds(b, n - 1);
      var (id, rest') := ReadI32(rest);
      (ids + [id], rest')
  }

  function ReadTable(b: seq<byte>): (TableRecord, seq<byte>) {
    var (oid, b1) := ReadU32(b);
    var (name, b2) := ReadText(b1);
    var (numCols, b3) := ReadU32(b2);
    var (columns, b4) := ReadColumns(b3, numCols);
    var (numPages, b5) := ReadU32(b4);
    var (pageIds, b6) := ReadPageIds(b5, numPages);
    var (next, b7) := ReadI32(b6);
    (TableRecord(oid, name, columns, pageIds, next), b7)
  }

  function ReadTables(b: seq<byte>, n: nat): (r: (seq<TableRecord>, seq<byte>))
    ensures |r.0| == n
  {
    if n == 0 then ([], b)
    else
      var (ts, rest) := ReadTables(b, n - 1);
      var (t, rest') := ReadTable(rest);
      (ts + [t], rest')
  }

  function ReadCatalog(b: seq<byte>): (u32, seq<TableRecord>, seq<byte>) {
    var (nextOid, b1) := ReadU32(b);
    var (numTables, b2) := ReadU32(b1);
    var (ts, b3) := ReadTables(b2, numTables);
    (nextOid, ts, b3)
  }

  // ---- round trip ----

  lemma ReadExactly(x: seq<byte>, tail: seq<byte>)
    ensures Read(x + tail, |x|) == (x, tail)
  {
    assert (x + tail + Zeros(|x|))[..|x|] == x;
    assert (x + tail)[|x|..] == tail;
  }

  lemma U32Reads(v: u32, tail: seq<byte>)
    ensures ReadU32(EncodeU32(v) + tail) == (v, tail)
  {
    ReadExactly(EncodeU32(v), tail);
    U32RoundTrip(v);
  }

  lemma I32Reads(v: i32, tail: seq<byte>)
    ensures ReadI32(EncodeI32(v) + tail) == (v, tail)
  {
    ReadExactly(EncodeI32(v), tail);
    I32RoundTrip(v);
  }

  lemma TextReads(s: Text, tail: seq<byte>)
    requires |s| < LIMIT
    ensures ReadText(EncodeText(s) + tail) == (s, tail)
  {
    assert EncodeText(s) + tail == EncodeU32(|s|) + (TextBytes(s) + tail);
    U32Reads(|s|, TextBytes(s) + tail);
    ReadExactly(TextBytes(s), tail);
    assert TextOf(TextBytes(s)) == s;
  }

  lemma ColumnReads(c: Column, tail: seq<byte>)
    requires |c.name| < LIMIT
    ensures ReadColumn(EncodeColumn(c) + tail) == (c, tail)
  {
    hide EncodeText, EncodeU32, ReadText, ReadU32;
    var code := EncodeU32(TypeCode(c.typeId));
    assert EncodeColumn(c) + tail == EncodeText(c.name) + (code + tail);
    TextReads(c.name, code + tail);
    U32Reads(TypeCode(c.typeId), tail);
  }

  lemma {:induction false} ColumnsRead(cs: seq<Column>, tail: seq<byte>)
    requires forall i | 0 <= i < |cs| :: |cs[i].name| < LIMIT
    ensures ReadColumns(EncodeColumns(cs) + tail, |cs|) == (cs, tail)
  {
    hide EncodeColumn, ReadColumn;
    if cs == [] {
      assert [] + tail == tail;
    } else {
      var front, last := cs[..|cs| - 1], cs[|cs| - 1];
      assert front + [last] == cs;
      assert EncodeColumns(cs) + tail == EncodeColumns(front) + (EncodeColumn(last) + tail);
      ColumnsRead(front, EncodeColumn(last) + tail);
      ColumnReads(last, tail);
    }
  }

  lemma {:induction false} PageIdsRead(ids: seq<i32>, tail: seq<byte>)
    ensures ReadPageIds(EncodePageIds(ids) + tail, |ids|) == (ids, tail)
  {
    hide EncodeI32, ReadI32;
    if ids == [] {
      assert [] + tail == tail;
    } else {
      var front, last := ids[..|ids| - 1], ids[|ids| - 1];
      assert front + [last] == ids;
      assert EncodePageIds(ids) + tail == EncodePageIds(front) + (EncodeI32(last) + tail);
      PageIdsRead(front, EncodeI32(last) + tail);
      I32Reads(last, tail);
    }
  }

  lemma TableReads(t: TableRecord, tail: seq<byte>)
    requires Storable(t)
    ensures ReadTable(EncodeTable(t) + tail) == (t, tail)
  {
    hide EncodeU32, EncodeI32, EncodeText, EncodeColumns, EncodePageIds;
    hide ReadU32, ReadI32, ReadText, ReadColumns, ReadPageIds;
    var b6 := EncodeI32(t.nextPageId) + tail;
    var b5 := EncodePageIds(t.pageIds) + b6;
    var b4 := EncodeU32(|t.pageIds|) + b5;
    var b3 := EncodeColumns(t.columns) + b4;
    var b2 := EncodeU32(|t.columns|) + b3;
    var b1 := EncodeText(t.name) + b2;
    assert EncodeTable(t) + tail == EncodeU32(t.oid) + b1;
    U32Reads(t.oid, b1);
    TextReads(t.name, b2);
    U32Reads(|t.columns|, b3);
    ColumnsRead(t.columns, b4);
    U32Reads(|t.pageIds|, b5);
    PageIdsRead(t.pageIds, b6);
    I32Reads(t.nextPageId, tail);
  }

  lemma {:induction false} TablesRead(ts: seq<TableRecord>, tail: seq<byte>)
    requires forall i | 0 <= i < |ts| :: Storable(ts[i])
    ensures ReadTables(EncodeTables(ts) + tail, |ts|) == (ts, tail)
  {
    hide EncodeTable, ReadTable, Storable;
    if ts == [] {
      assert [] + tail == tail;
    } else {
      var front, last := ts[..|ts| - 1], ts[|ts| - 1];
      assert front + [last] == ts;
      assert EncodeTables(ts) + tail == EncodeTables(front) + (EncodeTable(last) + tail);
      TablesRead(front, EncodeTable(last) + tail);
      TableReads(last, tail);
    }
  }

  /** Loading what was saved gives back the same tables, and consumes exactly those bytes. */
  lemma CatalogRoundTrip(nextOid: u32, ts: seq<TableRecord>, tail: seq<byte>)
    requires AllStorable(ts)
    ensures ReadCatalog(EncodeCatalog(nextOid, ts) + tail) == (nextOid, ts, tail)
  {
    hide EncodeU32, ReadU32, EncodeTables, ReadTables;
    var b2 := EncodeTables(ts) + tail;
    var b1 := EncodeU32(|ts|) + b2;
    assert EncodeCatalog(nextOid, ts) + tail == EncodeU32(nextOid) + b1;
    U32Reads(nextOid, b1);
    U32Reads(|ts|, b2);
    TablesRead(ts, tail);
  }

  // ---- the layout ----

  lemma TextHolds(b: seq<byte>, at: nat, s: Text)
    requires |s| < LIMIT
    ensures TextIs(b, at, s) <==> HoldsAt(b, at, EncodeText(s))
    ensures |EncodeText(s)| == 4 + |s|
  {
    U32Holds(b, at, |s|);
    HoldsBoth(b, at, EncodeU32(|s|), TextBytes(s));
    hide EncodeU32, U32Is;
    if at + 4 + |s| <= |b| {
      var z := b[at + 4..at + 4 + |s|];
      assert z == TextBytes(s) <==> forall i | 0 <= i < |s| :: z[i] == TextBytes(s)[i];
    }
  }

  lemma ColumnHolds(b: seq<byte>, at: nat, c: Column)
    requires |c.name| < LIMIT
    ensures ColumnIs(b, at, c) <==> HoldsAt(b, at, EncodeColumn(c))
    ensures |EncodeColumn(c)| == 8 + |c.name|
  {
    TextHolds(b, at, c.name);
    U32Holds(b, at + 4 + |c.name|, TypeCode(c.typeId));
    HoldsBoth(b, at, EncodeText(c.name), EncodeU32(TypeCode(c.typeId)));
    hide EncodeU32, U32Is, EncodeText, TextIs, HoldsAt;
  }

  lemma ColumnsMore(b: seq<byte>, at: nat, cs: seq<Column>, n: nat)
    requires |cs| == n + 1 && forall i | 0 <= i < |cs| :: |cs[i].name| < LIMIT
    ensures ColumnsAre(b, at, cs) <==>
      ColumnsAre(b, at, cs[..n]) && ColumnIs(b, at + ColumnsSize(cs[..n]), cs[n])
    ensures EncodeColumns(cs) == EncodeColumns(cs[..n]) + EncodeColumn(cs[n])
    ensures ColumnsSize(cs) == ColumnsSize(cs[..n]) + 8 + |cs[n].name|
  {
    ColumnsEncodedMore(cs, n);
    ColumnsAtSame(b, at, cs, n);
    hide EncodeColumn, EncodeColumns, ColumnsSize, ColumnAt;
    assert ColumnsAre(b, at, cs) <==> (forall i | 0 <= i < n :: ColumnAt(b, at, cs, i)) && ColumnAt(b, at, cs, n);
  }

  lemma ColumnsAtSame(b: seq<byte>, at: nat, cs: seq<Column>, n: nat)
    requires n < |cs|
    ensures forall i | 0 <= i < n :: ColumnAt(b, at, cs[..n], i) <==> ColumnAt(b, at, cs, i)
    ensures ColumnAt(b, at, cs, n) <==> ColumnIs(b, at + ColumnsSize(cs[..n]), cs[n])
  {
    hide ColumnIs, ColumnsSize;
    PrefixesOf(cs, n);
  }

  lemma PrefixesOf<T>(s: seq<T>, n: nat)
    requires n <= |s|
    ensures forall i | 0 <= i < n :: s[..n][..i] == s[..i] && s[..n][i] == s[i]
  {
  }

  lemma ColumnsEncodedMore(cs: seq<Column>, n: nat)
    requires |cs| == n + 1 && forall i | 0 <= i < |cs| :: |cs[i].name| < LIMIT
    ensures EncodeColumns(cs) == EncodeColumns(cs[..n]) + EncodeColumn(cs[n])
    ensures ColumnsSize(cs) == ColumnsSize(cs[..n]) + 8 + |cs[n].name|
  {
    hide EncodeColumn;
  }

  lemma NoBytes(b: seq<byte>, at: nat)
    ensures HoldsAt(b, at, []) <==> at <= |b|
    ensures ColumnsAre(b, at, []) && EncodeColumns([]) == [] && ColumnsSize([]) == 0
    ensures PageIdsAre(b, at, []) && EncodePageIds([]) == []
    ensures TablesAre(b, at, []) && EncodeTables([]) == [] && TablesSize([]) == 0
  {
  }

  lemma {:induction false} ColumnsHold(b: seq<byte>, at: nat, cs: seq<Column>)
    requires forall i | 0 <= i < |cs| :: |cs[i].name| < LIMIT
    ensures at <= |b| && ColumnsAre(b, at, cs) <==> HoldsAt(b, at, EncodeColumns(cs))
    ensures |EncodeColumns(cs)| == ColumnsSize(cs)
    decreases |cs|
  {
    hide *;
    if cs == [] {
      NoBytes(b, at);
    } else {
      var n := |cs| - 1;
      ColumnsHold(b, at, cs[..n]);
      ColumnHolds(b, at + ColumnsSize(cs[..n]), cs[n]);
      ColumnsMore(b, at, cs, n);
      HoldsBoth(b, at, EncodeColumns(cs[..n]), EncodeColumn(cs[n]));
      HoldsEnds(b, at, EncodeColumns(cs[..n]));
    }
  }

  lemma PageIdsMore(b: seq<byte>, at: nat, ids: seq<i32>, n: nat)
    requires |ids| == n + 1
    ensures PageIdsAre(b, at, ids) <==> PageIdsAre(b, at, ids[..n]) && I32Is(b, at + 4 * n, ids[n])
  {
    PageIdsAtSame(b, at, ids, n);
    hide I32Is, PageIdAt;
    assert PageIdsAre(b, at, ids) <==> (forall i | 0 <= i < n :: PageIdAt(b, at, ids, i)) && PageIdAt(b, at, ids, n);
  }

  lemma PageIdsEncodedMore(ids: seq<i32>, n: nat)
    requires |ids| == n + 1
    ensures EncodePageIds(ids) == EncodePageIds(ids[..n]) + EncodeI32(ids[n])
  {
    hide EncodeI32;
  }

  lemma PageIdsAtSame(b: seq<byte>, at: nat, ids: seq<i32>, n: nat)
    requires n < |ids|
    ensures forall i | 0 <= i < n :: PageIdAt(b, at, ids[..n], i) <==> PageIdAt(b, at, ids, i)
    ensures PageIdAt(b, at, ids, n) <==> I32Is(b, at + 4 * n, ids[n])
  {
    hide I32Is;
  }

  lemma {:induction false} PageIdsHold(b: seq<byte>, at: nat, ids: seq<i32>)
    ensures at <= |b| && PageIdsAre(b, at, ids) <==> HoldsAt(b, at, EncodePageIds(ids))
    ensures |EncodePageIds(ids)| == 4 * |ids|
    decreases |ids|
  {
    hide *;
    if ids == [] {
      NoBytes(b, at);
    } else {
      var n := |ids| - 1;
      PageIdsHold(b, at, ids[..n]);
      I32Holds(b, at + 4 * n, ids[n]);
      PageIdsMore(b, at, ids, n);
      PageIdsEncodedMore(ids, n);
      HoldsBoth(b, at, EncodePageIds(ids[..n]), EncodeI32(ids[n]));
      HoldsEnds(b, at, EncodePageIds(ids[..n]));
    }
  }

  lemma LaidOutTable(b: seq<byte>, at: nat, t: TableRecord, columnsAt: nat, pagesAt: nat)
    requires columnsAt == at + 8 + |t.name| && pagesAt == columnsAt + 4 + ColumnsSize(t.columns)
    ensures TableIs(b, at, t) <==>
      && U32Is(b, at, t.oid) && TextIs(b, at + 4, t.name)
      && U32Is(b, columnsAt, |t.columns|) && ColumnsAre(b, columnsAt + 4, t.columns)
      && U32Is(b, pagesAt, |t.pageIds|) && PageIdsAre(b, pagesAt + 4, t.pageIds)
      && I32Is(b, pagesAt + 4 + 4 * |t.pageIds|, t.nextPageId)
    ensures TableSize(t) == pagesAt - at + 8 + 4 * |t.pageIds|
  {
    hide ColumnsSize;
  }

  lemma EncodedTable(t: TableRecord)
    requires Storable(t)
    ensures EncodeTable(t) ==
      EncodeU32(t.oid) + EncodeText(t.name) + EncodeU32(|t.columns|) + EncodeColumns(t.columns) +
      EncodeU32(|t.pageIds|) + EncodePageIds(t.pageIds) + EncodeI32(t.nextPageId)
    ensures |t.name| < LIMIT && |t.columns| < LIMIT && |t.pageIds| < LIMIT == 0x1_0000_0000
    ensures forall i | 0 <= i < |t.columns| :: |t.columns[i].name| < LIMIT
  {
    hide EncodeU32, EncodeI32, EncodeText, EncodeColumns, EncodePageIds;
  }

  lemma HoldsSeven(b: seq<byte>, at: nat, e1: seq<byte>, e2: seq<byte>, e3: seq<byte>, e4: seq<byte>,
                   e5: seq<byte>, e6: seq<byte>, e7: seq<byte>)
    ensures var to3 := at + |e1| + |e2|; var to5 := to3 + |e3| + |e4|;
      HoldsAt(b, at, e1 + e2 + e3 + e4 + e5 + e6 + e7) <==>
        && HoldsAt(b, at, e1) && HoldsAt(b, at + |e1|, e2) && HoldsAt(b, to3, e3) && HoldsAt(b, to3 + |e3|, e4)
        && HoldsAt(b, to5, e5) && HoldsAt(b, to5 + |e5|, e6) && HoldsAt(b, to5 + |e5| + |e6|, e7)
  {
    hide *;
    HoldsBoth(b, at, e1, e2);
    HoldsBoth(b, at, e1 + e2, e3);
    HoldsBoth(b, at, e1 + e2 + e3, e4);
    HoldsBoth(b, at, e1 + e2 + e3 + e4, e5);
    HoldsBoth(b, at, e1 + e2 + e3 + e4 + e5, e6);
    HoldsBoth(b, at, e1 + e2 + e3 + e4 + e5 + e6, e7);
  }

  /** A table's fields are at their offsets if and only if the bytes from there on are what is written for it. */
  lemma TableHolds(b: seq<byte>, at: nat, t: TableRecord)
    requires Storable(t)
    ensures TableIs(b, at, t) <==> HoldsAt(b, at, EncodeTable(t))
    ensures |EncodeTable(t)| == TableSize(t)
  {
    hide *;
    EncodedTable(t);
    var columnsAt := at + 8 + |t.name|;
    var pagesAt := columnsAt + 4 + ColumnsSize(t.columns);
    LaidOutTable(b, at, t, columnsAt, pagesAt);
    U32Holds(b, at, t.oid);
    TextHolds(b, at + 4, t.name);
    U32Holds(b, columnsAt, |t.columns|);
    U32Ends(b, columnsAt, |t.columns|);
    ColumnsHold(b, columnsAt + 4, t.columns);
    U32Holds(b, pagesAt, |t.pageIds|);
    U32Ends(b, pagesAt, |t.pageIds|);
    PageIdsHold(b, pagesAt + 4, t.pageIds);
    I32Holds(b, pagesAt + 4 + 4 * |t.pageIds|, t.nextPageId);
    HoldsSeven(b, at, EncodeU32(t.oid), EncodeText(t.name), EncodeU32(|t.columns|), EncodeColumns(t.columns),
               EncodeU32(|t.pageIds|), EncodePageIds(t.pageIds), EncodeI32(t.nextPageId));
  }

  lemma U32Ends(b: seq<byte>, at: nat, v: int)
    ensures U32Is(b, at, v) ==> at + 4 <= |b| && 0 <= v < LIMIT
  {
  }

  lemma HoldsEnds(b: seq<byte>, at: nat, x: seq<byte>)
    ensures HoldsAt(b, at, x) ==> at + |x| <= |b|
  {
  }

  /** Fields of this layout always fit. */
  lemma LaidOutIsStorable(b: seq<byte>, at: nat, t: TableRecord)
    requires TableIs(b, at, t)
    ensures Storable(t)
  {
    var columnsAt := at + 8 + |t.name|;
    U32Ends(b, at + 4, |t.name|);
    U32Ends(b, columnsAt, |t.columns|);
    U32Ends(b, columnsAt + 4 + ColumnsSize(t.columns), |t.pageIds|);
    hide U32Is, I32Is, ColumnsSize;
    forall i | 0 <= i < |t.columns|
      ensures |t.columns[i].name| < LIMIT
    {
      assert ColumnAt(b, columnsAt + 4, t.columns, i);
      U32Ends(b, columnsAt + 4 + ColumnsSize(t.columns[..i]), |t.columns[i].name|);
    }
  }

  lemma TablesMore(b: seq<byte>, at: nat, ts: seq<TableRecord>, n: nat)
    requires |ts| == n + 1
    ensures TablesAre(b, at, ts) <==> TablesAre(b, at, ts[..n]) && TableIs(b, at + TablesSize(ts[..n]), ts[n])
  {
    TablesAtSame(b, at, ts, n);
    hide TablesSize, TableAt, TableIs;
    assert TablesAre(b, at, ts) <==> (forall i | 0 <= i < n :: TableAt(b, at, ts, i)) && TableAt(b, at, ts, n);
  }

  lemma TablesAtSame(b: seq<byte>, at: nat, ts: seq<TableRecord>, n: nat)
    requires n < |ts|
    ensures forall i | 0 <= i < n :: TableAt(b, at, ts[..n], i) <==> TableAt(b, at, ts, i)
    ensures TableAt(b, at, ts, n) <==> TableIs(b, at + TablesSize(ts[..n]), ts[n])
  {
    hide TableIs, TablesSize;
    PrefixesOf(ts, n);
  }

  lemma TablesEncodedMore(ts: seq<TableRecord>, n: nat)
    requires |ts| == n + 1 && forall i | 0 <= i < |ts| :: Storable(ts[i])
    ensures EncodeTables(ts) == EncodeTables(ts[..n]) + EncodeTable(ts[n])
    ensures TablesSize(ts) == TablesSize(ts[..n]) + TableSize(ts[n])
  {
    hide EncodeTable, Storable, TableSize;
  }

  lemma {:induction false} TablesHold(b: seq<byte>, at: nat, ts: seq<TableRecord>)
    requires forall i | 0 <= i < |ts| :: Storable(ts[i])
    ensures at <= |b| && TablesAre(b, at, ts) <==> HoldsAt(b, at, EncodeTables(ts))
    ensures |EncodeTables(ts)| == TablesSize(ts)
    decreases |ts|
  {
    hide *;
    if ts == [] {
      NoBytes(b, at);
    } else {
      var n := |ts| - 1;
      TablesHold(b, at, ts[..n]);
      TableHolds(b, at + TablesSize(ts[..n]), ts[n]);
      TablesMore(b, at, ts, n);
      TablesEncodedMore(ts, n);
      HoldsBoth(b, at, EncodeTables(ts[..n]), EncodeTable(ts[n]));
      HoldsEnds(b, at, EncodeTables(ts[..n]));
    }
  }

  /** What is written is a file of the layout, and the only one that says the same. */
  lemma FileIsEncoded(b: seq<byte>, nextOid: u32, ts: seq<TableRecord>)
    requires AllStorable(ts)
    ensures FileIs(b, nextOid, ts) <==> b == EncodeCatalog(nextOid, ts)
  {
    var e1, e2, e3 := EncodeU32(nextOid), EncodeU32(|ts|), EncodeTables(ts);
    U32Holds(b, 0, nextOid);
    U32Holds(b, 4, |ts|);
    TablesHold(b, 8, ts);
    HoldsBoth(b, 0, e1, e2);
    HoldsBoth(b, 0, e1 + e2, e3);
    HoldsEnds(b, 4, e2);
    HoldsAll(b, e1 + e2 + e3);
    hide EncodeU32, EncodeTables, U32Is, TablesAre, TablesSize, Storable, HoldsAt;
  }

  lemma HoldsAll(b: seq<byte>, x: seq<byte>)
    ensures |b| == |x| && HoldsAt(b, 0, x) <==> b == x
  {
    assert b[..|b|] == b;
  }

  /** Whoever wrote it, a file of the layout is loaded for what it says, to its last byte. */
  lemma FileReads(b: seq<byte>, nextOid: u32, ts: seq<TableRecord>)
    requires FileIs(b, nextOid, ts)
    ensures ReadCatalog(b) == (nextOid, ts, [])
  {
    FileIsStorable(b, nextOid, ts);
    FileIsEncoded(b, nextOid, ts);
    CatalogRoundTrip(nextOid, ts, []);
    hide *;
    assert b + [] == b;
  }

  lemma FileIsStorable(b: seq<byte>, nextOid: u32, ts: seq<TableRecord>)
    requires FileIs(b, nextOid, ts)
    ensures AllStorable(ts)
  {
    U32Ends(b, 4, |ts|);
    hide TableIs, Storable, TablesSize, U32Is;
    forall i | 0 <= i < |ts|
      ensures Storable(ts[i])
    {
      assert TableAt(b, 8, ts, i);
      LaidOutIsStorable(b, 8 + TablesSize(ts[..i]), ts[i]);
    }
  }

  lemma HoldsFirst(b: seq<byte>, x: seq<byte>)
    requires HoldsAt(b, 0, x)
    ensures b == x + b[|x|..]
  {
  }

  /** And so is each table of it. */
  lemma TableLaidOutReads(b: seq<byte>, t: TableRecord)
    requires TableIs(b, 0, t)
    ensures TableSize(t) <= |b| && ReadTable(b) == (t, b[TableSize(t)..])
  {
    hide *;
    LaidOutIsStorable(b, 0, t);
    TableHolds(b, 0, t);
    HoldsEnds(b, 0, EncodeTable(t));
    HoldsFirst(b, EncodeTable(t));
    TableReads(t, b[TableSize(t)..]);
  }

  lemma NoTables(b: seq<byte>)
    ensures ReadTables(b, 0) == ([], b) && ByOid([]) == map[]
  {
  }

  lemma OneTableMore(b: seq<byte>, i: nat)
    ensures ReadTables(b, i + 1) ==
      (ReadTables(b, i).0 + [ReadTable(ReadTables(b, i).1).0], ReadTable(ReadTables(b, i).1).1)
  {
  }

  // ---- lists of tables ----

  /** The tables of a list by oid, and the oids by name; of two alike the later one wins. */
  function ByOid(ts: seq<TableRecord>): map<u32, TableRecord> {
    if ts == [] then map[] else ByOid(ts[..|ts| - 1])[ts[|ts| - 1].oid := ts[|ts| - 1]]
  }

  function ByName(ts: seq<TableRecord>): map<Text, u32> {
    if ts == [] then map[] else ByName(ts[..|ts| - 1])[ts[|ts| - 1].name := ts[|ts| - 1].oid]
  }

  lemma OneListedMore(ts: seq<TableRecord>, t: TableRecord)
    ensures ByOid(ts + [t]) == ByOid(ts)[t.oid := t] && ByName(ts + [t]) == ByName(ts)[t.name := t.oid]
  {
    assert (ts + [t])[..|ts|] == ts;
  }

  /** `t` is the last of the list with its oid. */
  ghost predicate LastWithOid(ts: seq<TableRecord>, t: TableRecord) {
    exists i | 0 <= i < |ts| :: ts[i] == t && forall j | i < j < |ts| :: ts[j].oid != t.oid
  }

  lemma StillLast(front: seq<TableRecord>, last: TableRecord, t: TableRecord)
    requires LastWithOid(front, t) && last.oid != t.oid
    ensures LastWithOid(front + [last], t)
  {
    var i :| 0 <= i < |front| && front[i] == t && forall j | i < j < |front| :: front[j].oid != t.oid;
    assert (front + [last])[i] == t;
  }

  /** Of entries alike the last one wins. */
  lemma {:induction false} ByOidIs(ts: seq<TableRecord>)
    ensures forall i | 0 <= i < |ts| :: ts[i].oid in ByOid(ts)
    ensures forall oid | oid in ByOid(ts) :: ByOid(ts)[oid].oid == oid && LastWithOid(ts, ByOid(ts)[oid])
  {
    if ts != [] {
      var front, last := ts[..|ts| - 1], ts[|ts| - 1];
      ByOidIs(front);
      assert ts == front + [last];
      forall oid | oid in ByOid(ts)
        ensures ByOid(ts)[oid].oid == oid && LastWithOid(ts, ByOid(ts)[oid])
      {
        if oid != last.oid { StillLast(front, last, ByOid(front)[oid]); }
      }
    }
  }

  /** `oid` is that of the last entry of the list with this name. */
  ghost predicate LastWithName(ts: seq<TableRecord>, name: Text, oid: u32) {
    exists i | 0 <= i < |ts| :: ts[i].name == name && ts[i].oid == oid && forall j | i < j < |ts| :: ts[j].name != name
  }

  lemma StillLastWithName(front: seq<TableRecord>, last: TableRecord, name: Text, oid: u32)
    requires LastWithName(front, name, oid) && last.name != name
    ensures LastWithName(front + [last], name, oid)
  {
    var i :| 0 <= i < |front| && front[i].name == name && front[i].oid == oid
      && forall j | i < j < |front| :: front[j].name != name;
    assert (front + [last])[i] == front[i];
  }

  lemma {:induction false} ByNameIs(ts: seq<TableRecord>)
    ensures forall i | 0 <= i < |ts| :: ts[i].name in ByName(ts)
    ensures forall name | name in ByName(ts) :: LastWithName(ts, name, ByName(ts)[name])
  {
    if ts != [] {
      var front, last := ts[..|ts| - 1], ts[|ts| - 1];
      ByNameIs(front);
      assert ts == front + [last];
      forall name | name in ByName(ts)
        ensures LastWithName(ts, name, ByName(ts)[name])
      {
        if name != last.name { StillLastWithName(front, last, name, ByName(front)[name]); }
      }
    }
  }

  /** Every table is found by its own name, and by no other. */
  ghost predicate NamesMatch(m: map<u32, TableRecord>, names: map<Text, u32>) {
    && (forall oid | oid in m :: m[oid].oid == oid && m[oid].name in names && names[m[oid].name] == oid)
    && (forall name | name in names :: names[name] in m && m[names[name]].name == name)
  }

  ghost function OidsIn(m: map<u32, TableRecord>, done: set<u32>): map<u32, TableRecord>
    requires done <= m.Keys
  {
    map oid | oid in done :: m[oid]
  }

  ghost function NamesIn(names: map<Text, u32>, done: set<u32>): map<Text, u32> {
    map name | name in names && names[name] in done :: names[name]
  }

  lemma AllIn(m: map<u32, TableRecord>, names: map<Text, u32>)
    requires NamesMatch(m, names)
    ensures OidsIn(m, m.Keys) == m && NamesIn(names, m.Keys) == names
  {
  }

  lemma OneMoreIn(m: map<u32, TableRecord>, names: map<Text, u32>, done: set<u32>, oid: u32)
    requires NamesMatch(m, names) && done <= m.Keys && oid in m
    ensures OidsIn(m, done + {oid}) == OidsIn(m, done)[oid := m[oid]]
    ensures NamesIn(names, done + {oid}) == NamesIn(names, done)[m[oid].name := oid]
  {
  }

  /** The list names each table of `done` once, in some order. */
  ghost predicate Lists(ts: seq<TableRecord>, m: map<u32, TableRecord>, names: map<Text, u32>, done: set<u32>) {
    && done <= m.Keys && |ts| == |done|
    && ByOid(ts) == OidsIn(m, done) && ByName(ts) == NamesIn(names, done)
    && forall i | 0 <= i < |ts| :: Storable(ts[i])
  }

  lemma ListsNone(m: map<u32, TableRecord>, names: map<Text, u32>)
    ensures Lists([], m, names, {}) && EncodeTables([]) == []
  {
  }

  lemma AllListed(nextOid: u32, ts: seq<TableRecord>, m: map<u32, TableRecord>, names: map<Text, u32>, all: set<u32>)
    requires Lists(ts, m, names, all) && |all| < 0x1_0000_0000
    ensures AllStorable(ts) && EncodeCatalog(nextOid, ts) == EncodeU32(nextOid) + EncodeU32(|all|) + EncodeTables(ts)
  {
  }

  lemma ListsOneMore(ts: seq<TableRecord>, m: map<u32, TableRecord>, names: map<Text, u32>, done: set<u32>, oid: u32)
    requires NamesMatch(m, names) && Lists(ts, m, names, done) && oid in m && oid !in done && Storable(m[oid])
    ensures Lists(ts + [m[oid]], m, names, done + {oid})
  {
    ListsFacts(ts, m, names, done);
    hide *;
    OneListedMore(ts, m[oid]);
    OneMoreIn(m, names, done, oid);
    EncodeOneMore(ts, m[oid]);
    NowLists(ts + [m[oid]], m, names, done + {oid});
  }

  lemma ListsFacts(ts: seq<TableRecord>, m: map<u32, TableRecord>, names: map<Text, u32>, done: set<u32>)
    requires Lists(ts, m, names, done)
    ensures done <= m.Keys && |ts| == |done| && ByOid(ts) == OidsIn(m, done) && ByName(ts) == NamesIn(names, done)
    ensures forall i | 0 <= i < |ts| :: Storable(ts[i])
  {
  }

  lemma NowLists(ts: seq<TableRecord>, m: map<u32, TableRecord>, names: map<Text, u32>, done: set<u32>)
    requires done <= m.Keys && |ts| == |done| && ByOid(ts) == OidsIn(m, done) && ByName(ts) == NamesIn(names, done)
    requires forall i | 0 <= i < |ts| :: Storable(ts[i])
    ensures Lists(ts, m, names, done)
  {
  }

  lemma EncodeOneMore(ts: seq<TableRecord>, t: TableRecord)
    requires Storable(t) && forall i | 0 <= i < |ts| :: Storable(ts[i])
    ensures forall i | 0 <= i < |ts| + 1 :: Storable((ts + [t])[i])
    ensures EncodeTables(ts + [t]) == EncodeTables(ts) + EncodeTable(t)
  {
    hide Storable, EncodeTable;
    assert (ts + [t])[..|ts|] == ts;
  }

  // ---- the loops ----

  /** The bytes that saving appends for one table. */
  method WriteTable(out: seq<byte>, t: TableRecord) returns (r: seq<byte>)
    requires Storable(t)
    ensures r == out + EncodeTable(t)
    ensures |r| == |out| + TableSize(t) && r[..|out|] == out && TableIs(r, |out|, t)
  {
    hide *;
    EncodedTable(t);
    NoBytes([], 0);
    r := out + EncodeU32(t.oid) + EncodeText(t.name) + EncodeU32(|t.columns|);
    ghost var before := r;
    assert t.columns[..0] == [] && t.pageIds[..0] == [];
    for i := 0 to |t.columns|
      invariant r == before + EncodeColumns(t.columns[..i])
    {
      ColumnsNext(t.columns, i);
      r := r + EncodeColumn(t.columns[i]);
    }
    assert t.columns[..|t.columns|] == t.columns && t.pageIds[..|t.pageIds|] == t.pageIds;
    r := r + EncodeU32(|t.pageIds|);
    before := r;
    for i := 0 to |t.pageIds|
      invariant r == before + EncodePageIds(t.pageIds[..i])
    {
      PageIdsNext(t.pageIds, i);
      r := r + EncodeI32(t.pageIds[i]);
    }
    r := r + EncodeI32(t.nextPageId);
    assert r == out + EncodeTable(t);
    TableHolds(r, |out|, t);
    HoldsLast(out, EncodeTable(t));
  }

  lemma ColumnsNext(cs: seq<Column>, i: nat)
    requires i < |cs| && forall j | 0 <= j < |cs| :: |cs[j].name| < LIMIT
    ensures EncodeColumns(cs[..i + 1]) == EncodeColumns(cs[..i]) + EncodeColumn(cs[i])
  {
    hide EncodeColumn;
    assert cs[..i + 1][..i] == cs[..i];
  }

  lemma PageIdsNext(ids: seq<i32>, i: nat)
    requires i < |ids|
    ensures EncodePageIds(ids[..i + 1]) == EncodePageIds(ids[..i]) + EncodeI32(ids[i])
  {
    hide EncodeI32;
    assert ids[..i + 1][..i] == ids[..i];
  }

  lemma HoldsLast(out: seq<byte>, x: seq<byte>)
    ensures HoldsAt(out + x, |out|, x)
  {
  }

  /** What loading reads for one table, from any bytes. */
  method LoadTable(b: seq<byte>) returns (t: TableRecord, rest: seq<byte>)
    ensures (t, rest) == ReadTable(b)
    ensures forall u | TableIs(b, 0, u) :: t == u && TableSize(u) <= |b| && rest == b[TableSize(u)..]
  {
    hide ReadU32, ReadI32, ReadText, ReadColumn, TableIs, TableSize;
    var (oid, b1) := ReadU32(b);
    var (name, b2) := ReadText(b1);
    var (numCols, b3) := ReadU32(b2);
    var columns: seq<Column> := [];
    rest := b3;
    for i := 0 to numCols
      invariant (columns, rest) == ReadColumns(b3, i)
    {
      var (c, r) := ReadColumn(rest);
      columns, rest := columns + [c], r;
    }
    var (numPages, b5) := ReadU32(rest);
    var pageIds: seq<i32> := [];
    rest := b5;
    for i := 0 to numPages
      invariant (pageIds, rest) == ReadPageIds(b5, i)
    {
      var (id, r) := ReadI32(rest);
      pageIds, rest := pageIds + [id], r;
    }
    var (next, b7) := ReadI32(rest);
    t := TableRecord(oid, name, columns, pageIds, next);
    rest := b7;
    forall u | TableIs(b, 0, u)
      ensures t == u && TableSize(u) <= |b| && rest == b[TableSize(u)..]
    {
      TableLaidOutReads(b, u);
    }
  }
}
