/** The catalog file, field by field: what stands at which offset. */
module CatalogLayout {
  import opened Bytes
  import opened Fields
  import opened Rows

  /** What the catalog keeps of one table. */
  datatype TableRecord = TableRecord(oid: u32, name: Text, columns: seq<Column>, pageIds: seq<i32>, nextPageId: i32)

  /** A 32-bit length, and the characters. */
  ghost predicate TextIs(b: seq<byte>, at: nat, s: Text) {
    U32Is(b, at, |s|) && at + 4 + |s| <= |b| && forall i | 0 <= i < |s| :: b[at + 4 + i] == s[i] as int
  }

  /** The number of a type, as the engine's enumeration counts them. */
  ghost predicate TypeIs(b: seq<byte>, at: nat, t: TypeId) {
    match t
    case INVALID => U32Is(b, at, 0)
    case BOOLEAN => U32Is(b, at, 1)
    case INTEGER => U32Is(b, at, 2)
  }

  ghost predicate ColumnIs(b: seq<byte>, at: nat, c: Column) {
    TextIs(b, at, c.name) && TypeIs(b, at + 4 + |c.name|, c.typeId)
  }

  ghost function ColumnsSize(cs: seq<Column>): nat {
    if cs == [] then 0 else ColumnsSize(cs[..|cs| - 1]) + 8 + |cs[|cs| - 1].name|
  }

  /** Column `i` stands where the columns before it end. */
  ghost predicate ColumnAt(b: seq<byte>, at: nat, cs: seq<Column>, i: nat)
    requires i < |cs|
  {
    ColumnIs(b, at + ColumnsSize(cs[..i]), cs[i])
  }

  ghost predicate ColumnsAre(b: seq<byte>, at: nat, cs: seq<Column>) {
    forall i | 0 <= i < |cs| :: ColumnAt(b, at, cs, i)
  }

  ghost predicate PageIdAt(b: seq<byte>, at: nat, ids: seq<i32>, i: nat)
    requires i < |ids|
  {
    I32Is(b, at + 4 * i, ids[i])
  }

  ghost predicate PageIdsAre(b: seq<byte>, at: nat, ids: seq<i32>) {
    forall i | 0 <= i < |ids| :: PageIdAt(b, at, ids, i)
  }

  ghost function TableSize(t: TableRecord): nat {
    20 + |t.name| + ColumnsSize(t.columns) + 4 * |t.pageIds|
  }

  /** Oid, name, columns, page ids and the next page id. */
  ghost predicate TableIs(b: seq<byte>, at: nat, t: TableRecord) {
    var columnsAt := at + 8 + |t.name|;
    var pagesAt := columnsAt + 4 + ColumnsSize(t.columns);
    && U32Is(b, at, t.oid) && TextIs(b, at + 4, t.name)
    && U32Is(b, columnsAt, |t.columns|) && ColumnsAre(b, columnsAt + 4, t.columns)
    && U32Is(b, pagesAt, |t.pageIds|) && PageIdsAre(b, pagesAt + 4, t.pageIds)
    && I32Is(b, pagesAt + 4 + 4 * |t.pageIds|, t.nextPageId)
  }

  ghost function TablesSize(ts: seq<TableRecord>): nat {
    if ts == [] then 0 else TablesSize(ts[..|ts| - 1]) + TableSize(ts[|ts| - 1])
  }

  /** Table `i` stands where the tables before it end. */
  ghost predicate TableAt(b: seq<byte>, at: nat, ts: seq<TableRecord>, i: nat)
    requires i < |ts|
  {
    TableIs(b, at + TablesSize(ts[..i]), ts[i])
  }

  ghost predicate TablesAre(b: seq<byte>, at: nat, ts: seq<TableRecord>) {
    forall i | 0 <= i < |ts| :: TableAt(b, at, ts, i)
  }

  /** The whole file: the next oid, the number of tables, and the tables. */
  ghost predicate FileIs(b: seq<byte>, nextOid: u32, ts: seq<TableRecord>) {
    U32Is(b, 0, nextOid) && U32Is(b, 4, |ts|) && TablesAre(b, 8, ts) && |b| == 8 + TablesSize(ts)
  }
}
