/** INSERT, SELECT and DELETE on one table. */
module TableStatements {
  import opened Bytes
  import opened PageLayout
  import opened Rows
  import opened ValueText
  import opened RecordStore
  import opened StoreScan
  import opened BufferPool
  import PagedRecords
  import opened TableManagement
  import opened CatalogManagement

  // ---- rows as text ----

  /** No column is of a type that cannot be printed. */
  predicate Printable(columns: seq<Column>) {
    forall i | 0 <= i < |columns| :: columns[i].typeId != INVALID
  }

  function PrintCell(row: seq<byte>, columns: seq<Column>, i: nat): Printed
    requires i < |columns| && |row| == RowLength(columns)
  {
    ToString(ValueAt(row, columns, i))
  }

  ghost function PrintRow(row: seq<byte>, columns: seq<Column>): seq<Text>
    requires Printable(columns) && |row| == RowLength(columns)
  {
    seq(|columns|, i requires 0 <= i < |columns| => PrintCell(row, columns, i).text)
  }

  ghost function PrintRows(rows: seq<seq<byte>>, columns: seq<Column>): seq<seq<Text>>
    requires Printable(columns) && forall i | 0 <= i < |rows| :: |rows[i]| == RowLength(columns)
  {
    seq(|rows|, i requires 0 <= i < |rows| => PrintRow(rows[i], columns))
  }

  lemma RowsHaveLength(s: Store, columns: seq<Column>, rs: seq<RecordId>)
    requires Valid(s) && RowsFit(s, columns) && forall r | r in rs :: r in Scan(s)
    ensures forall i | 0 <= i < |rs| :: Lookup(s, rs[i]) != [] && |RowsOf(s, rs)[i]| == RowLength(columns)
  {
    forall i | 0 <= i < |rs| ensures Lookup(s, rs[i]) != [] { ScanExact(s, rs[i]); }
  }

  // ---- the three statements on one table ----

  /** INSERT: the row goes to the store, if it is short enough to fit a page. */
  method InsertRow(t: TableInfo, values: seq<Value>)
    requires t.Ok() && Matches(values, t.schema.columns)
    requires InRange(t.schema.length) && t.table.records.pool.nextPageId < PagedRecords.MAX_PAGES
    modifies t.table.records`pageIds, t.table.records.pool.Repr
    ensures t.Ok() && RecordStore.Valid(old(t.State()).store)
    ensures t.State().store == Insert(old(t.State()).store, RowBytes(values, t.schema.columns)).0
  {
    hide *;
    OkFacts(t);
    ghost var s := t.table.records.Abs();
    var tuple := new Tuple(values, t.schema);
    var _ := t.table.InsertTuple(tuple);
    RowsFitInsert(s, RowBytes(values, t.schema.columns), t.schema.columns);
    NowOk(t);
  }

  lemma OkFacts(t: TableInfo)
    requires t.Ok()
    ensures IsSchema(t.schema) && LengthsFit(t.name, t.schema.columns)
    ensures t.table.records.Valid() && t.table.records.SafeToCompact() && t.table.records.Built()
    ensures RowsFit(t.table.records.Abs(), t.schema.columns) && t.schema.length == RowLength(t.schema.columns)
    ensures t.State() == TableState(t.name, t.schema.columns, t.table.records.Abs())
    ensures IsStore(t.table.records, t.table.records.Abs()) && RecordStore.Valid(t.table.records.Abs())
    ensures 0 <= t.table.records.Abs().next == t.table.records.pool.nextPageId
    ensures t.table.records.Abs().ids == t.table.records.pageIds
    ensures PagedRecords.Labelled(t.table.records.Image()) && PagedRecords.Safe(t.table.records.Image())
  {
    t.table.records.AbsFacts();
  }

  lemma NowOk(t: TableInfo)
    requires IsSchema(t.schema) && LengthsFit(t.name, t.schema.columns)
    requires t.table.records.Valid() && t.table.records.SafeToCompact()
    requires RowsFit(t.table.records.Abs(), t.schema.columns)
    ensures t.Ok() && t.State() == TableState(t.name, t.schema.columns, t.table.records.Abs())
  {
  }

  lemma RowsFitInsert(s: Store, data: seq<byte>, columns: seq<Column>)
    requires Valid(s) && s.next >= 0 && RowsFit(s, columns) && InRange(|data|) && |data| == RowLength(columns)
    ensures RowsFit(Insert(s, data).0, columns)
  {
    InsertIsMapInsert(s, data);
    hide Insert, Lookup;
  }

  /** The cells of the row under the iterator; the row is fetched again for each of them. */
  method PrintCurrent(t: TableInfo, it: TableIterator, ghost s: Store) returns (ok: bool, cells: seq<Text>)
    requires it.records == t.table.records && it !in t.table.records.Repr && IsSchema(t.schema)
    requires IsStore(t.table.records, s) && RecordStore.Valid(s) && RowsFit(s, t.schema.columns)
    requires CursorAt(s, it.pageIdx, it.rid) && Ahead(s, it.pageIdx, it.rid) != []
    modifies t.table.records.pool.Repr
    ensures IsStore(t.table.records, s) && t.table.records.Valid()
    ensures t.table.records.Image() == old(t.table.records.Image())
    ensures old(t.table.records.Durable()) ==> t.table.records.Durable()
    ensures it.rid == old(it.rid) && it.pageIdx == old(it.pageIdx)
    ensures |Lookup(s, it.rid)| == RowLength(t.schema.columns)
    ensures ok <==> Printable(t.schema.columns)
    ensures ok ==> cells == PrintRow(Lookup(s, it.rid), t.schema.columns)
  {
    hide *;
    ghost var row, columns := Lookup(s, it.rid), t.schema.columns;
    CurrentFits(s, it.pageIdx, it.rid, columns);
    SchemaLength(t.schema);
    StoreFacts(t.table.records, s);
    PrintStarts(row, columns);
    cells := [];
    ghost var m, durable := t.table.records.Image(), t.table.records.Durable();
    ghost var rid, k := it.rid, it.pageIdx;
    for i := 0 to |t.schema.columns|
      invariant IsStore(t.table.records, s) && t.table.records.Valid() && t.table.records.Image() == m
      invariant durable ==> t.table.records.Durable()
      invariant it.rid == rid && it.pageIdx == k
      invariant PrintedUpTo(row, columns, cells, i)
    {
      var c: Option<Text> := PrintCurrentCell(t, it, s, i);
      PrintSteps(row, columns, cells, i, c);
      if c == None {
        return false, [];
      }
      cells := cells + [c.value];
    }
    PrintEnds(row, columns, cells);
    ok := true;
  }

  lemma SchemaLength(schema: Schema)
    requires IsSchema(schema)
    ensures schema.length == RowLength(schema.columns)
  {
  }

  lemma PrintStarts(row: seq<byte>, columns: seq<Column>)
    requires |row| == RowLength(columns)
    ensures PrintedUpTo(row, columns, [], 0)
  {
  }

  lemma PrintSteps(row: seq<byte>, columns: seq<Column>, cells: seq<Text>, i: nat, c: Option<Text>)
    requires i < |columns| && |row| == RowLength(columns) && PrintedUpTo(row, columns, cells, i)
    requires c == None <==> columns[i].typeId == INVALID
    requires c != None ==> PrintCell(row, columns, i) == Printed(c.value)
    ensures c == None ==> !Printable(columns)
    ensures c != None ==> PrintedUpTo(row, columns, cells + [c.value], i + 1)
  {
    hide PrintCell;
  }

  lemma PrintEnds(row: seq<byte>, columns: seq<Column>, cells: seq<Text>)
    requires |row| == RowLength(columns) && PrintedUpTo(row, columns, cells, |columns|)
    ensures Printable(columns) && cells == PrintRow(row, columns)
  {
  }

  ghost predicate PrintedUpTo(row: seq<byte>, columns: seq<Column>, cells: seq<Text>, n: nat)
    requires n <= |columns| && |row| == RowLength(columns)
  {
    && |cells| == n
    && forall i | 0 <= i < n :: columns[i].typeId != INVALID && PrintCell(row, columns, i) == Printed(cells[i])
  }

  method PrintCurrentCell(t: TableInfo, it: TableIterator, ghost s: Store, i: nat) returns (c: Option<Text>)
    requires it.records == t.table.records && it !in t.table.records.Repr
    requires IsSchema(t.schema) && i < |t.schema.columns|
    requires IsStore(t.table.records, s) && RecordStore.Valid(s)
    requires CursorAt(s, it.pageIdx, it.rid) && Ahead(s, it.pageIdx, it.rid) != []
    requires |Lookup(s, it.rid)| == RowLength(t.schema.columns) == t.schema.length
    modifies t.table.records.pool.Repr
    ensures IsStore(t.table.records, s) && t.table.records.Valid()
    ensures t.table.records.Image() == old(t.table.records.Image())
    ensures old(t.table.records.Durable()) ==> t.table.records.Durable()
    ensures it.rid == old(it.rid) && it.pageIdx == old(it.pageIdx)
    ensures var cell := PrintCell(Lookup(s, it.rid), t.schema.columns, i);
      && (c == None <==> t.schema.columns[i].typeId == INVALID)
      && (c != None ==> cell == Printed(c.value))
  {
    hide *;
    CellPrints(Lookup(s, it.rid), t.schema.columns, i);
    StoreFacts(t.table.records, s);
    var row := it.Current(s);
    var v := row.GetValue(t.schema, i);
    match ToString(v)
    case Printed(text) => c := Some(text);
    case Unprintable => c := None;
  }

  lemma CellPrints(row: seq<byte>, columns: seq<Column>, i: nat)
    requires i < |columns| && |row| == RowLength(columns)
    ensures PrintCell(row, columns, i) == ToString(ValueAt(row, columns, i))
    ensures PrintCell(row, columns, i) == Unprintable <==> columns[i].typeId == INVALID
  {
  }

  lemma CurrentFits(s: Store, k: nat, r: RecordId, columns: seq<Column>)
    requires RecordStore.Valid(s) && RowsFit(s, columns) && CursorAt(s, k, r) && Ahead(s, k, r) != []
    ensures |Lookup(s, r)| == RowLength(columns)
  {
    CursorFacts(s, k, r);
  }

  // ---- SELECT ----

  /** Every live row printed, in scan order; an error if there is a row that cannot be. */
  ghost function SelectResult(s: Store, columns: seq<Column>): Option<seq<seq<Text>>>
    requires RecordStore.Valid(s) && RowsFit(s, columns)
  {
    RowsHaveLength(s, columns, Scan(s));
    if Scan(s) == [] then Some([])
    else if Printable(columns) then Some(PrintRows(AllRows(s), columns))
    else None
  }

  /** The rows printed so far are those of the records visited so far. */
  ghost predicate PrintedSoFar(s: Store, columns: seq<Column>, visited: seq<RecordId>, rows: seq<seq<Text>>) {
    && |rows| == |visited| && (rows != [] ==> Printable(columns))
    && forall i | 0 <= i < |rows| ::
         && Printable(columns) && |Lookup(s, visited[i])| == RowLength(columns)
         && rows[i] == PrintRow(Lookup(s, visited[i]), columns)
  }

  lemma PrintedOneMore(s: Store, columns: seq<Column>, visited: seq<RecordId>, rows: seq<seq<Text>>,
                       r: RecordId, row: seq<Text>)
    requires PrintedSoFar(s, columns, visited, rows)
    requires Printable(columns) && |Lookup(s, r)| == RowLength(columns) && row == PrintRow(Lookup(s, r), columns)
    ensures PrintedSoFar(s, columns, visited + [r], rows + [row])
  {
    hide PrintRow, Lookup, Printable;
  }

  lemma PrintedAll(s: Store, columns: seq<Column>, rows: seq<seq<Text>>)
    requires RecordStore.Valid(s) && RowsFit(s, columns) && PrintedSoFar(s, columns, Scan(s), rows)
    ensures SelectResult(s, columns) == Some(rows)
  {
    RowsHaveLength(s, columns, Scan(s));
    hide Scan, Lookup, PrintRow;
    if Scan(s) != [] { assert PrintRows(AllRows(s), columns) == rows; }
  }

  lemma CannotPrint(s: Store, columns: seq<Column>)
    requires RecordStore.Valid(s) && RowsFit(s, columns) && Scan(s) != [] && !Printable(columns)
    ensures SelectResult(s, columns) == None
  {
  }

  /** One step of a scan. */
  ghost predicate Visited(s: Store, visited: seq<RecordId>, it: TableIterator)
    reads it
  {
    RecordStore.Valid(s) && CursorAt(s, it.pageIdx, it.rid) && Scan(s) == visited + Ahead(s, it.pageIdx, it.rid)
  }

  lemma VisitFacts(s: Store, visited: seq<RecordId>, it: TableIterator)
    requires Visited(s, visited, it)
    ensures RecordStore.Valid(s) && CursorAt(s, it.pageIdx, it.rid)
    ensures it.rid == INVALID_RECORD <==> Ahead(s, it.pageIdx, it.rid) == []
    ensures it.rid == INVALID_RECORD ==> Scan(s) == visited
    ensures it.rid != INVALID_RECORD ==>
      && Scan(s) != [] && it.rid in Scan(s) && it.rid.pageId in s.ids
      && it.rid.slotId < 65535 && it.pageIdx < |s.ids| && it.rid.pageId == s.ids[it.pageIdx]
      && Scan(s) == visited + [it.rid] + ScanFrom(s, it.pageIdx, it.rid.slotId + 1)
  {
    hide Scan, ScanFrom, Ahead, CursorAt, Lookup, RecordStore.Valid;
    CursorFacts(s, it.pageIdx, it.rid);
    if it.rid != INVALID_RECORD {
      OnePastCursor(s, it.pageIdx, it.rid);
      assert Scan(s)[|visited|] == it.rid;
    }
  }

  lemma NowVisited(s: Store, visited: seq<RecordId>, it: TableIterator)
    requires RecordStore.Valid(s) && CursorAt(s, it.pageIdx, it.rid)
    requires Scan(s) == visited + Ahead(s, it.pageIdx, it.rid)
    ensures Visited(s, visited, it)
  {
  }

  /** `++it` and the comparison with the end. */
  method Advance(t: TableInfo, it: TableIterator, ghost s: Store, ghost visited: seq<RecordId>) returns (atEnd: bool)
    requires it.records == t.table.records && it !in t.table.records.Repr
    requires IsStore(t.table.records, s) && Visited(s, visited, it) && it.rid != INVALID_RECORD
    modifies it, t.table.records.pool.Repr
    ensures IsStore(t.table.records, s) && t.table.records.Valid()
    ensures t.table.records.Image() == old(t.table.records.Image())
    ensures old(t.table.records.Durable()) ==> t.table.records.Durable()
    ensures Visited(s, visited + [old(it.rid)], it) && |visited| < |Scan(s)|
    ensures atEnd <==> it.rid == INVALID_RECORD
  {
    hide *;
    StoreFacts(t.table.records, s);
    VisitFacts(s, visited, it);
    ghost var rid := it.rid;
    it.Next(s);
    NowVisited(s, visited + [rid], it);
    var end := t.table.End(s);
    atEnd := it.Equals(end);
  }

  method SelectRows(t: TableInfo) returns (r: Option<seq<seq<Text>>>)
    requires t.Ok()
    modifies t.table.records.pool.Repr
    ensures t.Ok() && t.State() == old(t.State())
    ensures RecordStore.Valid(t.State().store) && RowsFit(t.State().store, t.schema.columns)
    ensures r == SelectResult(t.State().store, t.schema.columns)
    ensures t.table.records.Valid() && t.table.records.Image() == old(t.table.records.Image())
    ensures old(t.table.records.Durable()) ==> t.table.records.Durable()
  {
    hide *;
    OkFacts(t);
    ghost var s, m, columns := t.table.records.Abs(), t.table.records.Image(), t.schema.columns;
    ghost var durable := t.table.records.Durable();
    var rows: seq<seq<Text>> := [];
    ghost var visited: seq<RecordId> := [];
    NothingPrinted(s, columns);
    var it := t.table.Begin(s);
    NowVisited(s, visited, it);
    var end := t.table.End(s);
    var atEnd := it.Equals(end);
    VisitFacts(s, visited, it);
    while !atEnd
      invariant IsStore(t.table.records, s) && t.table.records.Valid() && t.table.records.Image() == m
      invariant durable ==> t.table.records.Durable()
      invariant it.records == t.table.records && fresh(it)
      invariant Visited(s, visited, it) && PrintedSoFar(s, columns, visited, rows)
      invariant atEnd <==> it.rid == INVALID_RECORD
      decreases |Scan(s)| - |visited|
    {
      VisitFacts(s, visited, it);
      var ok, cells := PrintCurrent(t, it, s);
      if !ok {
        CannotPrint(s, columns);
        StillOk(t, s, m);
        return None;
      }
      PrintedOneMore(s, columns, visited, rows, it.rid, cells);
      rows := rows + [cells];
      ghost var rid := it.rid;
      atEnd := Advance(t, it, s, visited);
      visited := visited + [rid];
    }
    VisitFacts(s, visited, it);
    PrintedAll(s, columns, rows);
    StillOk(t, s, m);
    r := Some(rows);
  }

  lemma NothingPrinted(s: Store, columns: seq<Column>)
    ensures PrintedSoFar(s, columns, [], [])
  {
  }

  lemma StillOk(t: TableInfo, s: Store, m: map<int, PageBytes>)
    requires IsStore(t.table.records, s) && t.table.records.Valid() && t.table.records.Image() == m
    requires PagedRecords.Labelled(m) && PagedRecords.Safe(m) && RowsFit(s, t.schema.columns)
    requires IsSchema(t.schema) && LengthsFit(t.name, t.schema.columns)
    ensures t.Ok() && t.State() == TableState(t.name, t.schema.columns, s)
  {
  }

  // ---- DELETE ----

  /** The rows to delete: all of them, or those whose cell in a column prints as a text. */
  datatype Condition = Everything | CellIs(column: nat, text: Text)

  predicate Applies(c: Condition, columns: seq<Column>) {
    c.CellIs? ==> c.column < |columns|
  }

  /** The column's cells cannot be printed, so the comparison fails on any row. */
  ghost predicate Blocked(c: Condition, columns: seq<Column>) {
    c.CellIs? && c.column < |columns| && columns[c.column].typeId == INVALID
  }

  ghost predicate Satisfies(row: seq<byte>, columns: seq<Column>, c: Condition)
    requires Applies(c, columns) && |row| == RowLength(columns)
  {
    c.CellIs? ==> PrintCell(row, columns, c.column) == Printed(c.text)
  }

  /** The records that a condition picks out of a list. */
  ghost function Picked(s: Store, columns: seq<Column>, c: Condition, rs: seq<RecordId>): set<RecordId>
    requires Applies(c, columns)
  {
    set r | r in rs && |Lookup(s, r)| == RowLength(columns) && Satisfies(Lookup(s, r), columns, c)
  }

  /** The first column with a name. */
  function FirstNamed(columns: seq<Column>, name: Text): (idx: Option<nat>)
    ensures idx == None <==> forall i | 0 <= i < |columns| :: columns[i].name != name
    ensures idx != None ==>
      && idx.value < |columns| && columns[idx.value].name == name
      && forall i | 0 <= i < idx.value :: columns[i].name != name
  {
    if columns == [] then None
    else if columns[0].name == name then Some(0)
    else
      var rest: Option<nat> := FirstNamed(columns[1..], name);
      assert forall i | 1 <= i < |columns| :: columns[i] == columns[1..][i - 1];
      if rest == None then None else Some(rest.value + 1)
  }

  method FindColumn(columns: seq<Column>, name: Text) returns (idx: Option<nat>)
    ensures idx == FirstNamed(columns, name)
  {
    for i := 0 to |columns|
      invariant forall j | 0 <= j < i :: columns[j].name != name
    {
      if columns[i].name == name {
        return Some(i);
      }
    }
    idx := None;
  }

  /** The condition of a DELETE statement; `None` if its WHERE names no column of the table. */
  function ConditionFor(columns: seq<Column>, whereColumn: Text, whereValue: Text): (c: Option<Condition>)
    ensures c != None ==> Applies(c.value, columns)
    ensures c == None <==> whereColumn != "" && forall i | 0 <= i < |columns| :: columns[i].name != whereColumn
    ensures c != None ==> (c.value == Everything <==> whereColumn == "")
    ensures c != None && c.value.CellIs? ==>
      && c.value.text == whereValue && columns[c.value.column].name == whereColumn
      && forall i | 0 <= i < c.value.column :: columns[i].name != whereColumn
  {
    if whereColumn == "" then Some(Everything)
    else
      match FirstNamed(columns, whereColumn)
      case None => None
      case Some(i) => Some(CellIs(i, whereValue))
  }

  ghost function IdsOf(ids: seq<RecordId>): set<RecordId> {
    set r | r in ids
  }

  lemma NoIds(ids: seq<RecordId>)
    ensures IdsOf(ids[..0]) == {}
  {
  }

  lemma IdsOfOneMore(ids: seq<RecordId>, i: nat)
    requires i < |ids|
    ensures IdsOf(ids[..i + 1]) == IdsOf(ids[..i]) + {ids[i]}
  {
    assert ids[..i + 1] == ids[..i] + [ids[i]];
  }

  ghost predicate NoRepeats(rs: seq<RecordId>) {
    forall i, j | 0 <= i < j < |rs| :: rs[i] != rs[j]
  }

  /** The ids collected so far are the picked ones among those visited. */
  ghost predicate Collected(s: Store, columns: seq<Column>, c: Condition, visited: seq<RecordId>, ids: seq<RecordId>) {
    && Applies(c, columns)
    && NoRepeats(ids) && (forall r :: r in ids <==> r in Picked(s, columns, c, visited))
  }

  lemma CollectedOneMore(s: Store, columns: seq<Column>, c: Condition, visited: seq<RecordId>, ids: seq<RecordId>,
                         r: RecordId, match_: bool)
    requires Collected(s, columns, c, visited, ids) && r !in visited && |Lookup(s, r)| == RowLength(columns)
    requires match_ <==> Satisfies(Lookup(s, r), columns, c)
    ensures Collected(s, columns, c, visited + [r], if match_ then ids + [r] else ids)
  {
    hide Satisfies, Lookup;
    assert r !in ids;
    assert forall q :: q in visited + [r] <==> q in visited || q == r;
  }

  lemma CollectedCount(s: Store, columns: seq<Column>, c: Condition, ids: seq<RecordId>)
    requires RecordStore.Valid(s) && Collected(s, columns, c, Scan(s), ids)
    ensures |Picked(s, columns, c, Scan(s))| == |ids|
    ensures forall i | 0 <= i < |ids| :: ids[i].pageId in s.ids
    ensures IdsOf(ids) == Picked(s, columns, c, Scan(s))
  {
    NoRepeatsCount(ids);
    assert IdsOf(ids) == Picked(s, columns, c, Scan(s));
    forall i | 0 <= i < |ids| ensures ids[i].pageId in s.ids {
      assert ids[i] in Picked(s, columns, c, Scan(s));
      ScanExact(s, ids[i]);
    }
  }

  lemma {:induction false} NoRepeatsCount(ids: seq<RecordId>)
    requires NoRepeats(ids)
    ensures |IdsOf(ids)| == |ids|
  {
    if ids != [] {
      var front, last := ids[..|ids| - 1], ids[|ids| - 1];
      NoRepeatsCount(front);
      assert IdsOf(ids) == IdsOf(front) + {last};
    }
  }

  /** Whether the row under the iterator is to go; `None` where its cell cannot be printed. */
  method CheckCurrent(t: TableInfo, it: TableIterator, ghost s: Store, c: Condition) returns (hit: Option<bool>)
    requires it.records == t.table.records && it !in t.table.records.Repr && IsSchema(t.schema)
    requires Applies(c, t.schema.columns)
    requires IsStore(t.table.records, s) && RecordStore.Valid(s) && RowsFit(s, t.schema.columns)
    requires CursorAt(s, it.pageIdx, it.rid) && Ahead(s, it.pageIdx, it.rid) != []
    modifies t.table.records.pool.Repr
    ensures IsStore(t.table.records, s) && t.table.records.Valid()
    ensures t.table.records.Image() == old(t.table.records.Image())
    ensures it.rid == old(it.rid) && it.pageIdx == old(it.pageIdx)
    ensures |Lookup(s, it.rid)| == RowLength(t.schema.columns)
    ensures hit == None <==> Blocked(c, t.schema.columns)
    ensures hit != None ==> (hit.value <==> Satisfies(Lookup(s, it.rid), t.schema.columns, c))
  {
    CurrentFits(s, it.pageIdx, it.rid, t.schema.columns);
    hide IsStore, CursorAt, Ahead, RecordStore.Valid, Lookup, PrintCell, RowsFit;
    match c
    case Everything =>
      StoreFacts(t.table.records, s);
      hit := Some(true);
    case CellIs(column, text) =>
      SchemaLength(t.schema);
      var cell: Option<Text> := PrintCurrentCell(t, it, s, column);
      hit := if cell == None then None else Some(cell.value == text);
  }

  lemma NotYetVisited(s: Store, visited: seq<RecordId>, it: TableIterator)
    requires Visited(s, visited, it) && it.rid != INVALID_RECORD
    ensures it.rid !in visited
  {
    VisitFacts(s, visited, it);
    ScanOrdered(s);
    hide Scan, Before;
    assert Scan(s)[|visited|] == it.rid;
    assert forall i | 0 <= i < |visited| :: Scan(s)[i] == visited[i];
  }

  lemma NothingCollected(s: Store, columns: seq<Column>, c: Condition)
    requires Applies(c, columns)
    ensures Collected(s, columns, c, [], [])
  {
  }

  /** The first pass of DELETE: the ids of the rows to go, none of them deleted yet. */
  method CollectIds(t: TableInfo, c: Condition) returns (ids: Option<seq<RecordId>>)
    requires t.Ok() && Applies(c, t.schema.columns)
    modifies t.table.records.pool.Repr
    ensures t.Ok() && t.State() == old(t.State()) && RecordStore.Valid(t.State().store)
    ensures t.table.records.pageIds == old(t.table.records.pageIds)
    ensures ids == None <==> Blocked(c, t.schema.columns) && Scan(t.State().store) != []
    ensures ids != None ==>
      Collected(t.State().store, t.schema.columns, c, Scan(t.State().store), ids.value)
  {
    hide *;
    OkFacts(t);
    ghost var s, m, columns := t.table.records.Abs(), t.table.records.Image(), t.schema.columns;
    var found: seq<RecordId> := [];
    ghost var visited: seq<RecordId> := [];
    NothingCollected(s, columns, c);
    var it := t.table.Begin(s);
    NowVisited(s, visited, it);
    var end := t.table.End(s);
    var atEnd := it.Equals(end);
    VisitFacts(s, visited, it);
    while !atEnd
      invariant IsStore(t.table.records, s) && t.table.records.Valid() && t.table.records.Image() == m
      invariant it.records == t.table.records && fresh(it)
      invariant Visited(s, visited, it) && Collected(s, columns, c, visited, found)
      invariant atEnd <==> it.rid == INVALID_RECORD
      invariant visited == [] || !Blocked(c, columns)
      decreases |Scan(s)| - |visited|
    {
      VisitFacts(s, visited, it);
      NotYetVisited(s, visited, it);
      var hit: Option<bool> := CheckCurrent(t, it, s, c);
      if hit == None {
        StillOk(t, s, m);
        return None;
      }
      CollectedOneMore(s, columns, c, visited, found, it.rid, hit.value);
      if hit.value {
        var rid := it.GetRid();
        found := found + [rid];
      }
      ghost var rid := it.rid;
      atEnd := Advance(t, it, s, visited);
      visited := visited + [rid];
    }
    VisitFacts(s, visited, it);
    StillOk(t, s, m);
    ids := Some(found);
  }

  /** The second pass: every collected id is still valid when its turn comes. */
  method DeleteIds(t: TableInfo, ids: seq<RecordId>)
    requires t.Ok() && forall i | 0 <= i < |ids| :: ids[i].pageId in t.State().store.ids
    modifies t.table.records.pool.Repr
    ensures t.Ok() && RecordStore.Valid(t.State().store)
    ensures Emptied(old(t.State()).store, t.State().store, IdsOf(ids))
  {
    hide *;
    OkFacts(t);
    ghost var s := t.table.records.Abs();
    ghost var pageIds := t.table.records.pageIds;
    EmptiedNothing(s);
    NoIds(ids);
    for i := 0 to |ids|
      invariant t.table.records.Valid() && t.table.records.SafeToCompact()
      invariant t.table.records.pageIds == pageIds && RecordStore.Valid(t.table.records.Abs())
      invariant Emptied(s, t.table.records.Abs(), IdsOf(ids[..i]))
    {
      EmptiedOneMore(s, t.table.records.Abs(), IdsOf(ids[..i]), ids[i]);
      IdsOfOneMore(ids, i);
      var _ := t.table.DeleteTuple(ids[i]);
    }
    assert ids[..|ids|] == ids;
    RowsFitEmptied(s, t.table.records.Abs(), IdsOf(ids), t.schema.columns);
    NowOk(t);
  }

  lemma RowsFitEmptied(s: Store, u: Store, gone: set<RecordId>, columns: seq<Column>)
    requires RowsFit(s, columns) && Emptied(s, u, gone)
    ensures RowsFit(u, columns)
  {
    hide Lookup;
  }

  datatype DeleteOutcome = Deleted(count: nat) | NoSuchColumn | NotPrintable

  /** What a DELETE does to a store: exactly the rows of the condition go. */
  ghost predicate DeletesExactly(s: Store, u: Store, columns: seq<Column>, c: Condition, count: nat) {
    && RecordStore.Valid(s) && RecordStore.Valid(u) && Applies(c, columns)
    && Emptied(s, u, Picked(s, columns, c, Scan(s)))
    && Scan(u) == Without(Scan(s), Picked(s, columns, c, Scan(s)))
    && count == |Picked(s, columns, c, Scan(s))|
  }

  method DeleteRows(t: TableInfo, whereColumn: Text, whereValue: Text) returns (r: DeleteOutcome)
    requires t.Ok()
    modifies t.table.records.pool.Repr
    ensures t.Ok() && RecordStore.Valid(old(t.State()).store)
    ensures t.State() == old(t.State()).(store := t.State().store)
    ensures !r.Deleted? ==> t.State() == old(t.State())
    ensures var c := ConditionFor(t.schema.columns, whereColumn, whereValue);
      && (r.NoSuchColumn? <==> c == None)
      && (r.NotPrintable? <==> c != None && Blocked(c.value, t.schema.columns) && Scan(old(t.State()).store) != [])
      && (r.Deleted? ==>
            DeletesExactly(old(t.State()).store, t.State().store, t.schema.columns, c.value, r.count))
  {
    hide *;
    OkFacts(t);
    ConditionIs(t.schema.columns, whereColumn, whereValue);
    var c := Everything;
    if whereColumn != "" {
      var idx: Option<nat> := FindColumn(t.schema.columns, whereColumn);
      if idx == None {
        return NoSuchColumn;
      }
      c := CellIs(idx.value, whereValue);
    }
    r := DeleteWhere(t, c);
    OkFacts(t);
  }

  lemma ConditionIs(columns: seq<Column>, whereColumn: Text, whereValue: Text)
    ensures whereColumn == "" ==> ConditionFor(columns, whereColumn, whereValue) == Some(Everything)
    ensures var i := FirstNamed(columns, whereColumn); var c := ConditionFor(columns, whereColumn, whereValue);
      whereColumn != "" ==> c == if i == None then None else Some(CellIs(i.value, whereValue))
  {
  }

  method DeleteWhere(t: TableInfo, c: Condition) returns (r: DeleteOutcome)
    requires t.Ok() && Applies(c, t.schema.columns)
    modifies t.table.records.pool.Repr
    ensures t.Ok() && !r.NoSuchColumn?
    ensures RecordStore.Valid(old(t.State()).store)
    ensures r.NotPrintable? <==> Blocked(c, t.schema.columns) && Scan(old(t.State()).store) != []
    ensures r.NotPrintable? ==> t.State() == old(t.State())
    ensures r.Deleted? ==> DeletesExactly(old(t.State()).store, t.State().store, t.schema.columns, c, r.count)
  {
    hide *;
    OkFacts(t);
    ghost var s := t.State().store;
    var ids: Option<seq<RecordId>> := CollectIds(t, c);
    if ids == None {
      return NotPrintable;
    }
    CollectedCount(s, t.schema.columns, c, ids.value);
    DeleteIds(t, ids.value);
    DeletedExactly(s, t.State().store, t.schema.columns, c, |ids.value|);
    r := Deleted(|ids.value|);
  }

  lemma DeletedExactly(s: Store, u: Store, columns: seq<Column>, c: Condition, count: nat)
    requires RecordStore.Valid(s) && RecordStore.Valid(u) && Applies(c, columns)
    requires Emptied(s, u, Picked(s, columns, c, Scan(s))) && count == |Picked(s, columns, c, Scan(s))|
    ensures DeletesExactly(s, u, columns, c, count)
  {
    EmptiedScan(s, u, Picked(s, columns, c, Scan(s)), 0, 0);
    hide Picked, Emptied;
  }
}
