/**
 What users see of the database, over whole sessions: under each name a list of rows of values,
 printed by SELECT in that order. Pages, caches and compaction are gone from this view.
 */
module Sessions {
  import opened Bytes
  import opened Rows
  import opened ValueText
  import opened RecordStore
  import opened StoreScan
  import opened BufferPool
  import opened CatalogManagement
  import opened TableStatements
  import opened Execution

  datatype Relation = Relation(columns: seq<Column>, rows: seq<seq<Value>>)

  /** Rows whose order does not matter. */
  type Bag = multiset<seq<Value>>

  // ---- rows of values ----

  ghost function ValuesOf(row: seq<byte>, columns: seq<Column>): (vs: seq<Value>)
    requires |row| == RowLength(columns)
    ensures |vs| == |columns|
  {
    seq(|columns|, i requires 0 <= i < |columns| => ValueAt(row, columns, i))
  }

  /** What a column holds that got no value: zero, or false. */
  ghost function ZeroOf(t: TypeId): Value {
    match t
    case INVALID => NoValue
    case BOOLEAN => Boolean(0)
    case INTEGER => Integer(0)
  }

  lemma ZerosDecode(t: TypeId)
    ensures Decode(Zeros(SizeOf(t)), t) == ZeroOf(t)
  {
  }

  /** The values given, and zeros in the columns that got none. */
  ghost function Padded(values: seq<Value>, columns: seq<Column>): (vs: seq<Value>)
    requires |values| <= |columns|
    ensures |vs| == |columns|
  {
    seq(|columns|, i requires 0 <= i < |columns| =>
      if i < |values| then values[i] else ZeroOf(columns[i].typeId))
  }

  /** What a statement's values are when they are read back from the row they were stored in. */
  lemma StoredAndRead(values: seq<Value>, columns: seq<Column>)
    requires Matches(values, columns)
    ensures ValuesOf(RowBytes(values, columns), columns) == Padded(values, columns)
  {
    forall i | 0 <= i < |columns|
      ensures ValuesOf(RowBytes(values, columns), columns)[i] == Padded(values, columns)[i]
    {
      RowRoundTrip(values, columns, i);
      ZerosDecode(columns[i].typeId);
    }
  }

  ghost predicate AllFit(s: Store, columns: seq<Column>, rs: seq<RecordId>) {
    forall i | 0 <= i < |rs| :: |Lookup(s, rs[i])| == RowLength(columns)
  }

  ghost function RowsAt(s: Store, columns: seq<Column>, rs: seq<RecordId>): (rows: seq<seq<Value>>)
    requires AllFit(s, columns, rs)
    ensures |rows| == |rs|
  {
    seq(|rs|, i requires 0 <= i < |rs| => ValuesOf(Lookup(s, rs[i]), columns))
  }

  ghost predicate IsTable(t: TableState) {
    RecordStore.Valid(t.store) && t.store.next >= 0 && RowsFit(t.store, t.columns)
  }

  lemma ScanFits(t: TableState)
    requires IsTable(t)
    ensures AllFit(t.store, t.columns, Scan(t.store))
  {
    RowsHaveLength(t.store, t.columns, Scan(t.store));
  }

  ghost function RelationOf(t: TableState): Relation
    requires IsTable(t)
  {
    ScanFits(t);
    Relation(t.columns, RowsAt(t.store, t.columns, Scan(t.store)))
  }

  /** The relations by name. */
  ghost function View(d: Database): map<Text, Relation>
    requires IsDatabase(d)
  {
    map name | name in d.names :: RelationOf(d.tables[d.names[name]])
  }

  // ---- INSERT ----

  /** One row more, the others in their order. */
  ghost predicate WithOneMore(rows: seq<seq<Value>>, row: seq<Value>, rows': seq<seq<Value>>) {
    exists i | 0 <= i <= |rows| :: rows' == rows[..i] + [row] + rows[i..]
  }

  lemma RowAdded(t: TableState, values: seq<Value>)
    requires IsTable(t) && Matches(values, t.columns) && 1 <= RowLength(t.columns) <= MAX_RECORD
    ensures IsTable(WithRow(t, values))
    ensures RelationOf(t).columns == RelationOf(WithRow(t, values)).columns == t.columns
    ensures WithOneMore(RelationOf(t).rows, Padded(values, t.columns), RelationOf(WithRow(t, values)).rows)
  {
    var data, u := RowBytes(values, t.columns), WithRow(t, values);
    InsertIsMapInsert(t.store, data);
    RowsFitInsert(t.store, data, t.columns);
    var i := InsertScan(t.store, data);
    InsertKeepsRows(t.store, data);
    StoredAndRead(values, t.columns);
    ScanFits(t);
    ScanFits(u);
    hide *;
    RelationIs(t);
    RelationIs(u);
    RowsAtWith(t.store, u.store, t.columns, Scan(t.store), i, Insert(t.store, data).1);
  }

  lemma RelationIs(t: TableState)
    requires IsTable(t) && AllFit(t.store, t.columns, Scan(t.store))
    ensures RelationOf(t) == Relation(t.columns, RowsAt(t.store, t.columns, Scan(t.store)))
  {
  }

  lemma RelationColumns(t: TableState)
    requires IsTable(t)
    ensures RelationOf(t).columns == t.columns
  {
  }

  lemma RowsAtWith(s: Store, u: Store, columns: seq<Column>, rs: seq<RecordId>, i: nat, r: RecordId)
    requires i <= |rs| && AllFit(s, columns, rs) && AllFit(u, columns, rs[..i] + [r] + rs[i..])
    requires forall q | q in rs :: Lookup(u, q) == Lookup(s, q)
    ensures |Lookup(u, r)| == RowLength(columns)
    ensures WithOneMore(RowsAt(s, columns, rs), ValuesOf(Lookup(u, r), columns),
                        RowsAt(u, columns, rs[..i] + [r] + rs[i..]))
  {
    hide Lookup, ValuesOf;
    var rs' := rs[..i] + [r] + rs[i..];
    assert rs'[i] == r;
    assert forall j | 0 <= j < |rs| :: rs[j] in rs;
    var rows := RowsAt(s, columns, rs);
    assert RowsAt(u, columns, rs') == rows[..i] + [ValuesOf(Lookup(u, r), columns)] + rows[i..];
  }

  lemma LongRowsKeepSlots(s: Store, data: seq<byte>)
    requires RecordStore.Valid(s) && s.next >= 0 && InRange(|data|) && (data == [] || |data| > MAX_RECORD)
    ensures SameSlots(s, Insert(s, data).0)
  {
  }

  /** A row too long for a page, or without a byte, leaves the table as it was. */
  lemma RowNotAdded(t: TableState, values: seq<Value>)
    requires IsTable(t) && Matches(values, t.columns) && !(1 <= RowLength(t.columns) <= MAX_RECORD)
    requires InRange(RowLength(t.columns))
    ensures IsTable(WithRow(t, values)) && RelationOf(WithRow(t, values)) == RelationOf(t)
    ensures RelationOf(t).columns == t.columns
  {
    var data, u := RowBytes(values, t.columns), WithRow(t, values);
    InsertIsMapInsert(t.store, data);
    RowsFitInsert(t.store, data, t.columns);
    LongRowsKeepSlots(t.store, data);
    SameScan(t.store, u.store, 0, 0);
    ScanFits(t);
    ScanFits(u);
    hide Insert, ScanFrom, Lookup, RowBytes, ValuesOf, RecordStore.Valid, RowsFit, SameSlots;
    assert RelationOf(u).rows == RelationOf(t).rows;
  }

  // ---- DELETE ----

  ghost predicate Meets(row: seq<Value>, c: Condition) {
    c.CellIs? ==> c.column < |row| && Prints(row[c.column], c.text)
  }

  /** The rows that a DELETE leaves, in their order. */
  ghost function Remaining(rows: seq<seq<Value>>, c: Condition): seq<seq<Value>> {
    if rows == [] then []
    else (if Meets(rows[0], c) then [] else [rows[0]]) + Remaining(rows[1..], c)
  }

  lemma MeetsIsSatisfies(row: seq<byte>, columns: seq<Column>, c: Condition)
    requires Applies(c, columns) && |row| == RowLength(columns)
    ensures Meets(ValuesOf(row, columns), c) <==> Satisfies(row, columns, c)
  {
    hide ToString, Prints;
    if c.CellIs? { ToStringPrints(ValueAt(row, columns, c.column), c.text); }
  }

  /**
   Which texts in a WHERE select a row, going by the value that the row has in the column: those that mean this
   value as a literal would, and are written as values are printed.
   */
  lemma WhereSelects(row: seq<Value>, column: nat, text: Text)
    requires column < |row|
    ensures Meets(row, CellIs(column, text)) <==>
      && Canonical(text, TypeOf(row[column]))
      && Means(text, TypeOf(row[column]), Ok(Normal(row[column])))
  {
    hide Prints, Canonical, Means;
    PrintsExactly(row[column], text);
  }

  /**
   Of a row inserted with the literal `raw[i]` in column `i`: a WHERE on that column with the same literal selects
   it if and only if the literal is written as values are printed, and with another one if and only if that is, and
   means the same.
   */
  lemma WhereSelectsInserted(raw: seq<Text>, columns: seq<Column>, values: seq<Value>, i: nat, text: Text)
    requires |raw| <= |columns| && i < |raw| && ReadsAs(raw, columns, Row(values))
    ensures Meets(Padded(values, columns), CellIs(i, raw[i])) <==> Canonical(raw[i], columns[i].typeId)
    ensures Meets(Padded(values, columns), CellIs(i, text)) <==>
      Canonical(text, columns[i].typeId) && Means(text, columns[i].typeId, Ok(values[i]))
  {
    var t := columns[i].typeId;
    assert Means(raw[i], t, Ok(values[i]));
    MeansOne(raw[i], t, Ok(values[i]), Ok(values[i]));
    LiteralsAreNormal(raw[i], t, values[i]);
    WhereSelects(Padded(values, columns), i, raw[i]);
    WhereSelects(Padded(values, columns), i, text);
    hide Meets, Canonical, Means;
  }

  lemma LiteralsAreNormal(text: Text, t: TypeId, v: Value)
    requires Means(text, t, Ok(v))
    ensures Normal(v) == v
  {
    hide Spells, Splits, Positional;
  }

  lemma PickedRow(s: Store, u: Store, columns: seq<Column>, c: Condition, all: seq<RecordId>, r: RecordId)
    requires Applies(c, columns) && Emptied(s, u, Picked(s, columns, c, all))
    requires r in all && |Lookup(s, r)| == RowLength(columns)
    ensures var gone := Picked(s, columns, c, all);
      && (r in gone <==> Meets(ValuesOf(Lookup(s, r), columns), c))
      && Lookup(u, r) == if r in gone then [] else Lookup(s, r)
  {
    MeetsIsSatisfies(Lookup(s, r), columns, c);
    hide Lookup, ValuesOf, Meets, Satisfies;
  }

  lemma RemainingCons(s: Store, u: Store, columns: seq<Column>, c: Condition, gone: set<RecordId>,
                      r: RecordId, rest: seq<RecordId>)
    requires |Lookup(s, r)| == RowLength(columns) && AllFit(s, columns, rest)
    requires AllFit(u, columns, Without(rest, gone))
    requires RowsAt(u, columns, Without(rest, gone)) == Remaining(RowsAt(s, columns, rest), c)
    requires r in gone <==> Meets(ValuesOf(Lookup(s, r), columns), c)
    requires Lookup(u, r) == if r in gone then [] else Lookup(s, r)
    ensures AllFit(s, columns, [r] + rest) && AllFit(u, columns, Without([r] + rest, gone))
    ensures RowsAt(u, columns, Without([r] + rest, gone)) == Remaining(RowsAt(s, columns, [r] + rest), c)
  {
    hide Lookup, ValuesOf, Meets;
    WithoutCons(r, rest, gone);
    hide Without;
    var row := ValuesOf(Lookup(s, r), columns);
    assert RowsAt(s, columns, [r] + rest) == [row] + RowsAt(s, columns, rest);
    assert ([row] + RowsAt(s, columns, rest))[1..] == RowsAt(s, columns, rest);
  }

  lemma {:induction false} RemainingRows(s: Store, u: Store, columns: seq<Column>, c: Condition,
                                         all: seq<RecordId>, rs: seq<RecordId>)
    requires Applies(c, columns) && Emptied(s, u, Picked(s, columns, c, all)) && AllFit(s, columns, rs)
    requires forall r | r in rs :: r in all
    ensures var left := Without(rs, Picked(s, columns, c, all));
      AllFit(u, columns, left) && RowsAt(u, columns, left) == Remaining(RowsAt(s, columns, rs), c)
    decreases |rs|
  {
    if rs != [] {
      hide Lookup, ValuesOf, Meets, Satisfies, Picked, Emptied, RowsAt, Remaining, Without;
      assert rs == [rs[0]] + rs[1..];
      RemainingRows(s, u, columns, c, all, rs[1..]);
      PickedRow(s, u, columns, c, all, rs[0]);
      RemainingCons(s, u, columns, c, Picked(s, columns, c, all), rs[0], rs[1..]);
    }
  }

  lemma {:induction false} WithoutCount(rs: seq<RecordId>, gone: set<RecordId>)
    requires NoRepeats(rs) && forall r | r in gone :: r in rs
    ensures |Without(rs, gone)| == |rs| - |gone|
  {
    if rs == [] {
      assert gone == {};
    } else {
      var rest := rs[1..];
      assert rs == [rs[0]] + rest;
      WithoutCount(rest, gone - {rs[0]});
      WithoutOther(rest, gone, rs[0]);
    }
  }

  lemma {:induction false} WithoutOther(rs: seq<RecordId>, gone: set<RecordId>, r: RecordId)
    requires r !in rs
    ensures Without(rs, gone) == Without(rs, gone - {r})
  {
    if rs != [] { WithoutOther(rs[1..], gone, r); }
  }

  /** A DELETE leaves the rows that do not meet its condition, in their order, and counts the others. */
  lemma RowsDeletedFromView(t: TableState, u: TableState, c: Condition, count: nat)
    requires IsTable(t) && IsTable(u) && u.columns == t.columns
    requires DeletesExactly(t.store, u.store, t.columns, c, count)
    ensures RelationOf(u) == Relation(t.columns, Remaining(RelationOf(t).rows, c))
    ensures count == |RelationOf(t).rows| - |RelationOf(u).rows|
  {
    var gone := Picked(t.store, t.columns, c, Scan(t.store));
    ScanFits(t);
    ScanFits(u);
    RemainingRows(t.store, u.store, t.columns, c, Scan(t.store), Scan(t.store));
    ScanHasNoRepeats(t.store);
    hide Scan, Emptied, Remaining, Without, Satisfies;
    WithoutCount(Scan(t.store), gone);
  }

  lemma ScanHasNoRepeats(s: Store)
    requires RecordStore.Valid(s)
    ensures NoRepeats(Scan(s))
  {
    ScanOrdered(s);
    hide Scan;
  }

  // ---- SELECT ----

  /** Each value of the row, printed in its place. */
  ghost predicate ShowsRow(row: seq<Value>, cells: seq<Text>) {
    |cells| == |row| && forall i | 0 <= i < |row| :: Prints(row[i], cells[i])
  }

  ghost predicate ShowsRows(rows: seq<seq<Value>>, shown: seq<seq<Text>>) {
    |shown| == |rows| && forall i | 0 <= i < |rows| :: ShowsRow(rows[i], shown[i])
  }

  /** Every row printed, in order; an error if there are rows and they have a column that cannot be. */
  ghost predicate Shows(rel: Relation, r: QueryResult) {
    if rel.rows == [] || Printable(rel.columns) then
      r.success && r.count == |rel.rows| && ShowsRows(rel.rows, r.rows)
    else r == FAILED
  }

  lemma RowShown(row: seq<byte>, columns: seq<Column>)
    requires Printable(columns) && |row| == RowLength(columns)
    ensures ShowsRow(ValuesOf(row, columns), PrintRow(row, columns))
  {
    hide Prints, ToString;
    forall i | 0 <= i < |columns|
      ensures Prints(ValuesOf(row, columns)[i], PrintRow(row, columns)[i])
    {
      var v := ValueAt(row, columns, i);
      assert TypeOf(v) == columns[i].typeId;
      ToStringPrints(v, PrintRow(row, columns)[i]);
    }
  }

  lemma SelectShows(t: TableState, r: QueryResult)
    requires IsTable(t)
    requires r ==
      match SelectResult(t.store, t.columns) case None => FAILED case Some(rows) => QueryResult(true, |rows|, rows)
    ensures Shows(RelationOf(t), r)
  {
    ScanFits(t);
    RelationIs(t);
    var rs := Scan(t.store);
    var rel := RelationOf(t);
    hide Scan, RecordStore.Valid, RowsFit, ValuesOf, ShowsRow, PrintRow, Printable, Lookup;
    if rs != [] && Printable(t.columns) {
      forall i | 0 <= i < |rs|
        ensures ShowsRow(rel.rows[i], PrintRow(AllRows(t.store)[i], t.columns))
      {
        RowShown(Lookup(t.store, rs[i]), t.columns);
      }
      assert r.rows == PrintRows(AllRows(t.store), t.columns);
    }
  }

  // ---- every statement ----

  /** What a statement does to the relations, and what it reports. */
  ghost predicate Step(m: map<Text, Relation>, stmt: Statement, m': map<Text, Relation>, r: Option<QueryResult>) {
    match stmt
    case CreateTable(name, columns) =>
      if name in m then r == Some(FAILED) && m' == m
      else r == Some(QueryResult(true, 0, [])) && m' == m[name := Relation(columns, [])]
    case InsertInto(name, raw) =>
      if name !in m then r == Some(FAILED) && m' == m
      else
        && |raw| <= |m[name].columns|
        && (match RowMeant(raw, m[name].columns)
            case BadValue => r == Some(FAILED) && m' == m
            case Uncaught => r == None && m' == m
            case Row(values) =>
              && r == Some(QueryResult(true, 1, [])) && name in m'
              && m' == m[name := Relation(m[name].columns, m'[name].rows)]
              && InRange(RowLength(m[name].columns))
              && if 1 <= RowLength(m[name].columns) <= MAX_RECORD
                 then WithOneMore(m[name].rows, Padded(values, m[name].columns), m'[name].rows)
                 else m'[name].rows == m[name].rows)
    case SelectFrom(name) =>
      m' == m && r.Some? && if name in m then Shows(m[name], r.value) else r.value == FAILED
    case Commit =>
      m' == m && r == Some(QueryResult(true, |m|, []))
    case DeleteFrom(name, whereColumn, whereValue) =>
      if name !in m then r == Some(FAILED) && m' == m
      else
        match ConditionFor(m[name].columns, whereColumn, whereValue)
        case None => r == Some(FAILED) && m' == m
        case Some(c) =>
          if Blocked(c, m[name].columns) && m[name].rows != [] then r == Some(FAILED) && m' == m
          else
            var left := Remaining(m[name].rows, c);
            && m' == m[name := Relation(m[name].columns, left)]
            && |left| <= |m[name].rows|
            && r == Some(QueryResult(true, |m[name].rows| - |left|, []))
  }

  lemma TableOf(d: Database, name: Text)
    requires IsDatabase(d) && name in d.names
    ensures d.names[name] in d.tables && IsTable(d.tables[d.names[name]])
    ensures name in View(d) && View(d)[name] == RelationOf(d.tables[d.names[name]])
  {
    hide RecordStore.Valid, RowsFit, RelationOf;
  }

  /** If only one table changed, only its relation did. */
  lemma OneRelationChanged(d: Database, e: Database, name: Text, t: TableState)
    requires IsDatabase(d) && IsDatabase(e) && name in d.names && IsTable(t)
    requires e == WithTable(d, name, t)
    ensures View(e) == View(d)[name := RelationOf(t)]
  {
    hide RecordStore.Valid, RowsFit, RelationOf, IsTable;
    forall other | other in d.names && other != name
      ensures e.tables[e.names[other]] == d.tables[d.names[other]]
    {
      assert d.tables[d.names[other]].name == other;
    }
  }

  lemma ViewNames(d: Database)
    requires IsDatabase(d)
    ensures View(d).Keys == d.names.Keys
  {
    hide RecordStore.Valid, RowsFit, RelationOf;
  }

  lemma NextIsUnused(d: Database)
    requires IsDatabase(d)
    ensures forall name | name in d.names :: d.names[name] in d.tables && d.names[name] < d.next
  {
    hide RecordStore.Valid, RowsFit;
  }

  lemma NewRelation(d: Database, name: Text, columns: seq<Column>, e: Database)
    requires IsDatabase(d) && IsDatabase(e) && name !in d.names && d.next < 0xFFFF_FFFF
    requires e ==
      Database(d.tables[d.next := TableState(name, columns, EMPTY_STORE)], d.names[name := d.next], d.next + 1)
    ensures View(e) == View(d)[name := Relation(columns, [])]
  {
    hide IsDatabase, RelationOf, IsTable;
    TableOf(e, name);
    EmptyRelation(name, columns);
    NextIsUnused(d);
    assert forall other | other in d.names :: e.tables[e.names[other]] == d.tables[d.names[other]];
  }

  lemma EmptyRelation(name: Text, columns: seq<Column>)
    requires IsTable(TableState(name, columns, EMPTY_STORE))
    ensures RelationOf(TableState(name, columns, EMPTY_STORE)) == Relation(columns, [])
  {
  }

  lemma CreateSteps(d: Database, name: Text, columns: seq<Column>, e: Database, r: QueryResult)
    requires IsDatabase(d) && IsDatabase(e) && Creates(d, name, columns, e, r)
    ensures Step(View(d), CreateTable(name, columns), View(e), Some(r))
  {
    hide IsDatabase, View;
    ViewNames(d);
    if name !in d.names { NewRelation(d, name, columns, e); }
  }

  lemma InsertSteps(d: Database, name: Text, raw: seq<Text>, e: Database, r: Option<QueryResult>)
    requires IsDatabase(d) && IsDatabase(e) && Inserts(d, name, raw, e, r)
    ensures Step(View(d), InsertInto(name, raw), View(e), r)
  {
    hide IsDatabase, RelationOf, IsTable, RowMeant, WithRow, View, RowLength, Matches;
    ViewNames(d);
    if name in d.names {
      TableOf(d, name);
      var t := d.tables[d.names[name]];
      RelationColumns(t);
      match RowMeant(raw, t.columns)
      case BadValue =>
      case Uncaught =>
      case Row(values) =>
        if 1 <= RowLength(t.columns) <= MAX_RECORD { RowAdded(t, values); } else { RowNotAdded(t, values); }
        OneRelationChanged(d, e, name, WithRow(t, values));
    }
  }

  lemma SelectSteps(d: Database, name: Text, r: QueryResult)
    requires IsDatabase(d) && Selects(d, name, r)
    ensures Step(View(d), SelectFrom(name), View(d), Some(r))
  {
    if name in d.names {
      TableOf(d, name);
      hide IsDatabase, RelationOf, IsTable, Shows;
      SelectShows(d.tables[d.names[name]], r);
    }
  }

  lemma DeleteSteps(d: Database, name: Text, column: Text, value: Text, e: Database, r: QueryResult)
    requires IsDatabase(d) && IsDatabase(e) && Deletes(d, name, column, value, e, r)
    ensures Step(View(d), DeleteFrom(name, column, value), View(e), Some(r))
  {
    hide IsDatabase, View, RelationOf, IsTable, ConditionFor, DeletesExactly, Scan, RowsAt, Remaining, Blocked;
    ViewNames(d);
    if name in d.names {
      TableOf(d, name);
      var t := d.tables[d.names[name]];
      ScanFits(t);
      RelationIs(t);
      match ConditionFor(t.columns, column, value)
      case None =>
      case Some(c) =>
        if !(Blocked(c, t.columns) && Scan(t.store) != []) {
          TableOf(e, name);
          var u := e.tables[d.names[name]];
          RowsDeletedFromView(t, u, c, r.count);
          OneRelationChanged(d, e, name, u);
        }
    }
  }

  /** Every statement does to the view what its meaning on relations says, and reports the same. */
  lemma ViewRefines(d: Database, stmt: Statement, e: Database, r: Option<QueryResult>)
    requires IsDatabase(d) && IsDatabase(e) && Effect(d, stmt, e, r)
    ensures Step(View(d), stmt, View(e), r)
  {
    hide IsDatabase, View, Step, Creates, Inserts, Selects, Deletes;
    match stmt
    case CreateTable(name, columns) => CreateSteps(d, name, columns, e, r.value);
    case InsertInto(name, raw) => InsertSteps(d, name, raw, e, r);
    case SelectFrom(name) => SelectSteps(d, name, r.value);
    case Commit => CommitSteps(d, r);
    case DeleteFrom(name, column, value) => DeleteSteps(d, name, column, value, e, r.value);
  }

  lemma CommitSteps(d: Database, r: Option<QueryResult>)
    requires IsDatabase(d) && r == Some(QueryResult(true, |d.tables|, []))
    ensures Step(View(d), Commit, View(d), r)
  {
    hide IsDatabase, View;
    ViewNames(d);
    OneNameEach(d);
    assert |View(d)| == |View(d).Keys|;
  }

  /** There are as many names as tables. */
  lemma OneNameEach(d: Database)
    requires IsDatabase(d)
    ensures |d.names.Keys| == |d.tables|
  {
    hide RecordStore.Valid, RowsFit;
    SameNumber(d.names, d.tables.Keys);
    assert |d.tables| == |d.tables.Keys|;
  }

  lemma {:induction false} SameNumber(names: map<Text, u32>, oids: set<u32>)
    requires forall a, b | a in names && b in names && names[a] == names[b] :: a == b
    requires forall name | name in names :: names[name] in oids
    requires forall oid | oid in oids :: exists name :: name in names && names[name] == oid
    ensures |names.Keys| == |oids|
    decreases |oids|
  {
    if oids == {} {
      assert names.Keys == {};
    } else {
      var oid :| oid in oids;
      var name :| name in names && names[name] == oid;
      var fewer := names - {name};
      assert fewer.Keys == names.Keys - {name};
      forall o | o in oids - {oid} ensures exists n :: n in fewer && fewer[n] == o {
        var n :| n in names && names[n] == o;
        assert n in fewer;
      }
      SameNumber(fewer, oids - {oid});
    }
  }

  // ---- whole sessions ----

  /** Statement `i` is legal in database `i`, takes it to the next one, and reports result `i`. */
  ghost predicate IsSession(ds: seq<Database>, stmts: seq<Statement>, rs: seq<Option<QueryResult>>) {
    && |ds| == |stmts| + 1 && |rs| == |stmts|
    && (forall i | 0 <= i < |ds| :: IsDatabase(ds[i]))
    && (forall i | 0 <= i < |stmts| :: Legal(ds[i], stmts[i]) && Effect(ds[i], stmts[i], ds[i + 1], rs[i]))
  }

  lemma SessionPrefix(ds: seq<Database>, stmts: seq<Statement>, rs: seq<Option<QueryResult>>)
    requires IsSession(ds, stmts, rs) && stmts != []
    ensures var n := |stmts| - 1;
      && IsSession(ds[..n + 1], stmts[..n], rs[..n])
      && IsDatabase(ds[n]) && IsDatabase(ds[n + 1]) && Effect(ds[n], stmts[n], ds[n + 1], rs[n])
  {
    hide IsDatabase, Effect, Legal;
  }

  /** The rows of this table are of a length that is stored. */
  ghost predicate FitsPages(rel: Relation) {
    1 <= RowLength(rel.columns) <= MAX_RECORD
  }

  ghost function RowCount(m: map<Text, Relation>, name: Text): nat {
    if name in m then |m[name].rows| else 0
  }

  /** By how many rows of a table a statement changed it, going by what the statement reported. */
  ghost function Change(m: map<Text, Relation>, stmt: Statement, r: Option<QueryResult>, name: Text): int {
    if r == None || !r.value.success || name !in m then 0
    else
      match stmt
      case InsertInto(other, _) => if other == name && FitsPages(m[name]) then 1 else 0
      case DeleteFrom(other, _, _) => if other == name then -(r.value.count as int) else 0
      case _ => 0
  }

  ghost function Changes(ds: seq<Database>, stmts: seq<Statement>, rs: seq<Option<QueryResult>>, name: Text): int
    requires IsSession(ds, stmts, rs)
    decreases |stmts|
  {
    if stmts == [] then 0
    else
      var n := |stmts| - 1;
      SessionPrefix(ds, stmts, rs);
      Changes(ds[..n + 1], stmts[..n], rs[..n], name) + Change(View(ds[n]), stmts[n], rs[n], name)
  }

  lemma StepCounts(m: map<Text, Relation>, stmt: Statement, m': map<Text, Relation>, r: Option<QueryResult>, name: Text)
    requires Step(m, stmt, m', r)
    ensures RowCount(m', name) == RowCount(m, name) + Change(m, stmt, r, name)
  {
    hide Remaining, Shows, RowMeant, ConditionFor, Padded, Printable;
    if stmt.InsertInto? && stmt.name in m && r == Some(QueryResult(true, 1, [])) && FitsPages(m[stmt.name]) {
      var rows, rows' := m[stmt.name].rows, m'[stmt.name].rows;
      var row := Padded(RowMeant(stmt.rawValues, m[stmt.name].columns).values, m[stmt.name].columns);
      var i :| 0 <= i <= |rows| && rows' == rows[..i] + [row] + rows[i..];
    }
  }

  /** The row that an INSERT into a table adds to it, if it is one that succeeds. */
  ghost function Given(m: map<Text, Relation>, stmt: Statement, r: Option<QueryResult>, name: Text): seq<seq<Value>> {
    if stmt.InsertInto? && stmt.name == name && name in m && r.Some? && r.value.success
       && |stmt.rawValues| <= |m[name].columns|
       && RowMeant(stmt.rawValues, m[name].columns).Row?
    then [Padded(RowMeant(stmt.rawValues, m[name].columns).values, m[name].columns)]
    else []
  }

  /** That row, if it is of a length that is stored. */
  ghost function Came(m: map<Text, Relation>, stmt: Statement, r: Option<QueryResult>, name: Text): Bag {
    if name in m && FitsPages(m[name]) then multiset(Given(m, stmt, r, name)) else multiset{}
  }

  /** The rows that a DELETE takes away. */
  ghost function MeetingRows(rows: seq<seq<Value>>, c: Condition): seq<seq<Value>> {
    if rows == [] then []
    else (if Meets(rows[0], c) then [rows[0]] else []) + MeetingRows(rows[1..], c)
  }

  lemma OneRowFirst(row: seq<Value>, rows: seq<seq<Value>>)
    ensures multiset([row] + rows) == multiset([row]) + multiset(rows) && [] + rows == rows
  {
  }

  lemma {:induction false} RemainingAndMeeting(rows: seq<seq<Value>>, c: Condition)
    ensures multiset(rows) == multiset(Remaining(rows, c)) + multiset(MeetingRows(rows, c))
    decreases |rows|
  {
    hide Meets;
    if rows != [] {
      var row, rest := rows[0], rows[1..];
      assert rows == [row] + rest;
      RemainingAndMeeting(rest, c);
      OneRowFirst(row, rest);
      if Meets(row, c) { OneRowFirst(row, MeetingRows(rest, c)); } else { OneRowFirst(row, Remaining(rest, c)); }
      assert Remaining(rows, c) == if Meets(row, c) then Remaining(rest, c) else [row] + Remaining(rest, c);
      assert MeetingRows(rows, c) == if Meets(row, c) then [row] + MeetingRows(rest, c) else MeetingRows(rest, c);
      hide Remaining, MeetingRows;
    }
  }

  /** The rows that a DELETE from a table takes out of it, if it is one that succeeds. */
  ghost function Gone(m: map<Text, Relation>, stmt: Statement, r: Option<QueryResult>, name: Text): Bag {
    if stmt.DeleteFrom? && stmt.name == name && name in m && r.Some? && r.value.success then
      match ConditionFor(m[name].columns, stmt.whereColumn, stmt.whereValue)
      case None => multiset{}
      case Some(c) => multiset(MeetingRows(m[name].rows, c))
    else multiset{}
  }

  ghost function RowsIn(m: map<Text, Relation>, name: Text): Bag {
    if name in m then multiset(m[name].rows) else multiset{}
  }

  lemma OneMoreInBag(rows: seq<seq<Value>>, row: seq<Value>, rows': seq<seq<Value>>)
    requires WithOneMore(rows, row, rows')
    ensures multiset(rows') == multiset(rows) + multiset([row])
  {
    var i :| 0 <= i <= |rows| && rows' == rows[..i] + [row] + rows[i..];
    assert rows == rows[..i] + rows[i..];
  }

  lemma InsertConserves(m: map<Text, Relation>, other: Text, raw: seq<Text>, m': map<Text, Relation>,
                        r: Option<QueryResult>, name: Text)
    requires Step(m, InsertInto(other, raw), m', r)
    ensures RowsIn(m', name) == RowsIn(m, name) + Came(m, InsertInto(other, raw), r, name)
  {
    hide RowMeant, Padded, WithOneMore, RowLength;
    if other in m && other == name {
      match RowMeant(raw, m[other].columns)
      case BadValue =>
      case Uncaught =>
      case Row(values) =>
        if FitsPages(m[other]) { OneMoreInBag(m[other].rows, Padded(values, m[other].columns), m'[other].rows); }
    }
  }

  /** A DELETE that succeeds takes the rows that meet its condition, any other changes nothing. */
  lemma DeleteLeaves(m: map<Text, Relation>, other: Text, column: Text, value: Text, m': map<Text, Relation>,
                     r: Option<QueryResult>)
    requires Step(m, DeleteFrom(other, column, value), m', r)
    ensures r.Some? && (!r.value.success || other !in m ==> m' == m)
    ensures r.value.success && other in m ==>
      && ConditionFor(m[other].columns, column, value).Some?
      && m' == m[other := Relation(m[other].columns,
                                   Remaining(m[other].rows, ConditionFor(m[other].columns, column, value).value))]
  {
    hide ConditionFor, Remaining, Blocked;
  }

  lemma DeleteConserves(m: map<Text, Relation>, other: Text, column: Text, value: Text, m': map<Text, Relation>,
                        r: Option<QueryResult>, name: Text)
    requires Step(m, DeleteFrom(other, column, value), m', r)
    ensures RowsIn(m', name) + Gone(m, DeleteFrom(other, column, value), r, name) == RowsIn(m, name)
  {
    hide ConditionFor, Remaining, MeetingRows, Step;
    DeleteLeaves(m, other, column, value, m', r);
    if r.value.success && other in m && other == name {
      RemainingAndMeeting(m[other].rows, ConditionFor(m[other].columns, column, value).value);
    }
  }

  /** A statement conserves a table's rows, as a bag: only what it was given comes, only what it deletes goes. */
  lemma StepConserves(m: map<Text, Relation>, stmt: Statement, m': map<Text, Relation>, r: Option<QueryResult>,
                      name: Text)
    requires Step(m, stmt, m', r)
    ensures RowsIn(m', name) + Gone(m, stmt, r, name) == RowsIn(m, name) + Came(m, stmt, r, name)
  {
    if stmt.InsertInto? {
      hide Step, RowsIn, Came;
      InsertConserves(m, stmt.name, stmt.rawValues, m', r, name);
    } else if stmt.DeleteFrom? {
      hide Step, RowsIn, Gone;
      DeleteConserves(m, stmt.name, stmt.whereColumn, stmt.whereValue, m', r, name);
    }
  }

  /** All the rows that a session put into a table. */
  ghost function AllCame(ds: seq<Database>, stmts: seq<Statement>, rs: seq<Option<QueryResult>>, name: Text): Bag
    requires IsSession(ds, stmts, rs)
    decreases |stmts|
  {
    if stmts == [] then multiset{}
    else
      var n := |stmts| - 1;
      SessionPrefix(ds, stmts, rs);
      AllCame(ds[..n + 1], stmts[..n], rs[..n], name) + Came(View(ds[n]), stmts[n], rs[n], name)
  }

  /** And all those that it deleted from it. */
  ghost function AllGone(ds: seq<Database>, stmts: seq<Statement>, rs: seq<Option<QueryResult>>, name: Text): Bag
    requires IsSession(ds, stmts, rs)
    decreases |stmts|
  {
    if stmts == [] then multiset{}
    else
      var n := |stmts| - 1;
      SessionPrefix(ds, stmts, rs);
      AllGone(ds[..n + 1], stmts[..n], rs[..n], name) + Gone(View(ds[n]), stmts[n], rs[n], name)
  }

  lemma AllOfSession(ds: seq<Database>, stmts: seq<Statement>, rs: seq<Option<QueryResult>>, name: Text)
    requires IsSession(ds, stmts, rs) && stmts != []
    ensures var n := |stmts| - 1;
      && IsDatabase(ds[n]) && IsSession(ds[..n + 1], stmts[..n], rs[..n])
      && ds[..n + 1][0] == ds[0] && ds[..n + 1][n] == ds[n]
      && AllCame(ds, stmts, rs, name) ==
         AllCame(ds[..n + 1], stmts[..n], rs[..n], name) + Came(View(ds[n]), stmts[n], rs[n], name)
      && AllGone(ds, stmts, rs, name) ==
         AllGone(ds[..n + 1], stmts[..n], rs[..n], name) + Gone(View(ds[n]), stmts[n], rs[n], name)
  {
    SessionPrefix(ds, stmts, rs);
    hide IsDatabase, Effect, Legal, Came, Gone, View;
  }

  lemma BagsChain(before: Bag, between: Bag, after: Bag, came: Bag, gone: Bag, comes: Bag, goes: Bag)
    requires between + gone == before + came && after + goes == between + comes
    ensures after + (gone + goes) == before + (came + comes)
  {
    assert after + (gone + goes) == (after + goes) + gone == (between + gone) + comes;
  }

  lemma BagsDiffer(rows: Bag, gone: Bag, came: Bag)
    requires rows + gone == multiset{} + came
    ensures rows == came - gone
  {
    assert came == rows + gone;
  }

  /** Over any session a table has the rows it had, plus those inserted, minus those deleted: the very same rows. */
  lemma {:induction false} RowsAreConserved(ds: seq<Database>, stmts: seq<Statement>, rs: seq<Option<QueryResult>>,
                                            name: Text)
    requires IsSession(ds, stmts, rs)
    ensures RowsIn(View(ds[|stmts|]), name) + AllGone(ds, stmts, rs, name) ==
      RowsIn(View(ds[0]), name) + AllCame(ds, stmts, rs, name)
    decreases |stmts|
  {
    if stmts != [] {
      hide View, RowsIn, Came, Gone, Step, Effect, IsDatabase, Legal;
      var n := |stmts| - 1;
      SessionPrefix(ds, stmts, rs);
      AllOfSession(ds, stmts, rs, name);
      hide IsSession, AllCame, AllGone;
      RowsAreConserved(ds[..n + 1], stmts[..n], rs[..n], name);
      ViewRefines(ds[n], stmts[n], ds[n + 1], rs[n]);
      StepConserves(View(ds[n]), stmts[n], View(ds[n + 1]), rs[n], name);
      BagsChain(RowsIn(View(ds[0]), name), RowsIn(View(ds[n]), name), RowsIn(View(ds[n + 1]), name),
                AllCame(ds[..n + 1], stmts[..n], rs[..n], name), AllGone(ds[..n + 1], stmts[..n], rs[..n], name),
                Came(View(ds[n]), stmts[n], rs[n], name), Gone(View(ds[n]), stmts[n], rs[n], name));
    }
  }

  lemma SelectedRows(start: map<Text, Relation>, m: map<Text, Relation>, name: Text,
                     shown: QueryResult) returns (rows: seq<seq<Value>>)
    requires name !in start && Step(m, SelectFrom(name), m, Some(shown)) && shown.success
    ensures ShowsRows(rows, shown.rows) && shown.count == |rows|
    ensures RowsIn(start, name) == multiset{} && RowsIn(m, name) == multiset(rows)
  {
    rows := m[name].rows;
    hide ShowsRows, Printable;
  }

  /** What a SELECT shows of a table created in the session: all rows inserted so far, minus all rows deleted. */
  lemma SelectShowsInsertedMinusDeleted(ds: seq<Database>, stmts: seq<Statement>, rs: seq<Option<QueryResult>>,
                                        name: Text, shown: QueryResult) returns (rows: seq<seq<Value>>)
    requires IsSession(ds, stmts, rs) && name !in ds[0].names
    requires Effect(ds[|stmts|], SelectFrom(name), ds[|stmts|], Some(shown)) && shown.success
    ensures ShowsRows(rows, shown.rows) && shown.count == |rows|
    ensures multiset(rows) == AllCame(ds, stmts, rs, name) - AllGone(ds, stmts, rs, name)
  {
    var d := ds[|stmts|];
    RowsAreConserved(ds, stmts, rs, name);
    ViewNames(ds[0]);
    ViewRefines(d, SelectFrom(name), d, Some(shown));
    hide *;
    rows := SelectedRows(View(ds[0]), View(d), name, shown);
    BagsDiffer(multiset(rows), AllGone(ds, stmts, rs, name), AllCame(ds, stmts, rs, name));
  }

  /** In numbers, going by what the statements report. */
  lemma {:induction false} RowsAreCounted(ds: seq<Database>, stmts: seq<Statement>, rs: seq<Option<QueryResult>>,
                                            name: Text)
    requires IsSession(ds, stmts, rs)
    ensures RowCount(View(ds[|stmts|]), name) == RowCount(View(ds[0]), name) + Changes(ds, stmts, rs, name)
    decreases |stmts|
  {
    if stmts != [] {
      hide View, RowCount, Change, Step, Effect, IsDatabase;
      var n := |stmts| - 1;
      SessionPrefix(ds, stmts, rs);
      RowsAreCounted(ds[..n + 1], stmts[..n], rs[..n], name);
      ViewRefines(ds[n], stmts[n], ds[n + 1], rs[n]);
      StepCounts(View(ds[n]), stmts[n], View(ds[n + 1]), rs[n], name);
    }
  }

  // ---- insertion order ----

  ghost function AllGiven(ds: seq<Database>, stmts: seq<Statement>, rs: seq<Option<QueryResult>>,
                          name: Text): seq<seq<Value>>
    requires IsSession(ds, stmts, rs)
    decreases |stmts|
  {
    if stmts == [] then []
    else
      var n := |stmts| - 1;
      SessionPrefix(ds, stmts, rs);
      AllGiven(ds[..n + 1], stmts[..n], rs[..n], name) + Given(View(ds[n]), stmts[n], rs[n], name)
  }

  /** The table's rows are these, and its pages leave no room that a later row could take before them. */
  ghost predicate InOrder(d: Database, name: Text, rows: seq<seq<Value>>)
    requires IsDatabase(d)
  {
    if name !in d.names then rows == []
    else
      && d.names[name] in d.tables
      && var t := d.tables[d.names[name]];
      && IsTable(t) && Dense(t.store, RowLength(t.columns)) && RelationOf(t).rows == rows
  }

  lemma OtherTableKept(d: Database, other: Text, t: TableState, e: Database, name: Text)
    requires IsDatabase(d) && other in d.names && e == WithTable(d, other, t) && name != other && name in d.names
    ensures d.names[name] in d.tables && e.names[name] == d.names[name]
    ensures e.names[name] in e.tables && e.tables[e.names[name]] == d.tables[d.names[name]]
  {
    hide RecordStore.Valid, RowsFit;
    assert d.tables[d.names[name]].name == name && d.tables[d.names[other]].name == other;
  }

  lemma RowAppended(t: TableState, values: seq<Value>)
    requires IsTable(t) && Matches(values, t.columns) && 1 <= RowLength(t.columns) <= MAX_RECORD
    requires Dense(t.store, RowLength(t.columns))
    ensures var u := WithRow(t, values);
      && IsTable(u) && u.columns == t.columns && Dense(u.store, RowLength(t.columns))
      && RelationOf(u).rows == RelationOf(t).rows + [Padded(values, t.columns)]
  {
    var data, u := RowBytes(values, t.columns), WithRow(t, values);
    RowsFitInsert(t.store, data, t.columns);
    DenseInsert(t.store, data);
    InsertKeepsRows(t.store, data);
    StoredAndRead(values, t.columns);
    ScanFits(t);
    ScanFits(u);
    hide *;
    RelationIs(t);
    RelationIs(u);
    RowsAtAppended(t.store, u.store, t.columns, Scan(t.store), Insert(t.store, data).1);
  }

  lemma RowsAtAppended(s: Store, u: Store, columns: seq<Column>, rs: seq<RecordId>, r: RecordId)
    requires AllFit(s, columns, rs) && AllFit(u, columns, rs + [r])
    requires forall q | q in rs :: Lookup(u, q) == Lookup(s, q)
    ensures |Lookup(u, r)| == RowLength(columns)
    ensures RowsAt(u, columns, rs + [r]) == RowsAt(s, columns, rs) + [ValuesOf(Lookup(u, r), columns)]
  {
    hide Lookup, ValuesOf;
    assert (rs + [r])[|rs|] == r;
    assert forall j | 0 <= j < |rs| :: rs[j] in rs;
  }

  lemma NothingGiven(m: map<Text, Relation>, stmt: Statement, r: Option<QueryResult>, name: Text)
    requires name !in m || !stmt.InsertInto? || stmt.name != name
    ensures Given(m, stmt, r, name) == []
  {
  }

  lemma CreateStaysInOrder(d: Database, other: Text, columns: seq<Column>, e: Database, r: QueryResult, name: Text,
                           rows: seq<seq<Value>>)
    requires IsDatabase(d) && IsDatabase(e) && Creates(d, other, columns, e, r) && InOrder(d, name, rows)
    ensures InOrder(e, name, rows)
  {
    hide IsDatabase, RelationOf, IsTable, Dense;
    NextIsUnused(d);
    if other !in d.names && other == name {
      TableOf(e, name);
      EmptyIsInOrder(name, columns);
    }
  }

  lemma EmptyIsInOrder(name: Text, columns: seq<Column>)
    requires IsTable(TableState(name, columns, EMPTY_STORE))
    ensures Dense(EMPTY_STORE, RowLength(columns)) && RelationOf(TableState(name, columns, EMPTY_STORE)).rows == []
  {
    EmptyRelation(name, columns);
  }

  lemma InsertStaysInOrder(d: Database, other: Text, raw: seq<Text>, e: Database, r: Option<QueryResult>, name: Text,
                           rows: seq<seq<Value>>)
    requires IsDatabase(d) && IsDatabase(e) && Inserts(d, other, raw, e, r) && InOrder(d, name, rows)
    requires other in d.names && name in d.names && name in View(d) && FitsPages(View(d)[name])
    ensures InOrder(e, name, rows + Given(View(d), InsertInto(other, raw), r, name))
  {
    hide IsDatabase, View, IsTable, Dense, RowMeant, Padded, WithRow, Matches, RowsAt, Scan;
    TableOf(d, name);
    var t := d.tables[d.names[other]];
    assert rows + [] == rows;
    match RowMeant(raw, t.columns)
    case BadValue =>
    case Uncaught =>
    case Row(values) =>
      if other == name { RowAppended(t, values); } else { OtherTableKept(d, other, WithRow(t, values), e, name); }
  }

  lemma DeleteStaysInOrder(d: Database, other: Text, column: Text, value: Text, e: Database, r: QueryResult, name: Text,
                           rows: seq<seq<Value>>)
    requires IsDatabase(d) && IsDatabase(e) && Deletes(d, other, column, value, e, r) && InOrder(d, name, rows)
    requires other != name
    ensures InOrder(e, name, rows)
  {
    hide IsDatabase, RelationOf, IsTable, Dense, ConditionFor, DeletesExactly, Blocked, Scan;
    if other in d.names && name in d.names && e != d {
      OtherTableKept(d, other, e.tables[d.names[other]], e, name);
    }
  }

  lemma StaysInOrder(d: Database, stmt: Statement, e: Database, r: Option<QueryResult>, name: Text,
                     rows: seq<seq<Value>>)
    requires IsDatabase(d) && IsDatabase(e) && Effect(d, stmt, e, r) && InOrder(d, name, rows)
    requires !(stmt.DeleteFrom? && stmt.name == name)
    requires name in View(d) ==> FitsPages(View(d)[name])
    ensures InOrder(e, name, rows + Given(View(d), stmt, r, name))
  {
    hide IsDatabase, View, InOrder, Given, Creates, Inserts, Selects, Deletes;
    ViewNames(d);
    if stmt.InsertInto? && stmt.name in d.names && name in d.names {
      InsertStaysInOrder(d, stmt.name, stmt.rawValues, e, r, name, rows);
    } else {
      if stmt.InsertInto? { NothingInsertedInOrder(d, stmt.name, stmt.rawValues, e, r, name, rows); }
      if name !in View(d) || !stmt.InsertInto? || stmt.name != name { NothingGiven(View(d), stmt, r, name); }
      assert rows + [] == rows;
      match stmt
      case CreateTable(other, columns) => CreateStaysInOrder(d, other, columns, e, r.value, name, rows);
      case InsertInto(_, _) =>
      case SelectFrom(_) =>
      case Commit =>
      case DeleteFrom(other, column, value) => DeleteStaysInOrder(d, other, column, value, e, r.value, name, rows);
    }
  }

  /** Into no table, or into another one than a name that no table has. */
  lemma NothingInsertedInOrder(d: Database, other: Text, raw: seq<Text>, e: Database, r: Option<QueryResult>,
                               name: Text, rows: seq<seq<Value>>)
    requires IsDatabase(d) && IsDatabase(e) && Inserts(d, other, raw, e, r) && InOrder(d, name, rows)
    requires other !in d.names || name !in d.names
    ensures InOrder(e, name, rows)
  {
    hide IsDatabase, RelationOf, IsTable, Dense, RowMeant, WithRow, Matches;
  }

  /** A table created in a session, and never deleted from, is shown in the order its rows were inserted. */
  lemma {:induction false} ShownInInsertionOrder(ds: seq<Database>, stmts: seq<Statement>,
                                                 rs: seq<Option<QueryResult>>, name: Text)
    requires IsSession(ds, stmts, rs) && name !in ds[0].names
    requires forall i | 0 <= i < |stmts| :: !(stmts[i].DeleteFrom? && stmts[i].name == name)
    requires forall i | 0 <= i < |ds| :: name in View(ds[i]) ==> FitsPages(View(ds[i])[name])
    ensures InOrder(ds[|stmts|], name, AllGiven(ds, stmts, rs, name))
    ensures name in View(ds[|stmts|]) ==> View(ds[|stmts|])[name].rows == AllGiven(ds, stmts, rs, name)
    decreases |stmts|
  {
    hide View, Effect, IsDatabase, Given, FitsPages;
    var n := |stmts|;
    if n > 0 {
      SessionPrefix(ds, stmts, rs);
      ShownInInsertionOrder(ds[..n], stmts[..n - 1], rs[..n - 1], name);
      StaysInOrder(ds[n - 1], stmts[n - 1], ds[n], rs[n - 1], name,
                   AllGiven(ds[..n], stmts[..n - 1], rs[..n - 1], name));
    }
    ViewNames(ds[n]);
    if name in ds[n].names { TableOf(ds[n], name); }
  }

  // ---- a row that is reported and lost ----

  /** 1022 INTEGER columns: a row of 4088 bytes, four more than a page takes. */
  function WideColumns(): seq<Column> { seq(1022, _ => Column("c", INTEGER)) }

  ghost function WideTable(s: Store): TableState { TableState("t", WideColumns(), s) }

  ghost function WideDatabase(s: Store): Database { Database(map[0 := WideTable(s)], map["t" := 0], 1) }

  lemma {:induction false} WideOffset(i: nat)
    requires i <= 1022
    ensures |WideColumns()| == 1022 && Offset(WideColumns(), i) == 4 * i
  {
    if i > 0 { WideOffset(i - 1); }
  }

  lemma WideFacts()
    ensures |WideColumns()| == 1022 && RowLength(WideColumns()) == 4088 && InRange(4088)
    ensures forall i | 0 <= i < 1022 :: WideColumns()[i] == Column("c", INTEGER)
    ensures IsTable(WideTable(EMPTY_STORE)) && RelationOf(WideTable(EMPTY_STORE)) == Relation(WideColumns(), [])
  {
    WideOffset(1022);
    hide RelationOf, WideColumns, Offset;
    assert IsTable(WideTable(EMPTY_STORE));
    EmptyRelation("t", WideColumns());
  }

  lemma WideIsDatabase(s: Store)
    requires IsTable(WideTable(s))
    ensures IsDatabase(WideDatabase(s))
  {
    hide RecordStore.Valid, RowsFit;
  }

  lemma SevenParses()
    ensures |WideColumns()| == 1022 && RowMeant(["7"], WideColumns()) == Row([Integer(7)])
    ensures Matches([Integer(7)], WideColumns())
  {
    hide RowLength, WideColumns;
    WideFacts();
    assert IsDecimal("7", 7) by { assert "7"[1..] == ""; }
    PrintsExactly(Integer(7), "7");
    assert ReadsAs(["7"], WideColumns(), Row([Integer(7)]));
    ReadsOnce(["7"], WideColumns(), Row([Integer(7)]));
  }

  lemma NoRowSelected(s: Store)
    requires IsTable(WideTable(s)) && RelationOf(WideTable(s)).rows == []
    ensures Selects(WideDatabase(s), "t", QueryResult(true, 0, []))
  {
    ScanFits(WideTable(s));
    hide Scan, RecordStore.Valid, RowsFit, Printable, PrintRows, AllRows;
    assert Scan(s) == [];
  }

  lemma WideCreated()
    ensures IsDatabase(EMPTY_DATABASE) && IsTable(WideTable(EMPTY_STORE)) && IsDatabase(WideDatabase(EMPTY_STORE))
    ensures Legal(EMPTY_DATABASE, CreateTable("t", WideColumns()))
    ensures Effect(EMPTY_DATABASE, CreateTable("t", WideColumns()), WideDatabase(EMPTY_STORE),
                   Some(QueryResult(true, 0, [])))
  {
    hide RelationOf, IsTable, RowLength, WideColumns;
    WideFacts();
    WideIsDatabase(EMPTY_STORE);
    assert map[][0 as u32 := WideTable(EMPTY_STORE)] == map[0 as u32 := WideTable(EMPTY_STORE)];
  }

  lemma WideInserted() returns (s: Store)
    ensures IsTable(WideTable(s)) && RelationOf(WideTable(s)) == Relation(WideColumns(), [])
    ensures Legal(WideDatabase(EMPTY_STORE), InsertInto("t", ["7"]))
    ensures Effect(WideDatabase(EMPTY_STORE), InsertInto("t", ["7"]), WideDatabase(s), Some(QueryResult(true, 1, [])))
  {
    hide RelationOf, RowLength, RowMeant, WideColumns, Matches, RowsFit, RecordStore.Insert;
    var t := WideTable(EMPTY_STORE);
    WideFacts();
    SevenParses();
    RowNotAdded(t, [Integer(7)]);
    s := WithRow(t, [Integer(7)]).store;
    assert WithTable(WideDatabase(EMPTY_STORE), "t", WideTable(s)).tables == map[0 := WideTable(s)];
  }

  lemma SessionOfThree(ds: seq<Database>, a: Statement, b: Statement, c: Statement, ra: Option<QueryResult>,
                       rb: Option<QueryResult>, rc: Option<QueryResult>)
    requires |ds| == 4 && IsDatabase(ds[0]) && IsDatabase(ds[1]) && IsDatabase(ds[2]) && IsDatabase(ds[3])
    requires Legal(ds[0], a) && Effect(ds[0], a, ds[1], ra)
    requires Legal(ds[1], b) && Effect(ds[1], b, ds[2], rb)
    requires Legal(ds[2], c) && Effect(ds[2], c, ds[3], rc)
    ensures IsSession(ds, [a, b, c], [ra, rb, rc])
  {
    hide IsDatabase, Legal, Effect;
  }

  /** A row that no page takes: the INSERT reports success, and the SELECT after it shows no row. */
  lemma LongRowIsLost() returns (ds: seq<Database>)
    ensures IsSession(ds, [CreateTable("t", WideColumns()), InsertInto("t", ["7"]), SelectFrom("t")],
      [Some(QueryResult(true, 0, [])), Some(QueryResult(true, 1, [])), Some(QueryResult(true, 0, []))])
    ensures ds[0] == EMPTY_DATABASE
  {
    hide IsSession, Creates, Inserts, IsDatabase, IsTable, RelationOf, WideDatabase, LengthsFit, Insertable;
    hide Selects, WideColumns, RecordStore.Valid, Scan, RowsFit;
    WideCreated();
    var s := WideInserted();
    WideIsDatabase(s);
    NoRowSelected(s);
    ds := [EMPTY_DATABASE, WideDatabase(EMPTY_STORE), WideDatabase(s), WideDatabase(s)];
    SessionOfThree(ds, CreateTable("t", WideColumns()), InsertInto("t", ["7"]), SelectFrom("t"),
                   Some(QueryResult(true, 0, [])), Some(QueryResult(true, 1, [])), Some(QueryResult(true, 0, [])));
  }
}
