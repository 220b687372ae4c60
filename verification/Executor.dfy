/** The executor: statements against the catalog, and restarting the server. */
module Execution {
  import opened Bytes
  import opened Rows
  import opened ValueText
  import opened RecordStore
  import opened StoreScan
  import opened BufferPool
  import opened CatalogLayout
  import opened CatalogFormat
  import opened CatalogManagement
  import opened TableStatements

  /** What a statement reports: whether it succeeded, the number in its message, and rows. */
  datatype QueryResult = QueryResult(success: bool, count: nat, rows: seq<seq<Text>>)

  const FAILED := QueryResult(false, 0, [])

  // ---- what each statement does to the database, and what it reports ----

  /** CREATE TABLE: a new table without rows, unless the name is taken. */
  ghost predicate Creates(d: Database, name: Text, columns: seq<Column>, e: Database, r: QueryResult) {
    if name in d.names then r == FAILED && e == d
    else
      && r == QueryResult(true, 0, []) && d.next < 0xFFFF_FFFF
      && e == Database(d.tables[d.next := TableState(name, columns, EMPTY_STORE)], d.names[name := d.next], d.next + 1)
  }

  /** The values of an INSERT: refused with an error, or lost to an exception that nothing here catches. */
  datatype ParsedRow = Row(values: seq<Value>) | BadValue | Uncaught

  ghost predicate HasValue(text: Text, t: TypeId) {
    exists v :: Means(text, t, Ok(v))
  }

  /** Literal `i` is the first that has no value for its column, and fails in this way. */
  ghost predicate FailsFirst(raw: seq<Text>, columns: seq<Column>, i: nat, why: Parsed)
    requires i < |raw| <= |columns|
  {
    && Means(raw[i], columns[i].typeId, why) && !why.Ok?
    && forall j | 0 <= j < i :: HasValue(raw[j], columns[j].typeId)
  }

  /** What the literals are together: each of them a value of its own column, or else the first failure decides. */
  ghost predicate ReadsAs(raw: seq<Text>, columns: seq<Column>, p: ParsedRow)
    requires |raw| <= |columns|
  {
    match p
    case Row(values) =>
      |values| == |raw| && forall i | 0 <= i < |raw| :: Means(raw[i], columns[i].typeId, Ok(values[i]))
    case BadValue => exists i | 0 <= i < |raw| :: FailsFirst(raw, columns, i, Refused)
    case Uncaught => exists i | 0 <= i < |raw| :: FailsFirst(raw, columns, i, Escaped)
  }

  /** The one outcome that there is. */
  ghost function RowMeant(raw: seq<Text>, columns: seq<Column>): (p: ParsedRow)
    requires |raw| <= |columns|
    ensures ReadsAs(raw, columns, p) && (p.Row? ==> Matches(p.values, columns))
  {
    AnOutcome(raw, columns);
    var p :| ReadsAs(raw, columns, p);
    if p.Row? then RowMatches(raw, columns, p.values); p else p
  }

  /** A text means one thing for a type: a value of it, or a failure. */
  lemma MeansOne(text: Text, t: TypeId, p: Parsed, q: Parsed)
    requires Means(text, t, p) && Means(text, t, q)
    ensures p == q && (p.Ok? ==> TypeOf(p.value) == t)
  {
    FromStringMeans(text, t, p);
    FromStringMeans(text, t, q);
  }

  lemma RowMatches(raw: seq<Text>, columns: seq<Column>, values: seq<Value>)
    requires |raw| <= |columns| && ReadsAs(raw, columns, Row(values))
    ensures Matches(values, columns)
  {
    hide Means;
    forall i | 0 <= i < |values|
      ensures TypeOf(values[i]) == columns[i].typeId
    {
      MeansOne(raw[i], columns[i].typeId, Ok(values[i]), Ok(values[i]));
    }
  }

  /** The values of the literals before `n`. */
  ghost predicate ReadSoFar(raw: seq<Text>, columns: seq<Column>, values: seq<Value>, n: nat) {
    |values| == n <= |raw| <= |columns| && forall i | 0 <= i < n :: Means(raw[i], columns[i].typeId, Ok(values[i]))
  }

  lemma RowStarts(raw: seq<Text>, columns: seq<Column>)
    requires |raw| <= |columns|
    ensures ReadSoFar(raw, columns, [], 0)
  {
  }

  lemma RowGoesOn(raw: seq<Text>, columns: seq<Column>, values: seq<Value>, i: nat, p: Parsed)
    requires i < |raw| <= |columns| && ReadSoFar(raw, columns, values, i)
    requires p == FromString(raw[i], columns[i].typeId)
    ensures p.Ok? ==> ReadSoFar(raw, columns, values + [p.value], i + 1)
    ensures p.Refused? ==> ReadsAs(raw, columns, BadValue)
    ensures p.Escaped? ==> ReadsAs(raw, columns, Uncaught)
  {
    hide FromString;
    FromStringMeans(raw[i], columns[i].typeId, p);
    hide Means;
    forall j | 0 <= j < i ensures HasValue(raw[j], columns[j].typeId) {
      assert Means(raw[j], columns[j].typeId, Ok(values[j]));
    }
    if !p.Ok? { assert FailsFirst(raw, columns, i, p); }
  }

  lemma SomeOutcome(raw: seq<Text>, columns: seq<Column>) returns (p: ParsedRow)
    requires |raw| <= |columns|
    ensures ReadsAs(raw, columns, p)
  {
    hide Means, FromString, FailsFirst;
    var values: seq<Value> := [];
    for i := 0 to |raw|
      invariant ReadSoFar(raw, columns, values, i)
    {
      var v := FromString(raw[i], columns[i].typeId);
      RowGoesOn(raw, columns, values, i, v);
      match v
      case Ok(value) => values := values + [value];
      case Refused => return BadValue;
      case Escaped => return Uncaught;
    }
    p := Row(values);
  }

  lemma AnOutcome(raw: seq<Text>, columns: seq<Column>)
    requires |raw| <= |columns|
    ensures exists p :: ReadsAs(raw, columns, p)
  {
    var p := SomeOutcome(raw, columns);
  }

  lemma FailsOnce(raw: seq<Text>, columns: seq<Column>, i: nat, why: Parsed, k: nat, why': Parsed)
    requires |raw| <= |columns| && i < |raw| && k < |raw|
    requires FailsFirst(raw, columns, i, why) && FailsFirst(raw, columns, k, why')
    ensures i == k && why == why'
  {
    hide Means;
    if i < k {
      var v :| Means(raw[i], columns[i].typeId, Ok(v));
      MeansOne(raw[i], columns[i].typeId, why, Ok(v));
    } else if k < i {
      var v :| Means(raw[k], columns[k].typeId, Ok(v));
      MeansOne(raw[k], columns[k].typeId, why', Ok(v));
    } else {
      MeansOne(raw[i], columns[i].typeId, why, why');
    }
  }

  lemma NoFailure(raw: seq<Text>, columns: seq<Column>, values: seq<Value>, i: nat, why: Parsed)
    requires i < |raw| <= |columns| && ReadsAs(raw, columns, Row(values))
    ensures !FailsFirst(raw, columns, i, why)
  {
    hide Means;
    if Means(raw[i], columns[i].typeId, why) { MeansOne(raw[i], columns[i].typeId, why, Ok(values[i])); }
  }

  /** Literals have one outcome, and it is this one. */
  lemma ReadsOnce(raw: seq<Text>, columns: seq<Column>, p: ParsedRow)
    requires |raw| <= |columns|
    ensures ReadsAs(raw, columns, p) <==> p == RowMeant(raw, columns)
  {
    if ReadsAs(raw, columns, p) { SameOutcome(raw, columns, p, RowMeant(raw, columns)); }
  }

  ghost function HowItFails(p: ParsedRow): Parsed
    requires !p.Row?
  {
    if p.BadValue? then Refused else Escaped
  }

  lemma SameOutcome(raw: seq<Text>, columns: seq<Column>, p: ParsedRow, q: ParsedRow)
    requires |raw| <= |columns| && ReadsAs(raw, columns, p) && ReadsAs(raw, columns, q)
    ensures p == q
  {
    hide Means, FailsFirst;
    if p.Row? && q.Row? {
      forall i | 0 <= i < |raw|
        ensures p.values[i] == q.values[i]
      {
        MeansOne(raw[i], columns[i].typeId, Ok(p.values[i]), Ok(q.values[i]));
      }
    } else if !p.Row? && !q.Row? {
      var i :| 0 <= i < |raw| && FailsFirst(raw, columns, i, HowItFails(p));
      var k :| 0 <= k < |raw| && FailsFirst(raw, columns, k, HowItFails(q));
      FailsOnce(raw, columns, i, HowItFails(p), k, HowItFails(q));
    } else {
      var row, other := if p.Row? then p else q, if p.Row? then q else p;
      var i :| 0 <= i < |raw| && FailsFirst(raw, columns, i, HowItFails(other));
      NoFailure(raw, columns, row.values, i, HowItFails(other));
    }
  }

  ghost function WithRow(t: TableState, values: seq<Value>): TableState
    requires RecordStore.Valid(t.store) && Matches(values, t.columns) && InRange(RowLength(t.columns))
  {
    t.(store := Insert(t.store, RowBytes(values, t.columns)).0)
  }

  /** The rows of the table are in the range of the page manager's space check, and its file can grow. */
  ghost predicate CanInsert(t: TableState) {
    InRange(RowLength(t.columns)) && t.store.next < PagedRecords.MAX_PAGES
  }

  lemma WithRowFacts(t: TableState, values: seq<Value>)
    requires RecordStore.Valid(t.store) && Matches(values, t.columns) && CanInsert(t)
    ensures InRange(RowLength(t.columns)) && InRange(|RowBytes(values, t.columns)|)
    ensures WithRow(t, values) == TableState(t.name, t.columns, Insert(t.store, RowBytes(values, t.columns)).0)
    ensures t.store.next < 0x8_0000 == PagedRecords.MAX_PAGES
  {
  }

  /** There are not more values than columns, and the table can take the row. */
  ghost predicate Insertable(d: Database, name: Text, raw: seq<Text>) {
    name in d.names && d.names[name] in d.tables ==>
      |raw| <= |d.tables[d.names[name]].columns| && CanInsert(d.tables[d.names[name]])
  }

  /** INSERT: one record more in the table's store; `None` if an exception escapes. */
  ghost predicate Inserts(d: Database, name: Text, raw: seq<Text>, e: Database, r: Option<QueryResult>) {
    if name !in d.names then r == Some(FAILED) && e == d
    else
      && d.names[name] in d.tables
      && var t := d.tables[d.names[name]];
      && RecordStore.Valid(t.store) && |raw| <= |t.columns|
      && match RowMeant(raw, t.columns)
         case BadValue => r == Some(FAILED) && e == d
         case Uncaught => r == None && e == d
         case Row(values) =>
           && InRange(RowLength(t.columns))
           && r == Some(QueryResult(true, 1, []))
           && e == WithTable(d, name, WithRow(t, values))
  }

  /** Another state for one of the tables. */
  ghost function WithTable(d: Database, name: Text, t: TableState): Database
    requires name in d.names
  {
    d.(tables := d.tables[d.names[name] := t])
  }

  /** DELETE: exactly the rows that meet the condition go, and their number is reported. */
  ghost predicate Deletes(d: Database, name: Text, whereColumn: Text, whereValue: Text, e: Database, r: QueryResult) {
    if name !in d.names then r == FAILED && e == d
    else
      && d.names[name] in d.tables
      && var t := d.tables[d.names[name]];
      && RecordStore.Valid(t.store)
      && match ConditionFor(t.columns, whereColumn, whereValue)
         case None => r == FAILED && e == d
         case Some(c) =>
           if Blocked(c, t.columns) && Scan(t.store) != [] then r == FAILED && e == d
           else
             && r.success && r.rows == []
             && d.names[name] in e.tables && e == WithTable(d, name, t.(store := e.tables[d.names[name]].store))
             && DeletesExactly(t.store, e.tables[d.names[name]].store, t.columns, c, r.count)
  }

  /** What SELECT reports: every live row of the table, printed, in scan order. */
  ghost predicate Selects(d: Database, name: Text, r: QueryResult) {
    if name !in d.names then r == FAILED
    else
      && d.names[name] in d.tables
      && var t := d.tables[d.names[name]];
      && RecordStore.Valid(t.store) && RowsFit(t.store, t.columns)
      && match SelectResult(t.store, t.columns)
         case None => r == FAILED
         case Some(rows) => r == QueryResult(true, |rows|, rows)
  }

  datatype Statement =
    | CreateTable(name: Text, columns: seq<Column>)
    | InsertInto(name: Text, rawValues: seq<Text>)
    | SelectFrom(name: Text)
    | Commit
    | DeleteFrom(name: Text, whereColumn: Text, whereValue: Text)

  /** What the engine asks of a statement. */
  ghost predicate Legal(d: Database, stmt: Statement) {
    match stmt
    case CreateTable(name, columns) => LengthsFit(name, columns) && d.next < 0xFFFF_FFFF
    case InsertInto(name, raw) => Insertable(d, name, raw)
    case _ => true
  }

  /** Whatever the databases on the way, each statement is legal when its turn comes. */
  ghost predicate LegalFrom(d: Database, stmts: seq<Statement>)
    decreases |stmts|
  {
    stmts == [] ||
    (Legal(d, stmts[0]) && forall e, r | IsDatabase(e) && Effect(d, stmts[0], e, r) :: LegalFrom(e, stmts[1..]))
  }

  ghost predicate Effect(d: Database, stmt: Statement, e: Database, r: Option<QueryResult>) {
    match stmt
    case CreateTable(name, columns) => r.Some? && Creates(d, name, columns, e, r.value)
    case InsertInto(name, raw) => Inserts(d, name, raw, e, r)
    case SelectFrom(name) => r.Some? && e == d && Selects(d, name, r.value)
    case Commit => e == d && r == Some(QueryResult(true, |d.tables|, []))
    case DeleteFrom(name, column, value) => r.Some? && Deletes(d, name, column, value, e, r.value)
  }

  class Executor {
    const catalog: Catalog

    constructor (catalog: Catalog)
      ensures this.catalog == catalog
    {
      this.catalog := catalog;
    }

    // ---- COMMIT ----

    method FlushTable(oid: u32, ghost done: set<u32>)
      requires catalog.Valid() && oid in catalog.tables
      requires forall o | o in catalog.tables && o in done :: catalog.tables[o].Durable()
      modifies catalog.tables[oid].table.records.pool.Repr
      ensures catalog.Valid() && catalog.State() == old(catalog.State())
      ensures forall o | o in catalog.tables && o in done + {oid} :: catalog.tables[o].Durable()
    {
      hide *;
      catalog.Parts();
      catalog.TableFacts(oid);
      catalog.TableIsApart(oid);
      ghost var state := catalog.State();
      var t := catalog.tables[oid];
      OkFacts(t);
      t.table.Flush();
      NowOk(t);
      t.NowDurable();
      catalog.NowValid(state);
    }

    method FlushTables() returns (count: nat)
      requires catalog.Valid()
      modifies catalog.Footprint()
      ensures catalog.Valid() && catalog.tables == old(catalog.tables) && catalog.State() == old(catalog.State())
      ensures catalog.tableNames == old(catalog.tableNames) && catalog.nextTableOid == old(catalog.nextTableOid)
      ensures count == |catalog.tables|
      ensures forall oid | oid in catalog.tables :: catalog.tables[oid].Durable()
    {
      hide *;
      ghost var state, tables := catalog.State(), catalog.tables;
      ghost var footprint := catalog.Footprint();
      catalog.Parts();
      var all := catalog.GetAllTables();
      catalog.NowValid(state);
      AllOfFacts(all, catalog.tables);
      ghost var done: set<u32> := {};
      for i := 0 to |all|
        invariant catalog.Valid() && catalog.State() == state && catalog.tables == tables
        invariant catalog.Footprint() == footprint
        invariant catalog.tableNames == old(catalog.tableNames) && catalog.nextTableOid == old(catalog.nextTableOid)
        invariant forall j | 0 <= j < i :: all[j].oid in done
        invariant forall o | o in catalog.tables && o in done :: catalog.tables[o].Durable()
      {
        catalog.TableIsApart(all[i].oid);
        catalog.StandsApart();
        FlushTable(all[i].oid, done);
        done := done + {all[i].oid};
      }
      forall oid | oid in catalog.tables
        ensures oid in done
      {
        catalog.TableFacts(oid);
        var i :| 0 <= i < |all| && all[i] == tables[oid];
      }
      count := |all|;
    }

    method ExecuteCommit() returns (r: QueryResult)
      requires catalog.Valid()
      modifies catalog.dir`catalogFile, catalog.Footprint()
      ensures catalog.Valid() && catalog.Db() == old(catalog.Db()) && catalog.Committed()
      ensures catalog.tables == old(catalog.tables)
      ensures r == QueryResult(true, |catalog.tables|, [])
    {
      hide *;
      catalog.DbIs();
      catalog.StandsApart();
      var count := FlushTables();
      catalog.Parts();
      catalog.SaveCatalog();
      catalog.NowCommitted();
      catalog.DbIs();
      r := QueryResult(true, count, []);
    }

    // ---- SELECT ----

    /** Reading a table's rows changes nothing that a restart depends on. */
    method SelectTable(oid: u32) returns (rows: Option<seq<seq<Text>>>)
      requires catalog.Valid() && oid in catalog.tables
      modifies catalog.tables[oid].table.records.pool.Repr
      ensures catalog.Valid() && catalog.State() == old(catalog.State())
      ensures forall o | o in catalog.tables :: old(catalog.tables[o].Durable()) ==> catalog.tables[o].Durable()
      ensures var t := catalog.tables[oid];
        && RecordStore.Valid(t.State().store) && RowsFit(t.State().store, t.schema.columns)
        && rows == SelectResult(t.State().store, t.schema.columns)
    {
      hide *;
      catalog.Parts();
      catalog.TableFacts(oid);
      catalog.TableIsApart(oid);
      ghost var state := catalog.State();
      var t := catalog.tables[oid];
      t.DurableIs();
      rows := SelectRows(t);
      t.DurableIs();
      catalog.NowValid(state);
    }

    method ExecuteSelect(name: Text) returns (r: QueryResult)
      requires catalog.Valid()
      modifies catalog.Footprint()
      ensures catalog.Valid() && catalog.Db() == old(catalog.Db()) && catalog.tables == old(catalog.tables)
      ensures old(catalog.Committed()) ==> catalog.Committed()
      ensures Selects(catalog.Db(), name, r)
    {
      hide *;
      catalog.FindsTable(name);
      catalog.DbIs();
      match catalog.GetTable(name)
      case None =>
        NothingSelected(catalog.Db(), name);
        r := FAILED;
      case Some(t) =>
        catalog.Parts();
        catalog.TableIsApart(t.oid);
        catalog.StandsApart();
        catalog.RecordsDescribe();
        ghost var m, committed, ts := catalog.Records(), catalog.Committed(), [];
        if committed {
          CommittedParts(catalog);
          ts := ReadCatalog(catalog.dir.catalogFile.value).1;
        }
        var rows: Option<seq<seq<Text>>> := SelectTable(t.oid);
        r := match rows case None => FAILED case Some(found) => QueryResult(true, |found|, found);
        catalog.DbIs();
        catalog.Parts();
        OkFacts(t);
        RowsSelected(catalog.Db(), name, rows, r);
        if committed {
          catalog.RecordsDescribe();
          DescribedOnce(m, catalog.Records(), catalog.State());
          catalog.StillSaved(ts);
          catalog.NowCommitted();
        }
    }

    // ---- CREATE ----

    method ExecuteCreate(name: Text, columns: seq<Column>) returns (r: QueryResult)
      requires catalog.Valid() && LengthsFit(name, columns) && catalog.nextTableOid < 0xFFFF_FFFF
      modifies catalog, catalog.dir
      ensures catalog.Valid() && Creates(old(catalog.Db()), name, columns, catalog.Db(), r)
      ensures fresh(catalog.Footprint() - old(catalog.Footprint()))
    {
      hide Catalog.Valid, Catalog.State, Catalog.Db, Catalog.Saved, Creates, RegisteredIn, LengthsFit, IsSchema;
      hide TableInfo.Ok, TableInfo.State;
      catalog.DbIs();
      catalog.Parts();
      catalog.FootprintIs();
      ghost var state, db := catalog.State(), catalog.Db();
      var schema := MakeSchema(columns);
      catalog.NowValid(state);
      catalog.FootprintIs();
      var t: Option<TableInfo> := catalog.CreateTable(name, schema);
      catalog.DbIs();
      r := if t == None then FAILED else QueryResult(true, 0, []);
      NowCreates(db, name, schema, catalog.Db(), r);
    }

    // ---- INSERT ----

    method ParseValues(raw: seq<Text>, columns: seq<Column>) returns (p: ParsedRow)
      requires |raw| <= |columns|
      ensures p == RowMeant(raw, columns) && ReadsAs(raw, columns, p)
    {
      hide *;
      var values: seq<Value> := [];
      RowStarts(raw, columns);
      for i := 0 to |raw|
        invariant ReadSoFar(raw, columns, values, i)
      {
        var v := FromString(raw[i], columns[i].typeId);
        RowGoesOn(raw, columns, values, i, v);
        match v
        case Ok(value) =>
          values := values + [value];
        case Refused =>
          ReadsOnce(raw, columns, BadValue);
          return BadValue;
        case Escaped =>
          ReadsOnce(raw, columns, Uncaught);
          return Uncaught;
      }
      p := Row(values);
      RowEnds(raw, columns, values);
      ReadsOnce(raw, columns, p);
    }

    method InsertIntoTable(oid: u32, values: seq<Value>)
      requires catalog.Valid() && oid in catalog.State() && RecordStore.Valid(catalog.State()[oid].store)
      requires CanInsert(catalog.State()[oid]) && Matches(values, catalog.State()[oid].columns)
      modifies catalog.Footprint()
      ensures InRange(RowLength(old(catalog.State())[oid].columns))
      ensures catalog.Valid() && catalog.tableNames == old(catalog.tableNames)
      ensures catalog.nextTableOid == old(catalog.nextTableOid) && catalog.tables == old(catalog.tables)
      ensures catalog.State() == old(catalog.State())[oid := WithRow(old(catalog.State())[oid], values)]
    {
      hide *;
      catalog.Parts();
      catalog.TableFacts(oid);
      catalog.TableIsApart(oid);
      catalog.StandsApart();
      ghost var state := catalog.State();
      var t := catalog.tables[oid];
      OkFacts(t);
      WithRowFacts(state[oid], values);
      InsertRow(t, values);
      OkFacts(t);
      catalog.NowValid(state[oid := t.State()]);
    }

    /** A row too long for a page is reported as inserted, although nothing is stored. */
    method ExecuteInsert(name: Text, raw: seq<Text>) returns (r: Option<QueryResult>)
      requires catalog.Valid() && Insertable(catalog.Db(), name, raw)
      modifies catalog.Footprint()
      ensures catalog.Valid() && Inserts(old(catalog.Db()), name, raw, catalog.Db(), r)
      ensures catalog.tables == old(catalog.tables)
    {
      hide *;
      catalog.FindsTable(name);
      catalog.DbIs();
      ghost var db := catalog.Db();
      match catalog.GetTable(name)
      case None =>
        NothingInserted(db, name, raw);
        r := Some(FAILED);
      case Some(t) =>
        catalog.Parts();
        catalog.StoresAreValid();
        OkFacts(t);
        InsertableFacts(db, name, raw);
        ghost var state := catalog.State();
        var p := ParseValues(raw, t.schema.columns);
        catalog.NowValid(state);
        match p {
          case Row(values) =>
            InsertIntoTable(t.oid, values);
            r := Some(QueryResult(true, 1, []));
          case BadValue =>
            r := Some(FAILED);
          case Uncaught =>
            r := None;
        }
        catalog.DbIs();
        RowInserted(db, name, raw, p, catalog.Db(), r);
    }

    // ---- DELETE ----

    method DeleteFromTable(oid: u32, whereColumn: Text, whereValue: Text) returns (r: DeleteOutcome)
      requires catalog.Valid() && oid in catalog.tables
      modifies catalog.tables[oid].table.records.pool.Repr
      ensures catalog.Valid() && RecordStore.Valid(old(catalog.State())[oid].store)
      ensures var t, u := old(catalog.State())[oid], catalog.State()[oid];
        && catalog.State() == old(catalog.State())[oid := t.(store := u.store)]
        && (!r.Deleted? ==> u == t)
        && var c := ConditionFor(t.columns, whereColumn, whereValue);
        && (r.NoSuchColumn? <==> c == None)
        && (r.NotPrintable? <==> c != None && Blocked(c.value, t.columns) && Scan(t.store) != [])
        && (r.Deleted? ==> DeletesExactly(t.store, u.store, t.columns, c.value, r.count))
    {
      hide *;
      catalog.Parts();
      catalog.TableFacts(oid);
      catalog.TableIsApart(oid);
      ghost var state := catalog.State();
      var t := catalog.tables[oid];
      OkFacts(t);
      r := DeleteRows(t, whereColumn, whereValue);
      OkFacts(t);
      catalog.NowValid(state[oid := t.State()]);
    }

    method ExecuteDelete(name: Text, whereColumn: Text, whereValue: Text) returns (r: QueryResult)
      requires catalog.Valid()
      modifies catalog.Footprint()
      ensures catalog.Valid() && Deletes(old(catalog.Db()), name, whereColumn, whereValue, catalog.Db(), r)
      ensures catalog.tables == old(catalog.tables)
    {
      hide *;
      catalog.FindsTable(name);
      catalog.DbIs();
      ghost var db := catalog.Db();
      match catalog.GetTable(name)
      case None =>
        NothingDeleted(db, name, whereColumn, whereValue);
        r := FAILED;
      case Some(t) =>
        catalog.Parts();
        catalog.TableIsApart(t.oid);
        catalog.StandsApart();
        var outcome := DeleteFromTable(t.oid, whereColumn, whereValue);
        r := match outcome case Deleted(count) => QueryResult(true, count, []) case _ => FAILED;
        catalog.DbIs();
        RowsDeleted(db, name, whereColumn, whereValue, outcome, catalog.Db(), r);
    }

    // ---- any statement ----

    /** Whatever the statement, and whatever the caches evict and the pages compact meanwhile. */
    method Execute(stmt: Statement) returns (r: Option<QueryResult>)
      requires catalog.Valid() && Legal(catalog.Db(), stmt)
      modifies catalog, catalog.dir, catalog.Footprint()
      ensures catalog.Valid() && IsDatabase(old(catalog.Db())) && IsDatabase(catalog.Db())
      ensures Effect(old(catalog.Db()), stmt, catalog.Db(), r)
      ensures fresh(catalog.Footprint() - old(catalog.Footprint()))
      ensures !stmt.CreateTable? ==> catalog.tables == old(catalog.tables)
      ensures stmt.Commit? || (stmt.SelectFrom? && old(catalog.Committed())) ==> catalog.Committed()
    {
      hide Catalog.Valid, Catalog.Db, Catalog.Committed, Catalog.Footprint, IsDatabase, LengthsFit, Insertable;
      hide Creates, Inserts, Selects, Deletes;
      catalog.DbIsDatabase();
      catalog.DbIs();
      match stmt {
        case CreateTable(name, columns) =>
          var q := ExecuteCreate(name, columns);
          r := Some(q);
        case InsertInto(name, raw) =>
          r := ExecuteInsert(name, raw);
        case SelectFrom(name) =>
          var q := ExecuteSelect(name);
          r := Some(q);
        case Commit =>
          var q := ExecuteCommit();
          catalog.SizeOfState();
          catalog.DbIs();
          r := Some(q);
        case DeleteFrom(name, column, value) =>
          var q := ExecuteDelete(name, column, value);
          r := Some(q);
      }
      catalog.DbIsDatabase();
    }
  }

  // ---- restarting the server ----

  /** An empty catalog, filled from the catalog file if there is one. It consists of new objects and page files. */
  method StartServer(dir: DataDirectory) returns (after: Catalog)
    requires Distinct(dir.tableFiles)
    modifies dir`tableFiles
    ensures fresh(after) && after.dir == dir && FilesGrew(old(dir.tableFiles), dir.tableFiles)
    ensures fresh(after.Footprint() - FilesOf(old(dir.tableFiles)))
    ensures dir.catalogFile == None && old(dir.tableFiles) == map[] ==>
      after.Valid() && after.Db() == EMPTY_DATABASE && after.Footprint() == {}
    ensures dir.catalogFile.Some? ==>
      var (next, ts, _) := ReadCatalog(dir.catalogFile.value);
      && after.LoadedFrom(next, ts) && dir.tableFiles.Keys == old(dir.tableFiles).Keys + ByOid(ts).Keys
  {
    hide Catalog.LoadedFrom, Catalog.Valid, Catalog.Db, ReadCatalog, ByOid, Distinct, FilesGrew;
    after := new Catalog(dir);
    after.LoadCatalog();
    if dir.catalogFile == None && dir.tableFiles == map[] { after.NothingIsValid(); }
  }

  /**
   The server stops after a COMMIT, with nothing but SELECT since, and starts again: of the catalog that was,
   only the directory is left to read. The new catalog is the same database, and again all of it on the disk;
   it consists of new objects and of the page files of the old one.
   */
  method Restart(dir: DataDirectory, ghost before: Catalog) returns (after: Catalog)
    requires before.Committed() && before.dir == dir
    modifies dir`tableFiles
    ensures fresh(after) && after.dir == dir && after.Committed() && after.Db() == old(before.Db())
    ensures fresh(after.Footprint() - old(before.Footprint()))
  {
    hide *;
    CommittedParts(before);
    before.Parts();
    before.RecordFacts();
    AllIntact(before);
    before.DbIs();
    before.HasFiles();
    before.FootprintIs();
    ghost var state, m, files := before.State(), before.Records(), dir.tableFiles;
    ghost var ts := ReadCatalog(dir.catalogFile.value).1;
    after := StartServer(dir);
    NoneNew(files, dir.tableFiles, m.Keys);
    after.LoadedParts(before.nextTableOid, ts);
    after.FootprintIs();
    SharedFiles(before, after, dir, dir.tableFiles);
    RestartedFrom(before, after, state, m, ts);
  }

  lemma AllIntact(c: Catalog)
    requires c.Committed()
    ensures c.Valid() && c.State().Keys == c.Records().Keys == c.tables.Keys
    ensures forall oid | oid in c.tables :: c.tables[oid].Intact(c.State()[oid], c.Records()[oid])
  {
    hide Catalog.Committed, Catalog.Valid, TableInfo.Ok, TableInfo.State, TableInfo.Durable, TableInfo.FitsFile;
    hide TableInfo.Record, Catalog.State, Catalog.Records;
    CommittedParts(c);
    c.Parts();
    c.RecordFacts();
  }

  lemma IntactFacts(c: Catalog, state: map<u32, TableState>, m: map<u32, TableRecord>)
    requires state.Keys == m.Keys == c.tables.Keys
    requires forall oid | oid in c.tables :: c.tables[oid].Intact(state[oid], m[oid])
    ensures forall oid | oid in c.tables ::
      && c.tables[oid].Ok() && c.tables[oid].State() == state[oid] && c.tables[oid].Durable()
      && c.tables[oid].FitsFile() && m[oid] == c.tables[oid].Record()
  {
    hide TableInfo.Ok, TableInfo.State, TableInfo.Durable, TableInfo.FitsFile, TableInfo.Record;
  }

  lemma RestartedFrom(before: Catalog, after: Catalog, state: map<u32, TableState>, m: map<u32, TableRecord>,
                      ts: seq<TableRecord>)
    requires RegisteredIn(before, before.dir, before.tables, before.tableNames, before.nextTableOid,
                          before.dir.tableFiles)
    requires state.Keys == m.Keys == before.tables.Keys && before.dir.catalogFile.Some?
    requires forall oid | oid in before.tables :: before.tables[oid].Intact(state[oid], m[oid])
    requires FileIs(before.dir.catalogFile.value, before.nextTableOid, ts)
    requires Lists(ts, m, before.tableNames, before.tables.Keys)
    requires after.dir == before.dir && after.LoadedFrom(before.nextTableOid, ts)
    ensures after.Committed() && after.Valid()
    ensures after.Db() == Database(state, before.tableNames, before.nextTableOid)
  {
    hide *;
    IntactFacts(before, state, m);
    FileReads(before.dir.catalogFile.value, before.nextTableOid, ts);
    before.NowSaved(state, m, ts);
    before.NowCommitted();
    Restarted(before, after);
    after.DbIs();
  }

  lemma NowCreates(d: Database, name: Text, schema: Schema, e: Database, r: QueryResult)
    requires name in d.names ==> r == FAILED && e == d
    requires name !in d.names ==>
      && r == QueryResult(true, 0, []) && d.next < 0xFFFF_FFFF
      && e.tables == d.tables[d.next := TableState(name, schema.columns, EMPTY_STORE)]
      && e.names == d.names[name := d.next] && e.next == d.next + 1
    ensures Creates(d, name, schema.columns, e, r)
  {
  }

  lemma NothingInserted(d: Database, name: Text, raw: seq<Text>)
    requires name !in d.names
    ensures Inserts(d, name, raw, d, Some(FAILED))
  {
  }

  lemma InsertableFacts(d: Database, name: Text, raw: seq<Text>)
    requires Insertable(d, name, raw) && name in d.names && d.names[name] in d.tables
    ensures var t := d.tables[d.names[name]];
      && |raw| <= |t.columns| && CanInsert(t) && InRange(RowLength(t.columns))
      && (RowMeant(raw, t.columns).Row? ==> Matches(RowMeant(raw, t.columns).values, t.columns))
  {
    hide RowMeant, Matches;
  }

  lemma RowInserted(d: Database, name: Text, raw: seq<Text>, p: ParsedRow, e: Database, r: Option<QueryResult>)
    requires name in d.names && d.names[name] in d.tables
    requires var t := d.tables[d.names[name]];
      && RecordStore.Valid(t.store) && |raw| <= |t.columns| && p == RowMeant(raw, t.columns)
      && (p.Row? ==>
            && Matches(p.values, t.columns) && InRange(RowLength(t.columns))
            && e.tables == d.tables[d.names[name] := WithRow(t, p.values)])
    requires !p.Row? ==> e.tables == d.tables
    requires e.names == d.names && e.next == d.next
    requires r ==
      match p case Row(_) => Some(QueryResult(true, 1, [])) case BadValue => Some(FAILED) case Uncaught => None
    ensures Inserts(d, name, raw, e, r)
  {
    hide RecordStore.Valid, RowMeant, WithRow, Matches;
  }

  lemma NothingDeleted(d: Database, name: Text, whereColumn: Text, whereValue: Text)
    requires name !in d.names
    ensures Deletes(d, name, whereColumn, whereValue, d, FAILED)
  {
  }

  lemma RowsDeleted(d: Database, name: Text, whereColumn: Text, whereValue: Text, outcome: DeleteOutcome,
                    e: Database, r: QueryResult)
    requires name in d.names && d.names[name] in d.tables && d.names[name] in e.tables
    requires var t, u := d.tables[d.names[name]], e.tables[d.names[name]];
      && RecordStore.Valid(t.store)
      && e.tables == d.tables[d.names[name] := t.(store := u.store)]
      && (!outcome.Deleted? ==> u == t)
      && var c := ConditionFor(t.columns, whereColumn, whereValue);
      && (outcome.NoSuchColumn? <==> c == None)
      && (outcome.NotPrintable? <==> c != None && Blocked(c.value, t.columns) && Scan(t.store) != [])
      && (outcome.Deleted? ==> DeletesExactly(t.store, u.store, t.columns, c.value, outcome.count))
    requires e.names == d.names && e.next == d.next
    requires r == match outcome case Deleted(count) => QueryResult(true, count, []) case _ => FAILED
    ensures Deletes(d, name, whereColumn, whereValue, e, r)
  {
    hide RecordStore.Valid, ConditionFor, Blocked, DeletesExactly, Scan;
  }

  lemma RowEnds(raw: seq<Text>, columns: seq<Column>, values: seq<Value>)
    requires ReadSoFar(raw, columns, values, |raw|)
    ensures ReadsAs(raw, columns, Row(values))
  {
    hide Means;
  }

  lemma NothingSelected(d: Database, name: Text)
    requires name !in d.names
    ensures Selects(d, name, FAILED)
  {
  }

  lemma RowsSelected(d: Database, name: Text, rows: Option<seq<seq<Text>>>, r: QueryResult)
    requires name in d.names && d.names[name] in d.tables
    requires var t := d.tables[d.names[name]];
      && RecordStore.Valid(t.store) && RowsFit(t.store, t.columns) && rows == SelectResult(t.store, t.columns)
    requires r == match rows case None => FAILED case Some(found) => QueryResult(true, |found|, found)
    ensures Selects(d, name, r)
  {
  }
}
