/** The engine at work: whole sessions executed, and sessions interrupted by a restart. */
module ServerSessions {
  import opened Rows
  import opened RecordStore
  import opened StoreScan
  import opened BufferPool
  import opened CatalogManagement
  import opened TableStatements
  import opened Execution
  import opened Sessions

  // ---- sessions, put together ----

  lemma NoStatements(d: Database)
    requires IsDatabase(d)
    ensures IsSession([d], [], [])
  {
  }

  lemma {:induction false} LegalPrefix(d: Database, stmts: seq<Statement>, later: seq<Statement>)
    requires LegalFrom(d, stmts + later)
    ensures LegalFrom(d, stmts)
    decreases |stmts|
  {
    hide IsDatabase, Legal, Effect;
    if stmts != [] {
      assert (stmts + later)[0] == stmts[0] && (stmts + later)[1..] == stmts[1..] + later;
      forall e, r | IsDatabase(e) && Effect(d, stmts[0], e, r) ensures LegalFrom(e, stmts[1..]) {
        LegalPrefix(e, stmts[1..], later);
      }
    }
  }

  lemma LegalNext(d: Database, stmts: seq<Statement>, later: seq<Statement>, i: nat)
    requires i < |stmts| && LegalFrom(d, stmts[i..] + later)
    ensures Legal(d, stmts[i])
  {
    assert (stmts[i..] + later)[0] == stmts[i];
  }

  lemma LegalAfter(d: Database, stmts: seq<Statement>, later: seq<Statement>, i: nat, e: Database,
                   r: Option<QueryResult>)
    requires i < |stmts| && LegalFrom(d, stmts[i..] + later) && IsDatabase(e) && Effect(d, stmts[i], e, r)
    ensures LegalFrom(e, stmts[i + 1..] + later)
  {
    hide IsDatabase, Legal, Effect;
    assert (stmts[i..] + later)[0] == stmts[i] && (stmts[i..] + later)[1..] == stmts[i + 1..] + later;
  }

  /** One statement more. */
  lemma SessionMore(ds: seq<Database>, stmts: seq<Statement>, i: nat, rs: seq<Option<QueryResult>>,
                    e: Database, r: Option<QueryResult>)
    requires i < |stmts| && IsSession(ds, stmts[..i], rs) && |ds| == i + 1 && IsDatabase(e)
    requires Legal(ds[i], stmts[i]) && Effect(ds[i], stmts[i], e, r)
    ensures IsSession(ds + [e], stmts[..i + 1], rs + [r])
  {
    hide IsDatabase, Legal, Effect;
  }

  /** A session that goes on where another one ended. */
  lemma SessionsJoin(ds: seq<Database>, stmts: seq<Statement>, rs: seq<Option<QueryResult>>,
                     ds': seq<Database>, stmts': seq<Statement>, rs': seq<Option<QueryResult>>)
    requires IsSession(ds, stmts, rs) && IsSession(ds', stmts', rs') && ds'[0] == ds[|stmts|]
    ensures |ds'| == |stmts'| + 1 && IsSession(ds + ds'[1..], stmts + stmts', rs + rs')
    ensures (ds + ds'[1..])[0] == ds[0] && (ds + ds'[1..])[|stmts + stmts'|] == ds'[|stmts'|]
  {
    hide IsDatabase, Legal, Effect;
  }

  /** The last statements are a COMMIT and then SELECTs only. */
  ghost predicate EndsCommitted(stmts: seq<Statement>)
    decreases |stmts|
  {
    var n := |stmts| - 1;
    n >= 0 && (stmts[n].Commit? || (stmts[n].SelectFrom? && EndsCommitted(stmts[..n])))
  }

  lemma NothingCommitted()
    ensures !EndsCommitted([])
  {
  }

  lemma EndsLater(stmts: seq<Statement>, i: nat)
    requires i < |stmts|
    ensures EndsCommitted(stmts[..i + 1]) ==> stmts[i].Commit? || (stmts[i].SelectFrom? && EndsCommitted(stmts[..i]))
  {
    assert stmts[..i + 1][..i] == stmts[..i];
  }

  // ---- executing ----

  /** The statements one after the other, each on what the ones before it left. */
  method RunSession(executor: Executor, stmts: seq<Statement>, ghost later: seq<Statement>)
    returns (rs: seq<Option<QueryResult>>, ghost ds: seq<Database>)
    requires executor.catalog.Valid() && LegalFrom(executor.catalog.Db(), stmts + later)
    modifies executor.catalog, executor.catalog.dir, executor.catalog.Footprint()
    ensures executor.catalog.Valid() && fresh(executor.catalog.Footprint() - old(executor.catalog.Footprint()))
    ensures IsSession(ds, stmts, rs) && ds[0] == old(executor.catalog.Db()) && ds[|stmts|] == executor.catalog.Db()
    ensures LegalFrom(executor.catalog.Db(), later)
    ensures EndsCommitted(stmts) ==> executor.catalog.Committed()
  {
    hide Catalog.Valid, Catalog.Db, Catalog.Committed, IsDatabase, Legal, LegalFrom, Effect, IsSession, EndsCommitted;
    var catalog := executor.catalog;
    catalog.DbIsDatabase();
    rs, ds := [], [catalog.Db()];
    NoStatements(catalog.Db());
    assert stmts[..0] == [] && stmts[0..] == stmts;
    NothingCommitted();
    for i := 0 to |stmts|
      invariant catalog.Valid() && IsDatabase(catalog.Db())
      invariant fresh(catalog.Footprint() - old(catalog.Footprint()))
      invariant |ds| == i + 1 && ds[0] == old(catalog.Db()) && ds[i] == catalog.Db()
      invariant EndsCommitted(stmts[..i]) ==> catalog.Committed()
      invariant IsSession(ds, stmts[..i], rs) && LegalFrom(catalog.Db(), stmts[i..] + later)
    {
      ghost var d := catalog.Db();
      LegalNext(d, stmts, later, i);
      EndsLater(stmts, i);
      var r := executor.Execute(stmts[i]);
      LegalAfter(d, stmts, later, i, catalog.Db(), r);
      SessionMore(ds, stmts, i, rs, catalog.Db(), r);
      rs, ds := rs + [r], ds + [catalog.Db()];
    }
    assert stmts[..|stmts|] == stmts && stmts[|stmts|..] + later == later;
  }

  /** A server started over an empty directory executes the statements: a session on the empty database. */
  method Serve(dir: DataDirectory, stmts: seq<Statement>, ghost later: seq<Statement>)
    returns (executor: Executor, rs: seq<Option<QueryResult>>, ghost ds: seq<Database>)
    requires dir.catalogFile == None && dir.tableFiles == map[] && LegalFrom(EMPTY_DATABASE, stmts + later)
    modifies dir
    ensures fresh(executor) && fresh(executor.catalog) && executor.catalog.dir == dir && executor.catalog.Valid()
    ensures fresh(executor.catalog.Footprint())
    ensures IsSession(ds, stmts, rs) && ds[0] == EMPTY_DATABASE && ds[|stmts|] == executor.catalog.Db()
    ensures LegalFrom(executor.catalog.Db(), later)
    ensures EndsCommitted(stmts) ==> executor.catalog.Committed()
  {
    hide Catalog.Valid, Catalog.Db, Catalog.Committed, LegalFrom, IsSession, EndsCommitted;
    var catalog := StartServer(dir);
    executor := new Executor(catalog);
    rs, ds := RunSession(executor, stmts, later);
  }

  /** An executor for the catalog that is read back. */
  method RestartServer(dir: DataDirectory, ghost before: Catalog) returns (executor: Executor)
    requires before.Committed() && before.dir == dir && before.Valid()
    modifies dir`tableFiles
    ensures fresh(executor) && fresh(executor.catalog) && executor.catalog.dir == dir && executor.catalog.Valid()
    ensures executor.catalog.Db() == old(before.Db())
    ensures fresh(executor.catalog.Footprint() - old(before.Footprint()))
  {
    hide Catalog.Valid, Catalog.Db, Catalog.Committed;
    var catalog := Restart(dir, before);
    CommittedIsValid(catalog);
    executor := new Executor(catalog);
  }

  lemma CommittedIsValid(c: Catalog)
    requires c.Committed()
    ensures c.Valid()
  {
  }

  /** The server starts again from the files of a committed catalog, and executes more statements. */
  method Resume(dir: DataDirectory, ghost before: Catalog, stmts: seq<Statement>, ghost later: seq<Statement>)
    returns (executor: Executor, rs: seq<Option<QueryResult>>, ghost ds: seq<Database>)
    requires before.Committed() && before.dir == dir && before.Valid() && LegalFrom(before.Db(), stmts + later)
    modifies dir, before.Footprint()
    ensures fresh(executor) && fresh(executor.catalog) && executor.catalog.dir == dir && executor.catalog.Valid()
    ensures fresh(executor.catalog.Footprint() - old(before.Footprint()))
    ensures IsSession(ds, stmts, rs) && ds[0] == old(before.Db()) && ds[|stmts|] == executor.catalog.Db()
    ensures LegalFrom(executor.catalog.Db(), later)
    ensures EndsCommitted(stmts) ==> executor.catalog.Committed()
  {
    hide Catalog.Valid, Catalog.Db, Catalog.Committed, Catalog.Footprint, LegalFrom, IsSession, EndsCommitted;
    ghost var footprint := before.Footprint();
    executor := RestartServer(dir, before);
    rs, ds := RunSession(executor, stmts, later);
    ghost var footprint' := executor.catalog.Footprint();
    assert forall o: object? | o in footprint' && o !in footprint :: !old(allocated(o));
  }

  /**
   A session that a restart interrupts is a session all the same: the server executes statements that end with
   a COMMIT, perhaps followed by SELECTs, stops, starts again from the files, and goes on with the other ones.
   */
  method RestartedSession(dir: DataDirectory, first: seq<Statement>, second: seq<Statement>)
    returns (again: Executor, rs: seq<Option<QueryResult>>, ghost ds: seq<Database>)
    requires dir.catalogFile == None && dir.tableFiles == map[]
    requires EndsCommitted(first) && LegalFrom(EMPTY_DATABASE, first + second)
    modifies dir
    ensures fresh(again) && fresh(again.catalog) && again.catalog.dir == dir && again.catalog.Valid()
    ensures fresh(again.catalog.Footprint())
    ensures IsSession(ds, first + second, rs) && ds[0] == EMPTY_DATABASE && ds[|first + second|] == again.catalog.Db()
  {
    hide Catalog.Valid, Catalog.Db, Catalog.Committed, LegalFrom, IsSession, EndsCommitted, IsDatabase;
    assert second + [] == second;
    var executor, rs1, rs2;
    ghost var ds1, ds2;
    executor, rs1, ds1 := Serve(dir, first, second);
    again, rs2, ds2 := Resume(dir, executor.catalog, second, []);
    SessionsJoin(ds1, first, rs1, ds2, second, rs2);
    rs, ds := rs1 + rs2, ds1 + ds2[1..];
  }

  // ---- which statements can be executed ----

  /** What can be checked of statements before any of them is executed. */
  ghost predicate Sane(d: Database, stmts: seq<Statement>) {
    && d.next + |stmts| < 0xFFFF_FFFF && |stmts| < PagedRecords.MAX_PAGES
    && (forall oid | oid in d.tables ::
          && InRange(RowLength(d.tables[oid].columns))
          && d.tables[oid].store.next + |stmts| < PagedRecords.MAX_PAGES)
    && (forall i | 0 <= i < |stmts| && stmts[i].CreateTable? ::
          LengthsFit(stmts[i].name, stmts[i].columns) && InRange(RowLength(stmts[i].columns)))
    && (forall i, oid | 0 <= i < |stmts| && stmts[i].InsertInto? && oid in d.tables ::
          d.tables[oid].name == stmts[i].name ==> |stmts[i].rawValues| <= |d.tables[oid].columns|)
    && (forall i, j | 0 <= i < |stmts| && 0 <= j < |stmts| && stmts[i].InsertInto? && stmts[j].CreateTable? ::
          stmts[j].name == stmts[i].name ==> |stmts[i].rawValues| <= |stmts[j].columns|)
  }

  lemma SaneIsLegal(d: Database, stmts: seq<Statement>)
    requires IsDatabase(d) && Sane(d, stmts) && stmts != []
    ensures Legal(d, stmts[0])
  {
    hide RecordStore.Valid, RowsFit, LengthsFit, RowLength;
    if stmts[0].InsertInto? && stmts[0].name in d.names {
      assert d.names[stmts[0].name] in d.tables;
    }
  }

  /** Tables stay what they were but for their rows and at most one page more; only CREATE TABLE adds one. */
  ghost predicate Grown(d: Database, stmt: Statement, e: Database) {
    && e.next <= d.next + 1
    && forall oid | oid in e.tables ::
         || (oid in d.tables
             && e.tables[oid].name == d.tables[oid].name && e.tables[oid].columns == d.tables[oid].columns
             && e.tables[oid].store.next <= d.tables[oid].store.next + 1)
         || (stmt.CreateTable? && e.tables[oid] == TableState(stmt.name, stmt.columns, EMPTY_STORE))
  }

  lemma EffectGrows(d: Database, stmt: Statement, e: Database, r: Option<QueryResult>)
    requires IsDatabase(d) && Effect(d, stmt, e, r)
    ensures Grown(d, stmt, e)
  {
    hide IsDatabase, Creates, Inserts, Selects, Deletes, Grown;
    match stmt
    case CreateTable(name, columns) => CreateGrows(d, name, columns, e, r.value);
    case InsertInto(name, raw) => InsertGrows(d, name, raw, e, r);
    case SelectFrom(_) => StaysGrown(d, stmt);
    case Commit => StaysGrown(d, stmt);
    case DeleteFrom(name, column, value) => DeleteGrows(d, name, column, value, e, r.value);
  }

  lemma StaysGrown(d: Database, stmt: Statement)
    ensures Grown(d, stmt, d)
  {
  }

  lemma CreateGrows(d: Database, name: Text, columns: seq<Column>, e: Database, r: QueryResult)
    requires Creates(d, name, columns, e, r)
    ensures Grown(d, CreateTable(name, columns), e)
  {
  }

  lemma InsertGrows(d: Database, name: Text, raw: seq<Text>, e: Database, r: Option<QueryResult>)
    requires IsDatabase(d) && Inserts(d, name, raw, e, r)
    ensures Grown(d, InsertInto(name, raw), e)
  {
    if name in d.names {
      TableOf(d, name);
      hide IsDatabase, RowMeant, Matches, RowsFit;
      var t := d.tables[d.names[name]];
      match RowMeant(raw, t.columns)
      case BadValue =>
      case Uncaught =>
      case Row(values) =>
        InsertIsMapInsert(t.store, RowBytes(values, t.columns));
        hide RecordStore.Insert, RecordStore.Valid, MapInsert, MapSame;
    }
  }

  lemma DeleteGrows(d: Database, name: Text, column: Text, value: Text, e: Database, r: QueryResult)
    requires IsDatabase(d) && Deletes(d, name, column, value, e, r)
    ensures Grown(d, DeleteFrom(name, column, value), e)
  {
    hide IsDatabase, RecordStore.Valid, ConditionFor, Blocked, Scan, Picked, Without;
  }

  lemma SaneStays(d: Database, stmts: seq<Statement>, e: Database)
    requires Sane(d, stmts) && stmts != [] && Grown(d, stmts[0], e)
    ensures Sane(e, stmts[1..])
  {
    hide LengthsFit, RowLength;
    var rest := stmts[1..];
    assert forall i | 0 <= i < |rest| :: rest[i] == stmts[i + 1];
  }

  /** The check is enough, whatever the statements do to the database on the way. */
  lemma {:induction false} SaneIsLegalThroughout(d: Database, stmts: seq<Statement>)
    requires IsDatabase(d) && Sane(d, stmts)
    ensures LegalFrom(d, stmts)
    decreases |stmts|
  {
    hide IsDatabase, Sane, Legal, Effect, Grown;
    if stmts != [] {
      SaneIsLegal(d, stmts);
      forall e, r | IsDatabase(e) && Effect(d, stmts[0], e, r) ensures LegalFrom(e, stmts[1..]) {
        EffectGrows(d, stmts[0], e, r);
        SaneStays(d, stmts, e);
        SaneIsLegalThroughout(e, stmts[1..]);
      }
    }
  }
}
