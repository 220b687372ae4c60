/** The catalog of tables, its file, and the data directory both live in. */
module CatalogManagement {
  import opened Bytes
  import opened Rows
  import opened RecordStore
  import opened BufferPool
  import opened BufferManagement
  import opened RecordManagement
  import opened TableManagement
  import opened CatalogLayout
  import opened CatalogFormat

  /** What a table is to its users: name, columns, and the records of its store. */
  datatype TableState = TableState(name: Text, columns: seq<Column>, store: Store)

  /** The lengths that the catalog file keeps in 32 bits. */
  ghost predicate LengthsFit(name: Text, columns: seq<Column>) {
    |name| < LIMIT && |columns| < LIMIT && forall i | 0 <= i < |columns| :: |columns[i].name| < LIMIT
  }

  /** What the whole catalog is: tables by oid, oids by name, and the next oid. */
  datatype Database = Database(tables: map<u32, TableState>, names: map<Text, u32>, next: u32)

  const EMPTY_DATABASE := Database(map[], map[], 0)

  /** Names and oids correspond, the stores are valid, and every row in them is one of its table. */
  ghost predicate IsDatabase(d: Database) {
    && (forall oid | oid in d.tables ::
          && oid < d.next && d.tables[oid].name in d.names && d.names[d.tables[oid].name] == oid
          && RecordStore.Valid(d.tables[oid].store) && d.tables[oid].store.next >= 0
          && RowsFit(d.tables[oid].store, d.tables[oid].columns))
    && (forall name | name in d.names :: d.names[name] in d.tables && d.tables[d.names[name]].name == name)
  }

  ghost predicate RowsFit(s: Store, columns: seq<Column>) {
    forall r | Lookup(s, r) != [] :: |Lookup(s, r)| == RowLength(columns)
  }

  /** Page ids fit 32 bits, and so does their number. */
  lemma PagesFit(records: RecordManager)
    requires records.Valid()
    ensures forall i | 0 <= i < |records.pageIds| :: 0 <= records.pageIds[i] < 0x8_0000
    ensures |records.pageIds| < LIMIT && 0 <= records.pool.nextPageId <= 0x8_0000
  {
    assert forall i, j | 0 <= i < j < |records.pageIds| :: records.pageIds[i] != records.pageIds[j];
    DistinctBelow(records.pageIds, 0x8_0000);
  }

  lemma {:induction false} DistinctBelow(ids: seq<int>, n: nat)
    requires forall i, j | 0 <= i < j < |ids| :: ids[i] != ids[j]
    requires forall i | 0 <= i < |ids| :: 0 <= ids[i] < n
    ensures |ids| <= n
    decreases n
  {
    if ids != [] {
      assert 0 <= ids[0] < n;
      if k :| 0 <= k < |ids| && ids[k] == n - 1 {
        DistinctBelow(ids[..k] + ids[k + 1..], n - 1);
      } else {
        DistinctBelow(ids, n - 1);
      }
    }
  }

  lemma {:induction false} OidsBelow(oids: set<u32>, n: u32)
    requires forall oid | oid in oids :: oid < n
    ensures |oids| <= n
    decreases n as int
  {
    if n == 0 {
      assert oids == {};
    } else {
      OidsBelow(oids - {n - 1}, n - 1);
    }
  }

  class TableInfo {
    const schema: Schema
    const name: Text
    const table: TableManager
    const oid: u32

    constructor (schema: Schema, name: Text, table: TableManager, oid: u32)
      ensures this.schema == schema && this.name == name && this.table == table && this.oid == oid
    {
      this.schema, this.name, this.table, this.oid := schema, name, table, oid;
    }

    /** The table works, can be compacted, and every row in it is one of its schema. */
    ghost predicate Ok()
      reads table.records, table.records.Repr
    {
      && IsSchema(schema) && LengthsFit(name, schema.columns)
      && table.records.Valid() && table.records.SafeToCompact()
      && RowsFit(table.records.Abs(), schema.columns)
    }

    ghost function State(): TableState
      requires Ok()
      reads table.records, table.records.Repr
    {
      TableState(name, schema.columns, table.records.Abs())
    }

    /** The table's pages are all in its file. */
    ghost predicate Durable()
      reads table.records, table.records.Repr
    {
      table.records.Valid() && table.records.Durable()
    }

    lemma NameIs()
      requires Ok()
      ensures State().name == name
    {
    }

    lemma NewIsOk()
      requires IsSchema(schema) && LengthsFit(name, schema.columns)
      requires table.records.Valid() && table.records.Abs() == EMPTY_STORE
      ensures Ok() && State() == TableState(name, schema.columns, EMPTY_STORE)
    {
      table.records.EmptyIsSafe();
      hide RecordManager.Valid, RecordManager.Abs, RecordManager.SafeToCompact;
    }

    lemma StoreIsValid()
      requires Ok()
      ensures RecordStore.Valid(State().store) && State().store.next >= 0 && RowsFit(State().store, State().columns)
    {
      table.records.AbsFacts();
    }

    lemma RecordAndState()
      requires Ok()
      ensures FitsFile() && Record().oid == oid
      ensures var r, t := Record(), State();
        && r.name == t.name && r.columns == t.columns && r.pageIds == t.store.ids && r.nextPageId == t.store.next
    {
      RecordIsStorable();
    }

    lemma DurableIs()
      requires Ok()
      ensures table.records.Valid() && (Durable() <==> table.records.Durable())
    {
    }

    lemma NowDurable()
      requires table.records.Valid() && table.records.Durable()
      ensures Durable()
    {
    }

    ghost function Disk(): DiskManager { table.records.pool.disk }

    /** The table is as told, and all of it in its file. */
    ghost predicate Intact(state: TableState, record: TableRecord)
      reads table.records, table.records.Repr, table.records.pool`nextPageId
    {
      Ok() && State() == state && Durable() && FitsFile() && Record() == record
    }

    /** Everything about the table fits its place in the catalog file. */
    ghost predicate FitsFile()
      reads table.records`pageIds, table.records.pool`nextPageId
    {
      && LengthsFit(name, schema.columns) && |table.records.pageIds| < LIMIT
      && (forall i | 0 <= i < |table.records.pageIds| :: 0 <= table.records.pageIds[i] <= 0x8_0000)
      && 0 <= table.records.pool.nextPageId <= 0x8_0000
    }

    /** What the catalog file says of the table. */
    function Record(): TableRecord
      requires FitsFile()
      reads table.records`pageIds, table.records.pool`nextPageId
    {
      TableRecord(oid, name, schema.columns, table.records.pageIds, table.records.pool.nextPageId)
    }

    /** The table as its entry in the catalog file describes it, before the first use of its pages. */
    ghost predicate RestoredFrom(r: TableRecord)
      reads table.records, table.records.Repr
    {
      && oid == r.oid && name == r.name && schema.columns == r.columns && IsSchema(schema)
      && table.records.Started()
      && table.records.pageIds == r.pageIds && table.records.pool.nextPageId == r.nextPageId
    }

    lemma NowRestored(r: TableRecord)
      requires oid == r.oid && name == r.name && schema.columns == r.columns && IsSchema(schema)
      requires table.records.Started()
      requires table.records.pageIds == r.pageIds && table.records.pool.nextPageId == r.nextPageId
      ensures RestoredFrom(r) && Disk() == table.records.pool.disk
    {
    }

    lemma NameRestored(r: TableRecord)
      requires RestoredFrom(r)
      ensures oid == r.oid && name == r.name
    {
    }

    lemma RecordIsStorable()
      requires Ok()
      ensures FitsFile() && Storable(Record()) && Record().oid == oid && Record().name == name
    {
      PagesFit(table.records);
    }
  }

  ghost predicate Distinct(files: map<u32, DiskManager>) {
    forall a, b | a in files && b in files && a != b :: files[a] != files[b]
  }

  ghost predicate FilesGrew(files: map<u32, DiskManager>, files': map<u32, DiskManager>) {
    forall oid | oid in files :: oid in files' && files'[oid] == files[oid]
  }

  /** The page files themselves. */
  ghost function FilesOf(files: map<u32, DiskManager>): set<object> {
    set oid | oid in files :: files[oid]
  }

  lemma NowGrown(files: map<u32, DiskManager>, files': map<u32, DiskManager>)
    requires files' == files || exists oid | oid in files' && oid !in files :: files' == files[oid := files'[oid]]
    ensures FilesGrew(files, files')
  {
  }

  lemma NoneNew(files: map<u32, DiskManager>, files': map<u32, DiskManager>, oids: set<u32>)
    requires FilesGrew(files, files') && files'.Keys == files.Keys + oids && oids <= files.Keys
    ensures files' == files
  {
    assert files'.Keys == files.Keys;
  }

  lemma FilesGrewMore(files: map<u32, DiskManager>, files': map<u32, DiskManager>, more: map<u32, DiskManager>)
    requires FilesGrew(files, files') && FilesGrew(files', more)
    ensures FilesGrew(files, more)
  {
  }

  /** The directory: the catalog file, and one page file per table. */
  class DataDirectory {
    var catalogFile: Option<seq<byte>>
    var tableFiles: map<u32, DiskManager>

    constructor ()
      ensures catalogFile == None && tableFiles == map[]
    {
      catalogFile, tableFiles := None, map[];
    }

    /** Opens the page file of a table, empty if there was none. */
    method Open(oid: u32) returns (disk: DiskManager)
      modifies this`tableFiles
      ensures oid in old(tableFiles) ==> disk == old(tableFiles)[oid] && tableFiles == old(tableFiles)
      ensures Distinct(old(tableFiles)) ==> Distinct(tableFiles)
      ensures oid !in old(tableFiles) ==>
        fresh(disk) && disk.pages == map[] && tableFiles == old(tableFiles)[oid := disk]
      ensures fresh({disk} - FilesOf(old(tableFiles))) && fresh(FilesOf(tableFiles) - FilesOf(old(tableFiles)))
    {
      if oid in tableFiles {
        disk := tableFiles[oid];
      } else {
        disk := new DiskManager();
        tableFiles := tableFiles[oid := disk];
      }
    }
  }

  /** Every table has its own file, and no two tables share anything. */
  ghost predicate Wired(owner: Catalog, dir: DataDirectory, tables: map<u32, TableInfo>, files: map<u32, DiskManager>) {
    && Distinct(files)
    && (forall oid | oid in tables ::
          && tables[oid].table.records.Built() && oid in files && files[oid] == tables[oid].Disk()
          && owner !in tables[oid].table.records.Repr && dir !in tables[oid].table.records.Repr)
    && (forall a, b | a in tables && b in tables && a != b ::
          tables[a].table.records.Repr !! tables[b].table.records.Repr)
  }

  /** One table more, or another in place of one. */
  lemma WiredMore(owner: Catalog, dir: DataDirectory, tables: map<u32, TableInfo>,
                  files: map<u32, DiskManager>, files': map<u32, DiskManager>, t: TableInfo)
    requires Wired(owner, dir, tables, files) && Distinct(files') && FilesGrew(files, files')
    requires t.table.records.Built() && t.oid in files' && files'[t.oid] == t.Disk()
    requires owner !in t.table.records.Repr && dir !in t.table.records.Repr
    requires forall a | a in tables :: tables[a].table.records.Repr !! t.table.records.Repr - {t.Disk()}
    ensures Wired(owner, dir, tables[t.oid := t], files')
  {
    hide RecordManager.Built;
    forall a | a in tables && a != t.oid
      ensures tables[a].table.records.Repr !! t.table.records.Repr
    {
      OnlyDisk(tables[a].table.records, t.Disk());
    }
  }

  lemma OnlyDisk(records: RecordManager, disk: DiskManager)
    requires records.Built()
    ensures disk in records.Repr <==> disk == records.pool.disk
  {
  }

  /** Names and oids correspond, and every oid in use is below the next one. */
  ghost predicate RegisteredIn(owner: Catalog, dir: DataDirectory, tables: map<u32, TableInfo>,
                               names: map<Text, u32>, next: u32, files: map<u32, DiskManager>)
  {
    && Wired(owner, dir, tables, files)
    && (forall oid | oid in tables ::
          tables[oid].oid == oid < next && tables[oid].name in names && names[tables[oid].name] == oid)
    && (forall name | name in names :: names[name] in tables && tables[names[name]].name == name)
    && (forall oid | oid in files :: oid < next)
  }

  lemma RegisteredMore(owner: Catalog, dir: DataDirectory, tables: map<u32, TableInfo>, names: map<Text, u32>,
                       next: u32, files: map<u32, DiskManager>, files': map<u32, DiskManager>, t: TableInfo)
    requires RegisteredIn(owner, dir, tables, names, next, files) && next < 0xFFFF_FFFF
    requires t.oid == next && t.name !in names
    requires Wired(owner, dir, tables[next := t], files') && files'.Keys == files.Keys + {next}
    ensures RegisteredIn(owner, dir, tables[next := t], names[t.name := next], next + 1, files')
  {
    hide Wired;
    assert next !in tables;
  }

  lemma SharesNothing(owner: Catalog, dir: DataDirectory, tables: map<u32, TableInfo>,
                      names: map<Text, u32>, next: u32, files: map<u32, DiskManager>)
    requires RegisteredIn(owner, dir, tables, names, next, files)
    ensures Wired(owner, dir, tables, files) && Distinct(files)
    ensures forall oid | oid in tables :: tables[oid].oid == oid
    ensures forall oid | oid in tables ::
      owner !in tables[oid].table.records.Repr && dir !in tables[oid].table.records.Repr
  {
    hide RecordManager.Built;
  }

  lemma NextIsNew(owner: Catalog, dir: DataDirectory, tables: map<u32, TableInfo>,
                  names: map<Text, u32>, next: u32, files: map<u32, DiskManager>)
    requires RegisteredIn(owner, dir, tables, names, next, files)
    ensures next !in tables && next !in files
  {
    hide Wired;
  }

  /** Every table once, in some order. */
  ghost predicate AllOf(all: seq<TableInfo>, tables: map<u32, TableInfo>) {
    && |all| == |tables|
    && (forall i | 0 <= i < |all| :: all[i].oid in tables && tables[all[i].oid] == all[i])
    && (forall oid | oid in tables :: tables[oid] in all)
  }

  lemma AllOfFacts(all: seq<TableInfo>, tables: map<u32, TableInfo>)
    requires AllOf(all, tables)
    ensures |all| == |tables|
    ensures forall i | 0 <= i < |all| :: all[i].oid in tables && tables[all[i].oid] == all[i]
    ensures forall oid | oid in tables :: exists i :: 0 <= i < |all| && all[i] == tables[oid]
  {
  }

  /** The catalog file says of each table what its users see of it, less the rows. */
  ghost predicate Describes(m: map<u32, TableRecord>, state: map<u32, TableState>) {
    && m.Keys == state.Keys
    && forall oid | oid in m ::
         && m[oid].oid == oid && m[oid].name == state[oid].name && m[oid].columns == state[oid].columns
         && m[oid].pageIds == state[oid].store.ids && m[oid].nextPageId == state[oid].store.next
  }

  lemma DescribedOnce(m: map<u32, TableRecord>, n: map<u32, TableRecord>, state: map<u32, TableState>)
    requires Describes(m, state) && Describes(n, state)
    ensures m == n
  {
    forall oid | oid in m ensures m[oid] == n[oid] { }
  }

  /** Everything that the tables are made of. */
  ghost function ObjectsOf(tables: map<u32, TableInfo>): set<object> {
    set oid, o | oid in tables && o in tables[oid].table.records.Repr :: o
  }

  lemma ObjectsOfMore(tables: map<u32, TableInfo>, oid: u32, t: TableInfo)
    ensures ObjectsOf(tables[oid := t]) <= ObjectsOf(tables) + t.table.records.Repr
  {
  }

  class Catalog {
    const dir: DataDirectory
    var tables: map<u32, TableInfo>
    var tableNames: map<Text, u32>
    var nextTableOid: u32

    constructor (dir: DataDirectory)
      ensures this.dir == dir && tables == map[] && tableNames == map[] && nextTableOid == 0
    {
      this.dir := dir;
      tables, tableNames, nextTableOid := map[], map[], 0;
    }

    ghost function Footprint(): set<object>
      reads this`tables
    {
      ObjectsOf(tables)
    }

    lemma FootprintIs()
      ensures Footprint() == ObjectsOf(tables)
    {
    }

    ghost predicate Registered()
      reads this, dir`tableFiles
    {
      RegisteredIn(this, dir, tables, tableNames, nextTableOid, dir.tableFiles)
    }

    ghost predicate Valid()
      reads this, dir`tableFiles, Footprint()
    {
      Registered() && forall oid | oid in tables :: tables[oid].Ok()
    }

    ghost function State(): map<u32, TableState>
      requires Valid()
      reads this, dir`tableFiles, Footprint()
    {
      map oid | oid in tables :: tables[oid].State()
    }

    ghost function Db(): Database
      requires Valid()
      reads this, dir`tableFiles, Footprint()
    {
      Database(State(), tableNames, nextTableOid)
    }

    lemma DbIs()
      requires Valid()
      ensures Db() == Database(State(), tableNames, nextTableOid)
    {
    }

    ghost function Records(): map<u32, TableRecord>
      requires Valid()
      reads this, dir`tableFiles, Footprint()
    {
      hide TableInfo.Ok, TableInfo.FitsFile;
      assert forall oid | oid in tables :: tables[oid].FitsFile() by {
        forall oid | oid in tables ensures tables[oid].FitsFile() { tables[oid].RecordIsStorable(); }
      }
      map oid | oid in tables :: tables[oid].Record()
    }

    // `Valid`, `State` and `Records`, table by table.

    lemma Parts()
      requires Valid()
      ensures RegisteredIn(this, dir, tables, tableNames, nextTableOid, dir.tableFiles)
      ensures forall oid | oid in tables :: tables[oid].Ok() && tables[oid].oid == oid
      ensures forall oid | oid in tables ::
        this !in tables[oid].table.records.Repr && dir !in tables[oid].table.records.Repr
      ensures State().Keys == tables.Keys && forall oid | oid in tables :: State()[oid] == tables[oid].State()
    {
      hide RegisteredIn, TableInfo.Ok, TableInfo.State, Footprint;
      SharesNothing(this, dir, tables, tableNames, nextTableOid, dir.tableFiles);
    }

    lemma NowValid(state: map<u32, TableState>)
      requires RegisteredIn(this, dir, tables, tableNames, nextTableOid, dir.tableFiles)
      requires forall oid | oid in tables :: tables[oid].Ok()
      requires state.Keys == tables.Keys && forall oid | oid in tables :: tables[oid].State() == state[oid]
      ensures Valid() && State() == state
    {
      hide RegisteredIn, TableInfo.Ok, TableInfo.State;
    }

    lemma NowRecords(m: map<u32, TableRecord>)
      requires Valid() && m.Keys == tables.Keys
      requires forall oid | oid in tables :: tables[oid].FitsFile() && m[oid] == tables[oid].Record()
      ensures Records() == m
    {
      hide Valid, TableInfo.Ok, TableInfo.FitsFile, TableInfo.Record;
    }

    lemma TableFacts(oid: u32)
      requires Valid() && oid in tables
      ensures tables[oid].Ok() && tables[oid].oid == oid < nextTableOid
      ensures tables[oid].name in tableNames && tableNames[tables[oid].name] == oid
      ensures oid in dir.tableFiles && dir.tableFiles[oid] == tables[oid].Disk()
      ensures tables[oid].table.records.Built()
      ensures this !in tables[oid].table.records.Repr && dir !in tables[oid].table.records.Repr
    {
    }

    lemma StandsApart()
      requires Valid()
      ensures this !in Footprint() && dir !in Footprint()
    {
      hide Valid;
      Parts();
    }

    /** What one table is made of belongs to the catalog, and to no other table. */
    lemma TableIsApart(oid: u32)
      requires Valid() && oid in tables
      ensures tables[oid].table.records.Built() && tables[oid].table.records.Repr <= Footprint()
      ensures tables[oid].table.records.pool.Repr <= tables[oid].table.records.Repr
      ensures this !in tables[oid].table.records.Repr && dir !in tables[oid].table.records.Repr
      ensures forall o | o in tables && o != oid ::
        tables[o].table.records in tables[o].table.records.Repr
        && tables[o].table.records.Repr !! tables[oid].table.records.Repr
    {
    }

    lemma NameFacts(name: Text)
      requires Valid() && name in tableNames
      ensures tableNames[name] in tables && tables[tableNames[name]].name == name
    {
    }

    lemma RecordFacts()
      requires Valid()
      ensures NamesMatch(Records(), tableNames) && Records().Keys == tables.Keys
      ensures forall oid | oid in tables ::
        tables[oid].FitsFile() && Records()[oid] == tables[oid].Record() && Storable(tables[oid].Record())
      ensures |tables| == |tables.Keys| < 0x1_0000_0000
    {
      hide Valid, Registered, Footprint, TableInfo.Ok, TableInfo.FitsFile, TableInfo.Record, Storable;
      forall oid | oid in tables
        ensures tables[oid].Ok() && tables[oid].oid == oid < nextTableOid
        ensures tables[oid].name in tableNames && tableNames[tables[oid].name] == oid
        ensures tables[oid].FitsFile() && Storable(tables[oid].Record())
        ensures tables[oid].Record().oid == oid && tables[oid].Record().name == tables[oid].name
      {
        TableFacts(oid);
        tables[oid].RecordIsStorable();
      }
      forall name | name in tableNames
        ensures tableNames[name] in tables && tables[tableNames[name]].name == name
      {
        NameFacts(name);
      }
      OidsBelow(tables.Keys, nextTableOid);
    }

    /** Nothing is only in memory: the catalog file describes the catalog, and the page files have every page. */
    ghost predicate Committed()
      reads this, dir, Footprint()
    {
      Valid() && Saved() && forall oid | oid in tables :: tables[oid].Durable()
    }

    method GetAllTables() returns (all: seq<TableInfo>)
      requires forall oid | oid in tables :: tables[oid].oid == oid
      ensures AllOf(all, tables)
    {
      all := [];
      var todo := tables.Keys;
      while todo != {}
        invariant todo <= tables.Keys && |all| + |todo| == |tables.Keys|
        invariant forall i | 0 <= i < |all| :: all[i].oid in tables && tables[all[i].oid] == all[i]
        invariant forall oid | oid in tables && oid !in todo :: tables[oid] in all
        decreases todo
      {
        var oid := AnyOf(todo);
        all := all + [tables[oid]];
        todo := todo - {oid};
      }
      assert |tables.Keys| == |tables|;
    }

    lemma NowCommitted()
      requires Valid() && Saved()
      requires forall oid | oid in tables :: tables[oid].Durable()
      ensures Committed()
    {
    }

    lemma StoresAreValid()
      requires Valid()
      ensures forall oid | oid in State() ::
        && RecordStore.Valid(State()[oid].store) && State()[oid].store.next >= 0
        && RowsFit(State()[oid].store, State()[oid].columns)
    {
      hide Valid, TableInfo.Ok, TableInfo.State, RecordStore.Valid, RowsFit;
      Parts();
      forall oid | oid in tables
        ensures RecordStore.Valid(tables[oid].State().store) && tables[oid].State().store.next >= 0
        ensures RowsFit(tables[oid].State().store, tables[oid].State().columns)
      {
        tables[oid].StoreIsValid();
      }
    }

    lemma DbIsDatabase()
      requires Valid()
      ensures IsDatabase(Db())
    {
      hide Valid, TableInfo.Ok, TableInfo.State, RecordStore.Valid, RowsFit;
      StoresAreValid();
      forall oid | oid in tables
        ensures State()[oid].name == tables[oid].name
        ensures oid < nextTableOid && tables[oid].name in tableNames && tableNames[tables[oid].name] == oid
      {
        Parts();
        TableFacts(oid);
        tables[oid].NameIs();
      }
      forall name | name in tableNames
        ensures tableNames[name] in tables && tables[tableNames[name]].name == name
      {
        NameFacts(name);
      }
    }

    lemma RecordsDescribe()
      requires Valid()
      ensures Describes(Records(), State())
    {
      hide Valid, TableInfo.Ok, TableInfo.FitsFile, TableInfo.Record, TableInfo.State;
      RecordFacts();
      forall oid | oid in tables
        ensures tables[oid].Ok() && tables[oid].FitsFile() && tables[oid].Record().oid == oid
        ensures var r, t := tables[oid].Record(), tables[oid].State();
          && r.name == t.name && r.columns == t.columns && r.pageIds == t.store.ids && r.nextPageId == t.store.next
      {
        TableFacts(oid);
        tables[oid].RecordAndState();
      }
    }

    lemma StillSaved(ts: seq<TableRecord>)
      requires Valid() && dir.catalogFile.Some?
      requires FileIs(dir.catalogFile.value, nextTableOid, ts)
      requires Lists(ts, Records(), tableNames, tables.Keys)
      ensures Saved()
    {
    }

    /** The catalog file says of this catalog, field by field: its tables, in some order, and nothing more. */
    ghost predicate Saved()
      requires Valid()
      reads this, dir, Footprint()
    {
      && dir.catalogFile.Some?
      && exists ts :: FileIs(dir.catalogFile.value, nextTableOid, ts) && Lists(ts, Records(), tableNames, tables.Keys)
    }

    /** The whole file, the tables walked in no particular order. */
    method WriteFile(ghost m: map<u32, TableRecord>) returns (ghost ts: seq<TableRecord>)
      requires m.Keys == tables.Keys && NamesMatch(m, tableNames) && |tables| == |tables.Keys| < 0x1_0000_0000
      requires forall oid | oid in tables ::
        tables[oid].FitsFile() && m[oid] == tables[oid].Record() && Storable(m[oid])
      modifies dir`catalogFile
      ensures Lists(ts, m, tableNames, tables.Keys)
      ensures dir.catalogFile.Some? && FileIs(dir.catalogFile.value, nextTableOid, ts)
    {
      hide *;
      ListsNone(m, tableNames);
      assert tables.Keys - tables.Keys == {};
      var out := EncodeU32(nextTableOid) + EncodeU32(|tables|);
      ts := [];
      var todo := tables.Keys;
      while todo != {}
        invariant forall oid | oid in tables ::
          tables[oid].FitsFile() && m[oid] == tables[oid].Record() && Storable(m[oid])
        invariant todo <= tables.Keys && Lists(ts, m, tableNames, tables.Keys - todo)
        invariant forall i | 0 <= i < |ts| :: Storable(ts[i])
        invariant out == EncodeU32(nextTableOid) + EncodeU32(|tables|) + EncodeTables(ts)
        decreases todo
      {
        var oid := AnyOf(todo);
        var t := tables[oid];
        ListsOneMore(ts, m, tableNames, tables.Keys - todo, oid);
        EncodeOneMore(ts, m[oid]);
        out := WriteTable(out, t.Record());
        ts := ts + [m[oid]];
        assert tables.Keys - (todo - {oid}) == tables.Keys - todo + {oid};
        todo := todo - {oid};
      }
      assert tables.Keys - {} == tables.Keys;
      AllListed(nextTableOid, ts, m, tableNames, tables.Keys);
      FileIsEncoded(out, nextTableOid, ts);
      dir.catalogFile := Some(out);
    }

    method SaveCatalog()
      requires Valid()
      modifies dir`catalogFile
      ensures Valid() && State() == old(State()) && Saved()
    {
      hide *;
      ghost var m, state := Records(), State();
      RecordFacts();
      Parts();
      ghost var ts := WriteFile(m);
      NowSaved(state, m, ts);
    }

    lemma NowSaved(state: map<u32, TableState>, m: map<u32, TableRecord>, ts: seq<TableRecord>)
      requires RegisteredIn(this, dir, tables, tableNames, nextTableOid, dir.tableFiles)
      requires state.Keys == m.Keys == tables.Keys
      requires forall oid | oid in tables :: tables[oid].Ok() && tables[oid].State() == state[oid]
      requires forall oid | oid in tables :: tables[oid].FitsFile() && m[oid] == tables[oid].Record()
      requires dir.catalogFile.Some?
      requires FileIs(dir.catalogFile.value, nextTableOid, ts)
      requires Lists(ts, m, tableNames, tables.Keys)
      ensures Valid() && State() == state && Saved()
    {
      NowValid(state);
      hide Valid;
      NowRecords(m);
    }

    /** A table without rows, in a new file. */
    method NewTable(oid: u32, name: Text, schema: Schema) returns (t: TableInfo)
      requires oid !in dir.tableFiles && IsSchema(schema) && LengthsFit(name, schema.columns)
      modifies dir`tableFiles
      ensures t.Ok() && t.State() == TableState(name, schema.columns, EMPTY_STORE)
      ensures t.oid == oid && t.name == name && t.schema == schema
      ensures fresh(t) && fresh(t.table.records.Repr) && t.table.records.Built()
      ensures dir.tableFiles == old(dir.tableFiles)[oid := t.Disk()]
      ensures Distinct(old(dir.tableFiles)) ==> Distinct(dir.tableFiles)
    {
      hide RecordManager.Valid, RecordManager.Started, RecordManager.Built, RecordManager.Abs, LengthsFit, IsSchema;
      hide TableInfo.Ok, TableInfo.State;
      var disk := dir.Open(oid);
      var table := new TableManager(disk);
      t := new TableInfo(schema, name, table, oid);
      t.NewIsOk();
    }

    /** A table that the catalog could register next. */
    method PrepareTable(name: Text, schema: Schema) returns (t: TableInfo)
      requires Valid() && IsSchema(schema) && LengthsFit(name, schema.columns) && nextTableOid < 0xFFFF_FFFF
      requires name !in tableNames
      modifies dir`tableFiles
      ensures RegisteredIn(this, dir, tables[nextTableOid := t], tableNames[name := nextTableOid], nextTableOid + 1,
                           dir.tableFiles)
      ensures fresh(t) && fresh(t.table.records.Repr)
      ensures t.Ok() && t.State() == TableState(name, schema.columns, EMPTY_STORE)
      ensures old(State()).Keys == tables.Keys && nextTableOid !in tables
      ensures forall oid | oid in tables :: tables[oid].Ok() && tables[oid].State() == old(State())[oid]
      ensures this !in t.table.records.Repr && dir !in t.table.records.Repr
      ensures forall oid | oid in tables ::
        this !in tables[oid].table.records.Repr && dir !in tables[oid].table.records.Repr
    {
      hide *;
      Parts();
      NextIsNew(this, dir, tables, tableNames, nextTableOid, dir.tableFiles);
      ghost var files := dir.tableFiles;
      SharesNothing(this, dir, tables, tableNames, nextTableOid, dir.tableFiles);
      t := NewTable(nextTableOid, name, schema);
      NowGrown(files, dir.tableFiles);
      WiredMore(this, dir, tables, files, dir.tableFiles, t);
      RegisteredMore(this, dir, tables, tableNames, nextTableOid, files, dir.tableFiles, t);
    }

    /** The table is known from now on. */
    method AddTable(name: Text, schema: Schema) returns (t: TableInfo)
      requires Valid() && IsSchema(schema) && LengthsFit(name, schema.columns) && nextTableOid < 0xFFFF_FFFF
      requires name !in tableNames
      modifies this, dir`tableFiles
      ensures Valid() && tables == old(tables)[old(nextTableOid) := t]
      ensures fresh(t) && fresh(t.table.records.Repr)
      ensures State() == old(State())[old(nextTableOid) := TableState(name, schema.columns, EMPTY_STORE)]
      ensures tableNames == old(tableNames)[name := old(nextTableOid)] && nextTableOid == old(nextTableOid) + 1
    {
      hide *;
      ghost var state := State();
      t := PrepareTable(name, schema);
      var oid := nextTableOid;
      nextTableOid := nextTableOid + 1;
      tables := tables[oid := t];
      tableNames := tableNames[name := oid];
      NowValid(state[oid := TableState(name, schema.columns, EMPTY_STORE)]);
    }

    /** `None` where the source throws: the name is taken, and nothing changes. */
    method CreateTable(name: Text, schema: Schema) returns (t: Option<TableInfo>)
      requires Valid() && IsSchema(schema) && LengthsFit(name, schema.columns) && nextTableOid < 0xFFFF_FFFF
      modifies this, dir
      ensures Valid() && fresh(Footprint() - old(Footprint()))
      ensures name in old(tableNames) ==>
        && t == None && State() == old(State()) && tableNames == old(tableNames) && tables == old(tables)
        && nextTableOid == old(nextTableOid) && dir.catalogFile == old(dir.catalogFile)
      ensures name !in old(tableNames) ==>
        && t.Some? && fresh(t.value) && fresh(t.value.table.records.Repr)
        && tables == old(tables)[old(nextTableOid) := t.value]
        && State() == old(State())[old(nextTableOid) := TableState(name, schema.columns, EMPTY_STORE)]
        && tableNames == old(tableNames)[name := old(nextTableOid)] && nextTableOid == old(nextTableOid) + 1
        && Saved()
    {
      hide *;
      if name in tableNames {
        return None;
      }
      ghost var before, oid := tables, nextTableOid;
      FootprintIs();
      var info := AddTable(name, schema);
      SaveCatalog();
      ObjectsOfMore(before, oid, info);
      FootprintIs();
      t := Some(info);
    }

    /** A table from its entry in the catalog file, over its file in the directory. */
    method RestoreTable(r: TableRecord) returns (t: TableInfo)
      modifies dir`tableFiles
      ensures t.RestoredFrom(r) && fresh(t) && fresh(t.table.records.Repr - {t.Disk()}) && t.table.records.Built()
      ensures this !in t.table.records.Repr && dir !in t.table.records.Repr && t.oid == r.oid
      ensures r.oid in dir.tableFiles && dir.tableFiles[r.oid] == t.Disk()
      ensures fresh(t.table.records.Repr - FilesOf(old(dir.tableFiles)))
      ensures fresh(FilesOf(dir.tableFiles) - FilesOf(old(dir.tableFiles)))
      ensures FilesGrew(old(dir.tableFiles), dir.tableFiles)
      ensures dir.tableFiles.Keys == old(dir.tableFiles).Keys + {r.oid}
      ensures Distinct(old(dir.tableFiles)) ==> Distinct(dir.tableFiles)
    {
      hide TableInfo.RestoredFrom, RecordManager.Built, RecordManager.Started, Distinct, FilesGrew, IsSchema, FilesOf;
      ghost var files, owned := dir.tableFiles, FilesOf(dir.tableFiles);
      var schema := MakeSchema(r.columns);
      var disk := dir.Open(r.oid);
      ghost var owned' := FilesOf(dir.tableFiles);
      var table := RestorePages(r, disk);
      t := new TableInfo(schema, r.name, table, r.oid);
      t.NowRestored(r);
      NowGrown(files, dir.tableFiles);
      ghost var repr := t.table.records.Repr;
      assert forall o: object? | o in repr && o !in owned :: !old(allocated(o));
      assert forall o: object? | o in owned' && o !in owned :: !old(allocated(o));
    }

    /** The record manager of a table, given its page list and next page id. */
    method RestorePages(r: TableRecord, disk: DiskManager) returns (table: TableManager)
      ensures fresh(table) && fresh(table.records.Repr - {disk}) && table.records.Built()
      ensures table.records.Started() && table.records.pool.disk == disk
      ensures table.records.pageIds == r.pageIds && table.records.pool.nextPageId == r.nextPageId
    {
      hide RecordManager.Built, RecordManager.Started;
      table := new TableManager(disk);
      table.records.SetPageIds(r.pageIds);
      table.records.SetNextPageId(r.nextPageId);
    }

    /** What loading did: the catalog is as the list says, over the files of the directory. */
    ghost predicate LoadedFrom(next: u32, ts: seq<TableRecord>)
      reads this, dir`tableFiles, Footprint()
    {
      && nextTableOid == next && tableNames == ByName(ts) && tables.Keys == ByOid(ts).Keys
      && Wired(this, dir, tables, dir.tableFiles)
      && forall oid | oid in tables :: tables[oid].RestoredFrom(ByOid(ts)[oid])
    }

    lemma LoadedParts(next: u32, ts: seq<TableRecord>)
      requires LoadedFrom(next, ts)
      ensures nextTableOid == next && tableNames == ByName(ts) && tables.Keys == ByOid(ts).Keys
      ensures Wired(this, dir, tables, dir.tableFiles) && Distinct(dir.tableFiles)
      ensures forall oid | oid in tables ::
        this !in tables[oid].table.records.Repr && dir !in tables[oid].table.records.Repr
      ensures forall oid | oid in tables :: tables[oid].RestoredFrom(ByOid(ts)[oid])
    {
      hide TableInfo.RestoredFrom, RecordManager.Built;
    }

    lemma NowLoaded(next: u32, ts: seq<TableRecord>, r: TableRecord)
      requires nextTableOid == next && Wired(this, dir, tables, dir.tableFiles)
      requires tableNames == ByName(ts)[r.name := r.oid] && tables.Keys == ByOid(ts).Keys + {r.oid}
      requires forall oid | oid in tables && oid != r.oid :: tables[oid].RestoredFrom(ByOid(ts)[oid])
      requires tables[r.oid].RestoredFrom(r)
      ensures LoadedFrom(next, ts + [r])
    {
      hide TableInfo.RestoredFrom, Wired, Footprint;
      OneListedMore(ts, r);
    }

    /** The table of the next entry, over its file; the catalog does not know it yet. */
    method RestoreNext(b: seq<byte>, ghost next: u32, ghost ts: seq<TableRecord>)
      returns (info: TableInfo, rest: seq<byte>)
      requires LoadedFrom(next, ts)
      modifies dir`tableFiles
      ensures rest == ReadTable(b).1 && info.oid == ReadTable(b).0.oid && info.RestoredFrom(ReadTable(b).0)
      ensures Wired(this, dir, tables[info.oid := info], dir.tableFiles)
      ensures forall oid | oid in tables :: oid in ByOid(ts) && tables[oid].RestoredFrom(ByOid(ts)[oid])
      ensures tables.Keys == ByOid(ts).Keys && tableNames == ByName(ts) && nextTableOid == next
      ensures this !in info.table.records.Repr && dir !in info.table.records.Repr
      ensures forall oid | oid in tables ::
        this !in tables[oid].table.records.Repr && dir !in tables[oid].table.records.Repr
      ensures fresh(info) && fresh(info.table.records.Repr - FilesOf(old(dir.tableFiles)))
      ensures fresh(FilesOf(dir.tableFiles) - FilesOf(old(dir.tableFiles)))
      ensures FilesGrew(old(dir.tableFiles), dir.tableFiles)
      ensures dir.tableFiles.Keys == old(dir.tableFiles).Keys + {info.oid}
    {
      hide TableInfo.RestoredFrom, Wired, LoadedFrom, Distinct, FilesGrew, ReadTable, ByOid, ByName;
      hide RecordManager.Built;
      LoadedParts(next, ts);
      ghost var files := dir.tableFiles;
      var r;
      r, rest := LoadTable(b);
      info := RestoreTable(r);
      WiredMore(this, dir, tables, files, dir.tableFiles, info);
    }

    /** One iteration of loading: an entry whose oid or name occurred before takes its place. */
    method LoadOne(b: seq<byte>, ghost next: u32, ghost ts: seq<TableRecord>) returns (rest: seq<byte>)
      requires LoadedFrom(next, ts)
      modifies this, dir`tableFiles
      ensures rest == ReadTable(b).1 && LoadedFrom(next, ts + [ReadTable(b).0])
      ensures fresh(Footprint() - old(Footprint()) - FilesOf(old(dir.tableFiles)))
      ensures fresh(FilesOf(dir.tableFiles) - FilesOf(old(dir.tableFiles)))
      ensures FilesGrew(old(dir.tableFiles), dir.tableFiles)
      ensures dir.tableFiles.Keys == old(dir.tableFiles).Keys + {ReadTable(b).0.oid}
    {
      hide TableInfo.RestoredFrom, Wired, LoadedFrom, Distinct, FilesGrew, ReadTable, ByOid, ByName;
      var info;
      info, rest := RestoreNext(b, next, ts);
      info.NameRestored(ReadTable(b).0);
      ghost var before := tables;
      Enter(info);
      ObjectsOfMore(before, info.oid, info);
      NowLoaded(next, ts, ReadTable(b).0);
    }

    method Enter(info: TableInfo)
      modifies this
      ensures tables == old(tables)[info.oid := info] && tableNames == old(tableNames)[info.name := info.oid]
      ensures nextTableOid == old(nextTableOid)
    {
      tables := tables[info.oid := info];
      tableNames := tableNames[info.name := info.oid];
    }

    /** Done once, when the server starts, from any file; without one there is nothing to load. */
    method LoadCatalog()
      requires tables == map[] && tableNames == map[] && Distinct(dir.tableFiles)
      modifies this, dir`tableFiles
      ensures FilesGrew(old(dir.tableFiles), dir.tableFiles)
      ensures dir.catalogFile == None ==>
        && tables == map[] && tableNames == map[] && nextTableOid == old(nextTableOid)
        && dir.tableFiles == old(dir.tableFiles)
      ensures fresh(Footprint() - FilesOf(old(dir.tableFiles)))
      ensures dir.catalogFile != None ==>
        var (next, ts, _) := ReadCatalog(dir.catalogFile.value);
        && LoadedFrom(next, ts) && dir.tableFiles.Keys == old(dir.tableFiles).Keys + ByOid(ts).Keys
      ensures dir.catalogFile != None ==>
        forall next, ts | FileIs(dir.catalogFile.value, next, ts) :: LoadedFrom(next, ts)
    {
      hide ReadCatalog, FileIs, ByOid, ByName, LoadedFrom, Distinct, FilesGrew, FilesOf, Footprint;
      NothingYet();
      NowGrown(dir.tableFiles, dir.tableFiles);
      if dir.catalogFile == None {
        return;
      }
      LoadFile(dir.catalogFile.value);
      forall next, ts | FileIs(dir.catalogFile.value, next, ts)
        ensures LoadedFrom(next, ts)
      {
        FileReads(dir.catalogFile.value, next, ts);
      }
    }

    /** The next oid, the number of tables, the tables. */
    method LoadFile(b: seq<byte>)
      requires tables == map[] && tableNames == map[] && Distinct(dir.tableFiles)
      modifies this, dir`tableFiles
      ensures FilesGrew(old(dir.tableFiles), dir.tableFiles)
      ensures fresh(Footprint() - FilesOf(old(dir.tableFiles)))
      ensures var (next, ts, _) := ReadCatalog(b);
        && LoadedFrom(next, ts) && dir.tableFiles.Keys == old(dir.tableFiles).Keys + ByOid(ts).Keys
    {
      var (next, b1) := ReadU32(b);
      var (numTables, b2) := ReadU32(b1);
      assert ReadCatalog(b).0 == next && ReadCatalog(b).1 == ReadTables(b2, numTables).0;
      hide ReadCatalog, ReadU32, ReadTables, ByOid, ByName, LoadedFrom, Distinct, FilesGrew, Footprint, FilesOf;
      ghost var owned := FilesOf(dir.tableFiles);
      nextTableOid := next;
      NothingLoaded(next);
      LoadTables(next, b2, numTables);
      ghost var footprint := Footprint();
      assert forall o: object? | o in footprint && o !in owned :: !old(allocated(o));
    }

    lemma NothingYet()
      requires tables == map[]
      ensures Footprint() == {}
    {
    }

    /** The loop: the entries of the file, one after the other. */
    method LoadTables(next: u32, b: seq<byte>, n: u32)
      requires LoadedFrom(next, [])
      modifies this, dir`tableFiles
      ensures FilesGrew(old(dir.tableFiles), dir.tableFiles)
      ensures LoadedFrom(next, ReadTables(b, n).0)
      ensures fresh(Footprint() - FilesOf(old(dir.tableFiles)))
      ensures dir.tableFiles.Keys == old(dir.tableFiles).Keys + ByOid(ReadTables(b, n).0).Keys
    {
      hide LoadedFrom, FilesGrew, ReadTable, ReadTables, ByOid, ByName, Footprint, FilesOf;
      ghost var files, owned, ts := dir.tableFiles, FilesOf(dir.tableFiles), [];
      var rest := b;
      NoTables(b);
      NothingOwned(next);
      NowGrown(files, files);
      for i := 0 to n
        invariant (ts, rest) == ReadTables(b, i)
        invariant LoadedFrom(next, ts) && FilesGrew(files, dir.tableFiles)
        invariant forall o: object? | o in Footprint() && o !in owned :: !old(allocated(o))
        invariant forall o: object? | o in FilesOf(dir.tableFiles) && o !in owned :: !old(allocated(o))
        invariant dir.tableFiles.Keys == files.Keys + ByOid(ts).Keys
      {
        OneTableMore(b, i);
        OneListedMore(ts, ReadTable(rest).0);
        ghost var r, before := ReadTable(rest).0, dir.tableFiles;
        rest := LoadOne(rest, next, ts);
        FilesGrewMore(files, before, dir.tableFiles);
        ts := ts + [r];
      }
    }

    lemma NothingOwned(next: u32)
      requires LoadedFrom(next, [])
      ensures Footprint() == {}
    {
      assert tables == map[];
    }

    lemma NothingLoaded(next: u32)
      requires nextTableOid == next && tables == map[] && tableNames == map[] && Distinct(dir.tableFiles)
      ensures LoadedFrom(next, [])
    {
    }

    function GetTableByOid(oid: u32): Option<TableInfo>
      reads this`tables
    {
      if oid in tables then Some(tables[oid]) else None
    }

    /** Lookup by name, then by oid; `None` where the source throws. */
    function GetTable(name: Text): Option<TableInfo>
      reads this`tables, this`tableNames
    {
      if name in tableNames then GetTableByOid(tableNames[name]) else None
    }

    /** A new catalog over an empty directory. */
    lemma NothingIsValid()
      requires tables == map[] && tableNames == map[] && nextTableOid == 0 && dir.tableFiles == map[]
      ensures Valid() && Db() == EMPTY_DATABASE && Footprint() == {}
    {
    }

    lemma HasFiles()
      requires Valid()
      ensures tables.Keys <= dir.tableFiles.Keys && Distinct(dir.tableFiles)
    {
      hide Valid;
      Parts();
      SharesNothing(this, dir, tables, tableNames, nextTableOid, dir.tableFiles);
      forall oid | oid in tables ensures oid in dir.tableFiles { TableFacts(oid); }
    }

    lemma SizeOfState()
      requires Valid()
      ensures |State()| == |tables|
    {
      hide Valid;
      Parts();
      assert |State().Keys| == |tables.Keys|;
    }

    /** The second lookup never fails. */
    lemma FindsTable(name: Text)
      requires Valid()
      ensures GetTable(name).Some? <==> name in tableNames
      ensures name in tableNames ==>
        && tableNames[name] in tables && GetTable(name) == Some(tables[tableNames[name]])
        && tables[tableNames[name]].name == name
    {
      hide Valid;
      if name in tableNames { NameFacts(name); }
    }
  }

  // ---- restart ----

  /** Of what the old catalog consisted of, the new one has the page files, and they are those of its tables. */
  lemma SharedFiles(before: Catalog, after: Catalog, dir: DataDirectory, files: map<u32, DiskManager>)
    requires RegisteredIn(before, dir, before.tables, before.tableNames, before.nextTableOid, files)
    requires Wired(after, dir, after.tables, files) && after.tables.Keys <= before.tables.Keys
    ensures FilesOf(files) * ObjectsOf(after.tables) <= ObjectsOf(before.tables)
  {
    hide RecordManager.Built;
    forall o | o in FilesOf(files) && o in ObjectsOf(after.tables)
      ensures o in ObjectsOf(before.tables)
    {
      var oid :| oid in after.tables && o in after.tables[oid].table.records.Repr;
      var k :| k in files && files[k] == o;
      OnlyDisk(after.tables[oid].table.records, files[k]);
      OnlyDisk(before.tables[oid].table.records, before.tables[oid].Disk());
    }
  }

  /** A table restored from what the catalog file said of another, whose pages are all on the disk. */
  lemma SameTable(t: TableInfo, u: TableInfo)
    requires t.Ok() && t.Durable() && t.FitsFile() && u.Disk() == t.Disk()
    requires u.RestoredFrom(t.Record())
    ensures u.Ok() && u.State() == t.State() && u.Durable()
    ensures u.oid == t.oid && u.name == t.name && u.FitsFile() && u.Record() == t.Record()
  {
    hide RecordManager.Valid, RecordManager.Durable, RecordManager.Started, RecordManager.Abs;
    hide RecordManager.SafeToCompact;
    hide RecordManager.Built, RowsFit, LengthsFit, IsSchema;
    u.table.records.RestoredLike(t.table.records);
  }

  lemma CommittedParts(c: Catalog)
    requires c.Committed()
    ensures c.Valid() && c.dir.catalogFile.Some?
    ensures var (next, ts, rest) := ReadCatalog(c.dir.catalogFile.value);
      && next == c.nextTableOid && rest == [] && ByOid(ts) == c.Records() && ByName(ts) == c.tableNames
      && Lists(ts, c.Records(), c.tableNames, c.tables.Keys) && FileIs(c.dir.catalogFile.value, next, ts)
    ensures forall oid | oid in c.tables :: c.tables[oid].Durable()
  {
    hide ReadCatalog, FileIs, Lists, Catalog.Valid, Catalog.Footprint, TableInfo.Durable, Catalog.Records;
    c.RecordFacts();
    var ts :|
      FileIs(c.dir.catalogFile.value, c.nextTableOid, ts) && Lists(ts, c.Records(), c.tableNames, c.tables.Keys);
    FileReads(c.dir.catalogFile.value, c.nextTableOid, ts);
    ListsFacts(ts, c.Records(), c.tableNames, c.tables.Keys);
    AllIn(c.Records(), c.tableNames);
  }

  /** Right after a commit, a new catalog loaded from the same directory is the same database. */
  lemma Restarted(before: Catalog, after: Catalog)
    requires before.Committed() && after.dir == before.dir
    requires var (next, ts, _) := ReadCatalog(before.dir.catalogFile.value); after.LoadedFrom(next, ts)
    ensures after.Committed() && after.Valid() && after.State() == before.State()
    ensures after.tableNames == before.tableNames && after.nextTableOid == before.nextTableOid
  {
    hide *;
    CommittedParts(before);
    before.RecordFacts();
    before.Parts();
    var (next, ts, _) := ReadCatalog(before.dir.catalogFile.value);
    after.LoadedParts(next, ts);
    forall oid | oid in after.tables
      ensures oid in before.tables
      ensures after.tables[oid].oid == before.tables[oid].oid && after.tables[oid].name == before.tables[oid].name
      ensures after.tables[oid].Ok() && after.tables[oid].State() == before.tables[oid].State()
      ensures after.tables[oid].FitsFile() && after.tables[oid].Record() == before.tables[oid].Record()
      ensures after.tables[oid].Durable()
    {
      before.TableFacts(oid);
      WiredTo(after, after.dir, after.tables, after.dir.tableFiles, oid);
      SameTable(before.tables[oid], after.tables[oid]);
    }
    SameNames(before, after);
    after.NowSaved(before.State(), before.Records(), ts);
    after.NowCommitted();
  }

  lemma WiredTo(owner: Catalog, dir: DataDirectory, tables: map<u32, TableInfo>, files: map<u32, DiskManager>, oid: u32)
    requires Wired(owner, dir, tables, files) && oid in tables
    ensures oid in files && files[oid] == tables[oid].Disk()
  {
  }

  lemma SameNames(before: Catalog, after: Catalog)
    requires RegisteredIn(before, before.dir, before.tables, before.tableNames, before.nextTableOid,
                          before.dir.tableFiles)
    requires Wired(after, after.dir, after.tables, after.dir.tableFiles) && after.dir == before.dir
    requires after.tables.Keys == before.tables.Keys && after.tableNames == before.tableNames
    requires after.nextTableOid == before.nextTableOid
    requires forall oid | oid in after.tables ::
      after.tables[oid].oid == before.tables[oid].oid && after.tables[oid].name == before.tables[oid].name
    ensures RegisteredIn(after, after.dir, after.tables, after.tableNames, after.nextTableOid, after.dir.tableFiles)
  {
    hide Wired;
  }
}
