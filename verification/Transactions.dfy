/**
 Explicit transactions: catalog snapshot, file snapshot, rewrite backups, deferred deletes and the
 savepoint stack. Each statement is a function on the database state; the engine class below
 computes it in place.
 */
module Transactions {
  import opened Values

  // ── Storage and catalog ──────────────────────────────────────

  /** A Parquet file: an identity that is never used again, and its rows. */
  datatype File = File(id: nat, rows: seq<Row>)

  /** The files under a table's prefix, oldest first, and the identity of the next one. */
  datatype TableStore = TableStore(files: seq<File>, next: nat)

  type Store = map<string, TableStore>

  datatype TableMeta = TableMeta(columns: seq<string>, fileStats: seq<nat>)

  /** The catalog contents; `other` stands for the maps that no statement of this model reads. */
  datatype Catalog = Catalog(tables: map<string, TableMeta>, indexTable: map<string, string>, other: map<string, string>)

  function StoreOf(store: Store, t: string): TableStore { if t in store then store[t] else TableStore([], 0) }

  function FilesOf(store: Store, t: string): seq<File> { StoreOf(store, t).files }

  function Ids(files: seq<File>): seq<nat> { seq(|files|, i requires 0 <= i < |files| => files[i].id) }

  function IdSet(files: seq<File>): set<nat> { set f | f in files :: f.id }

  function TableRows(files: seq<File>): seq<Row> {
    if files == [] then [] else TableRows(files[..|files| - 1]) + files[|files| - 1].rows
  }

  /** Deletes the files that the snapshot does not know. */
  function Keep(files: seq<File>, known: set<nat>): seq<File> {
    if files == [] then [] else
      var before := Keep(files[..|files| - 1], known);
      if files[|files| - 1].id in known then before + [files[|files| - 1]] else before
  }

  function AddFile(s: TableStore, rows: seq<Row>): TableStore {
    if rows == [] then s else TableStore(s.files + [File(s.next, rows)], s.next + 1)
  }

  /** Deletes every file and writes the rows, if there are any, to a new one. */
  function ReplaceFiles(s: TableStore, rows: seq<Row>): TableStore { AddFile(TableStore([], s.next), rows) }

  /** `refresh_table_file_stats_light`: the catalog lists the files that exist. */
  function RefreshStats(c: Catalog, store: Store, t: string): Catalog {
    if t in c.tables
    then c.(tables := c.tables[t := c.tables[t].(fileStats := Ids(FilesOf(store, t)))])
    else c
  }

  // ── The database state ───────────────────────────────────────

  datatype Savepoint = Savepoint(
    name: string,
    catalog: Catalog,
    files: map<string, set<nat>>,
    backups: map<string, seq<Row>>)

  datatype Transaction = Transaction(
    catalog: Catalog,
    files: map<string, set<nat>>,
    deferred: seq<string>,
    backups: map<string, seq<Row>>,
    savepoints: seq<Savepoint>)

  /** `stored` is the catalog document in the object store. */
  datatype Db = Db(
    catalog: Catalog,
    stored: Catalog,
    inTransaction: bool,
    dirty: bool,
    store: Store,
    txn: Option<Transaction>)

  /** `Catalog::save`: nothing inside a transaction. */
  function Save(db: Db): Db { if db.inTransaction then db else db.(dirty := true) }

  function FlushIfDirty(db: Db): Db { if db.dirty then db.(dirty := false, stored := db.catalog) else db }

  function ForceSave(db: Db): Db { db.(dirty := false, stored := db.catalog) }

  function Snapshot(db: Db): map<string, set<nat>> {
    map t | t in db.catalog.tables :: IdSet(FilesOf(db.store, t))
  }

  datatype Statement =
    | Begin
    | Commit
    | Rollback
    | Append(table: string, rows: seq<Row>)
    | CreateTable(table: string, columns: seq<string>)
    | DropTable(table: string)
    | Rewrite(table: string, rows: seq<Row>)
    | SetOther(key: string, value: string)
    | SetSavepoint(name: string)
    | RollbackTo(name: string)
    | Release(name: string)

  // ── What each statement computes ─────────────────────────────

  function BeginDb(db: Db): Result<Db> {
    if db.txn.Some? then Err("Already inside a transaction") else
      Ok(db.(inTransaction := true, txn := Some(Transaction(db.catalog, Snapshot(db), [], map[], []))))
  }

  function AppendDb(db: Db, t: string, rows: seq<Row>): Result<Db> {
    if t !in db.catalog.tables then Err("Table does not exist") else
      var store := db.store[t := AddFile(StoreOf(db.store, t), rows)];
      Ok(Save(db.(store := store, catalog := RefreshStats(db.catalog, store, t))))
  }

  function CreateTableDb(db: Db, t: string, columns: seq<string>): Result<Db> {
    if t in db.catalog.tables then Err("Table already exists")
    else if columns == [] then Err("CREATE TABLE requires at least one column")
    else
      var catalog := db.catalog.(tables := db.catalog.tables[t := TableMeta(columns, [])]);
      Ok(Save(db.(catalog := RefreshStats(catalog, db.store, t))))
  }

  function RemoveTable(c: Catalog, t: string): Catalog {
    c.(tables := c.tables - {t}, indexTable := map i | i in c.indexTable && c.indexTable[i] != t :: c.indexTable[i])
  }

  function DropTableDb(db: Db, t: string): Result<Db> {
    if t !in db.catalog.tables then Err("Table does not exist") else
      var after := Save(db.(catalog := RemoveTable(db.catalog, t)));
      match after.txn
      case Some(txn) => Ok(after.(txn := Some(txn.(deferred := txn.deferred + [t]))))
      case None => Ok(after.(store := after.store[t := DeleteStorage(after.store, t)]))
  }

  function DeleteStorage(store: Store, t: string): TableStore { TableStore([], StoreOf(store, t).next) }

  /** `rewrite_table` for a table of the catalog. */
  function RewriteDb(db: Db, t: string, rows: seq<Row>): Db {
    var store := db.store[t := ReplaceFiles(StoreOf(db.store, t), rows)];
    Save(db.(store := store, catalog := RefreshStats(db.catalog, store, t)))
  }

  /** `backup_table_for_txn`: at the first rewrite of a table only. */
  function BackupDb(db: Db, t: string): Db {
    match db.txn
    case None => db
    case Some(txn) =>
      if t in txn.backups then db
      else db.(txn := Some(txn.(backups := txn.backups[t := TableRows(FilesOf(db.store, t))])))
  }

  /** An UPDATE or DELETE that leaves `rows` in the table. */
  function RewriteStatement(db: Db, t: string, rows: seq<Row>): Result<Db> {
    if t !in db.catalog.tables then Err("Table does not exist") else Ok(RewriteDb(BackupDb(db, t), t, rows))
  }

  function SetOtherDb(db: Db, key: string, value: string): Result<Db> {
    Ok(Save(db.(catalog := db.catalog.(other := db.catalog.other[key := value]))))
  }

  /** The storage after a rollback to a file snapshot, before backups are written back. */
  function RevertedStore(db: Db, files: map<string, set<nat>>): Store {
    map t | t in db.store.Keys + files.Keys + db.catalog.tables.Keys ::
      if t in files then TableStore(Keep(FilesOf(db.store, t), files[t]), StoreOf(db.store, t).next)
      else if t in db.catalog.tables then DeleteStorage(db.store, t)
      else StoreOf(db.store, t)
  }

  /** Writes back the backups of the tables that the catalog still has. */
  function RestoredStore(c: Catalog, store: Store, backups: map<string, seq<Row>>): Store {
    map t | t in store.Keys + (backups.Keys * c.tables.Keys) ::
      if t in backups && t in c.tables then ReplaceFiles(StoreOf(store, t), backups[t]) else StoreOf(store, t)
  }

  function RestoredCatalog(c: Catalog, store: Store, backups: map<string, seq<Row>>): Catalog {
    c.(tables := map t | t in c.tables ::
      if t in backups then c.tables[t].(fileStats := Ids(FilesOf(RestoredStore(c, store, backups), t))) else c.tables[t])
  }

  predicate AnyRestored(c: Catalog, backups: map<string, seq<Row>>) { exists t :: t in backups && t in c.tables }

  function WriteBackups(db: Db, backups: map<string, seq<Row>>): Db {
    var after := db.(
      store := RestoredStore(db.catalog, db.store, backups),
      catalog := RestoredCatalog(db.catalog, db.store, backups));
    if AnyRestored(db.catalog, backups) then Save(after) else after
  }

  function RollbackDb(db: Db): Result<Db> {
    match db.txn
    case None => Err("No active transaction to ROLLBACK")
    case Some(txn) =>
      var reverted := db.(txn := None, inTransaction := false, store := RevertedStore(db, txn.files), catalog := txn.catalog);
      Ok(WriteBackups(ForceSave(reverted), txn.backups))
  }

  function DeleteDeferred(store: Store, deferred: seq<string>): Store {
    map t | t in store.Keys + (set d | d in deferred) ::
      if t in deferred then DeleteStorage(store, t) else StoreOf(store, t)
  }

  function CommitDb(db: Db): Result<Db> {
    match db.txn
    case None => Err("No active transaction to COMMIT")
    case Some(txn) =>
      var saved := ForceSave(db.(txn := None, inTransaction := false));
      Ok(saved.(store := DeleteDeferred(saved.store, txn.deferred)))
  }

  function SavepointDb(db: Db, name: string): Result<Db> {
    match db.txn
    case None => Err("SAVEPOINT requires an active transaction")
    case Some(txn) =>
      var sp := Savepoint(name, db.catalog, Snapshot(db), txn.backups);
      Ok(db.(txn := Some(txn.(savepoints := txn.savepoints + [sp]))))
  }

  /** The latest savepoint of that name. */
  function LastIndex(sps: seq<Savepoint>, name: string): (r: Option<nat>)
    ensures r.Some? ==> r.value < |sps| && sps[r.value].name == name
  {
    if sps == [] then None
    else if sps[|sps| - 1].name == name then Some(|sps| - 1)
    else LastIndex(sps[..|sps| - 1], name)
  }

  function RestoredTo(db: Db, sp: Savepoint): Db {
    WriteBackups(db.(store := RevertedStore(db, sp.files), catalog := sp.catalog), sp.backups)
  }

  /** `ROLLBACK TO`: restores the savepoint and makes the result the new base of the transaction. */
  function RollbackToDb(db: Db, name: string): Result<Db> {
    match db.txn
    case None => Err("ROLLBACK TO SAVEPOINT requires an active transaction")
    case Some(txn) =>
      match LastIndex(txn.savepoints, name)
      case None => Err("Savepoint does not exist")
      case Some(idx) =>
        var after := RestoredTo(db, txn.savepoints[idx]);
        Ok(after.(txn := Some(Transaction(after.catalog, Snapshot(after), txn.deferred, map[], txn.savepoints[..idx + 1]))))
  }

  function ReleaseDb(db: Db, name: string): Result<Db> {
    match db.txn
    case None => Err("RELEASE SAVEPOINT requires an active transaction")
    case Some(txn) =>
      match LastIndex(txn.savepoints, name)
      case None => Err("Savepoint does not exist")
      case Some(idx) => Ok(db.(txn := Some(txn.(savepoints := txn.savepoints[..idx]))))
  }

  function Handle(db: Db, s: Statement): Result<Db> {
    match s
    case Begin => BeginDb(db)
    case Commit => CommitDb(db)
    case Rollback => RollbackDb(db)
    case Append(t, rows) => AppendDb(db, t, rows)
    case CreateTable(t, columns) => CreateTableDb(db, t, columns)
    case DropTable(t) => DropTableDb(db, t)
    case Rewrite(t, rows) => RewriteStatement(db, t, rows)
    case SetOther(k, v) => SetOtherDb(db, k, v)
    case SetSavepoint(name) => SavepointDb(db, name)
    case RollbackTo(name) => RollbackToDb(db, name)
    case Release(name) => ReleaseDb(db, name)
  }

  /** The effect of a handler: none if it fails. */
  function Handled(db: Db, s: Statement): Db {
    match Handle(db, s)
    case Ok(after) => after
    case Err(_) => db
  }

  /** SAVEPOINT, ROLLBACK TO and RELEASE return without `flush_if_dirty`. */
  predicate StoresCatalog(s: Statement) { !s.SetSavepoint? && !s.RollbackTo? && !s.Release? }

  /** One call of `execute`: the handler, then for most statements `flush_if_dirty`, whatever the outcome. */
  function Execute(db: Db, s: Statement): Db {
    if StoresCatalog(s) then FlushIfDirty(Handled(db, s)) else Handled(db, s)
  }

  function Run(db: Db, run: seq<Statement>): Db {
    if run == [] then db else Execute(Run(db, run[..|run| - 1]), run[|run| - 1])
  }
}
