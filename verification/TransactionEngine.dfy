/** The transaction handlers as the engine runs them, on fields updated in place. */
module TransactionEngine {
  import opened Values
  import opened Transactions

  class Engine {
    var catalog: Catalog
    var stored: Catalog
    var inTransaction: bool
    var dirty: bool
    var store: Store
    var txn: Option<Transaction>

    ghost function State(): Db
      reads this
    {
      Db(catalog, stored, inTransaction, dirty, store, txn)
    }

    constructor (catalog: Catalog, store: Store)
      ensures State() == Db(catalog, catalog, false, false, store, None)
    {
      this.catalog, this.stored, this.store := catalog, catalog, store;
      inTransaction, dirty, txn := false, false, None;
    }

    // ── Catalog persistence ────────────────────────────────────

    method Persist()
      modifies this`dirty
      ensures State() == Save(old(State()))
    {
      if inTransaction {
        return;
      }
      dirty := true;
    }

    method StoreIfDirty()
      modifies this`dirty, this`stored
      ensures State() == FlushIfDirty(old(State()))
    {
      if !dirty {
        return;
      }
      dirty := false;
      stored := catalog;
    }

    method StoreNow()
      modifies this`dirty, this`stored
      ensures State() == ForceSave(old(State()))
    {
      dirty := false;
      stored := catalog;
    }

    method RefreshFileStats(t: string)
      modifies this`catalog, this`dirty
      ensures State() == if t in old(catalog).tables
        then Save(old(State()).(catalog := RefreshStats(old(catalog), store, t)))
        else old(State())
    {
      if t in catalog.tables {
        catalog := RefreshStats(catalog, store, t);
        Persist();
      }
    }

    // ── Data statements ────────────────────────────────────────

    method InsertFlush(t: string, rows: seq<Row>) returns (r: Result<()>)
      modifies this`store, this`catalog, this`dirty
      ensures r.Ok? <==> Handle(old(State()), Append(t, rows)).Ok?
      ensures State() == Handled(old(State()), Append(t, rows))
    {
      if t !in catalog.tables {
        return Err("Table does not exist");
      }
      store := store[t := AddFile(StoreOf(store, t), rows)];
      RefreshFileStats(t);
      return Ok(());
    }

    method Create(t: string, columns: seq<string>) returns (r: Result<()>)
      modifies this`catalog, this`dirty
      ensures r.Ok? <==> Handle(old(State()), CreateTable(t, columns)).Ok?
      ensures State() == Handled(old(State()), CreateTable(t, columns))
    {
      if t in catalog.tables {
        return Err("Table already exists");
      }
      if columns == [] {
        return Err("CREATE TABLE requires at least one column");
      }
      catalog := catalog.(tables := catalog.tables[t := TableMeta(columns, [])]);
      Persist();
      RefreshFileStats(t);
      return Ok(());
    }

    method Drop(t: string) returns (r: Result<()>)
      modifies this
      ensures r.Ok? <==> Handle(old(State()), DropTable(t)).Ok?
      ensures State() == Handled(old(State()), DropTable(t))
    {
      if t !in catalog.tables {
        return Err("Table does not exist");
      }
      catalog := RemoveTable(catalog, t);
      Persist();
      match txn {
        case Some(open) => txn := Some(open.(deferred := open.deferred + [t]));
        case None => store := store[t := DeleteStorage(store, t)];
      }
      return Ok(());
    }

    method SetEntry(key: string, value: string) returns (r: Result<()>)
      modifies this`catalog, this`dirty
      ensures r.Ok? && State() == Handled(old(State()), SetOther(key, value))
    {
      catalog := catalog.(other := catalog.other[key := value]);
      Persist();
      return Ok(());
    }

    /** Deletes the table's files, writes the rows to a new one and lists it in the catalog. */
    method RewriteTable(t: string, rows: seq<Row>)
      requires t in catalog.tables
      modifies this`store, this`catalog, this`dirty
      ensures State() == RewriteDb(old(State()), t, rows)
    {
      store := store[t := ReplaceFiles(StoreOf(store, t), rows)];
      RefreshFileStats(t);
    }

    method BackupTable(t: string)
      modifies this`txn
      ensures State() == BackupDb(old(State()), t)
    {
      match txn {
        case None =>
        case Some(open) =>
          if t !in open.backups {
            txn := Some(open.(backups := open.backups[t := TableRows(FilesOf(store, t))]));
          }
      }
    }

    method UpdateOrDelete(t: string, rows: seq<Row>) returns (r: Result<()>)
      modifies this
      ensures r.Ok? <==> Handle(old(State()), Rewrite(t, rows)).Ok?
      ensures State() == Handled(old(State()), Rewrite(t, rows))
    {
      if t !in catalog.tables {
        return Err("Table does not exist");
      }
      BackupTable(t);
      RewriteTable(t, rows);
      return Ok(());
    }

    // ── Transaction control ────────────────────────────────────

    method FileSnapshot() returns (files: map<string, set<nat>>)
      ensures files == Snapshot(State())
    {
      files := map[];
      var names := catalog.tables.Keys;
      while names != {}
        invariant names <= catalog.tables.Keys
        invariant files == map t | t in catalog.tables && t !in names :: IdSet(FilesOf(store, t))
        decreases names
      {
        var name :| name in names;
        files := files[name := IdSet(FilesOf(store, name))];
        names := names - {name};
      }
    }

    method BeginTransaction() returns (r: Result<()>)
      modifies this`txn, this`inTransaction
      ensures r.Ok? <==> Handle(old(State()), Begin).Ok?
      ensures State() == Handled(old(State()), Begin)
    {
      if txn.Some? {
        return Err("Already inside a transaction");
      }
      var files := FileSnapshot();
      inTransaction := true;
      txn := Some(Transaction(catalog, files, [], map[], []));
      return Ok(());
    }

    method CommitTransaction() returns (r: Result<()>)
      modifies this
      ensures r.Ok? <==> Handle(old(State()), Commit).Ok?
      ensures State() == Handled(old(State()), Commit)
    {
      if txn.None? {
        return Err("No active transaction to COMMIT");
      }
      var deferred := txn.value.deferred;
      txn := None;
      inTransaction := false;
      StoreNow();
      ghost var before := store;
      for i := 0 to |deferred|
        modifies this`store
        invariant store == DeleteDeferred(before, deferred[..i])
      {
        DeleteOneMore(before, deferred[..i], deferred[i]);
        assert deferred[..i + 1] == deferred[..i] + [deferred[i]];
        store := store[deferred[i] := DeleteStorage(store, deferred[i])];
      }
      assert deferred[..|deferred|] == deferred;
      return Ok(());
    }

    method KeepKnown(files: seq<File>, known: set<nat>) returns (kept: seq<File>)
      ensures kept == Keep(files, known)
    {
      kept := [];
      for i := 0 to |files|
        invariant kept == Keep(files[..i], known)
      {
        assert files[..i + 1][..i] == files[..i];
        if files[i].id in known {
          kept := kept + [files[i]];
        }
      }
      assert files[..|files|] == files;
    }

    /** Deletes the files unknown to the snapshot. */
    method DeleteNewFiles(files: map<string, set<nat>>)
      modifies this`store
      ensures store.Keys == old(store).Keys + files.Keys
      ensures forall t :: StoreOf(store, t) == Trimmed(old(store), files, t)
    {
      var names := files.Keys;
      while names != {}
        modifies this`store
        invariant names <= files.Keys
        invariant store.Keys == old(store).Keys + (files.Keys - names)
        invariant forall t :: StoreOf(store, t) == if t in names then StoreOf(old(store), t) else Trimmed(old(store), files, t)
        decreases names
      {
        var name :| name in names;
        var kept := KeepKnown(FilesOf(store, name), files[name]);
        store := store[name := TableStore(kept, StoreOf(store, name).next)];
        names := names - {name};
      }
    }

    /** Deletes the storage of the catalog tables unknown to the snapshot. */
    method DeleteNewTables(files: map<string, set<nat>>)
      modifies this`store
      ensures store.Keys == old(store).Keys + (catalog.tables.Keys - files.Keys)
      ensures forall t :: StoreOf(store, t) == (
                if t in catalog.tables && t !in files then DeleteStorage(old(store), t) else StoreOf(old(store), t))
    {
      var all := catalog.tables.Keys - files.Keys;
      var names := all;
      while names != {}
        modifies this`store
        invariant names <= all
        invariant store.Keys == old(store).Keys + (all - names)
        invariant forall t :: StoreOf(store, t) == (
                    if t in all && t !in names then DeleteStorage(old(store), t) else StoreOf(old(store), t))
        decreases names
      {
        var name :| name in names;
        store := store[name := DeleteStorage(store, name)];
        names := names - {name};
      }
    }

    method RevertFiles(files: map<string, set<nat>>)
      modifies this`store
      ensures store == RevertedStore(old(State()), files)
    {
      ghost var before := State();
      DeleteNewFiles(files);
      DeleteNewTables(files);
      forall t ensures StoreOf(store, t) == StoreOf(RevertedStore(before, files), t) {
        RevertedAt(before, files, t);
      }
      SameStore(store, RevertedStore(before, files));
    }

    method RestoreBackups(backups: map<string, seq<Row>>)
      modifies this`store, this`catalog, this`dirty
      ensures State() == WriteBackups(old(State()), backups)
    {
      ghost var before := State();
      ghost var done: map<string, seq<Row>> := map[];
      var names := backups.Keys;
      NothingWritten(before);
      while names != {}
        modifies this`store, this`catalog, this`dirty
        invariant names <= backups.Keys
        invariant done == map t | t in backups && t !in names :: backups[t]
        invariant State() == WriteBackups(before, done)
        decreases names
      {
        var name :| name in names;
        WriteOneMore(before, done, name, backups[name]);
        if name in catalog.tables {
          RewriteTable(name, backups[name]);
        }
        done := done[name := backups[name]];
        names := names - {name};
      }
      assert done == backups;
    }

    method RollbackTransaction() returns (r: Result<()>)
      modifies this
      ensures r.Ok? <==> Handle(old(State()), Rollback).Ok?
      ensures State() == Handled(old(State()), Rollback)
    {
      if txn.None? {
        return Err("No active transaction to ROLLBACK");
      }
      var open := txn.value;
      txn := None;
      inTransaction := false;
      RevertFiles(open.files);
      catalog := open.catalog;
      StoreNow();
      RestoreBackups(open.backups);
      return Ok(());
    }

    method AddSavepoint(name: string) returns (r: Result<()>)
      modifies this`txn
      ensures r.Ok? <==> Handle(old(State()), SetSavepoint(name)).Ok?
      ensures State() == Handled(old(State()), SetSavepoint(name))
    {
      var files := FileSnapshot();
      if txn.None? {
        return Err("SAVEPOINT requires an active transaction");
      }
      var open := txn.value;
      txn := Some(open.(savepoints := open.savepoints + [Savepoint(name, catalog, files, open.backups)]));
      return Ok(());
    }

    /** `rposition`: a scan from the end of the stack. */
    method FindSavepoint(sps: seq<Savepoint>, name: string) returns (idx: Option<nat>)
      ensures idx == LastIndex(sps, name)
    {
      var i := |sps|;
      assert sps[..i] == sps;
      while i > 0
        invariant 0 <= i <= |sps|
        invariant LastIndex(sps, name) == LastIndex(sps[..i], name)
      {
        assert sps[..i][..i - 1] == sps[..i - 1];
        if sps[i - 1].name == name {
          return Some(i - 1);
        }
        i := i - 1;
      }
      return None;
    }

    method RollbackToSavepoint(name: string) returns (r: Result<()>)
      modifies this
      ensures r.Ok? <==> Handle(old(State()), RollbackTo(name)).Ok?
      ensures State() == Handled(old(State()), RollbackTo(name))
    {
      if txn.None? {
        return Err("ROLLBACK TO SAVEPOINT requires an active transaction");
      }
      var idx := FindSavepoint(txn.value.savepoints, name);
      if idx.None? {
        return Err("Savepoint does not exist");
      }
      var sp := txn.value.savepoints[idx.value];
      var savepoints := txn.value.savepoints[..idx.value + 1];
      RevertFiles(sp.files);
      catalog := sp.catalog;
      RestoreBackups(sp.backups);
      assert State() == RestoredTo(old(State()), sp);
      var files := FileSnapshot();
      txn := Some(Transaction(catalog, files, txn.value.deferred, map[], savepoints));
      return Ok(());
    }

    method ReleaseSavepoint(name: string) returns (r: Result<()>)
      modifies this`txn
      ensures r.Ok? <==> Handle(old(State()), Release(name)).Ok?
      ensures State() == Handled(old(State()), Release(name))
    {
      if txn.None? {
        return Err("RELEASE SAVEPOINT requires an active transaction");
      }
      var idx := FindSavepoint(txn.value.savepoints, name);
      if idx.None? {
        return Err("Savepoint does not exist");
      }
      var open := txn.value;
      txn := Some(open.(savepoints := open.savepoints[..idx.value]));
      return Ok(());
    }

    // ── One statement ──────────────────────────────────────────

    method Dispatch(s: Statement) returns (r: Result<()>)
      modifies this
      ensures r.Ok? <==> Handle(old(State()), s).Ok?
      ensures State() == Handled(old(State()), s)
    {
      match s {
        case Begin => r := BeginTransaction();
        case Commit => r := CommitTransaction();
        case Rollback => r := RollbackTransaction();
        case Append(t, rows) => r := InsertFlush(t, rows);
        case CreateTable(t, columns) => r := Create(t, columns);
        case DropTable(t) => r := Drop(t);
        case Rewrite(t, rows) => r := UpdateOrDelete(t, rows);
        case SetOther(key, value) => r := SetEntry(key, value);
        case SetSavepoint(name) => r := AddSavepoint(name);
        case RollbackTo(name) => r := RollbackToSavepoint(name);
        case Release(name) => r := ReleaseSavepoint(name);
      }
    }

    /** `execute`: a failed statement stores a changed catalog, too. */
    method Execute(s: Statement) returns (r: Result<()>)
      modifies this
      ensures r.Ok? <==> Handle(old(State()), s).Ok?
      ensures State() == Transactions.Execute(old(State()), s)
    {
      r := Dispatch(s);
      if StoresCatalog(s) {
        StoreIfDirty();
      }
    }
  }

  lemma {:induction false} SameStore(a: Store, b: Store)
    requires a.Keys == b.Keys && forall t :: StoreOf(a, t) == StoreOf(b, t)
    ensures a == b
  {
    forall t | t in a ensures a[t] == b[t] {
      assert StoreOf(a, t) == StoreOf(b, t);
    }
  }

  lemma {:induction false} DeleteOneMore(store: Store, deferred: seq<string>, t: string)
    ensures DeleteDeferred(store, deferred + [t])
         == DeleteDeferred(store, deferred)[t := DeleteStorage(DeleteDeferred(store, deferred), t)]
  {
  }

  lemma {:induction false} NothingWritten(db: Db)
    ensures WriteBackups(db, map[]) == db
  {
    assert RestoredStore(db.catalog, db.store, map[]) == db.store;
    assert RestoredCatalog(db.catalog, db.store, map[]).tables == db.catalog.tables;
  }

  function Trimmed(store: Store, files: map<string, set<nat>>, t: string): TableStore {
    if t in files then TableStore(Keep(FilesOf(store, t), files[t]), StoreOf(store, t).next) else StoreOf(store, t)
  }

  lemma {:induction false} RevertedAt(db: Db, files: map<string, set<nat>>, t: string)
    ensures StoreOf(RevertedStore(db, files), t) ==
      if t in db.catalog.tables && t !in files then DeleteStorage(db.store, t) else Trimmed(db.store, files, t)
  {
  }

  lemma {:induction false} StoreOneMore(c: Catalog, store: Store, done: map<string, seq<Row>>, t: string, rows: seq<Row>)
    requires t !in done
    ensures var before := RestoredStore(c, store, done);
      RestoredStore(c, store, done[t := rows]) ==
        if t in c.tables then before[t := ReplaceFiles(StoreOf(before, t), rows)] else before
  {
  }

  lemma {:induction false} CatalogOneMore(c: Catalog, store: Store, done: map<string, seq<Row>>, t: string, rows: seq<Row>)
    requires t !in done
    ensures RestoredCatalog(c, store, done[t := rows])
         == RefreshStats(RestoredCatalog(c, store, done), RestoredStore(c, store, done[t := rows]), t)
  {
    StoreOneMore(c, store, done, t, rows);
    assert RestoredCatalog(c, store, done[t := rows]).tables
        == RefreshStats(RestoredCatalog(c, store, done), RestoredStore(c, store, done[t := rows]), t).tables;
  }

  lemma {:induction false} AnyOneMore(c: Catalog, done: map<string, seq<Row>>, t: string, rows: seq<Row>)
    ensures AnyRestored(c, done[t := rows]) <==> AnyRestored(c, done) || t in c.tables
  {
    var more := done[t := rows];
    if t in c.tables { assert t in more; }
    if s :| s in done && s in c.tables { assert s in more; }
  }

  lemma {:induction false} WriteOneMore(db: Db, done: map<string, seq<Row>>, t: string, rows: seq<Row>)
    requires t !in done
    ensures WriteBackups(db, done[t := rows]) ==
      if t in db.catalog.tables then RewriteDb(WriteBackups(db, done), t, rows) else WriteBackups(db, done)
  {
    StoreOneMore(db.catalog, db.store, done, t, rows);
    CatalogOneMore(db.catalog, db.store, done, t, rows);
    AnyOneMore(db.catalog, done, t, rows);
  }
}
