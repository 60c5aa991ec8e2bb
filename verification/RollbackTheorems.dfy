/** ROLLBACK of transactions that rewrite and drop tables, and what the object store shows meanwhile. */
module RollbackTheorems {
  import opened Values
  import opened Transactions
  import opened TransactionTheorems

  /** Statements that neither end the transaction nor roll part of it back. */
  predicate Inside(s: Statement) { !s.Commit? && !s.Rollback? && !s.RollbackTo? }

  predicate AllInside(run: seq<Statement>) { forall s :: s in run ==> Inside(s) }

  // ── References ───────────────────────────────────────────────

  /** The statement works on the table, which exists at that point of the run. */
  predicate Works(db: Db, s: Statement, t: string) { (s.Append? || s.Rewrite?) && s.table == t && t in db.catalog.tables }

  /** Rows appended to `t` by the run, in order. */
  function AppendedRows(start: Db, run: seq<Statement>, t: string): seq<Row> {
    if run == [] then [] else
      var before, s := run[..|run| - 1], run[|run| - 1];
      AppendedRows(start, before, t) + (if s.Append? && Works(Run(start, before), s, t) then s.rows else [])
  }

  /** Rows appended to `t` before its first rewrite, if the run rewrites it. */
  function FirstRewrite(start: Db, run: seq<Statement>, t: string): Option<seq<Row>> {
    if run == [] then None else
      var before, s := run[..|run| - 1], run[|run| - 1];
      var first := FirstRewrite(start, before, t);
      if first.None? && s.Rewrite? && Works(Run(start, before), s, t) then Some(AppendedRows(start, before, t)) else first
  }

  // ── The invariant of one table ───────────────────────────────

  predicate Untouched(s0: TableStore, s: TableStore, appended: seq<Row>) {
    s0.files <= s.files && TableRows(s.files) == TableRows(s0.files) + appended
  }

  predicate AllNewer(s0: TableStore, s: TableStore) {
    forall i :: 0 <= i < |s.files| ==> s0.next <= s.files[i].id
  }

  /** How the storage and the backup of a BEGIN table relate to its files at BEGIN. */
  predicate Follows(s0: TableStore, s: TableStore, backup: Option<seq<Row>>, appended: seq<Row>, first: Option<seq<Row>>) {
    && Ordered(s0) && Ordered(s) && s0.next <= s.next
    && match first
       case None => backup.None? && Untouched(s0, s, appended)
       case Some(app) => backup == Some(TableRows(s0.files) + app) && AllNewer(s0, s)
  }

  function BackupOf(db: Db, t: string): Option<seq<Row>> {
    if db.txn.Some? && t in db.txn.value.backups then Some(db.txn.value.backups[t]) else None
  }

  lemma {:induction false} UntouchedAppend(s0: TableStore, s: TableStore, appended: seq<Row>, rows: seq<Row>)
    requires Untouched(s0, s, appended)
    ensures Untouched(s0, AddFile(s, rows), appended + rows)
  {
    var begun := TableRows(s0.files);
    TableRowsAdd(s, rows);
    assert (begun + appended) + rows == begun + (appended + rows);
  }

  lemma {:induction false} FollowsAppend(s0: TableStore, s: TableStore, backup: Option<seq<Row>>, appended: seq<Row>, first: Option<seq<Row>>, rows: seq<Row>)
    requires Follows(s0, s, backup, appended, first)
    ensures Follows(s0, AddFile(s, rows), backup, appended + rows, first)
  {
    AddOrdered(s, rows);
    if first.None? { UntouchedAppend(s0, s, appended, rows); }
  }

  lemma {:induction false} FollowsRewrite(s0: TableStore, s: TableStore, backup: Option<seq<Row>>, appended: seq<Row>, first: Option<seq<Row>>, rows: seq<Row>)
    requires Follows(s0, s, backup, appended, first)
    ensures Follows(s0, ReplaceFiles(s, rows),
      if backup.None? then Some(TableRows(s.files)) else backup,
      appended,
      if first.None? then Some(appended) else first)
  {
    AddOrdered(s, rows);
  }

  /** The files of an earlier state are still the first ones or, if they are lost, all files are newer. */
  predicate Since(s0: TableStore, s: TableStore, lost: bool) {
    && Ordered(s0) && Ordered(s) && s0.next <= s.next
    && if lost then AllNewer(s0, s) else s0.files <= s.files
  }

  /** Deleting the files that the earlier state did not know brings its files back, unless they are lost. */
  lemma {:induction false} KeptFiles(s0: TableStore, s: TableStore, lost: bool)
    requires Since(s0, s, lost)
    ensures Keep(s.files, IdSet(s0.files)) == if lost then [] else s0.files
  {
    if lost {
      forall f | f in s.files ensures f.id !in IdSet(s0.files) {
        var i :| 0 <= i < |s.files| && s.files[i] == f;
        assert s0.next <= s.files[i].id;
      }
      KeepNone(s.files, IdSet(s0.files));
    } else {
      assert s.files[..|s0.files|] == s0.files;
      KeepPrefix(s, |s0.files|);
    }
  }

  predicate Opened(db0: Db, db: Db) {
    db.inTransaction && db.txn.Some? && db.txn.value.catalog == db0.catalog && db.txn.value.files == Snapshot(db0)
  }

  lemma {:induction false} StatementKeepsOpened(db0: Db, db: Db, s: Statement)
    requires Opened(db0, db) && Inside(s)
    ensures Opened(db0, Execute(db, s))
  {
  }

  /** What a statement inside the transaction does to the storage of one table. */
  lemma {:induction false} StorageEffect(db: Db, s: Statement, t: string)
    requires db.txn.Some? && db.inTransaction && Inside(s)
    ensures StoreOf(Execute(db, s).store, t) ==
      if !Works(db, s, t) then StoreOf(db.store, t)
      else if s.Append? then AddFile(StoreOf(db.store, t), s.rows)
      else ReplaceFiles(StoreOf(db.store, t), s.rows)
  {
    match s
    case Append(u, rows) =>
    case Rewrite(u, rows) =>
    case _ =>
  }

  /** And to its backup: the first rewrite takes the rows it finds. */
  lemma {:induction false} BackupEffect(db: Db, s: Statement, t: string)
    requires db.txn.Some? && db.inTransaction && Inside(s)
    ensures BackupOf(Execute(db, s), t) ==
      if Works(db, s, t) && s.Rewrite? && BackupOf(db, t).None? then Some(TableRows(FilesOf(db.store, t)))
      else BackupOf(db, t)
  {
    match s
    case Append(u, rows) =>
    case Rewrite(u, rows) =>
    case _ =>
  }

  lemma {:induction false} StatementFollows(db: Db, s: Statement, t: string, s0: TableStore, appended: seq<Row>, first: Option<seq<Row>>)
    requires db.txn.Some? && db.inTransaction && Inside(s)
    requires Follows(s0, StoreOf(db.store, t), BackupOf(db, t), appended, first)
    ensures Follows(s0, StoreOf(Execute(db, s).store, t), BackupOf(Execute(db, s), t),
        appended + (if s.Append? && Works(db, s, t) then s.rows else []),
        if first.None? && s.Rewrite? && Works(db, s, t) then Some(appended) else first)
  {
    StorageEffect(db, s, t);
    BackupEffect(db, s, t);
    assert appended + [] == appended;
    var store, backup := StoreOf(db.store, t), BackupOf(db, t);
    if Works(db, s, t) {
      if s.Append? {
        FollowsAppend(s0, store, backup, appended, first, s.rows);
      } else {
        FollowsRewrite(s0, store, backup, appended, first, s.rows);
      }
    }
  }

  lemma {:induction false} RunFollows(db0: Db, start: Db, run: seq<Statement>, t: string)
    requires Opened(db0, start) && AllInside(run)
    requires start.store == db0.store && start.txn.value.backups == map[] && StoreOrdered(db0.store)
    ensures Opened(db0, Run(start, run))
    ensures Follows(StoreOf(db0.store, t), StoreOf(Run(start, run).store, t), BackupOf(Run(start, run), t),
      AppendedRows(start, run, t), FirstRewrite(start, run, t))
  {
    if run == [] {
      assert Ordered(StoreOf(db0.store, t));
    } else {
      var before, s := run[..|run| - 1], run[|run| - 1];
      assert s in run;
      RunFollows(db0, start, before, t);
      StatementKeepsOpened(db0, Run(start, before), s);
      StatementFollows(Run(start, before), s, t, StoreOf(db0.store, t), AppendedRows(start, before, t), FirstRewrite(start, before, t));
    }
  }

  // ── ROLLBACK ─────────────────────────────────────────────────

  lemma {:induction false} BeginOpens(db0: Db)
    requires db0.txn.None?
    ensures Opened(db0, Execute(db0, Begin))
    ensures Execute(db0, Begin).store == db0.store && Execute(db0, Begin).txn.value.backups == map[]
    ensures Execute(db0, Begin).catalog == db0.catalog
  {
  }

  /** The storage of a BEGIN table after ROLLBACK. */
  lemma {:induction false} RollbackStore(db0: Db, db: Db, t: string)
    requires Opened(db0, db) && t in db0.catalog.tables
    ensures var s := StoreOf(db.store, t);
      var kept := TableStore(Keep(s.files, IdSet(FilesOf(db0.store, t))), s.next);
      StoreOf(Execute(db, Rollback).store, t) ==
      match BackupOf(db, t) case None => kept case Some(rows) => ReplaceFiles(kept, rows)
  {
  }

  /**
   ROLLBACK of a transaction without ROLLBACK TO: a BEGIN table that was only appended to or dropped
   has exactly its BEGIN files again; a rewritten one has the rows of its first rewrite. Those are
   the BEGIN rows exactly when no row had been appended before.
   */
  lemma {:induction false} FullRollback(db0: Db, run: seq<Statement>, t: string)
    requires db0.txn.None? && StoreOrdered(db0.store) && AllInside(run) && t in db0.catalog.tables
    ensures var start := Execute(db0, Begin);
      var files := FilesOf(Execute(Run(start, run), Rollback).store, t);
      match FirstRewrite(start, run, t)
      case None => files == FilesOf(db0.store, t)
      case Some(app) =>
        && TableRows(files) == TableRows(FilesOf(db0.store, t)) + app
        && (TableRows(files) == TableRows(FilesOf(db0.store, t)) <==> app == [])
  {
    var start := Execute(db0, Begin);
    BeginOpens(db0);
    RunFollows(db0, start, run, t);
    var db := Run(start, run);
    RollbackStore(db0, db, t);
    KeptFiles(StoreOf(db0.store, t), StoreOf(db.store, t), FirstRewrite(start, run, t).Some?);
    if FirstRewrite(start, run, t).Some? {
      ReplaceRows(TableStore([], StoreOf(db.store, t).next), BackupOf(db, t).value);
    }
  }

  /** The entry of a table, with its file list brought up to date if the table was rewritten. */
  function Relisted(c: Catalog, store: Store, t: string, rewritten: bool): TableMeta
    requires t in c.tables
  {
    if rewritten then c.tables[t].(fileStats := Ids(FilesOf(store, t))) else c.tables[t]
  }

  /**
   The catalog after ROLLBACK is the BEGIN catalog but for the file lists of the tables whose
   backups were written back. The object store holds the same catalog.
   */
  lemma {:induction false} RollbackCatalog(db0: Db, run: seq<Statement>)
    requires db0.txn.None? && StoreOrdered(db0.store) && AllInside(run)
    ensures var start := Execute(db0, Begin);
      var end := Execute(Run(start, run), Rollback);
      && end.stored == end.catalog && end.txn.None? && !end.inTransaction && !end.dirty
      && end.catalog.tables.Keys == db0.catalog.tables.Keys
      && end.catalog.indexTable == db0.catalog.indexTable && end.catalog.other == db0.catalog.other
      && (forall t :: t in db0.catalog.tables ==>
            end.catalog.tables[t] == Relisted(db0.catalog, end.store, t, FirstRewrite(start, run, t).Some?))
  {
    var start := Execute(db0, Begin);
    var db := Run(start, run);
    BeginOpens(db0);
    RunFollows(db0, start, run, "");
    RollbackCatalogOf(db0, db);
    forall t | t in db0.catalog.tables ensures FirstRewrite(start, run, t).Some? <==> BackupOf(db, t).Some? {
      RunFollows(db0, start, run, t);
    }
  }

  lemma {:induction false} RollbackCatalogOf(db0: Db, db: Db)
    requires Opened(db0, db)
    ensures var end := Execute(db, Rollback);
      && end.stored == end.catalog && end.txn.None? && !end.inTransaction && !end.dirty
      && end.catalog.tables.Keys == db0.catalog.tables.Keys
      && end.catalog.indexTable == db0.catalog.indexTable && end.catalog.other == db0.catalog.other
      && (forall t :: t in db0.catalog.tables ==>
            end.catalog.tables[t] == Relisted(db0.catalog, end.store, t, BackupOf(db, t).Some?))
  {
    var txn := db.txn.value;
    var reverted := db.(txn := None, inTransaction := false, store := RevertedStore(db, txn.files), catalog := txn.catalog);
    var saved := ForceSave(reverted);
    var end := Execute(db, Rollback);
    assert end.store == WriteBackups(saved, txn.backups).store;
    assert end.catalog == WriteBackups(saved, txn.backups).catalog;
    WrittenCatalog(saved, txn.backups);
  }

  lemma {:induction false} WrittenCatalog(db: Db, backups: map<string, seq<Row>>)
    requires !db.inTransaction && db.stored == db.catalog && !db.dirty
    ensures var after := WriteBackups(db, backups);
      && FlushIfDirty(after).stored == after.catalog
      && after.catalog.tables.Keys == db.catalog.tables.Keys
      && after.catalog.indexTable == db.catalog.indexTable && after.catalog.other == db.catalog.other
      && (forall t :: t in db.catalog.tables ==>
            after.catalog.tables[t] == Relisted(db.catalog, after.store, t, t in backups))
  {
    if !AnyRestored(db.catalog, backups) {
      assert RestoredCatalog(db.catalog, db.store, backups).tables == db.catalog.tables;
    }
  }

  // ── What the object store shows ──────────────────────────────

  /** Outside a transaction every statement ends with the catalog stored; inside, with nothing to store. */
  predicate Synced(db: Db) { !db.dirty && (db.txn.Some? <==> db.inTransaction) && (db.txn.None? ==> db.stored == db.catalog) }

  lemma {:induction false} SyncedRollback(db: Db)
    requires Synced(db)
    ensures Synced(Execute(db, Rollback))
  {
    if db.txn.Some? {
      var reverted := db.(txn := None, inTransaction := false, store := RevertedStore(db, db.txn.value.files), catalog := db.txn.value.catalog);
      WrittenCatalog(ForceSave(reverted), db.txn.value.backups);
    }
  }

  /** Statements on data change neither the stored catalog of a transaction nor whether one is open. */
  lemma {:induction false} SyncedData(db: Db, s: Statement)
    requires Synced(db) && (s.Append? || s.Rewrite? || s.CreateTable? || s.DropTable? || s.SetOther?)
    ensures Synced(Execute(db, s))
    ensures db.txn.Some? ==> Execute(db, s).txn.Some? && Execute(db, s).stored == db.stored
  {
  }

  lemma {:induction false} SyncedStep(db: Db, s: Statement)
    requires Synced(db)
    ensures Synced(Execute(db, s))
    ensures db.txn.Some? && !s.Commit? && !s.Rollback? ==> Execute(db, s).txn.Some? && Execute(db, s).stored == db.stored
    ensures db.txn.Some? && s.Commit? ==> Execute(db, s).stored == db.catalog
  {
    if s.Rollback? {
      SyncedRollback(db);
    } else if s.Append? || s.Rewrite? || s.CreateTable? || s.DropTable? || s.SetOther? {
      SyncedData(db, s);
    }
  }

  /** Statements that leave the transaction open, ROLLBACK TO among them. */
  predicate KeepsOpen(run: seq<Statement>) { forall s :: s in run ==> !s.Commit? && !s.Rollback? }

  /**
   Durable atomicity of the catalog: from BEGIN on, whatever the statements in between, the stored
   catalog stays the one of BEGIN until COMMIT replaces it by the one in memory.
   */
  lemma {:induction false} StoredCatalog(db0: Db, run: seq<Statement>)
    requires Synced(db0) && db0.txn.None? && KeepsOpen(run)
    ensures var db := Run(Execute(db0, Begin), run);
      Synced(db) && db.txn.Some? && db.stored == db0.catalog && Execute(db, Commit).stored == db.catalog
  {
    var start := Execute(db0, Begin);
    SyncedStep(db0, Begin);
    if run != [] {
      assert run[|run| - 1] in run;
      StoredCatalog(db0, run[..|run| - 1]);
      SyncedStep(Run(start, run[..|run| - 1]), run[|run| - 1]);
    }
    SyncedStep(Run(start, run), Commit);
  }

  // ── Where the statements fall short ──────────────────────────

  /** COMMIT deletes the files of the tables on the deferred list, whatever the catalog says of them. */
  lemma {:induction false} CommitFiles(db: Db, t: string)
    requires db.txn.Some?
    ensures FilesOf(Execute(db, Commit).store, t) == if t in db.txn.value.deferred then [] else FilesOf(db.store, t)
    ensures Execute(db, Commit).catalog == db.catalog
  {
  }

  lemma {:induction false} RewriteEffect(db: Db, t: string, rows: seq<Row>)
    requires db.txn.Some? && db.inTransaction && t in db.catalog.tables
    ensures var after := Execute(db, Rewrite(t, rows));
      && after.txn.Some? && after.inTransaction && after.txn.value.savepoints == db.txn.value.savepoints
      && StoreOf(after.store, t) == ReplaceFiles(StoreOf(db.store, t), rows)
  {
  }
}
