/**
 The catalog over whole runs: which tables and columns it has, told by the statements alone, and
 whether its file lists are those of the storage.
 */
module CatalogRuns {
  import opened Values
  import opened Transactions
  import opened TransactionTheorems
  import opened RollbackTheorems
  import opened SavepointRows
  import opened CommitTheorems

  /** Neither ROLLBACK nor ROLLBACK TO. */
  predicate GoesOn(run: seq<Statement>) { forall s :: s in run ==> !s.Rollback? && !s.RollbackTo? }

  // ── Tables, columns, indexes ─────────────────────────────────

  /** The columns of a table after the run, read off its CREATE and DROP statements; None: no table. */
  function ColumnsAfter(was: Option<seq<string>>, run: seq<Statement>, t: string): Option<seq<string>> {
    if run == [] then was else
      var now := ColumnsAfter(was, run[..|run| - 1], t);
      match run[|run| - 1]
      case CreateTable(u, columns) => if u == t && now.None? && columns != [] then Some(columns) else now
      case DropTable(u) => if u == t then None else now
      case _ => now
  }

  /** Some DROP of the run found the table. */
  predicate DroppedBy(was: Option<seq<string>>, run: seq<Statement>, t: string) {
    run != [] && (
      var before := run[..|run| - 1];
      DroppedBy(was, before, t) || (run[|run| - 1] == DropTable(t) && ColumnsAfter(was, before, t).Some?))
  }

  /** The value last set under a key. */
  function LastSet(was: Option<string>, run: seq<Statement>, key: string): Option<string> {
    if run == [] then was else
      match run[|run| - 1]
      case SetOther(k, v) => if k == key then Some(v) else LastSet(was, run[..|run| - 1], key)
      case _ => LastSet(was, run[..|run| - 1], key)
  }

  function Lookup<V>(m: map<string, V>, key: string): Option<V> { if key in m then Some(m[key]) else None }

  function ColumnsOf(c: Catalog, t: string): Option<seq<string>> { if t in c.tables then Some(c.tables[t].columns) else None }

  lemma {:induction false} ExecuteHandled(db: Db, s: Statement)
    ensures var after, handled := Execute(db, s), Handled(db, s);
      after.catalog == handled.catalog && after.store == handled.store && after.txn == handled.txn
  {
  }

  /** Writing rows changes no more than file lists. */
  lemma {:induction false} SameAfterWrite(db: Db, s: Statement, t: string)
    requires s.Append? || s.Rewrite?
    ensures ColumnsOf(Handled(db, s).catalog, t) == ColumnsOf(db.catalog, t)
    ensures Handled(db, s).catalog.indexTable == db.catalog.indexTable && Handled(db, s).catalog.other == db.catalog.other
  {
  }

  lemma {:induction false} SameTables(db: Db, s: Statement, t: string)
    requires !s.Rollback? && !s.RollbackTo? && !s.CreateTable? && !s.DropTable?
    ensures ColumnsOf(Handled(db, s).catalog, t) == ColumnsOf(db.catalog, t)
    ensures Handled(db, s).catalog.indexTable == db.catalog.indexTable
    ensures Handled(db, s).catalog.other == if s.SetOther? then db.catalog.other[s.key := s.value] else db.catalog.other
  {
    if s.Append? || s.Rewrite? { SameAfterWrite(db, s, t); }
  }

  lemma {:induction false} CreateTables(db: Db, u: string, columns: seq<string>, t: string)
    ensures var after := Handled(db, CreateTable(u, columns)).catalog;
      && ColumnsOf(after, t) == (if u == t && t !in db.catalog.tables && columns != [] then Some(columns) else ColumnsOf(db.catalog, t))
      && after.indexTable == db.catalog.indexTable && after.other == db.catalog.other
  {
  }

  lemma {:induction false} DropTables(db: Db, u: string, t: string, i: string)
    ensures var before, after := db.catalog, Handled(db, DropTable(u)).catalog;
      && ColumnsOf(after, t) == (if u == t then None else ColumnsOf(before, t))
      && Lookup(after.indexTable, i) ==
         (if i in before.indexTable && u == before.indexTable[i] && u in before.tables then None else Lookup(before.indexTable, i))
      && after.other == before.other
  {
  }

  lemma {:induction false} CatalogStep(db: Db, s: Statement, t: string, i: string, key: string)
    requires !s.Rollback? && !s.RollbackTo?
    ensures var before, after := db.catalog, Execute(db, s).catalog;
      && ColumnsOf(after, t) ==
         (match s
          case CreateTable(u, columns) => if u == t && t !in before.tables && columns != [] then Some(columns) else ColumnsOf(before, t)
          case DropTable(u) => if u == t then None else ColumnsOf(before, t)
          case _ => ColumnsOf(before, t))
      && Lookup(after.indexTable, i) ==
         (if i in before.indexTable && s == DropTable(before.indexTable[i]) && before.indexTable[i] in before.tables
          then None else Lookup(before.indexTable, i))
      && Lookup(after.other, key) == (if s.SetOther? && s.key == key then Some(s.value) else Lookup(before.other, key))
  {
    ExecuteHandled(db, s);
    match s
    case CreateTable(u, columns) => CreateTables(db, u, columns, t);
    case DropTable(u) => DropTables(db, u, t, i);
    case _ => SameTables(db, s, t);
  }

  /**
   Through any statements but ROLLBACK and ROLLBACK TO, inside transactions and outside, a table is in
   the catalog with the columns of the CREATE TABLE that made it until a DROP TABLE; an index goes with
   its table and not otherwise; other entries have the value last set.
   */
  lemma {:induction false} CatalogOfRun(db: Db, run: seq<Statement>, t: string, i: string, key: string)
    requires GoesOn(run)
    ensures var before, after := db.catalog, Run(db, run).catalog;
      && ColumnsOf(after, t) == ColumnsAfter(ColumnsOf(before, t), run, t)
      && Lookup(after.other, key) == LastSet(Lookup(before.other, key), run, key)
      && (i in before.indexTable ==>
            var u := before.indexTable[i];
            Lookup(after.indexTable, i) == if DroppedBy(ColumnsOf(before, u), run, u) then None else Some(u))
      && (i !in before.indexTable ==> i !in after.indexTable)
  {
    if run != [] {
      var front, s := run[..|run| - 1], run[|run| - 1];
      assert s in run && forall x :: x in front ==> x in run;
      CatalogOfRun(db, front, t, i, key);
      CatalogStep(Run(db, front), s, t, i, key);
      if i in db.catalog.indexTable { CatalogOfRun(db, front, db.catalog.indexTable[i], i, key); }
    }
  }

  // ── File lists ───────────────────────────────────────────────

  /** The catalog lists exactly the files of the table. */
  predicate Lists(db: Db, t: string) {
    t in db.catalog.tables ==> db.catalog.tables[t].fileStats == Ids(FilesOf(db.store, t))
  }

  lemma {:induction false} ListsDrop(db: Db, u: string, t: string)
    requires Lists(db, t)
    ensures Lists(Execute(db, DropTable(u)), t)
  {
  }

  lemma {:induction false} ListsAppend(db: Db, u: string, rows: seq<Row>, t: string)
    requires Lists(db, t)
    ensures Lists(Handled(db, Append(u, rows)), t)
  {
  }

  lemma {:induction false} ListsRewrite(db: Db, u: string, rows: seq<Row>, t: string)
    requires Lists(db, t)
    ensures Lists(Handled(db, Rewrite(u, rows)), t)
  {
  }

  lemma {:induction false} ListsCreate(db: Db, u: string, columns: seq<string>, t: string)
    requires Lists(db, t)
    ensures Lists(Handled(db, CreateTable(u, columns)), t)
  {
  }

  lemma {:induction false} ListsStep(db: Db, s: Statement, t: string)
    requires Lists(db, t) && !s.Commit? && !s.Rollback? && !s.RollbackTo?
    ensures Lists(Execute(db, s), t)
  {
    ExecuteHandled(db, s);
    match s
    case DropTable(u) => ListsDrop(db, u, t);
    case Append(u, rows) => ListsAppend(db, u, rows, t);
    case Rewrite(u, rows) => ListsRewrite(db, u, rows, t);
    case CreateTable(u, columns) => ListsCreate(db, u, columns, t);
    case _ =>
  }

  lemma {:induction false} RunLists(db: Db, run: seq<Statement>, t: string)
    requires Lists(db, t) && AllInside(run)
    ensures Lists(Run(db, run), t)
  {
    if run != [] {
      assert run[|run| - 1] in run && forall x :: x in run[..|run| - 1] ==> x in run;
      RunLists(db, run[..|run| - 1], t);
      ListsStep(Run(db, run[..|run| - 1]), run[|run| - 1], t);
    }
  }

  /** ROLLBACK of a transaction without ROLLBACK TO leaves the file lists right, rewritten tables included. */
  lemma {:induction false} RollbackLists(db0: Db, run: seq<Statement>, t: string)
    requires db0.txn.None? && StoreOrdered(db0.store) && AllInside(run) && Lists(db0, t)
    ensures Lists(Execute(Run(Execute(db0, Begin), run), Rollback), t)
  {
    RollbackCatalog(db0, run);
    if t in db0.catalog.tables { FullRollback(db0, run, t); }
  }

  /** COMMIT leaves a file list wrong if and only if the transaction dropped a table of that name and there is one again, with files. */
  lemma {:induction false} CommitListsExactly(db0: Db, run: seq<Statement>, t: string)
    requires db0.txn.None? && AllInside(run) && Lists(db0, t)
    ensures var start := Execute(db0, Begin);
      var db := Run(start, run);
      Lists(Execute(db, Commit), t) <==>
        t !in db.catalog.tables || !Dropped(start, run, t) || FilesOf(db.store, t) == []
  {
    var start := Execute(db0, Begin);
    BeginOpens(db0);
    RunLists(start, run, t);
    CommitKeepsFiles(db0, run, t);
    CommitEnds(db0, run, Commit);
  }

  /** The files of a table of the savepoint after ROLLBACK TO, if the table had no backup there. */
  lemma {:induction false} FilesAfterBack(db0: Db, run: seq<Statement>, name: string, i: nat, mark: seq<Statement>, t: string)
    requires db0.txn.None? && StoreOrdered(db0.store) && KeepsOpen(run) && LastPlace(Places(run), name) == Some(i)
    requires mark == run[..Places(run)[i].at] && t in Run(Execute(db0, Begin), mark).catalog.tables
    requires Backed(Execute(db0, Begin), mark, t).None?
    ensures var start := Execute(db0, Begin);
      FilesOf(Execute(Run(start, run), RollbackTo(name)).store, t) ==
        if Lost(start, run, |mark|, t) then [] else FilesOf(Run(start, mark).store, t)
  {
    var start := Execute(db0, Begin);
    var then_, db := Run(start, mark), Run(start, run);
    BeginBegins(db0);
    forall u | u in mark ensures !u.Commit? && !u.Rollback? { assert u in run; }
    RunStack(start, run);
    SameLast(db.txn.value.savepoints, Places(run), name);
    RunBacked(start, mark, t);
    RollbackToStore(db, name, i, t);
    assert db.txn.value.savepoints[i] == SavepointAt(name, then_);
    assert SavepointAt(name, then_).files[t] == IdSet(FilesOf(then_.store, t));
    SinceRun(start, run, i, mark, t);
    KeptFiles(StoreOf(then_.store, t), StoreOf(db.store, t), Lost(start, run, |mark|, t));
  }

  /**
   ROLLBACK TO leaves the file list of a table wrong if and only if it brings the table back without
   the files it had at the savepoint: it lists files that are gone.
   */
  lemma {:induction false} RollbackToListsExactly(db0: Db, run: seq<Statement>, name: string, i: nat, mark: seq<Statement>, t: string)
    requires db0.txn.None? && StoreOrdered(db0.store) && KeepsOpen(run) && LastPlace(Places(run), name) == Some(i)
    requires mark == run[..Places(run)[i].at] && Lists(Run(Execute(db0, Begin), mark), t)
    ensures var start := Execute(db0, Begin);
      var then_ := Run(start, mark);
      Lists(Execute(Run(start, run), RollbackTo(name)), t) <==>
        || t !in then_.catalog.tables || Backed(start, mark, t).Some?
        || !Lost(start, run, |mark|, t) || FilesOf(then_.store, t) == []
  {
    var start := Execute(db0, Begin);
    RollbackToExact(db0, run, name, i, t);
    if t in Run(start, mark).catalog.tables && Backed(start, mark, t).None? {
      FilesAfterBack(db0, run, name, i, mark, t);
      assert |Ids(FilesOf(Run(start, mark).store, t))| == |FilesOf(Run(start, mark).store, t)|;
    }
  }

  lemma {:induction false} DropDeletes(db: Db, t: string)
    requires db.txn.None? && t in db.catalog.tables
    ensures var after := Execute(db, DropTable(t)); FilesOf(after.store, t) == [] && t !in after.catalog.tables
  {
  }

  /** CREATE TABLE takes over the files it finds under the name. */
  lemma {:induction false} CreateFinds(db: Db, t: string, columns: seq<string>)
    requires t !in db.catalog.tables && columns != []
    ensures var after := Execute(db, CreateTable(t, columns));
      && ColumnsOf(after.catalog, t) == Some(columns) && after.store == db.store && after.txn == db.txn && Lists(after, t)
  {
  }

  /** DROP TABLE and CREATE TABLE of the same name outside a transaction: the table is empty. */
  lemma {:induction false} RecreatedOutside(db: Db, t: string, columns: seq<string>)
    requires db.txn.None? && t in db.catalog.tables && columns != []
    ensures var end := Execute(Execute(db, DropTable(t)), CreateTable(t, columns));
      && ColumnsOf(end.catalog, t) == Some(columns) && FilesOf(end.store, t) == [] && Lists(end, t)
  {
    DropDeletes(db, t);
    CreateFinds(Execute(db, DropTable(t)), t, columns);
  }

  /** Inside one the old files are still there and belong to the new table, until COMMIT deletes them. */
  lemma {:induction false} RecreatedInside(db: Db, t: string, columns: seq<string>)
    requires db.txn.Some? && db.inTransaction && t in db.catalog.tables && columns != []
    ensures var end := Execute(Execute(db, DropTable(t)), CreateTable(t, columns));
      && ColumnsOf(end.catalog, t) == Some(columns) && FilesOf(end.store, t) == FilesOf(db.store, t) && Lists(end, t)
      && FilesOf(Execute(end, Commit).store, t) == [] && t in Execute(end, Commit).catalog.tables
  {
    var dropped := Execute(db, DropTable(t));
    assert dropped.txn.value.deferred == db.txn.value.deferred + [t] && dropped.store == db.store;
    CreateFinds(dropped, t, columns);
    var end := Execute(dropped, CreateTable(t, columns));
    assert t in dropped.txn.value.deferred;
    CommitFiles(end, t);
  }
}
