/**
 ROLLBACK TO in any transaction, rewrites and drops included: which tables get back the rows they
 had at the savepoint, and which tables keep their files at the COMMIT that follows.
 */
module SavepointRows {
  import opened Values
  import opened Transactions
  import opened TransactionTheorems
  import opened RollbackTheorems

  // ── References: functions of the statements of a run ─────────

  /** A savepoint by its place: its name, and how many statements of the run come before it. */
  datatype Place = Place(name: string, at: nat)

  /** The latest place of that name. */
  function LastPlace(ps: seq<Place>, name: string): (r: Option<nat>)
    ensures r.Some? ==> r.value < |ps| && ps[r.value].name == name
  {
    if ps == [] then None
    else if ps[|ps| - 1].name == name then Some(|ps| - 1)
    else LastPlace(ps[..|ps| - 1], name)
  }

  function PlacesAfter(ps: seq<Place>, at: nat, s: Statement): seq<Place> {
    match s
    case SetSavepoint(name) => ps + [Place(name, at)]
    case RollbackTo(name) => (match LastPlace(ps, name) case Some(i) => ps[..i + 1] case None => ps)
    case Release(name) => (match LastPlace(ps, name) case Some(i) => ps[..i] case None => ps)
    case _ => ps
  }

  /** The savepoints that survive the run, oldest first. */
  function Places(run: seq<Statement>): (ps: seq<Place>)
    ensures forall i :: 0 <= i < |ps| ==> ps[i].at < |run|
    ensures forall i, j :: 0 <= i < j < |ps| ==> ps[i].at < ps[j].at
  {
    if run == [] then [] else PlacesAfter(Places(run[..|run| - 1]), |run| - 1, run[|run| - 1])
  }

  /** The statement is a ROLLBACK TO that finds its savepoint. */
  predicate GoesBack(run: seq<Statement>, s: Statement) { s.RollbackTo? && LastPlace(Places(run), s.name).Some? }

  /** Rows of `t` before its first rewrite since BEGIN or the last ROLLBACK TO. */
  function Backed(start: Db, run: seq<Statement>, t: string): Option<seq<Row>> {
    if run == [] then None else
      var before, s := run[..|run| - 1], run[|run| - 1];
      if GoesBack(before, s) then None
      else if Backed(start, before, t).None? && s.Rewrite? && Works(Run(start, before), s, t)
      then Some(TableRows(FilesOf(Run(start, before).store, t)))
      else Backed(start, before, t)
  }

  /** A ROLLBACK TO to a point without the table `t`, which the catalog has again. */
  predicate Discards(start: Db, run: seq<Statement>, s: Statement, t: string) {
    && GoesBack(run, s)
    && t in Run(start, run).catalog.tables
    && t !in Run(start, run[..Places(run)[LastPlace(Places(run), s.name).value].at]).catalog.tables
  }

  /** After the first `at` statements, one rewrote `t` or discarded it after it was created again. */
  predicate Lost(start: Db, run: seq<Statement>, at: nat, t: string) {
    |run| > at && (
      var before, s := run[..|run| - 1], run[|run| - 1];
      || Lost(start, before, at, t)
      || (s.Rewrite? && Works(Run(start, before), s, t))
      || Discards(start, before, s, t))
  }

  // ── The stack of savepoints and the backups ──────────────────

  function SavepointAt(name: string, db: Db): Savepoint
    requires db.txn.Some?
  {
    Savepoint(name, db.catalog, Snapshot(db), db.txn.value.backups)
  }

  ghost predicate StackPlaced(start: Db, run: seq<Statement>, sps: seq<Savepoint>, ps: seq<Place>) {
    && |sps| == |ps|
    && forall i :: 0 <= i < |ps| ==>
         && ps[i].at < |run|
         && Run(start, run[..ps[i].at]).txn.Some?
         && sps[i] == SavepointAt(ps[i].name, Run(start, run[..ps[i].at]))
  }

  lemma {:induction false} SameLast(sps: seq<Savepoint>, ps: seq<Place>, name: string)
    requires |sps| == |ps| && forall i :: 0 <= i < |ps| ==> sps[i].name == ps[i].name
    ensures LastIndex(sps, name) == LastPlace(ps, name)
  {
    if sps != [] { SameLast(sps[..|sps| - 1], ps[..|ps| - 1], name); }
  }

  /** What a statement that keeps the transaction open does to its savepoints. */
  lemma {:induction false} StackEffect(db: Db, s: Statement)
    requires db.txn.Some? && db.inTransaction && !s.Commit? && !s.Rollback?
    ensures var after, sps := Execute(db, s), db.txn.value.savepoints;
      && after.txn.Some? && after.inTransaction
      && after.txn.value.savepoints ==
         match s
         case SetSavepoint(name) => sps + [SavepointAt(name, db)]
         case RollbackTo(name) => (match LastIndex(sps, name) case Some(i) => sps[..i + 1] case None => sps)
         case Release(name) => (match LastIndex(sps, name) case Some(i) => sps[..i] case None => sps)
         case _ => sps
  {
    match s
    case SetSavepoint(name) =>
    case RollbackTo(name) =>
    case Release(name) =>
    case _ =>
  }

  lemma {:induction false} StackTake(start: Db, run: seq<Statement>, before: seq<Statement>,
                                     sps: seq<Savepoint>, ps: seq<Place>, k: nat)
    requires run != [] && before == run[..|run| - 1] && StackPlaced(start, before, sps, ps) && k <= |ps|
    ensures StackPlaced(start, run, sps[..k], ps[..k])
  {
    forall i | 0 <= i < k ensures before[..ps[i].at] == run[..ps[i].at] {}
  }

  lemma {:induction false} RunStack(start: Db, run: seq<Statement>)
    requires start.txn.Some? && start.inTransaction && start.txn.value.savepoints == [] && KeepsOpen(run)
    ensures Run(start, run).txn.Some? && Run(start, run).inTransaction
    ensures StackPlaced(start, run, Run(start, run).txn.value.savepoints, Places(run))
  {
    if run != [] {
      var before, s := run[..|run| - 1], run[|run| - 1];
      assert s in run;
      RunStack(start, before);
      StackStep(start, run, before, s, Run(start, before));
    }
  }

  lemma {:induction false} StackStep(start: Db, run: seq<Statement>, before: seq<Statement>, s: Statement, db: Db)
    requires run != [] && before == run[..|run| - 1] && s == run[|run| - 1] && db == Run(start, before)
    requires db.txn.Some? && db.inTransaction && !s.Commit? && !s.Rollback?
    requires StackPlaced(start, before, db.txn.value.savepoints, Places(before))
    ensures Execute(db, s).txn.Some? && Execute(db, s).inTransaction
    ensures StackPlaced(start, run, Execute(db, s).txn.value.savepoints, Places(run))
  {
    StackEffect(db, s);
    StackPlaces(start, run, before, s, db, db.txn.value.savepoints, Execute(db, s).txn.value.savepoints);
  }

  lemma {:induction false} StackPush(start: Db, run: seq<Statement>, before: seq<Statement>, db: Db, name: string,
                                     sps: seq<Savepoint>, ps: seq<Place>)
    requires run != [] && before == run[..|run| - 1] && db == Run(start, before) && db.txn.Some?
    requires StackPlaced(start, run, sps, ps)
    ensures StackPlaced(start, run, sps + [SavepointAt(name, db)], ps + [Place(name, |before|)])
  {
  }

  lemma {:induction false} StackPlaces(start: Db, run: seq<Statement>, before: seq<Statement>, s: Statement, db: Db,
                                       sps: seq<Savepoint>, sps': seq<Savepoint>)
    requires run != [] && before == run[..|run| - 1] && s == run[|run| - 1] && db == Run(start, before)
    requires db.txn.Some? && StackPlaced(start, before, sps, Places(before))
    requires sps' ==
      match s
      case SetSavepoint(name) => sps + [SavepointAt(name, db)]
      case RollbackTo(name) => (match LastIndex(sps, name) case Some(i) => sps[..i + 1] case None => sps)
      case Release(name) => (match LastIndex(sps, name) case Some(i) => sps[..i] case None => sps)
      case _ => sps
    ensures StackPlaced(start, run, sps', Places(run))
  {
    var ps := Places(before);
    StackTake(start, run, before, sps, ps, |ps|);
    assert sps[..|ps|] == sps && ps[..|ps|] == ps;
    match s
    case SetSavepoint(name) => StackPush(start, run, before, db, name, sps, ps);
    case RollbackTo(name) =>
      SameLast(sps, ps, name);
      if i :| LastPlace(ps, name) == Some(i) { StackTake(start, run, before, sps, ps, i + 1); }
    case Release(name) =>
      SameLast(sps, ps, name);
      if i :| LastPlace(ps, name) == Some(i) { StackTake(start, run, before, sps, ps, i); }
    case _ =>
  }

  /** But for a savepoint just set, the stack is a part of what it was. */
  lemma {:induction false} StackShrinks(before: seq<Statement>, s: Statement, i: nat)
    requires i < |PlacesAfter(Places(before), |before|, s)| && !(s.SetSavepoint? && i == |Places(before)|)
    ensures i < |Places(before)| && PlacesAfter(Places(before), |before|, s)[..i + 1] == Places(before)[..i + 1]
  {
  }

  /** A surviving savepoint was set by the last statement or survived before it. */
  lemma {:induction false} PlaceBefore(run: seq<Statement>, i: nat, mark: seq<Statement>, before: seq<Statement>, s: Statement)
    requires run != [] && before == run[..|run| - 1] && s == run[|run| - 1]
    requires i < |Places(run)| && mark == run[..Places(run)[i].at]
    ensures s.SetSavepoint? && i == |Places(before)| ==> mark == before
    ensures !(s.SetSavepoint? && i == |Places(before)|) ==>
      && i < |Places(before)| && mark == before[..Places(before)[i].at]
      && (GoesBack(before, s) ==> i <= LastPlace(Places(before), s.name).value)
  {
    var ps, last := Places(before), Places(run);
    if s.SetSavepoint? && i == |ps| {
      assert last[i].at == |before|;
    } else {
      StackShrinks(before, s, i);
      assert last[i] == last[..i + 1][i] && ps[i] == ps[..i + 1][i];
      assert before[..ps[i].at] == mark;
    }
  }

  /** A savepoint stands where it stood when it was set. */
  lemma {:induction false} PlaceStays(run: seq<Statement>, i: nat, mark: seq<Statement>)
    requires i < |Places(run)| && mark == run[..Places(run)[i].at]
    ensures Places(mark) == Places(run)[..i]
  {
    var before, s := run[..|run| - 1], run[|run| - 1];
    var ps, last := Places(before), Places(run);
    if s.SetSavepoint? && i == |ps| {
      assert mark == before && last[..i] == ps;
    } else {
      StackShrinks(before, s, i);
      assert last[..i + 1] == ps[..i + 1];
      assert last[i] == last[..i + 1][i] && ps[i] == ps[..i + 1][i];
      assert before[..ps[i].at] == mark;
      PlaceStays(before, i, mark);
      assert last[..i] == last[..i + 1][..i] && ps[..i] == ps[..i + 1][..i];
    }
  }

  // ── ROLLBACK TO on one table ─────────────────────────────────

  /** The files that going back to a savepoint leaves, before backups are written back. */
  function KeptStore(db: Db, sp: Savepoint, t: string): TableStore {
    var s := StoreOf(db.store, t);
    if t in sp.files then TableStore(Keep(s.files, sp.files[t]), s.next)
    else if t in db.catalog.tables then TableStore([], s.next)
    else s
  }

  lemma {:induction false} RevertedIsKept(db: Db, sp: Savepoint, t: string)
    ensures StoreOf(RevertedStore(db, sp.files), t) == KeptStore(db, sp, t)
  {
  }

  lemma {:induction false} WrittenBack(c: Catalog, store: Store, backups: map<string, seq<Row>>, t: string)
    ensures StoreOf(RestoredStore(c, store, backups), t) ==
      if t in backups && t in c.tables then ReplaceFiles(StoreOf(store, t), backups[t]) else StoreOf(store, t)
  {
  }

  /** The storage of one table after ROLLBACK TO, in every state. */
  lemma {:induction false} RollbackToStore(db: Db, name: string, i: nat, t: string)
    requires db.txn.Some? && db.inTransaction && LastIndex(db.txn.value.savepoints, name) == Some(i)
    ensures var sp, after := db.txn.value.savepoints[i], Execute(db, RollbackTo(name));
      && StoreOf(after.store, t) ==
         (if t in sp.backups && t in sp.catalog.tables then ReplaceFiles(KeptStore(db, sp, t), sp.backups[t]) else KeptStore(db, sp, t))
      && after.txn.Some? && after.txn.value.backups == map[] && after.txn.value.deferred == db.txn.value.deferred
  {
    var sp := db.txn.value.savepoints[i];
    RevertedIsKept(db, sp, t);
    WrittenBack(sp.catalog, RevertedStore(db, sp.files), sp.backups, t);
    var after := RollbackToDb(db, name).value;
    assert after.store == RestoredStore(sp.catalog, RevertedStore(db, sp.files), sp.backups);
  }

  /** And the catalog. */
  lemma {:induction false} RollbackToCatalog(db: Db, name: string, i: nat, t: string)
    requires db.txn.Some? && db.inTransaction && LastIndex(db.txn.value.savepoints, name) == Some(i)
    ensures var sp, after := db.txn.value.savepoints[i], Execute(db, RollbackTo(name));
      && after.catalog.tables.Keys == sp.catalog.tables.Keys
      && (t in sp.catalog.tables ==> after.catalog.tables[t] == Relisted(sp.catalog, after.store, t, t in sp.backups))
      && after.catalog.indexTable == sp.catalog.indexTable && after.catalog.other == sp.catalog.other
  {
    var sp := db.txn.value.savepoints[i];
    var after := RollbackToDb(db, name).value;
    assert after.store == RestoredStore(sp.catalog, RevertedStore(db, sp.files), sp.backups);
    assert after.catalog == RestoredCatalog(sp.catalog, RevertedStore(db, sp.files), sp.backups);
  }

  /** And of every other statement that keeps the transaction open. */
  lemma {:induction false} OtherStore(db: Db, s: Statement, t: string)
    requires db.txn.Some? && db.inTransaction && !s.Commit? && !s.Rollback?
    requires s.RollbackTo? ==> LastIndex(db.txn.value.savepoints, s.name).None?
    ensures StoreOf(Execute(db, s).store, t) ==
      if !Works(db, s, t) then StoreOf(db.store, t)
      else if s.Append? then AddFile(StoreOf(db.store, t), s.rows)
      else ReplaceFiles(StoreOf(db.store, t), s.rows)
    ensures BackupOf(Execute(db, s), t) ==
      if Works(db, s, t) && s.Rewrite? && BackupOf(db, t).None? then Some(TableRows(FilesOf(db.store, t)))
      else BackupOf(db, t)
  {
    if s.RollbackTo? {
      assert RollbackToDb(db, s.name).Err?;
    } else {
      StorageEffect(db, s, t);
      BackupEffect(db, s, t);
    }
  }

  lemma {:induction false} BackupStep(db: Db, ps: seq<Place>, s: Statement, t: string)
    requires db.txn.Some? && db.inTransaction && !s.Commit? && !s.Rollback?
    requires |ps| == |db.txn.value.savepoints|
    requires forall i :: 0 <= i < |ps| ==> db.txn.value.savepoints[i].name == ps[i].name
    ensures Execute(db, s).txn.Some?
    ensures BackupOf(Execute(db, s), t) ==
      if s.RollbackTo? && LastPlace(ps, s.name).Some? then None
      else if Works(db, s, t) && s.Rewrite? && BackupOf(db, t).None? then Some(TableRows(FilesOf(db.store, t)))
      else BackupOf(db, t)
  {
    StackEffect(db, s);
    if s.RollbackTo? { SameLast(db.txn.value.savepoints, ps, s.name); }
    if s.RollbackTo? && LastPlace(ps, s.name).Some? {
      RollbackToStore(db, s.name, LastPlace(ps, s.name).value, t);
    } else {
      OtherStore(db, s, t);
    }
  }

  /** The backup the engine holds is the one of the reference. */
  lemma {:induction false} RunBacked(start: Db, run: seq<Statement>, t: string)
    requires start.txn.Some? && start.inTransaction && start.txn.value.savepoints == [] && KeepsOpen(run)
    requires start.txn.value.backups == map[]
    ensures Run(start, run).txn.Some? && BackupOf(Run(start, run), t) == Backed(start, run, t)
  {
    if run != [] {
      var before, s := run[..|run| - 1], run[|run| - 1];
      assert s in run;
      RunBacked(start, before, t);
      RunStack(start, before);
      BackupStep(Run(start, before), Places(before), s, t);
    }
  }

  /** A backup taken since the savepoint means that the table was rewritten since then. */
  lemma {:induction false} BackedIsLost(start: Db, run: seq<Statement>, at: nat, t: string)
    requires at <= |run| && Backed(start, run[..at], t).None?
    ensures Backed(start, run, t).Some? ==> Lost(start, run, at, t)
  {
    if at == |run| {
      assert run[..at] == run;
    } else {
      var before := run[..|run| - 1];
      assert before[..at] == run[..at];
      BackedIsLost(start, before, at, t);
    }
  }

  /** What is lost at some point, or since a later point, stays lost. */
  lemma {:induction false} LostStays(start: Db, run: seq<Statement>, at: nat, to: nat, t: string)
    requires at <= to <= |run|
    ensures Lost(start, run[..to], at, t) ==> Lost(start, run, at, t)
    ensures Lost(start, run, to, t) ==> Lost(start, run, at, t)
  {
    if to == |run| {
      assert run[..to] == run;
    } else {
      var before := run[..|run| - 1];
      assert before[..to] == run[..to];
      LostStays(start, before, at, to, t);
    }
  }

  // ── The invariant of one table and one savepoint ─────────────

  lemma {:induction false} SinceAdd(s0: TableStore, s: TableStore, lost: bool, rows: seq<Row>)
    requires Since(s0, s, lost)
    ensures Since(s0, AddFile(s, rows), lost) && Since(s0, ReplaceFiles(s, rows), true)
  {
    AddOrdered(s, rows);
  }

  lemma {:induction false} SinceKeep(s0: TableStore, s: TableStore, known: set<nat>)
    requires Since(s0, s, true)
    ensures Since(s0, TableStore(Keep(s.files, known), s.next), true)
  {
    KeepSubsequence(s.files, known, s.next);
    var kept := Keep(s.files, known);
    forall i | 0 <= i < |kept| ensures s0.next <= kept[i].id {
      assert kept[i] in s.files;
    }
  }

  lemma {:induction false} KeptOrdered(db: Db, sp: Savepoint, t: string)
    requires Ordered(StoreOf(db.store, t))
    ensures Ordered(KeptStore(db, sp, t))
  {
    var s := StoreOf(db.store, t);
    if t in sp.files { KeepSubsequence(s.files, sp.files[t], s.next); }
  }

  lemma {:induction false} OrderedBack(db: Db, name: string, i: nat, t: string)
    requires db.txn.Some? && db.inTransaction && LastIndex(db.txn.value.savepoints, name) == Some(i)
    requires Ordered(StoreOf(db.store, t))
    ensures Ordered(StoreOf(Execute(db, RollbackTo(name)).store, t))
  {
    var sp := db.txn.value.savepoints[i];
    RollbackToStore(db, name, i, t);
    KeptOrdered(db, sp, t);
    if t in sp.backups { AddOrdered(KeptStore(db, sp, t), sp.backups[t]); }
  }

  lemma {:induction false} OrderedStep(db: Db, s: Statement, t: string)
    requires db.txn.Some? && db.inTransaction && !s.Commit? && !s.Rollback? && Ordered(StoreOf(db.store, t))
    ensures Ordered(StoreOf(Execute(db, s).store, t))
  {
    if s.RollbackTo? && LastIndex(db.txn.value.savepoints, s.name).Some? {
      OrderedBack(db, s.name, LastIndex(db.txn.value.savepoints, s.name).value, t);
    } else {
      OtherStore(db, s, t);
      if Works(db, s, t) { AddOrdered(StoreOf(db.store, t), s.rows); }
    }
  }

  /** A transaction just begun: nothing backed up, no savepoint. */
  ghost predicate Begun(start: Db) {
    && start.txn.Some? && start.inTransaction && StoreOrdered(start.store)
    && start.txn.value.savepoints == [] && start.txn.value.backups == map[]
  }

  lemma {:induction false} RunOrdered(start: Db, run: seq<Statement>, t: string)
    requires Begun(start) && KeepsOpen(run)
    ensures Ordered(StoreOf(Run(start, run).store, t))
  {
    if run == [] {
      assert Ordered(StoreOf(start.store, t));
    } else {
      var before := run[..|run| - 1];
      assert run[|run| - 1] in run;
      RunOrdered(start, before, t);
      RunStack(start, before);
      OrderedStep(Run(start, before), run[|run| - 1], t);
    }
  }

  /** A statement that goes back to no savepoint. */
  lemma {:induction false} SinceStep(db: Db, s: Statement, t: string, s0: TableStore, lost: bool)
    requires db.txn.Some? && db.inTransaction && !s.Commit? && !s.Rollback?
    requires s.RollbackTo? ==> LastIndex(db.txn.value.savepoints, s.name).None?
    requires Since(s0, StoreOf(db.store, t), lost)
    ensures Since(s0, StoreOf(Execute(db, s).store, t), lost || (s.Rewrite? && Works(db, s, t)))
  {
    OtherStore(db, s, t);
    if Works(db, s, t) { SinceAdd(s0, StoreOf(db.store, t), lost, s.rows); }
  }

  /** A ROLLBACK TO: `s0` is the storage at an older savepoint or the same, `sm` that at its own. */
  lemma {:induction false} SinceBack(s0: TableStore, sm: TableStore, s: TableStore, lost: bool, lostAt: bool, lostSince: bool)
    requires Since(s0, s, lost) && Since(s0, sm, lostAt) && Since(sm, s, lostSince)
    requires lostAt || lostSince ==> lost
    ensures Since(s0, TableStore(Keep(s.files, IdSet(sm.files)), s.next), lost)
  {
    if lost {
      SinceKeep(s0, s, IdSet(sm.files));
    } else {
      KeptFiles(sm, s, false);
    }
  }

  /** What a ROLLBACK TO makes of the files of an older savepoint, if those it keeps are as they should be. */
  lemma {:induction false} SinceGoesBack(db: Db, name: string, j: nat, t: string, s0: TableStore, lost: bool)
    requires db.txn.Some? && db.inTransaction && LastIndex(db.txn.value.savepoints, name) == Some(j)
    requires Since(s0, StoreOf(db.store, t), lost)
    requires var sp := db.txn.value.savepoints[j];
      && (t in sp.files <==> t in sp.catalog.tables)
      && (t in sp.files ==>
            && Since(s0, KeptStore(db, sp, t), lost)
            && (t in sp.backups ==> lost))
    ensures var sp := db.txn.value.savepoints[j];
      Since(s0, StoreOf(Execute(db, RollbackTo(name)).store, t), lost || (t !in sp.files && t in db.catalog.tables))
  {
    var sp := db.txn.value.savepoints[j];
    RollbackToStore(db, name, j, t);
    if t in sp.files && t in sp.backups { SinceAdd(s0, KeptStore(db, sp, t), lost, sp.backups[t]); }
  }

  /** The savepoint of a ROLLBACK TO, in terms of the run. */
  lemma {:induction false} SavepointOf(start: Db, before: seq<Statement>, name: string, j: nat, m: seq<Statement>, t: string)
    requires Begun(start) && KeepsOpen(before) && LastPlace(Places(before), name) == Some(j)
    requires m == before[..Places(before)[j].at]
    ensures Run(start, before).txn.Some? && Run(start, before).inTransaction
    ensures LastIndex(Run(start, before).txn.value.savepoints, name) == Some(j)
    ensures var sp, dm := Run(start, before).txn.value.savepoints[j], Run(start, m);
      && dm.txn.Some? && sp.catalog == dm.catalog && sp.files == Snapshot(dm)
      && (t in sp.backups <==> Backed(start, m, t).Some?)
  {
    RunStack(start, before);
    SameLast(Run(start, before).txn.value.savepoints, Places(before), name);
    forall u | u in m ensures !u.Commit? && !u.Rollback? { assert u in before; }
    RunBacked(start, m, t);
    assert BackupOf(Run(start, m), t) == Backed(start, m, t);
  }

  lemma {:induction false} SinceReturns(start: Db, run: seq<Statement>, before: seq<Statement>, s: Statement,
                                        m: seq<Statement>, j: nat, at: nat, t: string, s0: TableStore)
    requires Begun(start) && KeepsOpen(run) && run != [] && before == run[..|run| - 1] && s == run[|run| - 1]
    requires s.RollbackTo? && LastPlace(Places(before), s.name) == Some(j) && m == before[..Places(before)[j].at]
    requires at <= |m| && Backed(start, before[..at], t).None?
    requires Since(s0, StoreOf(Run(start, before).store, t), Lost(start, before, at, t))
    requires Backed(start, m, t).None? ==>
      && Since(s0, StoreOf(Run(start, m).store, t), Lost(start, m, at, t))
      && Since(StoreOf(Run(start, m).store, t), StoreOf(Run(start, before).store, t), Lost(start, before, |m|, t))
    ensures Since(s0, StoreOf(Run(start, run).store, t), Lost(start, run, at, t))
  {
    assert KeepsOpen(before);
    var db, dm := Run(start, before), Run(start, m);
    var lost := Lost(start, before, at, t);
    SavepointOf(start, before, s.name, j, m, t);
    var sp := db.txn.value.savepoints[j];
    assert m[..at] == before[..at];
    BackedIsLost(start, m, at, t);
    LostStays(start, before, at, |m|, t);
    if t in sp.files {
      assert sp.files[t] == IdSet(FilesOf(dm.store, t));
      if Backed(start, m, t).None? {
        SinceBack(s0, StoreOf(dm.store, t), StoreOf(db.store, t), lost, Lost(start, m, at, t), Lost(start, before, |m|, t));
      } else {
        SinceKeep(s0, StoreOf(db.store, t), sp.files[t]);
      }
    }
    SinceGoesBack(db, s.name, j, t, s0, lost);
    assert s == RollbackTo(s.name);
  }

  lemma {:induction false} SinceStays(start: Db, run: seq<Statement>, at: nat, t: string, s0: TableStore)
    requires Begun(start) && KeepsOpen(run) && at < |run| && !GoesBack(run[..|run| - 1], run[|run| - 1])
    requires Since(s0, StoreOf(Run(start, run[..|run| - 1]).store, t), Lost(start, run[..|run| - 1], at, t))
    ensures Since(s0, StoreOf(Run(start, run).store, t), Lost(start, run, at, t))
  {
    var before, s := run[..|run| - 1], run[|run| - 1];
    assert s in run;
    var db := Run(start, before);
    RunStack(start, before);
    if s.RollbackTo? { SameLast(db.txn.value.savepoints, Places(before), s.name); }
    SinceStep(db, s, t, s0, Lost(start, before, at, t));
  }

  /**
   Where the files of `t` at a surviving savepoint are at the end of the run, if they had no backup;
   `mark` is the part of the run before that savepoint.
   */
  lemma {:induction false} SinceRun(start: Db, run: seq<Statement>, i: nat, mark: seq<Statement>, t: string)
    requires Begun(start) && KeepsOpen(run) && i < |Places(run)| && mark == run[..Places(run)[i].at]
    requires Backed(start, mark, t).None?
    ensures Since(StoreOf(Run(start, mark).store, t), StoreOf(Run(start, run).store, t), Lost(start, run, |mark|, t))
    decreases |run|, 1
  {
    var before, s := run[..|run| - 1], run[|run| - 1];
    var s0 := StoreOf(Run(start, mark).store, t);
    assert KeepsOpen(before);
    PlaceBefore(run, i, mark, before, s);
    if s.SetSavepoint? && i == |Places(before)| {
      RunOrdered(start, before, t);
      SinceStays(start, run, |mark|, t, s0);
    } else {
      SinceRun(start, before, i, mark, t);
      if GoesBack(before, s) {
        SinceReturn(start, run, before, s, i, LastPlace(Places(before), s.name).value, mark, t);
      } else {
        SinceStays(start, run, |mark|, t, s0);
      }
    }
  }

  lemma {:induction false} SinceReturn(start: Db, run: seq<Statement>, before: seq<Statement>, s: Statement,
                                       i: nat, j: nat, mark: seq<Statement>, t: string)
    requires Begun(start) && KeepsOpen(run) && run != [] && before == run[..|run| - 1] && s == run[|run| - 1]
    requires s.RollbackTo? && LastPlace(Places(before), s.name) == Some(j) && i <= j
    requires mark == before[..Places(before)[i].at] && Backed(start, mark, t).None?
    requires Since(StoreOf(Run(start, mark).store, t), StoreOf(Run(start, before).store, t), Lost(start, before, |mark|, t))
    ensures Since(StoreOf(Run(start, mark).store, t), StoreOf(Run(start, run).store, t), Lost(start, run, |mark|, t))
    decreases |run|, 0
  {
    var m := before[..Places(before)[j].at];
    assert KeepsOpen(before);
    if Backed(start, m, t).None? {
      SinceRun(start, before, j, m, t);
      SinceUpTo(start, before, i, j, mark, m, t);
    }
    SinceReturns(start, run, before, s, m, j, |mark|, t, StoreOf(Run(start, mark).store, t));
  }

  /** The same between two surviving savepoints. */
  lemma {:induction false} SinceUpTo(start: Db, run: seq<Statement>, i: nat, j: nat,
                                     mark: seq<Statement>, m: seq<Statement>, t: string)
    requires Begun(start) && KeepsOpen(run) && i <= j < |Places(run)|
    requires mark == run[..Places(run)[i].at] && m == run[..Places(run)[j].at]
    requires Backed(start, mark, t).None?
    ensures |mark| <= |m|
    ensures Since(StoreOf(Run(start, mark).store, t), StoreOf(Run(start, m).store, t), Lost(start, m, |mark|, t))
    decreases |run|, 0
  {
    forall u | u in m ensures !u.Commit? && !u.Rollback? { assert u in run; }
    if i < j {
      PlaceStays(run, j, m);
      assert m[..|mark|] == mark;
      SinceRun(start, m, i, mark, t);
    } else {
      RunOrdered(start, m, t);
    }
  }

  predicate NoEmptyFile(s: TableStore) { forall f :: f in s.files ==> f.rows != [] }

  lemma {:induction false} NoEmptyFileStep(db: Db, s: Statement, t: string)
    requires db.txn.Some? && db.inTransaction && !s.Commit? && !s.Rollback?
    requires Ordered(StoreOf(db.store, t)) && NoEmptyFile(StoreOf(db.store, t))
    ensures NoEmptyFile(StoreOf(Execute(db, s).store, t))
  {
    if s.RollbackTo? && LastIndex(db.txn.value.savepoints, s.name).Some? {
      var i := LastIndex(db.txn.value.savepoints, s.name).value;
      var sp := db.txn.value.savepoints[i];
      RollbackToStore(db, s.name, i, t);
      if t in sp.files { KeepSubsequence(FilesOf(db.store, t), sp.files[t], StoreOf(db.store, t).next); }
    } else {
      OtherStore(db, s, t);
    }
  }

  /** No statement of a transaction writes a file without rows: what a rewrite empties has no files. */
  lemma {:induction false} RunWritesRows(start: Db, run: seq<Statement>, t: string)
    requires Begun(start) && KeepsOpen(run) && NoEmptyFile(StoreOf(start.store, t))
    ensures NoEmptyFile(StoreOf(Run(start, run).store, t))
    ensures TableRows(FilesOf(Run(start, run).store, t)) == [] ==> FilesOf(Run(start, run).store, t) == []
  {
    if run != [] {
      var before := run[..|run| - 1];
      assert run[|run| - 1] in run;
      RunWritesRows(start, before, t);
      RunStack(start, before);
      RunOrdered(start, before, t);
      NoEmptyFileStep(Run(start, before), run[|run| - 1], t);
    }
    var files := FilesOf(Run(start, run).store, t);
    if files != [] { assert files[|files| - 1] in files; }
  }

  // ── ROLLBACK TO over whole runs ──────────────────────────────

  lemma {:induction false} BeginBegins(db0: Db)
    requires db0.txn.None? && StoreOrdered(db0.store)
    ensures Begun(Execute(db0, Begin)) && Execute(db0, Begin).store == db0.store
    ensures Opened(db0, Execute(db0, Begin))
  {
    BeginOpens(db0);
  }

  /**
   ROLLBACK TO after any statements of a transaction, earlier ROLLBACK TOs included: the catalog is
   that of the savepoint but for the file lists of rewritten tables, and a table of the savepoint
   gets back the rows it had there if and only if one of two things holds. Either it had been
   rewritten since BEGIN or the last ROLLBACK TO, and its rows before the first of those rewrites
   are its rows at the savepoint; or it had not, and since then it has not been rewritten nor
   discarded by another ROLLBACK TO -- unless it had no rows to lose.
   */
  lemma {:induction false} RollbackToExact(db0: Db, run: seq<Statement>, name: string, i: nat, t: string)
    requires db0.txn.None? && StoreOrdered(db0.store) && KeepsOpen(run) && LastPlace(Places(run), name) == Some(i)
    ensures var start, mark := Execute(db0, Begin), run[..Places(run)[i].at];
      var then_, after := Run(start, mark), Execute(Run(start, run), RollbackTo(name));
      && after.catalog.tables.Keys == then_.catalog.tables.Keys
      && after.catalog.indexTable == then_.catalog.indexTable && after.catalog.other == then_.catalog.other
      && (t in then_.catalog.tables ==>
            var rows := TableRows(FilesOf(then_.store, t));
            && after.catalog.tables[t] == Relisted(then_.catalog, after.store, t, Backed(start, mark, t).Some?)
            && TableRows(FilesOf(after.store, t)) ==
               (match Backed(start, mark, t)
                case Some(older) => older
                case None => if Lost(start, run, |mark|, t) then [] else rows)
            && (TableRows(FilesOf(after.store, t)) == rows <==>
                match Backed(start, mark, t)
                case Some(older) => older == rows
                case None => !Lost(start, run, |mark|, t) || rows == []))
  {
    var start, mark := Execute(db0, Begin), run[..Places(run)[i].at];
    var then_, db := Run(start, mark), Run(start, run);
    BeginBegins(db0);
    forall u | u in mark ensures !u.Commit? && !u.Rollback? { assert u in run; }
    RunStack(start, run);
    SameLast(db.txn.value.savepoints, Places(run), name);
    RunBacked(start, mark, t);
    RollbackToStore(db, name, i, t);
    RollbackToCatalog(db, name, i, t);
    var sp, s := SavepointAt(name, then_), StoreOf(db.store, t);
    assert db.txn.value.savepoints[i] == sp;
    if t in then_.catalog.tables {
      assert sp.files[t] == IdSet(FilesOf(then_.store, t));
      match Backed(start, mark, t) {
        case Some(older) => ReplaceRows(TableStore(Keep(s.files, sp.files[t]), s.next), older);
        case None =>
          SinceRun(start, run, i, mark, t);
          KeptFiles(StoreOf(then_.store, t), s, Lost(start, run, |mark|, t));
      }
    }
  }

  lemma {:induction false} BackupReturns(db0: Db, run: seq<Statement>, mark: seq<Statement>, name: string, i: nat, t: string, older: seq<Row>)
    requires db0.txn.None? && StoreOrdered(db0.store) && KeepsOpen(run) && LastPlace(Places(run), name) == Some(i)
    requires mark == run[..Places(run)[i].at] && t in Run(Execute(db0, Begin), mark).catalog.tables
    requires Backed(Execute(db0, Begin), mark, t) == Some(older)
    ensures TableRows(FilesOf(Execute(Run(Execute(db0, Begin), run), RollbackTo(name)).store, t)) == older
  {
    RollbackToExact(db0, run, name, i, t);
  }

  /** ROLLBACK TO leaves a transaction that begins at the state it restored. */
  lemma {:induction false} Rebased(db: Db, name: string)
    requires db.txn.Some? && db.inTransaction && LastIndex(db.txn.value.savepoints, name).Some?
    ensures var base := Execute(db, RollbackTo(name));
      Opened(base, base) && base.txn.value.backups == map[]
  {
    var base := RollbackToDb(db, name).value;
    assert Handled(db, RollbackTo(name)) == base;
    assert base.txn.value.files == Snapshot(base.(txn := db.txn));
    assert FlushIfDirty(base).store == base.store && FlushIfDirty(base).catalog == base.catalog;
  }

  lemma {:induction false} BaseAfterBack(start: Db, run: seq<Statement>, name: string)
    requires Begun(start) && KeepsOpen(run) && LastPlace(Places(run), name).Some?
    ensures var base := Execute(Run(start, run), RollbackTo(name));
      Opened(base, base) && base.txn.value.backups == map[] && StoreOrdered(base.store)
  {
    RunStack(start, run);
    var db := Run(start, run);
    SameLast(db.txn.value.savepoints, Places(run), name);
    Rebased(db, name);
    forall t ensures Ordered(StoreOf(Execute(db, RollbackTo(name)).store, t)) {
      RunOrdered(start, run, t);
      OrderedStep(db, RollbackTo(name), t);
    }
  }

  /**
   A ROLLBACK after a ROLLBACK TO undoes only what came after it: a table has the files again that
   ROLLBACK TO left or, if it was rewritten since, the rows it had before the first such rewrite;
   the catalog is the one ROLLBACK TO left but for the file lists of those tables. Nothing that was
   done before the savepoint is undone, as `RollbackToExact` says what ROLLBACK TO leaves.
   */
  lemma {:induction false} RollbackAfterRollbackTo(db0: Db, run: seq<Statement>, name: string, rest: seq<Statement>, t: string)
    requires db0.txn.None? && StoreOrdered(db0.store) && KeepsOpen(run) && LastPlace(Places(run), name).Some?
    requires AllInside(rest)
    ensures var base := Execute(Run(Execute(db0, Begin), run), RollbackTo(name));
      var end := Execute(Run(base, rest), Rollback);
      && end.stored == end.catalog && end.txn.None? && end.catalog.tables.Keys == base.catalog.tables.Keys
      && (t in base.catalog.tables ==>
            && end.catalog.tables[t] == Relisted(base.catalog, end.store, t, FirstRewrite(base, rest, t).Some?)
            && match FirstRewrite(base, rest, t)
               case None => FilesOf(end.store, t) == FilesOf(base.store, t)
               case Some(app) => TableRows(FilesOf(end.store, t)) == TableRows(FilesOf(base.store, t)) + app)
  {
    var start := Execute(db0, Begin);
    var base := Execute(Run(start, run), RollbackTo(name));
    BeginBegins(db0);
    BaseAfterBack(start, run, name);
    RunFollows(base, base, rest, t);
    var db := Run(base, rest);
    RollbackCatalogOf(base, db);
    if t in base.catalog.tables {
      RollbackStore(base, db, t);
      KeptFiles(StoreOf(base.store, t), StoreOf(db.store, t), FirstRewrite(base, rest, t).Some?);
      if BackupOf(db, t).Some? { ReplaceRows(TableStore([], StoreOf(db.store, t).next), BackupOf(db, t).value); }
    }
  }

  /** Before the first ROLLBACK TO: the backup is the rows of BEGIN and what was appended before the first rewrite. */
  lemma {:induction false} BackedSinceBegin(db0: Db, run: seq<Statement>, t: string)
    requires db0.txn.None? && StoreOrdered(db0.store) && AllInside(run)
    ensures var start := Execute(db0, Begin);
      Backed(start, run, t) ==
      match FirstRewrite(start, run, t)
      case Some(app) => Some(TableRows(FilesOf(db0.store, t)) + app)
      case None => None
  {
    var start := Execute(db0, Begin);
    BeginBegins(db0);
    RunBacked(start, run, t);
    RunFollows(db0, start, run, t);
  }

  // ── Three short transactions ─────────────────────────────────

  /** A statement with its savepoint behind it. */
  lemma {:induction false} ThenSavepoint(start: Db, s: Statement, name: string)
    requires !s.SetSavepoint? && !s.RollbackTo? && !s.Release?
    ensures var run := [s, SetSavepoint(name)];
      Places(run) == [Place(name, 1)] && run[..1] == [s] && Run(start, run[..1]) == Execute(start, s)
  {
    var run := [s, SetSavepoint(name)];
    assert [s][..0] == [] && run[..1] == [s];
    assert Places([s]) == [];
    assert Run(start, [s]) == Execute(Run(start, []), s);
  }

  /** A statement behind the savepoint it starts with. */
  lemma {:induction false} SavepointThen(start: Db, s: Statement, name: string)
    requires !s.SetSavepoint? && !s.RollbackTo? && !s.Release?
    ensures var run := [SetSavepoint(name), s];
      && Places(run) == [Place(name, 0)] && run[..0] == [] && Run(start, run[..0]) == start
      && Run(start, run) == Execute(Execute(start, SetSavepoint(name)), s)
  {
    var set_ := SetSavepoint(name);
    var run := [set_, s];
    assert [set_][..0] == [] && run[..1] == [set_];
    assert Places([set_]) == [Place(name, 0)];
    assert Run(start, [set_]) == Execute(Run(start, []), set_);
  }

  lemma {:induction false} BackedOne(start: Db, t: string, left: seq<Row>)
    requires t in start.catalog.tables
    ensures Backed(start, [Rewrite(t, left)], t) == Some(TableRows(FilesOf(start.store, t)))
  {
    assert [Rewrite(t, left)][..0] == [];
    assert Works(start, Rewrite(t, left), t);
  }

  lemma {:induction false} AfterRewrite(db0: Db, t: string, left: seq<Row>)
    requires db0.txn.None? && t in db0.catalog.tables
    ensures var db := Execute(Execute(db0, Begin), Rewrite(t, left));
      t in db.catalog.tables && TableRows(FilesOf(db.store, t)) == left
    ensures Backed(Execute(db0, Begin), [Rewrite(t, left)], t) == Some(TableRows(FilesOf(db0.store, t)))
  {
    var start := Execute(db0, Begin);
    BeginOpens(db0);
    BackedOne(start, t, left);
    RewriteEffect(start, t, left);
    ReplaceRows(StoreOf(start.store, t), left);
    assert Execute(start, Rewrite(t, left)).catalog.tables.Keys == start.catalog.tables.Keys;
  }

  lemma {:induction false} RewriteThenBack(db0: Db, start: Db, rewrite: Statement, run: seq<Statement>, name: string, t: string, older: seq<Row>)
    requires db0.txn.None? && StoreOrdered(db0.store) && t in db0.catalog.tables && start == Execute(db0, Begin)
    requires rewrite.Rewrite? && rewrite.table == t && run == [rewrite, SetSavepoint(name)]
    requires older == TableRows(FilesOf(db0.store, t))
    ensures TableRows(FilesOf(Run(start, run[..1]).store, t)) == rewrite.rows
    ensures TableRows(FilesOf(Execute(Run(start, run), RollbackTo(name)).store, t)) == older
  {
    AfterRewrite(db0, t, rewrite.rows);
    ThenSavepoint(start, rewrite, name);
    BackupReturns(db0, run, [rewrite], name, 0, t, older);
  }

  /** DELETE, SAVEPOINT, and ROLLBACK TO with nothing in between: the deleted rows are back. */
  lemma {:induction false} DeleteThenSavepoint(db0: Db, t: string, left: seq<Row>, name: string)
    requires db0.txn.None? && StoreOrdered(db0.store) && t in db0.catalog.tables
    ensures var start, run := Execute(db0, Begin), [Rewrite(t, left), SetSavepoint(name)];
      && TableRows(FilesOf(Run(start, run[..1]).store, t)) == left
      && TableRows(FilesOf(Execute(Run(start, run), RollbackTo(name)).store, t)) == TableRows(FilesOf(db0.store, t))
  {
    var run := [Rewrite(t, left), SetSavepoint(name)];
    RewriteThenBack(db0, Execute(db0, Begin), Rewrite(t, left), run, name, t, TableRows(FilesOf(db0.store, t)));
  }

  /** The run starts with a savepoint, and one statement follows. */
  lemma {:induction false} AfterSavepoint(db0: Db, s: Statement, name: string)
    requires db0.txn.None? && StoreOrdered(db0.store) && !s.SetSavepoint? && !s.RollbackTo? && !s.Release?
    ensures var start, run := Execute(db0, Begin), [SetSavepoint(name), s];
      && Places(run) == [Place(name, 0)] && run[..0] == [] && run[..1] == [SetSavepoint(name)]
      && Run(start, []) == start && Run(start, run[..1]).catalog == db0.catalog && Places(run[..1]) == [Place(name, 0)]
  {
    SavepointThen(Execute(db0, Begin), s, name);
    var run := [SetSavepoint(name), s];
    assert run[..1] == [SetSavepoint(name)] && [SetSavepoint(name)][..0] == [];
    BeginBegins(db0);
    assert Run(Execute(db0, Begin), run[..1]) == Execute(Execute(db0, Begin), SetSavepoint(name));
  }

  /** SAVEPOINT, DELETE, ROLLBACK TO: the table is empty, whatever it held. */
  lemma {:induction false} SavepointThenDelete(db0: Db, t: string, left: seq<Row>, name: string)
    requires db0.txn.None? && StoreOrdered(db0.store) && t in db0.catalog.tables
    ensures var start, run := Execute(db0, Begin), [SetSavepoint(name), Rewrite(t, left)];
      TableRows(FilesOf(Execute(Run(start, run), RollbackTo(name)).store, t)) == []
  {
    var start, run := Execute(db0, Begin), [SetSavepoint(name), Rewrite(t, left)];
    BeginBegins(db0);
    AfterSavepoint(db0, Rewrite(t, left), name);
    assert Works(Run(start, run[..1]), Rewrite(t, left), t);
    RollbackToExact(db0, run, name, 0, t);
  }

  // ── COMMIT ───────────────────────────────────────────────────

  /** A statement of the run dropped the table. */
  predicate Dropped(start: Db, run: seq<Statement>, t: string) {
    run != [] && (
      var before, s := run[..|run| - 1], run[|run| - 1];
      Dropped(start, before, t) || (s == DropTable(t) && t in Run(start, before).catalog.tables))
  }

  lemma {:induction false} DeferredStep(db: Db, s: Statement)
    requires db.txn.Some? && db.inTransaction && !s.Commit? && !s.Rollback?
    ensures Execute(db, s).txn.Some? && Execute(db, s).inTransaction
    ensures Execute(db, s).txn.value.deferred ==
      db.txn.value.deferred + (if s.DropTable? && s.table in db.catalog.tables then [s.table] else [])
  {
    match s
    case DropTable(t) =>
    case RollbackTo(name) =>
    case _ =>
  }

  lemma {:induction false} RunDeferred(start: Db, run: seq<Statement>, t: string)
    requires start.txn.Some? && start.inTransaction && start.txn.value.deferred == [] && KeepsOpen(run)
    ensures Run(start, run).txn.Some? && Run(start, run).inTransaction
    ensures t in Run(start, run).txn.value.deferred <==> Dropped(start, run, t)
  {
    if run != [] {
      assert run[|run| - 1] in run;
      RunDeferred(start, run[..|run| - 1], t);
      DeferredStep(Run(start, run[..|run| - 1]), run[|run| - 1]);
    }
  }

  /**
   A COMMIT keeps a table's files if and only if no statement of the transaction dropped a table of
   that name, or there are no files: a later CREATE TABLE or ROLLBACK TO brings the name back into
   the catalog and does not call off the deletion.
   */
  lemma {:induction false} CommitKeepsFiles(db0: Db, run: seq<Statement>, t: string)
    requires db0.txn.None? && KeepsOpen(run)
    ensures var start, db := Execute(db0, Begin), Run(Execute(db0, Begin), run);
      && Execute(db, Commit).catalog == db.catalog
      && FilesOf(Execute(db, Commit).store, t) == (if Dropped(start, run, t) then [] else FilesOf(db.store, t))
      && (FilesOf(Execute(db, Commit).store, t) == FilesOf(db.store, t)
          <==> !Dropped(start, run, t) || FilesOf(db.store, t) == [])
  {
    RunDeferred(Execute(db0, Begin), run, t);
    CommitFiles(Run(Execute(db0, Begin), run), t);
  }

  lemma {:induction false} DropLoses(db0: Db, t: string, name: string)
    requires db0.txn.None? && StoreOrdered(db0.store) && t in db0.catalog.tables
    ensures var start, run := Execute(db0, Begin), [SetSavepoint(name), DropTable(t)];
      Dropped(start, run, t) && !Lost(start, run, 0, t) && Backed(start, [], t).None?
  {
    AfterSavepoint(db0, DropTable(t), name);
    assert !Lost(Execute(db0, Begin), [SetSavepoint(name), DropTable(t)][..1], 0, t);
  }

  lemma {:induction false} DropThenBack(db0: Db, t: string, name: string)
    requires db0.txn.None? && StoreOrdered(db0.store) && t in db0.catalog.tables
    ensures var start, run := Execute(db0, Begin), [SetSavepoint(name), DropTable(t)];
      var back := Execute(Run(start, run), RollbackTo(name));
      && Dropped(start, run, t) && KeepsOpen(run)
      && t in back.catalog.tables && TableRows(FilesOf(back.store, t)) == TableRows(FilesOf(db0.store, t))
  {
    BeginOpens(db0);
    DropLoses(db0, t, name);
    AfterSavepoint(db0, DropTable(t), name);
    RollbackToExact(db0, [SetSavepoint(name), DropTable(t)], name, 0, t);
  }

  /** SAVEPOINT, DROP TABLE, ROLLBACK TO, COMMIT: the table was back, and now is in the catalog without its files. */
  lemma {:induction false} DropThenRollbackTo(db0: Db, t: string, name: string)
    requires db0.txn.None? && StoreOrdered(db0.store) && t in db0.catalog.tables
    ensures var run := [SetSavepoint(name), DropTable(t)] + [RollbackTo(name)];
      var back := Run(Execute(db0, Begin), run);
      && t in back.catalog.tables && TableRows(FilesOf(back.store, t)) == TableRows(FilesOf(db0.store, t))
      && t in Execute(back, Commit).catalog.tables && FilesOf(Execute(back, Commit).store, t) == []
  {
    var two := [SetSavepoint(name), DropTable(t)];
    var run := two + [RollbackTo(name)];
    assert run[..|run| - 1] == two && run[|run| - 1] == RollbackTo(name);
    DropThenBack(db0, t, name);
    CommitKeepsFiles(db0, run, t);
  }
}
