/** What BEGIN, SAVEPOINT, ROLLBACK TO, ROLLBACK and COMMIT guarantee over whole transactions. */
module TransactionTheorems {
  import opened Values
  import opened Transactions

  // ── Files keep their identity ────────────────────────────────

  predicate Ordered(s: TableStore) {
    && (forall i, j :: 0 <= i < j < |s.files| ==> s.files[i].id < s.files[j].id)
    && (forall i :: 0 <= i < |s.files| ==> s.files[i].id < s.next)
  }

  ghost predicate StoreOrdered(store: Store) { forall t :: Ordered(StoreOf(store, t)) }

  lemma {:induction false} KeepAll(files: seq<File>, known: set<nat>)
    requires forall f :: f in files ==> f.id in known
    ensures Keep(files, known) == files
  {
    if files != [] {
      KeepAll(files[..|files| - 1], known);
      assert files[|files| - 1] in files;
    }
  }

  lemma {:induction false} KeepNone(files: seq<File>, known: set<nat>)
    requires forall f :: f in files ==> f.id !in known
    ensures Keep(files, known) == []
  {
    if files != [] {
      KeepNone(files[..|files| - 1], known);
      assert files[|files| - 1] in files;
    }
  }

  /** Deleting the files unknown to an older snapshot gives back the files of that snapshot. */
  lemma {:induction false} KeepPrefix(s: TableStore, n: nat)
    requires Ordered(s) && n <= |s.files|
    ensures Keep(s.files, IdSet(s.files[..n])) == s.files[..n]
    decreases |s.files|
  {
    var known := IdSet(s.files[..n]);
    if n == |s.files| {
      assert s.files[..n] == s.files;
      KeepAll(s.files, known);
    } else {
      var m := |s.files| - 1;
      var shorter := TableStore(s.files[..m], s.next);
      assert shorter.files[..n] == s.files[..n];
      KeepPrefix(shorter, n);
      assert s.files[m].id !in known;
    }
  }

  lemma {:induction false} KeepSubsequence(files: seq<File>, known: set<nat>, next: nat)
    requires Ordered(TableStore(files, next))
    ensures Ordered(TableStore(Keep(files, known), next))
    ensures forall f :: f in Keep(files, known) ==> f in files
    ensures files != [] && Keep(files, known) != [] ==> Keep(files, known)[|Keep(files, known)| - 1].id <= files[|files| - 1].id
  {
    if files != [] {
      var n := |files| - 1;
      KeepSubsequence(files[..n], known, next);
      var before := Keep(files[..n], known);
      forall f | f in before ensures f.id < files[n].id && f in files {
        assert f in files[..n];
      }
      assert files[n] in files;
    }
  }

  lemma {:induction false} TableRowsAdd(s: TableStore, rows: seq<Row>)
    ensures TableRows(AddFile(s, rows).files) == TableRows(s.files) + rows
  {
    if rows != [] {
      assert AddFile(s, rows).files[..|s.files|] == s.files;
    }
  }

  lemma {:induction false} ReplaceRows(s: TableStore, rows: seq<Row>)
    ensures TableRows(ReplaceFiles(s, rows).files) == rows
  {
    TableRowsAdd(TableStore([], s.next), rows);
  }

  lemma {:induction false} RevertedOrdered(db: Db, files: map<string, set<nat>>)
    requires StoreOrdered(db.store)
    ensures StoreOrdered(RevertedStore(db, files))
  {
    forall t ensures Ordered(StoreOf(RevertedStore(db, files), t)) {
      assert Ordered(StoreOf(db.store, t));
      if t in files {
        KeepSubsequence(FilesOf(db.store, t), files[t], StoreOf(db.store, t).next);
      }
    }
  }

  lemma {:induction false} UpdateOrdered(store: Store, t: string, s: TableStore)
    requires StoreOrdered(store) && Ordered(s)
    ensures StoreOrdered(store[t := s])
  {
    var store' := store[t := s];
    forall u ensures Ordered(StoreOf(store', u)) {
      assert Ordered(StoreOf(store, u));
    }
  }

  lemma {:induction false} AddOrdered(s: TableStore, rows: seq<Row>)
    requires Ordered(s)
    ensures Ordered(AddFile(s, rows)) && Ordered(ReplaceFiles(s, rows))
  {
  }

  // ── Savepoints as copies ─────────────────────────────────────

  /** A copy of the catalog and of the files of its tables. */
  datatype Copy = Copy(catalog: Catalog, files: map<string, seq<File>>)

  function CopyOf(db: Db): Copy {
    Copy(db.catalog, map t | t in db.catalog.tables :: FilesOf(db.store, t))
  }

  datatype Mark = Mark(name: string, copy: Copy)

  function LastMark(marks: seq<Mark>, name: string): (r: Option<nat>)
    ensures r.Some? ==> r.value < |marks|
  {
    if marks == [] then None
    else if marks[|marks| - 1].name == name then Some(|marks| - 1)
    else LastMark(marks[..|marks| - 1], name)
  }

  function MarksAfter(marks: seq<Mark>, now: Copy, s: Statement): seq<Mark> {
    match s
    case SetSavepoint(name) => marks + [Mark(name, now)]
    case RollbackTo(name) => (match LastMark(marks, name) case Some(i) => marks[..i + 1] case None => marks)
    case Release(name) => (match LastMark(marks, name) case Some(i) => marks[..i] case None => marks)
    case _ => marks
  }

  /** Reference: the stack of whole copies that the savepoints of a run stand for. */
  function Marks(db: Db, run: seq<Statement>): seq<Mark> {
    if run == [] then [] else
      var before := run[..|run| - 1];
      MarksAfter(Marks(db, before), CopyOf(Run(db, before)), run[|run| - 1])
  }

  function BaseAfter(base: Copy, marks: seq<Mark>, s: Statement): Copy {
    match s
    case RollbackTo(name) => (match LastMark(marks, name) case Some(i) => marks[i].copy case None => base)
    case _ => base
  }

  /** Reference: the copy that a full ROLLBACK goes back to: BEGIN, or the last ROLLBACK TO. */
  function BaseOf(db: Db, run: seq<Statement>): Copy {
    if run == [] then CopyOf(db) else
      var before := run[..|run| - 1];
      BaseAfter(BaseOf(db, before), Marks(db, before), run[|run| - 1])
  }

  /** Statements that neither rewrite nor drop a table nor end the transaction. */
  predicate AppendOnly(s: Statement) {
    s.Append? || s.CreateTable? || s.SetOther? || s.SetSavepoint? || s.RollbackTo? || s.Release?
  }

  /** `a` is an earlier state of `b`: tables and files have only been added. */
  predicate Earlier(a: Copy, b: Copy) {
    && a.files.Keys == a.catalog.tables.Keys
    && b.files.Keys == b.catalog.tables.Keys
    && a.files.Keys <= b.files.Keys
    && forall t :: t in a.files ==> a.files[t] <= b.files[t]
  }

  lemma {:induction false} EarlierTransitive(a: Copy, b: Copy, c: Copy)
    requires Earlier(a, b) && Earlier(b, c)
    ensures Earlier(a, c)
  {
    forall t | t in a.files ensures a.files[t] <= c.files[t] {
      assert a.files[t] <= b.files[t] && b.files[t] <= c.files[t];
    }
  }

  function SnapshotOf(c: Copy): map<string, set<nat>> { map t | t in c.files :: IdSet(c.files[t]) }

  ghost predicate EmptyElsewhere(db: Db) { forall t :: t !in db.catalog.tables ==> FilesOf(db.store, t) == [] }

  /** The savepoint records what the copy holds. */
  predicate Records(sp: Savepoint, m: Mark) {
    && sp.name == m.name && sp.catalog == m.copy.catalog
    && sp.files == SnapshotOf(m.copy) && sp.backups == map[]
  }

  predicate StackRecords(sps: seq<Savepoint>, marks: seq<Mark>) {
    |sps| == |marks| && forall i :: 0 <= i < |sps| ==> Records(sps[i], marks[i])
  }

  predicate Chain(marks: seq<Mark>, now: Copy) {
    && (forall i :: 0 <= i < |marks| ==> Earlier(marks[i].copy, now))
    && (forall i, j :: 0 <= i < j < |marks| ==> Earlier(marks[i].copy, marks[j].copy))
  }

  ghost predicate InTransaction(db: Db, marks: seq<Mark>, base: Copy) {
    && db.txn.Some? && db.inTransaction
    && StoreOrdered(db.store) && EmptyElsewhere(db)
    && db.txn.value.backups == map[] && db.txn.value.deferred == []
    && db.txn.value.catalog == base.catalog && db.txn.value.files == SnapshotOf(base)
    && Earlier(base, CopyOf(db))
    && StackRecords(db.txn.value.savepoints, marks)
    && Chain(marks, CopyOf(db))
  }

  lemma {:induction false} SameLastIndex(sps: seq<Savepoint>, marks: seq<Mark>, name: string)
    requires StackRecords(sps, marks)
    ensures LastIndex(sps, name) == LastMark(marks, name)
  {
    if sps != [] {
      assert Records(sps[|sps| - 1], marks[|marks| - 1]);
      SameLastIndex(sps[..|sps| - 1], marks[..|marks| - 1], name);
    }
  }

  /** Without backups nothing is written back. */
  lemma {:induction false} NoBackups(db: Db)
    ensures WriteBackups(db, map[]) == db
  {
    var c := db.catalog;
    assert RestoredStore(c, db.store, map[]) == db.store;
    assert RestoredCatalog(c, db.store, map[]).tables == c.tables;
  }

  lemma {:induction false} RevertedFiles(db: Db, c: Copy, t: string)
    requires StoreOrdered(db.store) && EmptyElsewhere(db) && Earlier(c, CopyOf(db))
    ensures FilesOf(RevertedStore(db, SnapshotOf(c)), t) == if t in c.files then c.files[t] else []
  {
    var s := StoreOf(db.store, t);
    assert Ordered(s);
    if t in c.files {
      var old_ := c.files[t];
      assert old_ <= CopyOf(db).files[t] && CopyOf(db).files[t] == s.files;
      assert s.files[..|old_|] == old_;
      KeepPrefix(s, |old_|);
      assert SnapshotOf(c)[t] == IdSet(old_);
    }
  }

  lemma {:induction false} CopyIs(db: Db, c: Copy)
    requires db.catalog == c.catalog && c.files.Keys == c.catalog.tables.Keys
    requires forall t :: t in c.files ==> FilesOf(db.store, t) == c.files[t]
    ensures CopyOf(db) == c
  {
    assert CopyOf(db).files == c.files;
  }

  /** Going back to an earlier copy by deleting files gives exactly that copy. */
  lemma {:induction false} RevertToCopy(db: Db, c: Copy, after: Db)
    requires StoreOrdered(db.store) && EmptyElsewhere(db) && Earlier(c, CopyOf(db))
    requires after.store == RevertedStore(db, SnapshotOf(c)) && after.catalog == c.catalog
    ensures CopyOf(after) == c && EmptyElsewhere(after) && StoreOrdered(after.store)
  {
    RevertedOrdered(db, SnapshotOf(c));
    forall t ensures FilesOf(after.store, t) == if t in c.files then c.files[t] else [] {
      RevertedFiles(db, c, t);
    }
    CopyIs(after, c);
  }

  lemma {:induction false} EarlierRefl(c: Copy)
    requires c.files.Keys == c.catalog.tables.Keys
    ensures Earlier(c, c)
  {
  }

  /** A statement that only adds tables and files keeps every older copy an older copy. */
  lemma {:induction false} GrowStep(db: Db, after: Db, marks: seq<Mark>, base: Copy)
    requires InTransaction(db, marks, base)
    requires after.txn == db.txn && after.inTransaction
    requires StoreOrdered(after.store) && EmptyElsewhere(after)
    requires Earlier(CopyOf(db), CopyOf(after))
    ensures InTransaction(after, marks, base)
  {
    EarlierTransitive(base, CopyOf(db), CopyOf(after));
    forall i | 0 <= i < |marks| ensures Earlier(marks[i].copy, CopyOf(after)) {
      EarlierTransitive(marks[i].copy, CopyOf(db), CopyOf(after));
    }
  }

  lemma {:induction false} AppendedStore(store: Store, t: string, rows: seq<Row>, u: string)
    ensures var store' := store[t := AddFile(StoreOf(store, t), rows)];
      FilesOf(store, u) <= FilesOf(store', u) && (u != t ==> StoreOf(store', u) == StoreOf(store, u))
  {
  }

  lemma {:induction false} AppendGrows(db: Db, t: string, rows: seq<Row>, after: Db)
    requires StoreOrdered(db.store) && EmptyElsewhere(db)
    requires AppendDb(db, t, rows) == Ok(after)
    ensures StoreOrdered(after.store) && EmptyElsewhere(after) && Earlier(CopyOf(db), CopyOf(after))
  {
    assert Ordered(StoreOf(db.store, t));
    AddOrdered(StoreOf(db.store, t), rows);
    UpdateOrdered(db.store, t, AddFile(StoreOf(db.store, t), rows));
    assert after.catalog.tables.Keys == db.catalog.tables.Keys;
    forall u | u !in after.catalog.tables ensures FilesOf(after.store, u) == [] {
      AppendedStore(db.store, t, rows, u);
      assert FilesOf(db.store, u) == [];
    }
    var a, b := CopyOf(db), CopyOf(after);
    forall u | u in a.files ensures a.files[u] <= b.files[u] {
      AppendedStore(db.store, t, rows, u);
    }
  }

  lemma {:induction false} CreateGrows(db: Db, t: string, columns: seq<string>, after: Db)
    requires StoreOrdered(db.store) && EmptyElsewhere(db)
    requires CreateTableDb(db, t, columns) == Ok(after)
    ensures StoreOrdered(after.store) && EmptyElsewhere(after) && Earlier(CopyOf(db), CopyOf(after))
  {
  }

  lemma {:induction false} DataStep(db: Db, s: Statement, marks: seq<Mark>, base: Copy)
    requires InTransaction(db, marks, base)
    requires s.Append? || s.CreateTable? || s.SetOther?
    ensures InTransaction(Handled(db, s), marks, base)
  {
    var after := Handled(db, s);
    if Handle(db, s) == Ok(after) {
      match s {
        case Append(t, rows) => AppendGrows(db, t, rows, after);
        case CreateTable(t, columns) => CreateGrows(db, t, columns, after);
        case SetOther(k, v) =>
      }
      GrowStep(db, after, marks, base);
    }
  }

  lemma {:induction false} PushMark(sps: seq<Savepoint>, marks: seq<Mark>, now: Copy, sp: Savepoint, m: Mark)
    requires StackRecords(sps, marks) && Chain(marks, now)
    requires Records(sp, m) && m.copy == now && Earlier(now, now)
    ensures StackRecords(sps + [sp], marks + [m]) && Chain(marks + [m], now)
  {
  }

  lemma {:induction false} TakeMarks(sps: seq<Savepoint>, marks: seq<Mark>, now: Copy, i: nat)
    requires StackRecords(sps, marks) && Chain(marks, now) && i < |marks|
    ensures StackRecords(sps[..i + 1], marks[..i + 1]) && Chain(marks[..i + 1], marks[i].copy)
  {
    assert Earlier(marks[i].copy, now);
    EarlierRefl(marks[i].copy);
  }

  lemma {:induction false} SavepointStep(db: Db, name: string, after: Db, marks: seq<Mark>, base: Copy)
    requires InTransaction(db, marks, base)
    requires SavepointDb(db, name) == Ok(after)
    ensures InTransaction(after, marks + [Mark(name, CopyOf(db))], base)
  {
    var now := CopyOf(db);
    var txn := db.txn.value;
    var sp := Savepoint(name, db.catalog, Snapshot(db), txn.backups);
    assert sp.files == SnapshotOf(now);
    EarlierRefl(now);
    PushMark(txn.savepoints, marks, now, sp, Mark(name, now));
    assert after.txn == Some(txn.(savepoints := txn.savepoints + [sp]));
    assert CopyOf(after) == now;
    assert EmptyElsewhere(after) by { assert after.store == db.store && after.catalog == db.catalog; }
  }

  lemma {:induction false} ReleaseStep(db: Db, name: string, after: Db, marks: seq<Mark>, base: Copy)
    requires InTransaction(db, marks, base)
    requires ReleaseDb(db, name) == Ok(after)
    ensures LastMark(marks, name).Some?
    ensures InTransaction(after, marks[..LastMark(marks, name).value], base) && CopyOf(after) == CopyOf(db)
  {
    SameLastIndex(db.txn.value.savepoints, marks, name);
  }

  lemma {:induction false} RollbackToStep(db: Db, name: string, after: Db, marks: seq<Mark>, base: Copy)
    requires InTransaction(db, marks, base)
    requires RollbackToDb(db, name) == Ok(after)
    ensures LastMark(marks, name).Some?
    ensures var i := LastMark(marks, name).value;
      CopyOf(after) == marks[i].copy && InTransaction(after, marks[..i + 1], marks[i].copy)
  {
    var txn := db.txn.value;
    SameLastIndex(txn.savepoints, marks, name);
    var i := LastMark(marks, name).value;
    var c := marks[i].copy;
    assert Records(txn.savepoints[i], marks[i]) && Earlier(c, CopyOf(db));
    TakeMarks(txn.savepoints, marks, CopyOf(db), i);
    RollbackToCopy(db, name, after, i, c);
    EarlierRefl(c);
  }

  lemma {:induction false} SnapshotIsOfCopy(db: Db)
    ensures Snapshot(db) == SnapshotOf(CopyOf(db))
  {
  }

  lemma {:induction false} RestoredIsCopy(db: Db, sp: Savepoint, name: string, c: Copy)
    requires Records(sp, Mark(name, c))
    requires StoreOrdered(db.store) && EmptyElsewhere(db) && Earlier(c, CopyOf(db))
    ensures var after := RestoredTo(db, sp);
      && CopyOf(after) == c && EmptyElsewhere(after) && StoreOrdered(after.store)
      && after == db.(store := RevertedStore(db, sp.files), catalog := sp.catalog)
  {
    var reverted := db.(store := RevertedStore(db, sp.files), catalog := sp.catalog);
    RevertToCopy(db, c, reverted);
    NoBackups(reverted);
  }

  lemma {:induction false} RollbackToCopy(db: Db, name: string, after: Db, i: nat, c: Copy)
    requires db.txn.Some? && db.inTransaction && RollbackToDb(db, name) == Ok(after)
    requires LastIndex(db.txn.value.savepoints, name) == Some(i)
    requires Records(db.txn.value.savepoints[i], Mark(name, c))
    requires StoreOrdered(db.store) && EmptyElsewhere(db) && Earlier(c, CopyOf(db))
    ensures CopyOf(after) == c && EmptyElsewhere(after) && StoreOrdered(after.store) && after.inTransaction
    ensures after.txn == Some(Transaction(c.catalog, SnapshotOf(c), db.txn.value.deferred, map[], db.txn.value.savepoints[..i + 1]))
  {
    var restored := RestoredTo(db, db.txn.value.savepoints[i]);
    RestoredIsCopy(db, db.txn.value.savepoints[i], name, c);
    SnapshotIsOfCopy(restored);
    assert after.store == restored.store && after.catalog == restored.catalog;
    assert CopyOf(after) == CopyOf(restored);
  }

  lemma {:induction false} FlushKeeps(db: Db, marks: seq<Mark>, base: Copy)
    requires InTransaction(db, marks, base)
    ensures InTransaction(FlushIfDirty(db), marks, base) && CopyOf(FlushIfDirty(db)) == CopyOf(db)
  {
    var after := FlushIfDirty(db);
    assert after.store == db.store && after.catalog == db.catalog;
    assert CopyOf(after) == CopyOf(db);
  }

  lemma {:induction false} CopyFlush(db: Db)
    ensures CopyOf(FlushIfDirty(db)) == CopyOf(db)
  {
  }

  lemma {:induction false} HandleRollbackTo(db: Db, name: string, marks: seq<Mark>, base: Copy)
    requires InTransaction(db, marks, base)
    ensures var after := Handled(db, RollbackTo(name));
      match LastMark(marks, name)
      case Some(i) => CopyOf(after) == marks[i].copy && InTransaction(after, marks[..i + 1], marks[i].copy)
      case None => after == db
  {
    SameLastIndex(db.txn.value.savepoints, marks, name);
    var r := RollbackToDb(db, name);
    assert Handle(db, RollbackTo(name)) == r;
    if LastMark(marks, name).Some? {
      assert r == Ok(r.value);
      RollbackToStep(db, name, r.value, marks, base);
    } else {
      assert r.Err?;
    }
  }

  lemma {:induction false} HandleRelease(db: Db, name: string, marks: seq<Mark>, base: Copy)
    requires InTransaction(db, marks, base)
    ensures var after := Handled(db, Release(name));
      && CopyOf(after) == CopyOf(db)
      && (match LastMark(marks, name)
          case Some(i) => InTransaction(after, marks[..i], base)
          case None => after == db)
  {
    SameLastIndex(db.txn.value.savepoints, marks, name);
    if LastMark(marks, name).Some? {
      ReleaseStep(db, name, ReleaseDb(db, name).value, marks, base);
    }
  }

  lemma {:induction false} HandleStep(db: Db, s: Statement, marks: seq<Mark>, base: Copy)
    requires InTransaction(db, marks, base) && AppendOnly(s)
    ensures InTransaction(Handled(db, s), MarksAfter(marks, CopyOf(db), s), BaseAfter(base, marks, s))
  {
    if s.Append? || s.CreateTable? || s.SetOther? {
      DataStep(db, s, marks, base);
    } else if s.SetSavepoint? {
      SavepointStep(db, s.name, Handled(db, s), marks, base);
    } else if s.RollbackTo? {
      HandleRollbackTo(db, s.name, marks, base);
    } else {
      HandleRelease(db, s.name, marks, base);
    }
  }

  /** No transaction is open, and a name outside the catalog has no files. */
  ghost predicate AtRest(db: Db) {
    db.txn.None? && !db.inTransaction && StoreOrdered(db.store) && EmptyElsewhere(db)
  }

  lemma {:induction false} BeginStep(db: Db)
    requires AtRest(db)
    ensures InTransaction(Execute(db, Begin), [], CopyOf(db)) && CopyOf(Execute(db, Begin)) == CopyOf(db)
  {
    var after := BeginDb(db).value;
    SnapshotIsOfCopy(db);
    EarlierRefl(CopyOf(db));
    assert CopyOf(after) == CopyOf(db);
    assert EmptyElsewhere(after) by { assert after.store == db.store && after.catalog == db.catalog; }
    FlushKeeps(after, [], CopyOf(db));
  }

  predicate AllAppendOnly(run: seq<Statement>) { forall s :: s in run ==> AppendOnly(s) }

  lemma {:induction false} AppendOnlyRun(start: Db, run: seq<Statement>)
    requires InTransaction(start, [], CopyOf(start)) && AllAppendOnly(run)
    ensures InTransaction(Run(start, run), Marks(start, run), BaseOf(start, run))
  {
    if run != [] {
      var before, s := run[..|run| - 1], run[|run| - 1];
      assert s in run;
      AppendOnlyRun(start, before);
      var db := Run(start, before);
      HandleStep(db, s, Marks(start, before), BaseOf(start, before));
      FlushKeeps(Handled(db, s), Marks(start, run), BaseOf(start, run));
    }
  }

  lemma {:induction false} LastMarkTaken(marks: seq<Mark>, name: string)
    requires LastMark(marks, name).Some?
    ensures LastMark(marks[..LastMark(marks, name).value + 1], name) == LastMark(marks, name)
    ensures marks[LastMark(marks, name).value].name == name
  {
    var i := LastMark(marks, name).value;
    if marks[|marks| - 1].name != name {
      LastMarkTaken(marks[..|marks| - 1], name);
      assert marks[..|marks| - 1][..i + 1] == marks[..i + 1];
    } else {
      assert marks[..i + 1] == marks;
    }
  }

  lemma {:induction false} RollbackToCopyOf(db: Db, start: Db, run: seq<Statement>, name: string)
    requires AtRest(db) && start == Execute(db, Begin) && AllAppendOnly(run)
    ensures (CopyOf(Execute(Run(start, run), RollbackTo(name))) ==
      match LastMark(Marks(start, run), name) case Some(i) => Marks(start, run)[i].copy case None => CopyOf(Run(start, run)))
  {
    BeginStep(db);
    AppendOnlyRun(start, run);
    var now := Run(start, run);
    HandleRollbackTo(now, name, Marks(start, run), BaseOf(start, run));
    CopyFlush(Handled(now, RollbackTo(name)));
  }

  lemma {:induction false} MarksAfterRollbackTo(start: Db, run: seq<Statement>, name: string)
    ensures Run(start, run + [RollbackTo(name)]) == Execute(Run(start, run), RollbackTo(name))
    ensures (Marks(start, run + [RollbackTo(name)]) ==
      match LastMark(Marks(start, run), name) case Some(i) => Marks(start, run)[..i + 1] case None => Marks(start, run))
  {
    var once := run + [RollbackTo(name)];
    assert once[..|run|] == run;
  }

  /** The engine's own stack of savepoints. */
  function Savepoints(db: Db): seq<Savepoint> { if db.txn.Some? then db.txn.value.savepoints else [] }

  lemma {:induction false} StackAfter(db: Db, name: string)
    requires db.txn.Some?
    ensures Savepoints(Execute(db, RollbackTo(name))) ==
      (match LastIndex(Savepoints(db), name) case Some(i) => Savepoints(db)[..i + 1] case None => Savepoints(db))
    ensures Savepoints(Execute(db, Release(name))) ==
      (match LastIndex(Savepoints(db), name) case Some(i) => Savepoints(db)[..i] case None => Savepoints(db))
  {
  }

  lemma {:induction false} StackOfRun(db: Db, start: Db, run: seq<Statement>, name: string)
    requires AtRest(db) && start == Execute(db, Begin) && AllAppendOnly(run)
    ensures var sps := Savepoints(Run(start, run));
      && |sps| == |Marks(start, run)| && LastIndex(sps, name) == LastMark(Marks(start, run), name)
      && Savepoints(Execute(Run(start, run), RollbackTo(name))) ==
         (match LastMark(Marks(start, run), name) case Some(i) => sps[..i + 1] case None => sps)
      && Savepoints(Execute(Run(start, run), Release(name))) ==
         (match LastMark(Marks(start, run), name) case Some(i) => sps[..i] case None => sps)
  {
    BeginStep(db);
    AppendOnlyRun(start, run);
    SameLastIndex(Savepoints(Run(start, run)), Marks(start, run), name);
    StackAfter(Run(start, run), name);
  }

  /**
   Savepoints are copies: after any transaction of appends, new tables and savepoint statements, in
   any nesting, ROLLBACK TO restores exactly the catalog and the files of the latest surviving
   savepoint of that name, keeps it and the older ones, drops the newer ones, and can be repeated.
   */
  lemma {:induction false} SavepointTheorem(db: Db, run: seq<Statement>, name: string)
    requires AtRest(db) && AllAppendOnly(run)
    ensures var start := Execute(db, Begin);
      var after := Execute(Run(start, run), RollbackTo(name));
      var marks := Marks(start, run);
      match LastMark(marks, name)
      case None => CopyOf(after) == CopyOf(Run(start, run)) && Marks(start, run + [RollbackTo(name)]) == marks
      case Some(i) =>
        && CopyOf(after) == marks[i].copy
        && Marks(start, run + [RollbackTo(name)]) == marks[..i + 1]
        && LastMark(marks[..i + 1], name) == Some(i)
        && CopyOf(Execute(after, RollbackTo(name))) == marks[i].copy
        && |Savepoints(Run(start, run))| == |marks|
        && Savepoints(after) == Savepoints(Run(start, run))[..i + 1] && Savepoints(after)[i].name == name
        && Savepoints(Execute(after, RollbackTo(name))) == Savepoints(after)
  {
    var start := Execute(db, Begin);
    var marks := Marks(start, run);
    RollbackToCopyOf(db, start, run, name);
    MarksAfterRollbackTo(start, run, name);
    StackOfRun(db, start, run, name);
    StackOfRun(db, start, run + [RollbackTo(name)], name);
    if LastMark(marks, name).Some? {
      LastMarkTaken(marks, name);
      RollbackToCopyOf(db, start, run + [RollbackTo(name)], name);
    }
  }

  /**
   RELEASE forgets the latest savepoint of that name and all newer ones, keeps the older ones, and
   changes neither catalog nor files; a ROLLBACK goes where it would have gone without it.
   */
  lemma {:induction false} ReleaseTheorem(db: Db, run: seq<Statement>, name: string)
    requires AtRest(db) && AllAppendOnly(run)
    ensures var start := Execute(db, Begin);
      var now, after := Run(start, run), Execute(Run(start, run), Release(name));
      && CopyOf(after) == CopyOf(now)
      && |Savepoints(now)| == |Marks(start, run)|
      && Savepoints(after) ==
         (match LastMark(Marks(start, run), name) case Some(i) => Savepoints(now)[..i] case None => Savepoints(now))
      && CopyOf(Execute(after, Rollback)) == CopyOf(Execute(now, Rollback))
  {
    var start := Execute(db, Begin);
    BeginStep(db);
    AppendOnlyRun(start, run);
    var now := Run(start, run);
    HandleRelease(now, name, Marks(start, run), BaseOf(start, run));
    CopyFlush(Handled(now, Release(name)));
    StackOfRun(db, start, run, name);
    var released := run + [Release(name)];
    assert released[..|run|] == run;
    assert Run(start, released) == Execute(now, Release(name)) && BaseOf(start, released) == BaseOf(start, run);
    RollbackAfterAppends(db, run);
    RollbackAfterAppends(db, released);
  }

  /** A full ROLLBACK after appends goes back to BEGIN or, if there was one, to the last ROLLBACK TO. */
  lemma {:induction false} RollbackAfterAppends(db: Db, run: seq<Statement>)
    requires AtRest(db) && AllAppendOnly(run)
    ensures var start := Execute(db, Begin);
      var after := Execute(Run(start, run), Rollback);
      CopyOf(after) == BaseOf(start, run) && AtRest(after) && after.stored == after.catalog
  {
    var start := Execute(db, Begin);
    BeginStep(db);
    AppendOnlyRun(start, run);
    var now, base := Run(start, run), BaseOf(start, run);
    var reverted := now.(txn := None, inTransaction := false, store := RevertedStore(now, now.txn.value.files), catalog := base.catalog);
    RevertToCopy(now, base, reverted);
    var saved := ForceSave(reverted);
    NoBackups(saved);
    assert saved.store == reverted.store && saved.catalog == reverted.catalog;
    assert CopyOf(saved) == CopyOf(reverted);
    assert Execute(now, Rollback) == saved;
    assert EmptyElsewhere(saved);
  }
}
