/** COMMIT ends the transaction: what it leaves, what works afterwards, and what a later ROLLBACK goes back to. */
module CommitTheorems {
  import opened Values
  import opened Transactions
  import opened TransactionTheorems
  import opened RollbackTheorems
  import opened SavepointRows

  /** Between transactions, with nothing to store. */
  predicate Settled(db: Db) { db.txn.None? && !db.inTransaction && !db.dirty && db.stored == db.catalog }

  /** Statements that need an open transaction. */
  predicate NeedsTransaction(s: Statement) { s.Commit? || s.Rollback? || s.SetSavepoint? || s.RollbackTo? || s.Release? }

  /** Between transactions those fail and change nothing, and BEGIN succeeds. */
  lemma {:induction false} OutsideTransaction(db: Db, s: Statement)
    requires Settled(db)
    ensures Handle(db, Begin).Ok?
    ensures NeedsTransaction(s) ==> Handle(db, s).Err? && Execute(db, s) == db
  {
  }

  /**
   When the catalogue is stored: SAVEPOINT, ROLLBACK TO and RELEASE leave the stored one alone, in a
   transaction or outside, and store nothing that waits; every other statement leaves nothing waiting.
   */
  lemma {:induction false} StoresExactly(db: Db, s: Statement)
    ensures (s.SetSavepoint? || s.RollbackTo? || s.Release?) ==>
      Execute(db, s).stored == db.stored && (db.dirty ==> Execute(db, s).dirty)
    ensures !(s.SetSavepoint? || s.RollbackTo? || s.Release?) ==> !Execute(db, s).dirty
  {
  }

  /** Inside a transaction BEGIN fails and changes nothing. */
  lemma {:induction false} NoNestedBegin(db0: Db, run: seq<Statement>)
    requires db0.txn.None? && KeepsOpen(run)
    ensures var db := Run(Execute(db0, Begin), run); Handle(db, Begin).Err? && Execute(db, Begin) == db
  {
    RunStaysOpen(db0, run);
  }

  lemma {:induction false} RunStaysOpen(db0: Db, run: seq<Statement>)
    requires db0.txn.None? && KeepsOpen(run)
    ensures var db := Run(Execute(db0, Begin), run); db.txn.Some? && db.inTransaction && !db.dirty
  {
    if run != [] {
      var before, s := run[..|run| - 1], run[|run| - 1];
      assert s in run;
      RunStaysOpen(db0, before);
      StaysOpen(Run(Execute(db0, Begin), before), s);
    }
  }

  lemma {:induction false} StaysOpen(db: Db, s: Statement)
    requires db.txn.Some? && db.inTransaction && !db.dirty && !s.Commit? && !s.Rollback?
    ensures Execute(db, s).txn.Some? && Execute(db, s).inTransaction && !Execute(db, s).dirty
  {
  }

  lemma {:induction false} CommitCloses(db: Db)
    requires db.txn.Some?
    ensures Settled(Execute(db, Commit)) && Execute(db, Commit).catalog == db.catalog && Handle(db, Commit).Ok?
  {
  }

  /**
   COMMIT ends the transaction, whatever was done in it: the catalogue is the one in memory, and stored.
   Statements that need a transaction fail from then on and change nothing, until the next BEGIN.
   */
  lemma {:induction false} CommitEnds(db0: Db, run: seq<Statement>, s: Statement)
    requires db0.txn.None? && KeepsOpen(run)
    ensures var db := Run(Execute(db0, Begin), run);
      var end := Execute(db, Commit);
      && Handle(db, Commit).Ok? && Settled(end) && end.catalog == db.catalog
      && Handle(end, Begin).Ok?
      && (NeedsTransaction(s) ==> Handle(end, s).Err? && Execute(end, s) == end)
  {
    var db := Run(Execute(db0, Begin), run);
    RunStaysOpen(db0, run);
    CommitCloses(db);
    OutsideTransaction(Execute(db, Commit), s);
  }

  lemma {:induction false} DeletedOrdered(db: Db, t: string)
    requires db.txn.Some? && Ordered(StoreOf(db.store, t))
    ensures Ordered(StoreOf(Execute(db, Commit).store, t))
  {
  }

  lemma {:induction false} CommitOrdered(db0: Db, run: seq<Statement>)
    requires db0.txn.None? && StoreOrdered(db0.store) && KeepsOpen(run)
    ensures StoreOrdered(Execute(Run(Execute(db0, Begin), run), Commit).store)
  {
    var db := Run(Execute(db0, Begin), run);
    RunStaysOpen(db0, run);
    BeginBegins(db0);
    forall t ensures Ordered(StoreOf(Execute(db, Commit).store, t)) {
      RunOrdered(Execute(db0, Begin), run, t);
      DeletedOrdered(db, t);
    }
  }

  /**
   A transaction after a COMMIT that ends with ROLLBACK goes back to what COMMIT left, and no further:
   a table has its files of then or, if it was rewritten, the rows of before its first rewrite.
   */
  lemma {:induction false} RollbackAfterCommit(db0: Db, run: seq<Statement>, rest: seq<Statement>, t: string)
    requires db0.txn.None? && StoreOrdered(db0.store) && KeepsOpen(run) && AllInside(rest)
    ensures var committed := Execute(Run(Execute(db0, Begin), run), Commit);
      var start := Execute(committed, Begin);
      var end := Execute(Run(start, rest), Rollback);
      && Settled(end) && end.catalog.tables.Keys == committed.catalog.tables.Keys
      && end.catalog.indexTable == committed.catalog.indexTable && end.catalog.other == committed.catalog.other
      && (t in committed.catalog.tables ==>
            match FirstRewrite(start, rest, t)
            case None => FilesOf(end.store, t) == FilesOf(committed.store, t)
            case Some(app) => TableRows(FilesOf(end.store, t)) == TableRows(FilesOf(committed.store, t)) + app)
  {
    var committed := Execute(Run(Execute(db0, Begin), run), Commit);
    CommitEnds(db0, run, Commit);
    CommitOrdered(db0, run);
    RollbackCatalog(committed, rest);
    if t in committed.catalog.tables { FullRollback(committed, rest, t); }
  }
}
