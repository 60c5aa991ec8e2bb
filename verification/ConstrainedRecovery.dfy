/**
 Crash and recovery of tables with PRIMARY KEY and UNIQUE. Start-up replays the WAL through the same
 validation as an INSERT, and rows that reached Parquet before the crash are rejected when they have
 a key; the process then does not come up.
 */
module ConstrainedRecovery {
  import opened Values
  import opened Uniqueness
  import P = CrashProtocol

  type Metas = map<string, TableMeta>

  function MetaOf(ms: Metas, t: string): TableMeta { if t in ms then ms[t] else TableMeta([]) }

  /** Validation lets the step pass. */
  predicate Passes(ms: Metas, s: P.State, step: P.Step) {
    match step
    case BufferRows(t, rows) => AllAcceptable(MetaOf(ms, t), P.RowsAt(s.disk, t), P.RowsAt(s.buffer, t) + rows)
    case RecoverTable(t) =>
      (s.phase.Recovering? && t in s.phase.todo && t in s.tables ==>
         AllAcceptable(MetaOf(ms, t), P.RowsAt(s.disk, t), s.phase.todo[t]))
    case _ => true
  }

  /** A run in which validation let every INSERT and every replay pass that took place. */
  predicate Admitted(ms: Metas, tables: set<string>, run: seq<P.Step>)
    requires P.ValidRun(tables, run)
  {
    run == [] || (
      && Admitted(ms, tables, run[..|run| - 1])
      && Passes(ms, P.Exec(tables, run[..|run| - 1]), run[|run| - 1]))
  }

  /** Reference on the labels: a crash in the flush window of `t` left rows with a key both on disk and in the WAL. */
  predicate Stuck(ms: Metas, run: seq<P.Step>, t: string) {
    run != [] && (
      var before := run[..|run| - 1];
      || Stuck(ms, before, t)
      || (run[|run| - 1] == P.Crash && P.InWindow(before, t) && !KeyFree(MetaOf(ms, t), P.InLog(before, t))))
  }

  // ── The invariant of one table ───────────────────────────────

  /** The rows on disk and those to come, in each situation. */
  ghost predicate Fits(meta: TableMeta, s: P.State, stuck: bool, t: string) {
    var disk, log := P.RowsAt(s.disk, t), P.RowsAt(s.wal, t);
    if stuck then
      && (s.phase.Down? || (s.phase.Recovering? && t in s.phase.todo))
      && t !in s.buffer && (s.flush.NoFlush? || s.flush.table != t)
      && !AllAcceptable(meta, disk, log)
    else if s.flush.Written? && s.flush.table == t then
      exists older :: disk == older + log && AllAcceptable(meta, older, log)
    else
      AllAcceptable(meta, disk, log + P.Unlogged(s, t))
  }

  /** While the process is up, what memory holds of a table is what its WAL holds, and an INSERT not logged yet. */
  predicate UpAndBalanced(s: P.State, t: string) { P.WellShaped(s) && (s.phase != P.Down ==> P.Balanced(s, t)) }

  lemma {:induction false} NothingToReplay(meta: TableMeta, disk: seq<Row>)
    ensures AllAcceptable(meta, disk, [])
  {
  }

  lemma {:induction false} StepFitsStuck(meta: TableMeta, ms: Metas, s: P.State, step: P.Step, t: string)
    requires P.Enabled(s, step) && UpAndBalanced(s, t) && t in s.tables && meta == MetaOf(ms, t) && Passes(ms, s, step)
    requires Fits(meta, s, true, t)
    ensures Fits(meta, P.Next(s, step), true, t)
  {
    NothingToReplay(meta, P.RowsAt(s.disk, t));
    assert s.phase != P.Down ==> P.InMemory(s, t) == s.phase.todo[t] && s.phase.todo[t] == P.RowsAt(s.wal, t) + [];
    assert P.RowsAt(s.wal, t) + [] == P.RowsAt(s.wal, t) != [];
    var next := P.Next(s, step);
    assert step != P.RecoverTable(t) && step != P.FinishRecovery;
    assert P.RowsAt(next.disk, t) == P.RowsAt(s.disk, t) && P.RowsAt(next.wal, t) == P.RowsAt(s.wal, t);
  }

  lemma {:induction false} StepFitsWritten(meta: TableMeta, s: P.State, step: P.Step, t: string, stuck: bool)
    requires P.Enabled(s, step) && UpAndBalanced(s, t) && t in s.tables
    requires Fits(meta, s, false, t) && s.flush.Written? && s.flush.table == t
    requires stuck <==> step == P.Crash && !KeyFree(meta, P.RowsAt(s.wal, t))
    ensures Fits(meta, P.Next(s, step), stuck, t)
  {
    var disk, log := P.RowsAt(s.disk, t), P.RowsAt(s.wal, t);
    var older :| disk == older + log && AllAcceptable(meta, older, log);
    NothingToReplay(meta, disk);
    ReplayedTwice(meta, older, log);
    assert log + [] == log;
  }

  /** The write of a flush. */
  lemma {:induction false} WriteFits(meta: TableMeta, s: P.State, t: string)
    requires P.Enabled(s, P.WriteParquet(t)) && UpAndBalanced(s, t) && t in s.tables && s.phase != P.Down
    requires AllAcceptable(meta, P.RowsAt(s.disk, t), P.RowsAt(s.wal, t) + P.Unlogged(s, t))
    ensures Fits(meta, P.Next(s, P.WriteParquet(t)), false, t)
  {
    var disk, log := P.RowsAt(s.disk, t), P.RowsAt(s.wal, t);
    assert log + [] == log && s.flush.rows == log;
    var next := P.Next(s, P.WriteParquet(t));
    assert P.RowsAt(next.disk, t) == disk + P.RowsAt(next.wal, t);
  }

  /** Any other step: what is still to come is as before, or what came before it, or an INSERT that passed. */
  lemma {:induction false} ToComeAfter(ms: Metas, s: P.State, step: P.Step, t: string)
    requires P.Enabled(s, step) && UpAndBalanced(s, t) && t in s.tables && Passes(ms, s, step)
    requires step != P.WriteParquet(t) && !(s.flush.Written? && s.flush.table == t)
    requires step == P.CheckpointAll ==> s.buffer == map[]
    ensures var next, log := P.Next(s, step), P.RowsAt(s.wal, t);
      var come := P.RowsAt(next.wal, t) + P.Unlogged(next, t);
      && P.RowsAt(next.disk, t) == P.RowsAt(s.disk, t) && !(next.flush.Written? && next.flush.table == t)
      && (|| come == log + P.Unlogged(s, t) || come == log || come == []
          || (step.BufferRows? && step.table == t && come == P.RowsAt(s.buffer, t) + step.rows))
  {
    var log := P.RowsAt(s.wal, t);
    assert log + [] == log;
    match step
    case LogRows(u, rows) => if u == t { assert P.RowsAt(P.Next(s, step).wal, t) + [] == log + rows; }
    case BufferRows(u, rows) => if u == t { assert P.RowsAt(s.buffer, t) == log; }
    case CheckpointAll => assert P.RowsAt(map[], t) + [] == [];
    case _ =>
  }

  lemma {:induction false} StepFitsOpen(meta: TableMeta, ms: Metas, s: P.State, step: P.Step, t: string)
    requires P.Enabled(s, step) && UpAndBalanced(s, t) && t in s.tables && meta == MetaOf(ms, t) && Passes(ms, s, step)
    requires Fits(meta, s, false, t) && !(s.flush.Written? && s.flush.table == t)
    requires step == P.CheckpointAll ==> s.buffer == map[]
    ensures Fits(meta, P.Next(s, step), false, t)
  {
    if step == P.WriteParquet(t) {
      WriteFits(meta, s, t);
    } else {
      var disk, log := P.RowsAt(s.disk, t), P.RowsAt(s.wal, t);
      NothingToReplay(meta, disk);
      AcceptedPrefix(meta, disk, log, P.Unlogged(s, t));
      ToComeAfter(ms, s, step, t);
    }
  }

  // ── Over whole runs ──────────────────────────────────────────

  lemma {:induction false} RunFits(ms: Metas, tables: set<string>, run: seq<P.Step>, t: string)
    requires P.ValidRun(tables, run) && P.CheckpointsFlushed(tables, run) && Admitted(ms, tables, run) && t in tables
    ensures Fits(MetaOf(ms, t), P.Exec(tables, run), Stuck(ms, run, t), t)
  {
    var meta := MetaOf(ms, t);
    if run == [] {
      NothingToReplay(meta, []);
    } else {
      var before, step := run[..|run| - 1], run[|run| - 1];
      var s := P.Exec(tables, before);
      RunFits(ms, tables, before, t);
      P.RunConsistent(tables, before);
      P.RunAccounted(tables, before, t);
      if Stuck(ms, before, t) {
        StepFitsStuck(meta, ms, s, step, t);
      } else if s.flush.Written? && s.flush.table == t {
        StepFitsWritten(meta, s, step, t, Stuck(ms, run, t));
      } else {
        StepFitsOpen(meta, ms, s, step, t);
      }
    }
  }

  /** When the process is down, the WAL rows of a table can be replayed exactly if the table is not stuck. */
  lemma {:induction false} ReplayableExactly(ms: Metas, tables: set<string>, run: seq<P.Step>, t: string)
    requires P.ValidRun(tables, run) && P.CheckpointsFlushed(tables, run) && Admitted(ms, tables, run) && t in tables
    requires P.Exec(tables, run).phase == P.Down
    ensures var s := P.Exec(tables, run);
      AllAcceptable(MetaOf(ms, t), P.RowsAt(s.disk, t), P.RowsAt(s.wal, t)) <==> !Stuck(ms, run, t)
  {
    var s := P.Exec(tables, run);
    RunFits(ms, tables, run, t);
    P.RunConsistent(tables, run);
    assert P.RowsAt(s.wal, t) + [] == P.RowsAt(s.wal, t);
  }

  /** A table that is stuck stays so, and the process never comes up again. */
  lemma {:induction false} StuckForever(ms: Metas, tables: set<string>, run: seq<P.Step>, more: seq<P.Step>, t: string)
    requires P.ValidRun(tables, run + more) && P.CheckpointsFlushed(tables, run + more) && Admitted(ms, tables, run + more)
    requires t in tables && Stuck(ms, run, t)
    ensures P.Exec(tables, run + more).phase.Down? || P.Exec(tables, run + more).phase.Recovering?
  {
    StuckStays(ms, run, more, t);
    RunFits(ms, tables, run + more, t);
  }

  lemma {:induction false} StuckStays(ms: Metas, run: seq<P.Step>, more: seq<P.Step>, t: string)
    ensures Stuck(ms, run, t) ==> Stuck(ms, run + more, t)
    ensures P.Quiet(more) ==> (Stuck(ms, run + more, t) <==> Stuck(ms, run, t))
  {
    if more == [] {
      assert run + more == run;
    } else {
      var n := |more| - 1;
      assert (run + more)[..|run + more| - 1] == run + more[..n];
      StuckStays(ms, run, more[..n], t);
      if P.Quiet(more) {
        assert more[n] in more;
        assert P.Quiet(more[..n]);
      }
    }
  }

  /** Restart after a crash passes validation all the way if no table is stuck. */
  lemma {:induction false} QuietIsAdmitted(ms: Metas, tables: set<string>, run: seq<P.Step>, more: seq<P.Step>)
    requires P.ValidRun(tables, run) && P.ValidRun(tables, run + more) && P.Quiet(more)
    requires P.CheckpointsFlushed(tables, run) && Admitted(ms, tables, run)
    requires forall t :: t in tables ==> !Stuck(ms, run, t)
    ensures P.CheckpointsFlushed(tables, run + more) && Admitted(ms, tables, run + more)
  {
    P.QuietKeepsExpected(tables, run, more, "");
    if more == [] {
      assert run + more == run;
    } else {
      var n := |more| - 1;
      var before := run + more[..n];
      assert (run + more)[..|run + more| - 1] == before;
      assert more[n] in more && P.Quiet(more[..n]);
      QuietIsAdmitted(ms, tables, run, more[..n]);
      var s := P.Exec(tables, before);
      P.RunConsistent(tables, before);
      if more[n].RecoverTable? && more[n].table in s.phase.todo && more[n].table in tables {
        var t := more[n].table;
        StuckStays(ms, run, more[..n], t);
        RunFits(ms, tables, before, t);
        assert s.phase.todo[t] == P.RowsAt(s.wal, t) + [];
      }
    }
  }

  /** `more` brings the process from the end of the run to rest, and validation lets it pass. */
  predicate BringsUp(ms: Metas, tables: set<string>, run: seq<P.Step>, more: seq<P.Step>) {
    && P.ValidRun(tables, run + more) && P.CheckpointsFlushed(tables, run + more)
    && Admitted(ms, tables, run + more) && P.AtRest(P.Exec(tables, run + more))
  }

  /**
   After a crash the process can be brought up if and only if no table is stuck; start-up alone does
   it then, without a statement in between.
   */
  lemma {:induction false} RecoveryExact(ms: Metas, tables: set<string>, run: seq<P.Step>)
    requires P.ValidRun(tables, run) && P.CheckpointsFlushed(tables, run) && Admitted(ms, tables, run)
    requires P.Exec(tables, run).phase == P.Down
    ensures (exists more :: BringsUp(ms, tables, run, more)) <==> forall t :: t in tables ==> !Stuck(ms, run, t)
    ensures (exists more :: BringsUp(ms, tables, run, more)) ==> exists more :: BringsUp(ms, tables, run, more) && P.Quiet(more)
  {
    if forall t :: t in tables ==> !Stuck(ms, run, t) {
      var more := P.RecoveryCompletes(tables, run);
      QuietIsAdmitted(ms, tables, run, more);
      assert BringsUp(ms, tables, run, more);
    } else {
      var t :| t in tables && Stuck(ms, run, t);
      forall more | BringsUp(ms, tables, run, more) ensures false {
        StuckForever(ms, tables, run, more, t);
      }
    }
  }

  /** While the process serves statements, no table is stuck. */
  lemma {:induction false} UpIsNotStuck(ms: Metas, tables: set<string>, run: seq<P.Step>, t: string)
    requires P.ValidRun(tables, run) && P.CheckpointsFlushed(tables, run) && Admitted(ms, tables, run) && t in tables
    requires !P.Exec(tables, run).phase.Down? && !P.Exec(tables, run).phase.Recovering?
    ensures !Stuck(ms, run, t)
  {
    RunFits(ms, tables, run, t);
  }

  /**
   Crash while statements are served: the process comes up again if and only if the crash was outside
   the flush window, or every row of the interrupted flush has a NULL in each key of its table -- so
   never, inside the window, for a table with a primary key. When it is up and at rest again without
   another statement, each table has the rows expected at the crash, the answered ones in order.
   */
  lemma {:induction false} CrashExact(ms: Metas, tables: set<string>, run: seq<P.Step>)
    requires P.ValidRun(tables, run) && P.CheckpointsFlushed(tables, run) && Admitted(ms, tables, run)
    requires !P.Exec(tables, run).phase.Down? && !P.Exec(tables, run).phase.Recovering?
    ensures P.ValidRun(tables, run + [P.Crash])
    ensures (exists more :: BringsUp(ms, tables, run + [P.Crash], more)) <==>
      forall t :: t in tables && P.InWindow(run, t) ==> KeyFree(MetaOf(ms, t), P.InLog(run, t))
    ensures forall more, t :: BringsUp(ms, tables, run + [P.Crash], more) && P.Quiet(more) && t in tables ==>
      var disk := P.RowsAt(P.Exec(tables, run + [P.Crash] + more).disk, t);
      disk == P.Expected(run + [P.Crash], t) && P.Subsequence(P.Acknowledged(run, t), disk)
  {
    var crashed := run + [P.Crash];
    P.Extend(tables, run, P.Crash);
    assert crashed[..|run|] == run && crashed[|crashed| - 1] == P.Crash;
    assert P.CheckpointsFlushed(tables, crashed) && Admitted(ms, tables, crashed);
    forall t | t in tables
      ensures Stuck(ms, crashed, t) <==> P.InWindow(run, t) && !KeyFree(MetaOf(ms, t), P.InLog(run, t))
    {
      UpIsNotStuck(ms, tables, run, t);
    }
    RecoveryExact(ms, tables, crashed);
    forall more, t | BringsUp(ms, tables, crashed, more) && P.Quiet(more) && t in tables
      ensures var disk := P.RowsAt(P.Exec(tables, crashed + more).disk, t);
        disk == P.Expected(crashed, t) && P.Subsequence(P.Acknowledged(run, t), disk)
    {
      P.QuietKeepsExpected(tables, crashed, more, t);
      P.CrashSafety(tables, crashed + more, t);
      P.NoAnswerLost(tables, crashed, t);
    }
  }

  /** What the replay at start-up tests -- each table's WAL rows against its rows on disk -- holds exactly if no table is stuck. */
  lemma {:induction false} StartUpExact(ms: Metas, run: seq<P.Step>)
    requires P.ValidRun(ms.Keys, run) && P.CheckpointsFlushed(ms.Keys, run) && Admitted(ms, ms.Keys, run)
    requires P.Exec(ms.Keys, run).phase == P.Down
    ensures var s := P.Exec(ms.Keys, run);
      (forall t :: t in s.wal && t in ms ==> AllAcceptable(ms[t], P.RowsAt(s.disk, t), s.wal[t])) <==>
      (forall t :: t in ms ==> !Stuck(ms, run, t))
  {
    var s := P.Exec(ms.Keys, run);
    forall t | t in ms
      ensures Stuck(ms, run, t) <==> t in s.wal && !AllAcceptable(ms[t], P.RowsAt(s.disk, t), s.wal[t])
    {
      ReplayableExactly(ms, ms.Keys, run, t);
      NothingToReplay(ms[t], P.RowsAt(s.disk, t));
    }
  }
}
