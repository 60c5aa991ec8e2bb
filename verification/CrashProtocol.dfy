/**
 The buffered write path as a protocol of micro-steps, with a crash possible between any two.
 The state machine is the order in which the engine touches its buffer, the Arrow WAL and the
 Parquet files; the reference functions read only the labels of a run.
 */
module CrashProtocol {
  import opened Values
  import W = ArrowWalLog

  datatype Phase =
    | Down                                             // no process; memory is gone
    | Idle                                             // between statements
    | Buffering(table: string, rows: seq<Row>)    // INSERT: rows in the buffer only
    | Logging(table: string, rows: seq<Row>)      // INSERT: rows in the WAL too, not answered yet
    | Recovering(todo: map<string, seq<Row>>)        // start-up: recovered tables still to be written

  datatype Flush =
    | NoFlush
    | Taken(table: string, rows: seq<Row>)        // out of the buffer, not on disk
    | Written(table: string, rows: seq<Row>)      // on disk, WAL files not yet removed

  datatype State = State(
    tables: set<string>,
    disk: map<string, seq<Row>>,
    wal: map<string, seq<Row>>,
    buffer: map<string, seq<Row>>,
    phase: Phase,
    flush: Flush)

  datatype Step =
    | BufferRows(table: string, rows: seq<Row>)
    | LogRows(table: string, rows: seq<Row>)
    | Acknowledge(table: string, rows: seq<Row>)
    | TakeBuffer(table: string)
    | WriteParquet(table: string)
    | DropLog(table: string)
    | CheckpointAll
    | Crash
    | Reopen
    | RecoverTable(table: string)
    | FinishRecovery

  function RowsAt(m: map<string, seq<Row>>, t: string): seq<Row> { if t in m then m[t] else [] }

  predicate Enabled(s: State, step: Step) {
    match step
    case BufferRows(t, b) => s.phase == Idle && s.flush == NoFlush && t in s.tables && b != []
    case LogRows(t, b) => s.phase == Buffering(t, b)
    case Acknowledge(t, b) => s.phase == Logging(t, b) && s.flush == NoFlush
    case TakeBuffer(t) => 
      && (s.phase.Idle? || s.phase.Recovering? || (s.phase.Logging? && s.phase.table == t))
      && s.flush == NoFlush && t in s.buffer
    case WriteParquet(t) => s.flush.Taken? && s.flush.table == t
    case DropLog(t) => s.flush.Written? && s.flush.table == t
    case CheckpointAll => s.phase == Idle && s.flush == NoFlush
    case Crash => s.phase != Down
    case Reopen => s.phase == Down
    case RecoverTable(t) =>
      s.phase.Recovering? && t in s.phase.todo && s.flush == NoFlush && s.buffer == map[]
    case FinishRecovery => s.phase == Recovering(map[]) && s.flush == NoFlush && s.buffer == map[]
  }

  function Next(s: State, step: Step): State
    requires Enabled(s, step)
  {
    match step
    case BufferRows(t, b) => s.(buffer := s.buffer[t := RowsAt(s.buffer, t) + b], phase := Buffering(t, b))
    case LogRows(t, b) => s.(wal := s.wal[t := RowsAt(s.wal, t) + b], phase := Logging(t, b))
    case Acknowledge(t, b) => s.(phase := Idle)
    case TakeBuffer(t) => s.(buffer := s.buffer - {t}, flush := Taken(t, s.buffer[t]))
    case WriteParquet(t) =>
      s.(disk := s.disk[t := RowsAt(s.disk, t) + s.flush.rows], flush := Written(t, s.flush.rows))
    case DropLog(t) => s.(wal := s.wal - {t}, flush := NoFlush)
    case CheckpointAll => s.(wal := map[])
    case Crash => s.(buffer := map[], phase := Down, flush := NoFlush)
    case Reopen => s.(phase := Recovering(s.wal))
    case RecoverTable(t) =>
      var todo := s.phase.todo - {t};
      var b := s.phase.todo[t];
      // A table that is gone, or files without rows, leave the buffer as it is.
      if t in s.tables && b != []
      then s.(buffer := s.buffer[t := b], phase := Recovering(todo))
      else s.(phase := Recovering(todo))
    case FinishRecovery => s.(phase := Idle)
  }

  function Initial(tables: set<string>): State { State(tables, map[], map[], map[], Idle, NoFlush) }

  predicate ValidRun(tables: set<string>, run: seq<Step>)
    decreases |run|, 0
  {
    run == [] || (
      && ValidRun(tables, run[..|run| - 1])
      && Enabled(Exec(tables, run[..|run| - 1]), run[|run| - 1]))
  }

  function Exec(tables: set<string>, run: seq<Step>): State
    requires ValidRun(tables, run)
    decreases |run|, 1
  {
    if run == [] then Initial(tables) else Next(Exec(tables, run[..|run| - 1]), run[|run| - 1])
  }

  // ── References: functions of the labels alone ────────────────

  /** Rows whose INSERT was answered, in order. */
  function Acknowledged(run: seq<Step>, t: string): seq<Row> {
    if run == [] then [] else
      var before := Acknowledged(run[..|run| - 1], t);
      match run[|run| - 1]
      case Acknowledge(u, b) => if u == t then before + b else before
      case _ => before
  }

  /** Rows ever written to the WAL, in order. */
  function Logged(run: seq<Step>, t: string): seq<Row> {
    if run == [] then [] else
      var before := Logged(run[..|run| - 1], t);
      match run[|run| - 1]
      case LogRows(u, b) => if u == t then before + b else before
      case _ => before
  }

  /** Rows written to the WAL and not dropped from it. */
  function InLog(run: seq<Step>, t: string): seq<Row> {
    if run == [] then [] else
      var before := InLog(run[..|run| - 1], t);
      match run[|run| - 1]
      case LogRows(u, b) => if u == t then before + b else before
      case DropLog(u) => if u == t then [] else before
      case CheckpointAll => []
      case _ => before
  }

  /** Between the Parquet write of a flush of `t` and the removal of its WAL files. */
  predicate InWindow(run: seq<Step>, t: string) {
    run != [] && (
      match run[|run| - 1]
      case WriteParquet(u) => u == t || InWindow(run[..|run| - 1], t)
      case DropLog(u) => u != t && InWindow(run[..|run| - 1], t)
      case Crash => false
      case _ => InWindow(run[..|run| - 1], t))
  }

  /** What the table must hold: every logged row once, and its WAL rows again after each crash in the window. */
  function Expected(run: seq<Step>, t: string): seq<Row> {
    if run == [] then [] else
      var before := run[..|run| - 1];
      match run[|run| - 1]
      case LogRows(u, b) => if u == t then Expected(before, t) + b else Expected(before, t)
      case Crash => if InWindow(before, t) then Expected(before, t) + InLog(before, t) else Expected(before, t)
      case _ => Expected(before, t)
  }

  predicate CrashInWindow(run: seq<Step>, t: string) {
    run != [] && (
      || (run[|run| - 1] == Crash && InWindow(run[..|run| - 1], t))
      || CrashInWindow(run[..|run| - 1], t))
  }

  /** A crash that found an INSERT logged but not answered. */
  predicate CrashBeforeAnswer(tables: set<string>, run: seq<Step>)
    requires ValidRun(tables, run)
  {
    run != [] && (
      || (run[|run| - 1] == Crash && Exec(tables, run[..|run| - 1]).phase.Logging?)
      || CrashBeforeAnswer(tables, run[..|run| - 1]))
  }

  /** Each CHECKPOINT in the run found an empty buffer. */
  predicate CheckpointsFlushed(tables: set<string>, run: seq<Step>)
    requires ValidRun(tables, run)
  {
    run == [] || (
      && CheckpointsFlushed(tables, run[..|run| - 1])
      && (run[|run| - 1] == CheckpointAll ==> Exec(tables, run[..|run| - 1]).buffer == map[]))
  }

  // ── The invariant ────────────────────────────────────────────

  /** Rows of `t` that memory holds for a later or running flush. */
  function InMemory(s: State, t: string): seq<Row> {
    if !s.flush.NoFlush? && s.flush.table == t then s.flush.rows
    else if s.phase.Recovering? && t in s.phase.todo then s.phase.todo[t]
    else RowsAt(s.buffer, t)
  }

  /** Rows of `t` in the buffer that have not reached the WAL. */
  function Unlogged(s: State, t: string): seq<Row> {
    if s.phase.Buffering? && s.phase.table == t then s.phase.rows else []
  }

  /** Where rows can be in each phase. */
  predicate WellShaped(s: State) {
    && (s.phase == Down || s.phase.Buffering? ==> s.flush == NoFlush)
    && (s.phase == Down ==> s.buffer == map[])
    && (forall t :: t in s.buffer ==> t in s.tables && s.buffer[t] != [])
    && (!s.flush.NoFlush? ==> s.flush.table in s.tables && s.flush.table !in s.buffer)
    && (s.phase.Recovering? ==> forall t :: t in s.phase.todo ==> t !in s.buffer)
    && (s.phase.Recovering? && !s.flush.NoFlush? ==> s.flush.table !in s.phase.todo)
  }

  /** While the process is up, memory holds exactly the rows of the WAL and the one unlogged INSERT. */
  predicate Balanced(s: State, t: string) {
    InMemory(s, t) == RowsAt(s.wal, t) + Unlogged(s, t)
  }

  predicate Consistent(s: State) {
    WellShaped(s) && (s.phase != Down ==> forall t :: t in s.tables ==> Balanced(s, t))
  }

  lemma {:induction false} StepWellShaped(s: State, step: Step)
    requires WellShaped(s) && Enabled(s, step)
    ensures WellShaped(Next(s, step))
  {
  }

  lemma {:induction false} StepBalanced(s: State, step: Step, t: string)
    requires WellShaped(s) && Enabled(s, step) && t in s.tables
    requires s.phase != Down ==> Balanced(s, t)
    requires step == CheckpointAll ==> s.buffer == map[]
    ensures Next(s, step).phase != Down ==> Balanced(Next(s, step), t)
  {
  }

  lemma {:induction false} StepConsistent(s: State, step: Step)
    requires Consistent(s) && Enabled(s, step)
    requires step == CheckpointAll ==> s.buffer == map[]
    ensures Consistent(Next(s, step))
  {
    StepWellShaped(s, step);
    forall t | t in s.tables && Next(s, step).phase != Down ensures Balanced(Next(s, step), t) {
      StepBalanced(s, step, t);
    }
  }

  lemma {:induction false} RunConsistent(tables: set<string>, run: seq<Step>)
    requires ValidRun(tables, run) && CheckpointsFlushed(tables, run)
    ensures Consistent(Exec(tables, run)) && Exec(tables, run).tables == tables
  {
    if run != [] {
      RunConsistent(tables, run[..|run| - 1]);
      StepConsistent(Exec(tables, run[..|run| - 1]), run[|run| - 1]);
    }
  }

  // ── Crash safety ─────────────────────────────────────────────

  /** Rows of `t` that are safe without the running process. */
  function Durable(s: State, t: string): seq<Row> {
    if s.flush.Written? && s.flush.table == t then RowsAt(s.disk, t) else RowsAt(s.disk, t) + RowsAt(s.wal, t)
  }

  /** The durable rows are the expected ones. */
  predicate Accounted(s: State, run: seq<Step>, t: string) {
    && RowsAt(s.wal, t) == InLog(run, t)
    && (InWindow(run, t) <==> s.flush.Written? && s.flush.table == t)
    && Durable(s, t) == Expected(run, t)
  }

  lemma {:induction false} StepInLog(s: State, run: seq<Step>, t: string)
    requires run != [] && Enabled(s, run[|run| - 1])
    requires RowsAt(s.wal, t) == InLog(run[..|run| - 1], t)
    ensures RowsAt(Next(s, run[|run| - 1]).wal, t) == InLog(run, t)
  {
  }

  lemma {:induction false} StepWindow(s: State, run: seq<Step>, t: string)
    requires run != [] && Enabled(s, run[|run| - 1]) && WellShaped(s)
    requires InWindow(run[..|run| - 1], t) <==> s.flush.Written? && s.flush.table == t
    ensures var s' := Next(s, run[|run| - 1]);
      InWindow(run, t) <==> s'.flush.Written? && s'.flush.table == t
  {
  }

  lemma {:induction false} LogDurable(s: State, u: string, b: Batch, t: string)
    requires s.phase == Buffering(u, b) && s.flush == NoFlush
    ensures Durable(Next(s, LogRows(u, b)), t) == if u == t then Durable(s, t) + b else Durable(s, t)
  {
    var d, w := RowsAt(s.disk, t), RowsAt(s.wal, t);
    assert d + (w + b) == (d + w) + b;
  }

  lemma {:induction false} WriteDurable(s: State, u: string, t: string)
    requires Enabled(s, WriteParquet(u)) && WellShaped(s) && s.phase != Down && Balanced(s, t)
    ensures Durable(Next(s, WriteParquet(u)), t) == Durable(s, t)
  {
    if u == t { assert InMemory(s, t) == s.flush.rows; }
  }

  /** Only logging, and a crash in the window, change what is durable. */
  lemma {:induction false} StepDurable(s: State, step: Step, t: string)
    requires Enabled(s, step) && Consistent(s) && t in s.tables
    requires step == CheckpointAll ==> s.buffer == map[]
    ensures Durable(Next(s, step), t) ==
      match step
      case LogRows(u, b) => if u == t then Durable(s, t) + b else Durable(s, t)
      case Crash => if s.flush.Written? && s.flush.table == t then Durable(s, t) + RowsAt(s.wal, t) else Durable(s, t)
      case _ => Durable(s, t)
  {
    assert s.phase != Down ==> Balanced(s, t);
    match step
    case LogRows(u, b) => LogDurable(s, u, b, t);
    case WriteParquet(u) => WriteDurable(s, u, t);
    case CheckpointAll => assert RowsAt(s.wal, t) == [];
    case _ =>
  }

  lemma {:induction false} StepAccounted(s: State, run: seq<Step>, t: string)
    requires run != [] && Enabled(s, run[|run| - 1])
    requires Consistent(s) && t in s.tables
    requires run[|run| - 1] == CheckpointAll ==> s.buffer == map[]
    requires Accounted(s, run[..|run| - 1], t)
    ensures Accounted(Next(s, run[|run| - 1]), run, t)
  {
    StepInLog(s, run, t);
    StepWindow(s, run, t);
    StepDurable(s, run[|run| - 1], t);
  }

  lemma {:induction false} RunAccounted(tables: set<string>, run: seq<Step>, t: string)
    requires ValidRun(tables, run) && CheckpointsFlushed(tables, run) && t in tables
    ensures Accounted(Exec(tables, run), run, t)
  {
    if run != [] {
      var before := run[..|run| - 1];
      RunAccounted(tables, before, t);
      RunConsistent(tables, before);
      StepAccounted(Exec(tables, before), run, t);
    }
  }

  /**
   Crash safety: at every moment of every run in which the process is idle with an empty buffer --
   in particular after each completed recovery -- a table holds exactly the expected rows, in
   order, and nothing is left of it in the WAL.
   */
  lemma {:induction false} CrashSafety(tables: set<string>, run: seq<Step>, t: string)
    requires ValidRun(tables, run) && CheckpointsFlushed(tables, run) && t in tables
    requires Exec(tables, run).phase == Idle && Exec(tables, run).flush == NoFlush
    requires Exec(tables, run).buffer == map[]
    ensures RowsAt(Exec(tables, run).disk, t) == Expected(run, t)
    ensures InLog(run, t) == []
  {
    RunAccounted(tables, run, t);
    RunConsistent(tables, run);
    var s := Exec(tables, run);
    assert Balanced(s, t);
  }

  /** `a` can be had from `b` by leaving rows out. */
  predicate Subsequence<T(==)>(a: seq<T>, b: seq<T>) {
    a == [] || (b != [] && (
      || (a[|a| - 1] == b[|b| - 1] && Subsequence(a[..|a| - 1], b[..|b| - 1]))
      || Subsequence(a, b[..|b| - 1])))
  }

  lemma {:induction false} SubsequenceSkip<T>(a: seq<T>, b: seq<T>, c: seq<T>)
    requires Subsequence(a, b)
    ensures Subsequence(a, b + c)
  {
    if c == [] {
      assert b + c == b;
    } else {
      SubsequenceSkip(a, b, c[..|c| - 1]);
      assert (b + c)[..|b + c| - 1] == b + c[..|c| - 1];
    }
  }

  lemma {:induction false} SubsequenceBoth<T>(a: seq<T>, b: seq<T>, c: seq<T>)
    requires Subsequence(a, b)
    ensures Subsequence(a + c, b + c)
  {
    if c == [] {
      assert a + c == a && b + c == b;
    } else {
      SubsequenceBoth(a, b, c[..|c| - 1]);
      assert (b + c)[..|b + c| - 1] == b + c[..|c| - 1];
      assert (a + c)[..|a + c| - 1] == a + c[..|c| - 1];
    }
  }

  /** The rows answered so far, and behind them those of an INSERT that is logged but not answered. */
  ghost predicate AnswersKept(s: State, run: seq<Step>, t: string) {
    if s.phase.Logging? && s.phase.table == t then
      exists kept :: Expected(run, t) == kept + s.phase.rows && Subsequence(Acknowledged(run, t), kept)
    else
      Subsequence(Acknowledged(run, t), Expected(run, t))
  }

  lemma {:induction false} NoAnswerLost(tables: set<string>, run: seq<Step>, t: string)
    requires ValidRun(tables, run)
    ensures AnswersKept(Exec(tables, run), run, t)
    ensures Subsequence(Acknowledged(run, t), Expected(run, t))
  {
    if run != [] {
      var before, step := run[..|run| - 1], run[|run| - 1];
      var s := Exec(tables, before);
      NoAnswerLost(tables, before, t);
      match step
      case LogRows(u, b) =>
        if u == t {
          assert Expected(run, t) == Expected(before, t) + b;
          SubsequenceSkip(Acknowledged(run, t), Expected(before, t), b);
        }
      case Acknowledge(u, b) =>
        if u == t {
          var kept :| Expected(before, t) == kept + b && Subsequence(Acknowledged(before, t), kept);
          SubsequenceBoth(Acknowledged(before, t), kept, b);
        }
      case Crash =>
        if InWindow(before, t) {
          SubsequenceSkip(Acknowledged(run, t), Expected(before, t), InLog(before, t));
        }
      case _ =>
    }
  }

  /** Rows logged by the INSERT that is still waiting for its answer. */
  function Unanswered(s: State, t: string): seq<Row> {
    if s.phase.Logging? && s.phase.table == t then s.phase.rows else []
  }

  /** What one step does to the logged rows and to those not answered yet. */
  lemma {:induction false} AnswerStep(s: State, step: Step, t: string, logged: seq<Row>, answered: seq<Row>)
    requires Enabled(s, step) && !(step == Crash && s.phase.Logging?)
    requires logged == answered + Unanswered(s, t)
    ensures var logged' := if step.LogRows? && step.table == t then logged + step.rows else logged;
      var answered' := if step.Acknowledge? && step.table == t then answered + step.rows else answered;
      logged' == answered' + Unanswered(Next(s, step), t)
  {
    assert answered + [] == answered;
  }

  /**
   Exactly once: without a crash in the window a table is due each logged row exactly once; and if
   no crash cut off an INSERT between logging and answer, the logged rows are the answered ones.
   */
  lemma {:induction false} ExactlyOnce(tables: set<string>, run: seq<Step>, t: string)
    requires ValidRun(tables, run)
    ensures !CrashInWindow(run, t) ==> Expected(run, t) == Logged(run, t)
    ensures !CrashBeforeAnswer(tables, run)
        ==> Logged(run, t) == Acknowledged(run, t) + Unanswered(Exec(tables, run), t)
  {
    if run != [] {
      var before := run[..|run| - 1];
      ExactlyOnce(tables, before, t);
      if !CrashBeforeAnswer(tables, run) {
        AnswerStep(Exec(tables, before), run[|run| - 1], t, Logged(before, t), Acknowledged(before, t));
      }
    }
  }

  /** The rows a crash in the window duplicates are those of the flush it interrupted, and no others. */
  lemma {:induction false} DuplicatesAreTheWalRows(tables: set<string>, run: seq<Step>, t: string)
    requires ValidRun(tables, run + [Crash]) && CheckpointsFlushed(tables, run + [Crash]) && t in tables
    ensures ValidRun(tables, run) && (InWindow(run, t) <==> Exec(tables, run).flush.Written? && Exec(tables, run).flush.table == t)
    ensures !InWindow(run, t) ==> Expected(run + [Crash], t) == Expected(run, t)
    ensures InWindow(run, t) ==>
      && RowsAt(Exec(tables, run).disk, t) == Expected(run, t)
      && Expected(run + [Crash], t) == Expected(run, t) + Exec(tables, run).flush.rows
  {
    assert (run + [Crash])[..|run|] == run;
    RunAccounted(tables, run, t);
    RunConsistent(tables, run);
    assert Balanced(Exec(tables, run), t);
  }

  /** The state that a sequence of steps leads to, if each of them is enabled in its turn. */
  function Follow(s: State, steps: seq<Step>): Option<State>
    decreases |steps|
  {
    if steps == [] then Some(s)
    else if Enabled(s, steps[0]) then Follow(Next(s, steps[0]), steps[1..])
    else None
  }

  lemma {:induction false} FollowStep(s: State, step: Step, rest: seq<Step>, s': State)
    requires Enabled(s, step) && Follow(Next(s, step), rest) == Some(s')
    ensures Follow(s, [step] + rest) == Some(s')
  {
    assert ([step] + rest)[1..] == rest;
  }

  lemma {:induction false} HeadOfConcat<T>(a: seq<T>, b: seq<T>)
    requires a != []
    ensures a + b == [a[0]] + (a[1..] + b)
  {
  }

  lemma {:induction false} FollowConcat(s: State, a: seq<Step>, m: State, b: seq<Step>, s': State)
    requires Follow(s, a) == Some(m) && Follow(m, b) == Some(s')
    ensures Follow(s, a + b) == Some(s')
    decreases |a|
  {
    if a == [] {
      assert a + b == b;
    } else {
      FollowConcat(Next(s, a[0]), a[1..], m, b, s');
      FollowStep(s, a[0], a[1..] + b, s');
      HeadOfConcat(a, b);
    }
  }

  // ── Recovery always completes ────────────────────────────────

  lemma {:induction false} Extend(tables: set<string>, run: seq<Step>, step: Step)
    requires ValidRun(tables, run) && Enabled(Exec(tables, run), step)
    ensures ValidRun(tables, run + [step])
    ensures Exec(tables, run + [step]) == Next(Exec(tables, run), step)
  {
    assert (run + [step])[..|run|] == run;
  }

  lemma {:induction false} Regroup(a: seq<Step>, b: seq<Step>, c: seq<Step>)
    ensures a + (b + c) == a + b + c
  {
  }

  /** Steps that can be followed from the end of a run prolong it. */
  lemma {:induction false} FollowExtends(tables: set<string>, run: seq<Step>, steps: seq<Step>, s': State)
    requires ValidRun(tables, run) && Follow(Exec(tables, run), steps) == Some(s')
    ensures ValidRun(tables, run + steps) && Exec(tables, run + steps) == s'
    decreases |steps|
  {
    if steps == [] {
      assert run + steps == run;
    } else {
      var more := run + [steps[0]];
      assert more[..|more| - 1] == run && more[|more| - 1] == steps[0];
      assert ValidRun(tables, more) && Follow(Exec(tables, more), steps[1..]) == Some(s');
      FollowExtends(tables, more, steps[1..], s');
      assert steps == [steps[0]] + steps[1..];
      Regroup(run, [steps[0]], steps[1..]);
    }
  }

  function FlushSteps(t: string): seq<Step> { [TakeBuffer(t), WriteParquet(t), DropLog(t)] }

  function FlushState(s: State, t: string): State
    requires t in s.buffer
  {
    s.(buffer := s.buffer - {t},
       disk := s.disk[t := RowsAt(s.disk, t) + s.buffer[t]],
       wal := s.wal - {t})
  }

  lemma {:induction false} FollowFlush(s: State, t: string)
    requires Enabled(s, TakeBuffer(t))
    ensures Follow(s, FlushSteps(t)) == Some(FlushState(s, t))
  {
    var s1 := Next(s, TakeBuffer(t));
    var s2 := Next(s1, WriteParquet(t));
    FollowStep(s2, DropLog(t), [], FlushState(s, t));
    FollowStep(s1, WriteParquet(t), [DropLog(t)], FlushState(s, t));
    FollowStep(s, TakeBuffer(t), [WriteParquet(t)] + [DropLog(t)], FlushState(s, t));
    assert FlushSteps(t) == [TakeBuffer(t)] + ([WriteParquet(t)] + ([DropLog(t)] + []));
  }

  lemma {:induction false} FlushRun(tables: set<string>, run: seq<Step>, t: string)
    requires ValidRun(tables, run)
    requires Enabled(Exec(tables, run), TakeBuffer(t))
    ensures ValidRun(tables, run + FlushSteps(t))
    ensures Exec(tables, run + FlushSteps(t)) == FlushState(Exec(tables, run), t)
  {
    FollowFlush(Exec(tables, run), t);
    FollowExtends(tables, run, FlushSteps(t), FlushState(Exec(tables, run), t));
  }

  /** Steps that start no statement and do not crash. */
  predicate Quiet(more: seq<Step>) {
    forall x :: x in more ==> x.Reopen? || x.RecoverTable? || x.TakeBuffer? || x.WriteParquet? || x.DropLog? || x.FinishRecovery?
  }

  predicate AtRest(s: State) { s.phase == Idle && s.flush == NoFlush && s.buffer == map[] }

  predicate Draining(s: State) { s.phase.Recovering? && s.flush == NoFlush && s.buffer == map[] }

  lemma {:induction false} RecoverOne(tables: set<string>, run: seq<Step>, t: string) returns (more: seq<Step>)
    requires ValidRun(tables, run) && Draining(Exec(tables, run)) && t in Exec(tables, run).phase.todo
    ensures ValidRun(tables, run + more) && Draining(Exec(tables, run + more)) && Quiet(more)
    ensures Exec(tables, run + more).phase.todo == Exec(tables, run).phase.todo - {t}
  {
    more := [RecoverTable(t)];
    Extend(tables, run, RecoverTable(t));
    var s := Exec(tables, run + more);
    if t in s.buffer {
      FlushRun(tables, run + more, t);
      assert FlushState(s, t).buffer == map[];
      assert run + (more + FlushSteps(t)) == run + more + FlushSteps(t);
      more := more + FlushSteps(t);
    } else {
      assert s.buffer == map[];
    }
  }

  lemma {:induction false} DrainRecovery(tables: set<string>, run: seq<Step>) returns (more: seq<Step>)
    requires ValidRun(tables, run) && Draining(Exec(tables, run))
    ensures ValidRun(tables, run + more) && AtRest(Exec(tables, run + more)) && Quiet(more)
    decreases Exec(tables, run).phase.todo.Keys
  {
    var todo := Exec(tables, run).phase.todo;
    if todo == map[] {
      Extend(tables, run, FinishRecovery);
      more := [FinishRecovery];
    } else {
      var t :| t in todo;
      var first := RecoverOne(tables, run, t);
      assert (todo - {t}).Keys == todo.Keys - {t};
      var rest := DrainRecovery(tables, run + first);
      more := first + rest;
      Regroup(run, first, rest);
    }
  }

  /** After any crash a restart reaches rest again, by quiet steps only. */
  lemma {:induction false} RecoveryCompletes(tables: set<string>, run: seq<Step>) returns (more: seq<Step>)
    requires ValidRun(tables, run) && Exec(tables, run).phase == Down
    requires CheckpointsFlushed(tables, run)
    ensures ValidRun(tables, run + more) && AtRest(Exec(tables, run + more)) && Quiet(more)
  {
    RunConsistent(tables, run);
    Extend(tables, run, Reopen);
    assert Draining(Exec(tables, run + [Reopen]));
    var rest := DrainRecovery(tables, run + [Reopen]);
    more := [Reopen] + rest;
    assert run + more == run + [Reopen] + rest;
  }

  /** Quiet steps change nothing that is expected. */
  lemma {:induction false} QuietKeepsExpected(tables: set<string>, run: seq<Step>, more: seq<Step>, t: string)
    requires ValidRun(tables, run + more) && Quiet(more)
    requires ValidRun(tables, run) && CheckpointsFlushed(tables, run)
    ensures CheckpointsFlushed(tables, run + more)
    ensures Expected(run + more, t) == Expected(run, t)
  {
    if more == [] {
      assert run + more == run;
    } else {
      var n := |more| - 1;
      assert (run + more)[..|run + more| - 1] == run + more[..n];
      assert more[n] in more;
      QuietKeepsExpected(tables, run, more[..n], t);
    }
  }

  /**
   Crash at any micro-step, then restart: every table ends with exactly the rows expected at the
   crash, and the answered rows are among them in order.
   */
  lemma {:induction false} CrashThenRestart(tables: set<string>, run: seq<Step>, t: string) returns (more: seq<Step>)
    requires ValidRun(tables, run) && CheckpointsFlushed(tables, run) && t in tables
    requires Exec(tables, run).phase != Down
    ensures ValidRun(tables, run + [Crash] + more) && AtRest(Exec(tables, run + [Crash] + more))
    ensures RowsAt(Exec(tables, run + [Crash] + more).disk, t) == Expected(run + [Crash], t)
    ensures Subsequence(Acknowledged(run, t), RowsAt(Exec(tables, run + [Crash] + more).disk, t))
  {
    Extend(tables, run, Crash);
    assert (run + [Crash])[..|run|] == run;
    more := RecoveryCompletes(tables, run + [Crash]);
    QuietKeepsExpected(tables, run + [Crash], more, t);
    CrashSafety(tables, run + [Crash] + more, t);
    NoAnswerLost(tables, run + [Crash], t);
  }

  // ── CHECKPOINT ───────────────────────────────────────────────

  lemma {:induction false} DropAll(tables: set<string>, run: seq<Step>)
    requires ValidRun(tables, run) && Ready(Exec(tables, run))
    ensures var after := run + [CheckpointAll, Crash, Reopen, FinishRecovery];
      ValidRun(tables, after) && AtRest(Exec(tables, after)) && Exec(tables, after).disk == Exec(tables, run).disk
  {
    Extend(tables, run, CheckpointAll);
    Extend(tables, run + [CheckpointAll], Crash);
    Extend(tables, run + [CheckpointAll] + [Crash], Reopen);
    Extend(tables, run + [CheckpointAll] + [Crash] + [Reopen], FinishRecovery);
    assert run + [CheckpointAll, Crash, Reopen, FinishRecovery] == run + [CheckpointAll] + [Crash] + [Reopen] + [FinishRecovery];
  }

  /**
   Dropping the whole WAL keeps crash safety exactly when no row is buffered: otherwise the rows
   still in the buffer are gone after the next crash.
   */
  lemma {:induction false} CheckpointExact(tables: set<string>, run: seq<Step>)
    requires ValidRun(tables, run) && CheckpointsFlushed(tables, run)
    requires Exec(tables, run).phase == Idle && Exec(tables, run).flush == NoFlush
    ensures var after := run + [CheckpointAll, Crash, Reopen, FinishRecovery];
      && ValidRun(tables, after)
      && AtRest(Exec(tables, after))
      && ((forall t :: t in tables ==> RowsAt(Exec(tables, after).disk, t) == Expected(run, t))
          <==> Exec(tables, run).buffer == map[])
  {
    var s := Exec(tables, run);
    DropAll(tables, run);
    RunConsistent(tables, run);
    forall t | t in tables ensures RowsAt(s.disk, t) == Expected(run, t) <==> t !in s.buffer {
      RunAccounted(tables, run, t);
      assert Balanced(s, t);
      assert |Expected(run, t)| == |RowsAt(s.disk, t)| + |RowsAt(s.wal, t)|;
    }
    if s.buffer != map[] {
      var t :| t in s.buffer;
      assert t in tables;
    }
  }

  function UpperChar(c: char): char { if 'a' <= c <= 'z' then ((c as int) - 32) as char else c }

  function ToUpper(s: string): string { seq(|s|, i requires 0 <= i < |s| => UpperChar(s[i])) }

  predicate Contains(text: string, part: string) {
    part <= text || (text != "" && Contains(text[1..], part))
  }

  const SMALL := "abcdefghijklmnopqrstuvwxyz"
  const CAPITAL := "ABCDEFGHIJKLMNOPQRSTUVWXYZ"

  /** Small letters become capitals, and nothing else changes. */
  lemma {:induction false} UpperExact(c: char, i: nat)
    requires i < 26
    ensures UpperChar(SMALL[i]) == CAPITAL[i]
    ensures c !in SMALL ==> UpperChar(c) == c
  {
    if 'a' <= c <= 'z' { assert SMALL[c as int - 97] == c; }
  }

  /** The substring test. */
  lemma {:induction false} ContainsExact(text: string, part: string)
    ensures Contains(text, part) <==> exists i :: 0 <= i <= |text| && part <= text[i..]
  {
    if Contains(text, part) {
      if part <= text {
        assert text[0..] == text;
      } else {
        ContainsExact(text[1..], part);
        var i :| 0 <= i <= |text[1..]| && part <= text[1..][i..];
        assert text[1..][i..] == text[i + 1..];
      }
    }
    if i :| 0 <= i <= |text| && part <= text[i..] { ContainsAt(text, i, part); }
  }

  lemma {:induction false} ContainsAt(text: string, i: nat, part: string)
    requires i <= |text| && part <= text[i..]
    ensures Contains(text, part)
  {
    if i > 0 {
      assert text[1..][i - 1..] == text[i..];
      ContainsAt(text[1..], i - 1, part);
    }
  }

  lemma {:induction false} ContainsNot(text: string, part: string)
    requires part != "" && |part| <= |text| + 1 && part[0] !in text[..|text| - |part| + 1]
    ensures !Contains(text, part)
  {
    if text != "" {
      var n := |text| - |part| + 1;
      if n > 0 {
        assert text[..n][0] == text[0];
        assert text[1..][..n - 1] == text[..n][1..];
      }
      if |part| <= |text[1..]| + 1 {
        ContainsNot(text[1..], part);
      } else {
        ContainsTooLong(text[1..], part);
      }
    }
  }

  lemma {:induction false} ContainsTooLong(text: string, part: string)
    requires |part| > |text|
    ensures !Contains(text, part)
  {
    if text != "" { ContainsTooLong(text[1..], part); }
  }

  /** The statement text mentions the table, as far as a substring test can tell. */
  predicate Mentions(sqlUpper: string, table: string) { Contains(sqlUpper, ToUpper(table)) }

  /** What is flushed before a statement: the tables it mentions, or all if it mentions none. */
  function TablesToFlush(buffered: set<string>, sqlUpper: string): set<string> {
    var mentioned := set t | t in buffered && Mentions(sqlUpper, t);
    if mentioned == {} then buffered else mentioned
  }

  predicate Ready(s: State) { s.phase == Idle && s.flush == NoFlush }

  /** The state when the buffered rows of some tables have been flushed. */
  function FlushedState(s: State, ts: set<string>): State {
    s.(buffer := s.buffer - ts,
       disk := map t | t in s.disk.Keys + ts * s.buffer.Keys ::
         RowsAt(s.disk, t) + (if t in ts then RowsAt(s.buffer, t) else []),
       wal := s.wal - ts * s.buffer.Keys)
  }

  /** A flush of one table, if it has buffered rows. */
  function FlushedOne(s: State, t: string): State { if t in s.buffer then FlushState(s, t) else s }

  lemma {:induction false} FlushedNone(s: State)
    ensures FlushedState(s, {}) == s
  {
    assert FlushedState(s, {}).disk == s.disk by {
      forall t | t in s.disk ensures RowsAt(s.disk, t) + [] == s.disk[t] {}
    }
  }

  lemma {:induction false} FlushedMaps(s: State, ts: set<string>, t: string)
    requires t !in ts
    ensures s.buffer - ts - {t} == s.buffer - (ts + {t})
    ensures t in s.buffer ==> s.wal - ts * s.buffer.Keys - {t} == s.wal - (ts + {t}) * s.buffer.Keys
    ensures t !in s.buffer ==> (ts + {t}) * s.buffer.Keys == ts * s.buffer.Keys && s.buffer - ts == s.buffer - (ts + {t})
  {
  }

  lemma {:induction false} FlushedDisk(s: State, ts: set<string>, t: string)
    requires t !in ts && t in s.buffer
    ensures var disk := FlushedState(s, ts).disk;
      disk[t := RowsAt(disk, t) + s.buffer[t]] == FlushedState(s, ts + {t}).disk
  {
    assert (ts + {t}) * s.buffer.Keys == ts * s.buffer.Keys + {t};
    var disk, disk' := FlushedState(s, ts).disk, FlushedState(s, ts + {t}).disk;
    assert RowsAt(disk, t) == RowsAt(s.disk, t);
    assert disk'.Keys == disk.Keys + {t};
  }

  /** Flushing one table more. */
  lemma {:induction false} FlushedMore(s: State, ts: set<string>, t: string)
    requires t !in ts
    ensures t in s.buffer <==> t in FlushedState(s, ts).buffer
    ensures FlushedOne(FlushedState(s, ts), t) == FlushedState(s, ts + {t})
  {
    FlushedMaps(s, ts, t);
    if t in s.buffer {
      FlushedDisk(s, ts, t);
      assert FlushedState(s, ts).buffer[t] == s.buffer[t];
    }
  }

  /** Flushes one after the other lead there. */
  lemma {:induction false} FollowFlushes(s: State, ts: set<string>) returns (steps: seq<Step>)
    requires Ready(s) && ts <= s.buffer.Keys
    ensures Follow(s, steps) == Some(FlushedState(s, ts)) && Quiet(steps)
    decreases ts
  {
    if ts == {} {
      FlushedNone(s);
      steps := [];
    } else {
      var t :| t in ts;
      var first := FollowFlushes(s, ts - {t});
      var mid := FlushedState(s, ts - {t});
      assert ts - {t} + {t} == ts;
      FlushedMore(s, ts - {t}, t);
      FollowFlush(mid, t);
      FollowConcat(s, first, mid, FlushSteps(t), FlushedState(s, ts));
      steps := first + FlushSteps(t);
    }
  }

  /** Flushing an entry without rows does nothing, so the steps for the others suffice. */
  lemma {:induction false} FollowFlushesOf(s: State, ts: set<string>) returns (steps: seq<Step>)
    requires Ready(s)
    ensures Follow(s, steps) == Some(FlushedState(s, ts)) && Quiet(steps)
  {
    var filled := ts * s.buffer.Keys;
    steps := FollowFlushes(s, filled);
    assert filled * s.buffer.Keys == filled && s.buffer - filled == s.buffer - ts;
    assert FlushedState(s, filled).disk == FlushedState(s, ts).disk;
  }

  lemma {:induction false} FlushEach(tables: set<string>, run: seq<Step>, todo: set<string>) returns (more: seq<Step>)
    requires ValidRun(tables, run) && Ready(Exec(tables, run))
    ensures ValidRun(tables, run + more) && Quiet(more)
    ensures Exec(tables, run + more) == FlushedState(Exec(tables, run), todo)
  {
    more := FollowFlushesOf(Exec(tables, run), todo);
    FollowExtends(tables, run, more, FlushedState(Exec(tables, run), todo));
  }

  /**
   The CHECKPOINT statement, with its selective flush. `entries` are the tables with an entry in the
   write buffer; a rejected INSERT leaves one without rows. The statement is crash safe exactly when
   its text mentions none of the entries, or every table with buffered rows.
   */
  lemma {:induction false} CheckpointStatementExact(tables: set<string>, run: seq<Step>, entries: set<string>, sqlUpper: string)
      returns (flushes: seq<Step>)
    requires ValidRun(tables, run) && CheckpointsFlushed(tables, run) && Ready(Exec(tables, run))
    requires Exec(tables, run).buffer.Keys <= entries
    ensures var after := run + flushes + [CheckpointAll, Crash, Reopen, FinishRecovery];
      && ValidRun(tables, run + flushes)
      && Exec(tables, run + flushes) == FlushedState(Exec(tables, run), TablesToFlush(entries, sqlUpper))
      && ValidRun(tables, after)
      && ((forall t :: t in tables ==> RowsAt(Exec(tables, after).disk, t) == Expected(run, t))
          <==> FlushTakesAll(entries, Exec(tables, run).buffer.Keys, sqlUpper))
  {
    var todo := TablesToFlush(entries, sqlUpper);
    flushes := FlushEach(tables, run, todo);
    QuietKeepsExpected(tables, run, flushes, "");
    forall t { QuietKeepsExpected(tables, run, flushes, t); }
    CheckpointExact(tables, run + flushes);
    TakesAllExactly(entries, Exec(tables, run).buffer.Keys, sqlUpper);
  }

  /** Of the entries, the text mentions none, or all that have rows. */
  predicate FlushTakesAll(entries: set<string>, filled: set<string>, sqlUpper: string) {
    || (forall t :: t in entries ==> !Mentions(sqlUpper, t))
    || (forall t :: t in filled ==> Mentions(sqlUpper, t))
  }

  lemma {:induction false} TakesAllExactly(entries: set<string>, filled: set<string>, sqlUpper: string)
    requires filled <= entries
    ensures FlushTakesAll(entries, filled, sqlUpper) <==> filled <= TablesToFlush(entries, sqlUpper)
  {
    var mentioned := set t | t in entries && Mentions(sqlUpper, t);
    if mentioned == {} {
      forall t | t in entries ensures !Mentions(sqlUpper, t) { assert t !in mentioned; }
    } else {
      var m :| m in mentioned;
      assert m in entries && Mentions(sqlUpper, m);
    }
  }

  /** The steps of an answered INSERT that reaches no threshold. */
  function InsertRun(t: string, rows: seq<Row>): seq<Step> { [BufferRows(t, rows)] + [LogRows(t, rows)] + [Acknowledge(t, rows)] }

  lemma {:induction false} InsertAnswered(tables: set<string>, run: seq<Step>, t: string, rows: seq<Row>)
    requires ValidRun(tables, run) && Ready(Exec(tables, run))
    requires t in Exec(tables, run).tables && rows != []
    ensures var run', s := run + InsertRun(t, rows), Exec(tables, run);
      && ValidRun(tables, run')
      && Exec(tables, run') == s.(buffer := s.buffer[t := RowsAt(s.buffer, t) + rows], wal := s.wal[t := RowsAt(s.wal, t) + rows])
  {
    var run1 := run + [BufferRows(t, rows)];
    var run2 := run1 + [LogRows(t, rows)];
    Extend(tables, run, BufferRows(t, rows));
    Extend(tables, run1, LogRows(t, rows));
    Extend(tables, run2, Acknowledge(t, rows));
    assert run2 + [Acknowledge(t, rows)] == run + InsertRun(t, rows);
  }

  lemma {:induction false} InsertAcknowledged(run: seq<Step>, t: string, rows: seq<Row>, u: string)
    ensures Acknowledged(run + InsertRun(t, rows), u) == if u == t then Acknowledged(run, u) + rows else Acknowledged(run, u)
  {
    var run1 := run + [BufferRows(t, rows)];
    var run2 := run1 + [LogRows(t, rows)];
    var run3 := run2 + [Acknowledge(t, rows)];
    assert run3 == run + InsertRun(t, rows);
    assert run1[..|run|] == run && run2[..|run1|] == run1 && run3[..|run2|] == run2;
    assert Acknowledged(run2, u) == Acknowledged(run1, u) == Acknowledged(run, u);
    assert run3[|run3| - 1] == Acknowledge(t, rows);
  }

  /** The first INSERT of a run. */
  lemma {:induction false} OneInsert(tables: set<string>, u: string, others: seq<Row>, run: seq<Step>)
    requires u in tables && others != [] && run == InsertRun(u, others)
    ensures ValidRun(tables, run) && Ready(Exec(tables, run)) && Exec(tables, run).disk == map[] && Exec(tables, run).tables == tables
    ensures Exec(tables, run).buffer == map[u := others] && Acknowledged(run, u) == others
  {
    assert [] + run == run;
    InsertAnswered(tables, [], u, others);
    InsertAcknowledged([], u, others, u);
    assert [] + others == others;
  }

  /** One more INSERT, into another table. */
  lemma {:induction false} OneMoreInsert(tables: set<string>, first: seq<Step>, t: string, u: string, rows: seq<Row>, others: seq<Row>)
    requires ValidRun(tables, first) && Ready(Exec(tables, first)) && Exec(tables, first).tables == tables
    requires t in tables && t != u && rows != [] && Exec(tables, first).buffer == map[u := others]
    ensures var run := first + InsertRun(t, rows);
      && ValidRun(tables, run) && Ready(Exec(tables, run)) && Exec(tables, run).disk == Exec(tables, first).disk
      && Exec(tables, run).buffer.Keys == {t, u} && Acknowledged(run, u) == Acknowledged(first, u)
  {
    InsertAnswered(tables, first, t, rows);
    InsertAcknowledged(first, t, rows, u);
    assert map[u := others][t := RowsAt(map[u := others], t) + rows].Keys == {t, u};
  }

  lemma {:induction false} TwoInserts(tables: set<string>, t: string, u: string, rows: seq<Row>, others: seq<Row>)
    requires t in tables && u in tables && t != u && rows != [] && others != []
    ensures var run := InsertRun(u, others) + InsertRun(t, rows);
      && ValidRun(tables, run) && Ready(Exec(tables, run)) && Exec(tables, run).disk == map[]
      && Exec(tables, run).buffer.Keys == {t, u} && Acknowledged(run, u) == others
  {
    var first := InsertRun(u, others);
    OneInsert(tables, u, others, first);
    OneMoreInsert(tables, first, t, u, rows, others);
  }

  /** Two INSERTs, then a CHECKPOINT whose text mentions one of their tables: the rows of the other are lost in a crash. */
  lemma {:induction false} CheckpointLoses(tables: set<string>, t: string, u: string, rows: seq<Row>, others: seq<Row>, sqlUpper: string)
      returns (flushes: seq<Step>)
    requires t in tables && u in tables && t != u && rows != [] && others != []
    requires Mentions(sqlUpper, t) && !Mentions(sqlUpper, u)
    ensures var run := InsertRun(u, others) + InsertRun(t, rows);
      var after := run + flushes + [CheckpointAll, Crash, Reopen, FinishRecovery];
      && ValidRun(tables, run) && ValidRun(tables, run + flushes) && Quiet(flushes)
      && (Exec(tables, run + flushes) ==
          FlushedState(Exec(tables, run), TablesToFlush(Exec(tables, run).buffer.Keys, sqlUpper)))
      && ValidRun(tables, after) && AtRest(Exec(tables, after))
      && Acknowledged(run, u) == others && RowsAt(Exec(tables, after).disk, u) == []
  {
    var run := InsertRun(u, others) + InsertRun(t, rows);
    TwoInserts(tables, t, u, rows, others);
    var s := Exec(tables, run);
    flushes := FlushEach(tables, run, TablesToFlush(s.buffer.Keys, sqlUpper));
    var mentioned := set x | x in s.buffer.Keys && Mentions(sqlUpper, x);
    assert t in mentioned && u !in mentioned;
    DropAll(tables, run + flushes);
  }

  /**
   One answered INSERT, and an INSERT into another table that is rejected: if the text of CHECKPOINT
   mentions the table of the rejected one alone, the answered rows are lost in a crash.
   */
  lemma {:induction false} RejectionLoses(tables: set<string>, rejected: string, u: string, rows: seq<Row>, sqlUpper: string)
      returns (flushes: seq<Step>)
    requires u in tables && rejected != u && rows != []
    requires Mentions(sqlUpper, rejected) && !Mentions(sqlUpper, u)
    ensures var run, entries := InsertRun(u, rows), {rejected, u};
      var after := run + flushes + [CheckpointAll, Crash, Reopen, FinishRecovery];
      && ValidRun(tables, run) && Exec(tables, run).buffer.Keys == {u}
      && ValidRun(tables, run + flushes)
      && Exec(tables, run + flushes) == FlushedState(Exec(tables, run), TablesToFlush(entries, sqlUpper))
      && ValidRun(tables, after) && AtRest(Exec(tables, after))
      && Acknowledged(run, u) == rows && RowsAt(Exec(tables, after).disk, u) == []
  {
    var run, entries := InsertRun(u, rows), {rejected, u};
    OneInsert(tables, u, rows, run);
    var mentioned := set t | t in entries && Mentions(sqlUpper, t);
    assert rejected in mentioned && u !in mentioned;
    flushes := FlushEach(tables, run, TablesToFlush(entries, sqlUpper));
    DropAll(tables, run + flushes);
  }

  const CHECKPOINT_TEXT := "CHECKPOINT"
  const TABLE_T := "t"
  const TABLE_ORDERS := "orders"

  lemma {:induction false} TableNames()
    ensures Mentions(CHECKPOINT_TEXT, TABLE_T) && !Mentions(CHECKPOINT_TEXT, TABLE_ORDERS) && TABLE_T != TABLE_ORDERS
  {
    assert ToUpper(TABLE_T) == "T" && ToUpper(TABLE_ORDERS) == "ORDERS";
    assert CHECKPOINT_TEXT[9..] == "T";
    ContainsAt(CHECKPOINT_TEXT, 9, "T");
    assert CHECKPOINT_TEXT[..5] == "CHECK";
    ContainsNot(CHECKPOINT_TEXT, "ORDERS");
  }

  /** A table called `t` is enough: INSERT into `orders` and `t`, CHECKPOINT, crash, restart -- `orders` is empty. */
  lemma {:induction false} CheckpointLosesOrders(tables: set<string>, rows: seq<Row>, orders: seq<Row>) returns (flushes: seq<Step>)
    requires TABLE_T in tables && TABLE_ORDERS in tables && rows != [] && orders != []
    ensures var run := InsertRun(TABLE_ORDERS, orders) + InsertRun(TABLE_T, rows);
      var after := run + flushes + [CheckpointAll, Crash, Reopen, FinishRecovery];
      && ValidRun(tables, run) && ValidRun(tables, run + flushes) && Quiet(flushes)
      && (Exec(tables, run + flushes) ==
          FlushedState(Exec(tables, run), TablesToFlush(Exec(tables, run).buffer.Keys, CHECKPOINT_TEXT)))
      && ValidRun(tables, after) && AtRest(Exec(tables, after))
      && Acknowledged(run, TABLE_ORDERS) == orders && RowsAt(Exec(tables, after).disk, TABLE_ORDERS) == []
  {
    TableNames();
    flushes := CheckpointLoses(tables, TABLE_T, TABLE_ORDERS, rows, orders, CHECKPOINT_TEXT);
  }

  // ── The WAL of the protocol is the Arrow WAL ─────────────────

  /** The log operations that a run performs. */
  function WalOps(run: seq<Step>): seq<W.WalOp> {
    if run == [] then [] else
      var before := WalOps(run[..|run| - 1]);
      match run[|run| - 1]
      case LogRows(t, rows) => before + [W.Append(t, [rows])]
      case DropLog(t) => before + [W.CheckpointTable(t)]
      case CheckpointAll => before + [W.CheckpointAll]
      case Reopen => before + [W.Reopen]
      case _ => before
  }

  lemma {:induction false} WalOpsHold(run: seq<Step>, t: string)
    ensures RowsOf(W.Concat(W.SinceCheckpoint(WalOps(run), t))) == InLog(run, t)
  {
    if run != [] {
      var before := run[..|run| - 1];
      WalOpsHold(before, t);
      var ops := WalOps(before);
      match run[|run| - 1]
      case LogRows(u, rows) =>
        assert (ops + [W.Append(u, [rows])])[..|ops|] == ops;
        LoggedBatch(W.SinceCheckpoint(ops, t), rows);
      case DropLog(u) => assert (ops + [W.CheckpointTable(u)])[..|ops|] == ops;
      case CheckpointAll => assert (ops + [W.CheckpointAll])[..|ops|] == ops;
      case Reopen => assert (ops + [W.Reopen])[..|ops|] == ops;
      case _ =>
    }
  }

  lemma {:induction false} LoggedBatch(appends: seq<seq<Batch>>, rows: Batch)
    ensures RowsOf(W.Concat(appends + [[rows]])) == RowsOf(W.Concat(appends)) + rows
  {
    assert (appends + [[rows]])[..|appends|] == appends;
    RowsOfConcat(W.Concat(appends), [rows]);
    assert [rows][..0] == [];
    assert RowsOf([rows]) == rows;
  }

  /**
   What the Arrow WAL recovers after the log operations of a run is what the protocol recovers:
   the same rows in the same order while the counter is at most 999999.
   */
  lemma {:induction false} ArrowWalServesProtocol(run: seq<Step>, t: string)
    ensures W.Run(WalOps(run)).1
    ensures var r := W.Recovered(W.Run(WalOps(run)).0.dir);
      W.Run(WalOps(run)).0.seqNo <= 999999 ==>
        (if t in r then RowsOf(r[t]) else []) == InLog(run, t)
  {
    W.WalRefinement(WalOps(run), t);
    WalOpsHold(run, t);
  }
}
