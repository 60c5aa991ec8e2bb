/**
 Transactions together with the write buffer. An INSERT goes to the buffer, inside a transaction as
 outside; every other statement first flushes the buffer entries that its text mentions, or all of
 them if it mentions none. What ROLLBACK and ROLLBACK TO undo depends on the rows flushed by then.
 */
module BufferedTransactions {
  import opened Values
  import opened Transactions
  import opened TransactionTheorems
  import opened RollbackTheorems
  import opened SavepointRows
  import opened CommitTheorems
  import P = CrashProtocol

  /** An entry of the buffer may have no rows: a rejected INSERT leaves one. */
  datatype Session = Session(db: Db, buffer: map<string, seq<Row>>)

  /**
   `accepted`: validation let the INSERT pass. `flushed`: it reached a threshold. `order`: the order
   in which the entries are flushed before the statement.
   */
  datatype Request =
    | Insert(table: string, rows: seq<Row>, accepted: bool, flushed: bool)
    | Sql(statement: Statement, text: string, order: seq<string>)

  /** The flush of an entry succeeds: it has no rows, or its table exists. */
  predicate Flushable(s: Session, t: string) { P.RowsAt(s.buffer, t) != [] ==> t in s.db.catalog.tables }

  /** `flush_table`: the entry goes, and its rows are written if the table exists. */
  function FlushOne(s: Session, t: string): Session {
    var rows := P.RowsAt(s.buffer, t);
    Session(if rows != [] && t in s.db.catalog.tables then Execute(s.db, Append(t, rows)) else s.db, s.buffer - {t})
  }

  predicate AllFlush(s: Session, order: seq<string>) { forall t :: t in order ==> Flushable(s, t) }

  /** The flushes before a statement; the first that fails is the last. */
  function FlushEach(s: Session, order: seq<string>): Session {
    if order == [] then s else
      var before := order[..|order| - 1];
      if AllFlush(s, before) then FlushOne(FlushEach(s, before), order[|order| - 1]) else FlushEach(s, before)
  }

  function Serve(s: Session, r: Request): Session {
    match r
    case Insert(t, rows, accepted, flushed) =>
      if rows == [] || t !in s.db.catalog.tables then s else
        var staged := s.(buffer := s.buffer[t := P.RowsAt(s.buffer, t) + if accepted then rows else []]);
        if accepted && flushed then FlushOne(staged, t) else staged
    case Sql(statement, _, order) =>
      var s' := FlushEach(s, order);
      if AllFlush(s, order) then s'.(db := Execute(s'.db, statement)) else s'
  }

  function ServeAll(s: Session, rs: seq<Request>): Session {
    if rs == [] then s else Serve(ServeAll(s, rs[..|rs| - 1]), rs[|rs| - 1])
  }

  function Listed(order: seq<string>): set<string> { set t | t in order }

  /**
   The flush before a statement takes the entries it has to take; COMMIT then takes the others too. A
   DROP TABLE mentions its table.
   */
  predicate Fits(s: Session, r: Request) {
    r.Sql? ==>
      && Listed(r.order) == (if r.statement.Commit? then s.buffer.Keys else P.TablesToFlush(s.buffer.Keys, r.text))
      && (r.statement.DropTable? ==> P.Mentions(r.text, r.statement.table))
  }

  /** Requests inside a transaction, none of which ends it. */
  predicate AllFit(s: Session, rs: seq<Request>) {
    rs == [] || (
      var before, r := rs[..|rs| - 1], rs[|rs| - 1];
      && AllFit(s, before) && Fits(ServeAll(s, before), r)
      && (r.Sql? ==> !r.statement.Commit? && !r.statement.Rollback?))
  }

  predicate NoBack(rs: seq<Request>) { forall r :: r in rs && r.Sql? ==> !r.statement.RollbackTo? }

  /** What the table will hold once its buffered rows are written too. */
  function Later(s: Session, t: string): seq<Row> { TableRows(FilesOf(s.db.store, t)) + P.RowsAt(s.buffer, t) }

  /** The tables of all buffered rows exist. */
  predicate Buffered(s: Session) { forall t :: t in s.buffer ==> Flushable(s, t) }

  // ── A session is a run of the transaction model ──────────────

  function FlushRun(s: Session, order: seq<string>): seq<Statement> {
    if order == [] then [] else
      var before, t := order[..|order| - 1], order[|order| - 1];
      var s' := FlushEach(s, before);
      var rows := P.RowsAt(s'.buffer, t);
      FlushRun(s, before)
      + if AllFlush(s, before) && rows != [] && t in s'.db.catalog.tables then [Append(t, rows)] else []
  }

  function RequestRun(s: Session, r: Request): seq<Statement> {
    match r
    case Insert(t, rows, accepted, flushed) =>
      if accepted && flushed && rows != [] && t in s.db.catalog.tables then [Append(t, P.RowsAt(s.buffer, t) + rows)] else []
    case Sql(statement, _, order) => FlushRun(s, order) + if AllFlush(s, order) then [statement] else []
  }

  function SessionRun(s: Session, rs: seq<Request>): seq<Statement> {
    if rs == [] then [] else
      SessionRun(s, rs[..|rs| - 1]) + RequestRun(ServeAll(s, rs[..|rs| - 1]), rs[|rs| - 1])
  }

  lemma {:induction false} RunConcat(db: Db, a: seq<Statement>, b: seq<Statement>)
    ensures Run(db, a + b) == Run(Run(db, a), b)
  {
    if b == [] {
      assert a + b == a;
    } else {
      RunConcat(db, a, b[..|b| - 1]);
      assert (a + b)[..|a + b| - 1] == a + b[..|b| - 1];
    }
  }

  lemma {:induction false} RunOne(db: Db, s: Statement)
    ensures Run(db, [s]) == Execute(db, s)
  {
    assert [s][..0] == [];
    assert Run(db, []) == db;
  }

  lemma {:induction false} FlushRunAppends(s: Session, order: seq<string>)
    ensures forall x :: x in FlushRun(s, order) ==> x.Append?
  {
    if order != [] { FlushRunAppends(s, order[..|order| - 1]); }
  }

  lemma {:induction false} FlushIsRun(s: Session, order: seq<string>)
    ensures FlushEach(s, order).db == Run(s.db, FlushRun(s, order))
  {
    if order != [] {
      var before, t := order[..|order| - 1], order[|order| - 1];
      FlushIsRun(s, before);
      var s' := FlushEach(s, before);
      var rows := P.RowsAt(s'.buffer, t);
      if AllFlush(s, before) && rows != [] && t in s'.db.catalog.tables {
        RunConcat(s.db, FlushRun(s, before), [Append(t, rows)]);
        RunOne(s'.db, Append(t, rows));
      } else {
        assert FlushRun(s, order) == FlushRun(s, before);
      }
    }
  }

  lemma {:induction false} RemoveMore(buffer: map<string, seq<Row>>, done: set<string>, t: string)
    ensures (buffer - done) - {t} == buffer - (done + {t})
  {
  }

  /** The entries that are left when no flush fails. */
  lemma {:induction false} FlushLeaves(s: Session, order: seq<string>)
    requires AllFlush(s, order)
    ensures FlushEach(s, order).buffer == s.buffer - Listed(order)
  {
    if order == [] {
      assert Listed(order) == {} && s.buffer - {} == s.buffer;
    } else {
      var before, t := order[..|order| - 1], order[|order| - 1];
      assert forall u :: u in before ==> u in order;
      FlushLeaves(s, before);
      assert Listed(order) == Listed(before) + {t};
      RemoveMore(s.buffer, Listed(before), t);
    }
  }

  lemma {:induction false} SqlIsRun(s: Session, statement: Statement, text: string, order: seq<string>)
    ensures var r := Sql(statement, text, order);
      && Serve(s, r).db == Run(s.db, RequestRun(s, r))
      && (!statement.Commit? && !statement.Rollback? ==> KeepsOpen(RequestRun(s, r)))
      && (Inside(statement) ==> AllInside(RequestRun(s, r)))
  {
    FlushIsRun(s, order);
    FlushRunAppends(s, order);
    if AllFlush(s, order) {
      RunConcat(s.db, FlushRun(s, order), [statement]);
      RunOne(FlushEach(s, order).db, statement);
    } else {
      assert RequestRun(s, Sql(statement, text, order)) == FlushRun(s, order);
    }
  }

  lemma {:induction false} RequestIsRun(s: Session, r: Request)
    ensures Serve(s, r).db == Run(s.db, RequestRun(s, r))
    ensures (r.Sql? ==> !r.statement.Commit? && !r.statement.Rollback?) ==> KeepsOpen(RequestRun(s, r))
    ensures (r.Sql? ==> Inside(r.statement)) ==> AllInside(RequestRun(s, r))
  {
    match r
    case Insert(t, rows, accepted, flushed) =>
      if accepted && flushed && rows != [] && t in s.db.catalog.tables {
        RunOne(s.db, Append(t, P.RowsAt(s.buffer, t) + rows));
      }
    case Sql(statement, text, order) => SqlIsRun(s, statement, text, order);
  }

  /** Buffered INSERTs and selective flushes are a run of the transaction model. */
  lemma {:induction false} SessionIsRun(s: Session, rs: seq<Request>)
    requires AllFit(s, rs)
    ensures ServeAll(s, rs).db == Run(s.db, SessionRun(s, rs)) && KeepsOpen(SessionRun(s, rs))
    ensures NoBack(rs) ==> AllInside(SessionRun(s, rs))
  {
    if rs != [] {
      var before, r := rs[..|rs| - 1], rs[|rs| - 1];
      assert r in rs && forall x :: x in before ==> x in rs;
      SessionIsRun(s, before);
      RequestIsRun(ServeAll(s, before), r);
      RunConcat(s.db, SessionRun(s, before), RequestRun(ServeAll(s, before), r));
    }
  }

  lemma {:induction false} ServeConcat(s: Session, a: seq<Request>, b: seq<Request>)
    ensures ServeAll(s, a + b) == ServeAll(ServeAll(s, a), b)
  {
    if b == [] {
      assert a + b == a;
    } else {
      var front, last := b[..|b| - 1], b[|b| - 1];
      ServeConcat(s, a, front);
      SplitLast(a, b);
    }
  }

  lemma {:induction false} SplitLast<T>(a: seq<T>, b: seq<T>)
    requires b != []
    ensures (a + b)[..|a + b| - 1] == a + b[..|b| - 1] && (a + b)[|a + b| - 1] == b[|b| - 1] && a + b != []
  {
  }

  lemma {:induction false} SessionRunStep(s: Session, rs: seq<Request>, front: seq<Request>, last: Request, step: seq<Statement>)
    requires rs != [] && front == rs[..|rs| - 1] && last == rs[|rs| - 1] && step == RequestRun(ServeAll(s, front), last)
    ensures SessionRun(s, rs) == SessionRun(s, front) + step
  {
  }

  lemma {:induction false} Regroup(whole: seq<Statement>, long: seq<Statement>, x: seq<Statement>, y: seq<Statement>,
                                   tail: seq<Statement>, step: seq<Statement>)
    requires long == x + y && whole == long + step && tail == y + step
    ensures whole == x + tail
  {
  }

  lemma {:induction false} SessionRunConcat(s: Session, a: seq<Request>, b: seq<Request>, mid: Session)
    requires mid == ServeAll(s, a)
    ensures SessionRun(s, a + b) == SessionRun(s, a) + SessionRun(mid, b)
  {
    if b == [] {
      assert a + b == a;
    } else {
      var front, last := b[..|b| - 1], b[|b| - 1];
      var step := RequestRun(ServeAll(mid, front), last);
      SessionRunConcat(s, a, front, mid);
      ServeConcat(s, a, front);
      SplitLast(a, b);
      SessionRunStep(s, a + b, a + front, last, step);
      SessionRunStep(mid, b, front, last, step);
      Regroup(SessionRun(s, a + b), SessionRun(s, a + front), SessionRun(s, a), SessionRun(mid, front), SessionRun(mid, b), step);
    }
  }

  // ── Every flush finds its table ──────────────────────────────

  /** What a statement inside the transaction does to the tables of the catalog. */
  lemma {:induction false} TablesEffect(db: Db, s: Statement, t: string)
    requires db.txn.Some? && db.inTransaction && Inside(s)
    ensures Execute(db, s).txn.Some? && Execute(db, s).inTransaction
    ensures t in db.catalog.tables && s != DropTable(t) ==> t in Execute(db, s).catalog.tables
  {
    match s
    case DropTable(u) =>
    case CreateTable(u, _) =>
    case _ =>
  }

  lemma {:induction false} AppendEffect(db: Db, t: string, rows: seq<Row>, u: string)
    requires t in db.catalog.tables
    ensures var after := Execute(db, Append(t, rows));
      && after.txn == db.txn && after.inTransaction == db.inTransaction
      && after.catalog.tables.Keys == db.catalog.tables.Keys
      && StoreOf(after.store, u) == if u == t then AddFile(StoreOf(db.store, t), rows) else StoreOf(db.store, u)
  {
    assert AppendDb(db, t, rows).Ok?;
  }

  /** A flush of one entry changes where its rows are and nothing else. */
  lemma {:induction false} FlushOneKeeps(s: Session, t: string, u: string)
    requires Flushable(s, t)
    ensures var s' := FlushOne(s, t);
      && s'.db.txn == s.db.txn && s'.db.inTransaction == s.db.inTransaction
      && s'.db.catalog.tables.Keys == s.db.catalog.tables.Keys
      && Later(s', u) == Later(s, u)
      && (Ordered(StoreOf(s.db.store, u)) ==> Ordered(StoreOf(s'.db.store, u)))
  {
    var store, rows := StoreOf(s.db.store, t), P.RowsAt(s.buffer, t);
    assert P.RowsAt(s.buffer - {t}, u) == if u == t then [] else P.RowsAt(s.buffer, u);
    if rows != [] {
      AppendEffect(s.db, t, rows, u);
      TableRowsAdd(store, rows);
      if u == t {
        assert TableRows(store.files) + rows + [] == TableRows(store.files) + rows;
        if Ordered(store) { AddOrdered(store, rows); }
      }
    }
  }

  lemma {:induction false} FlushKeeps(s: Session, order: seq<string>, u: string)
    requires AllFlush(s, order)
    ensures var s' := FlushEach(s, order);
      && s'.db.txn == s.db.txn && s'.db.inTransaction == s.db.inTransaction
      && s'.db.catalog.tables.Keys == s.db.catalog.tables.Keys
      && Later(s', u) == Later(s, u)
      && (Ordered(StoreOf(s.db.store, u)) ==> Ordered(StoreOf(s'.db.store, u)))
  {
    if order != [] {
      var before, t := order[..|order| - 1], order[|order| - 1];
      assert forall x :: x in before ==> x in order;
      FlushKeeps(s, before, u);
      FlushLeaves(s, before);
      assert P.RowsAt(s.buffer - Listed(before), t) == if t in before then [] else P.RowsAt(s.buffer, t);
      assert Flushable(s, t);
      FlushOneKeeps(FlushEach(s, before), t, u);
    }
  }

  lemma {:induction false} ServeKeepsTables(s: Session, r: Request)
    requires Buffered(s) && s.db.txn.Some? && s.db.inTransaction && Fits(s, r) && (r.Sql? ==> Inside(r.statement))
    ensures Buffered(Serve(s, r)) && Serve(s, r).db.txn.Some? && Serve(s, r).db.inTransaction
  {
    match r
    case Insert(t, rows, accepted, flushed) =>
      if rows != [] && t in s.db.catalog.tables {
        var staged := s.(buffer := s.buffer[t := P.RowsAt(s.buffer, t) + if accepted then rows else []]);
        assert Buffered(staged) by {
          forall u | u in staged.buffer && u != t ensures Flushable(staged, u) { assert Flushable(s, u); }
        }
        FlushOneKeeps(staged, t, "");
        forall u | u in FlushOne(staged, t).buffer ensures Flushable(FlushOne(staged, t), u) { assert Flushable(staged, u); }
      }
    case Sql(statement, text, order) => ServeSqlKeepsTables(s, statement, text, order);
  }

  lemma {:induction false} ServeSqlKeepsTables(s: Session, statement: Statement, text: string, order: seq<string>)
    requires Buffered(s) && s.db.txn.Some? && s.db.inTransaction && Fits(s, Sql(statement, text, order)) && Inside(statement)
    ensures AllFlush(s, order)
    ensures var s' := Serve(s, Sql(statement, text, order)); Buffered(s') && s'.db.txn.Some? && s'.db.inTransaction
  {
    forall t | t in order ensures Flushable(s, t) {
      if t in s.buffer { assert Flushable(s, t); }
    }
    var s' := FlushEach(s, order);
    FlushKeeps(s, order, "");
    FlushLeaves(s, order);
    TablesEffect(s'.db, statement, "");
    forall t | t in s'.buffer && P.RowsAt(s'.buffer, t) != [] ensures t in Execute(s'.db, statement).catalog.tables {
      assert Flushable(s, t);
      assert t !in P.TablesToFlush(s.buffer.Keys, text);
      assert statement != DropTable(t);
      TablesEffect(s'.db, statement, t);
    }
  }

  /** Without ROLLBACK TO the buffer holds rows of existing tables only, so no flush fails for want of its table. */
  lemma {:induction false} BufferedTablesExist(s: Session, rs: seq<Request>)
    requires Buffered(s) && s.db.txn.Some? && s.db.inTransaction && AllFit(s, rs) && NoBack(rs)
    ensures Buffered(ServeAll(s, rs)) && ServeAll(s, rs).db.txn.Some? && ServeAll(s, rs).db.inTransaction
  {
    if rs != [] {
      var before, r := rs[..|rs| - 1], rs[|rs| - 1];
      assert r in rs && forall x :: x in before ==> x in rs;
      BufferedTablesExist(s, before);
      ServeKeepsTables(ServeAll(s, before), r);
    }
  }

  // ── ROLLBACK ─────────────────────────────────────────────────

  /** The session when BEGIN has run; `s` is the session when its flush has run. */
  function BeginSession(s: Session): Session { s.(db := Execute(s.db, Begin)) }

  /** Rows of `t` that ROLLBACK leaves in its files beyond those of BEGIN. */
  function Kept(start: Db, run: seq<Statement>, t: string): seq<Row> {
    match FirstRewrite(start, run, t) case Some(app) => app case None => []
  }

  /** The statements of the transaction up to the last one, the flush before it included. */
  function WholeRun(s: Session, rs: seq<Request>, order: seq<string>): seq<Statement> {
    SessionRun(BeginSession(s), rs) + FlushRun(ServeAll(BeginSession(s), rs), order)
  }

  /** The last statement runs at the end of that run, with the entries it passed over still buffered. */
  lemma {:induction false} LastIsRun(s: Session, rs: seq<Request>, last: Request)
    requires AllFit(BeginSession(s), rs) && last.Sql? && AllFlush(ServeAll(BeginSession(s), rs), last.order)
    ensures var now := ServeAll(BeginSession(s), rs);
      var run := WholeRun(s, rs, last.order);
      && KeepsOpen(run) && (NoBack(rs) ==> AllInside(run))
      && Serve(now, last).db == Execute(Run(BeginSession(s).db, run), last.statement)
      && Serve(now, last).buffer == now.buffer - Listed(last.order)
  {
    var begin := BeginSession(s);
    var now := ServeAll(begin, rs);
    SessionIsRun(begin, rs);
    FlushIsRun(now, last.order);
    FlushRunAppends(now, last.order);
    FlushLeaves(now, last.order);
    RunConcat(begin.db, SessionRun(begin, rs), FlushRun(now, last.order));
  }

  lemma {:induction false} SameTail(rows: seq<Row>, a: seq<Row>, b: seq<Row>)
    ensures rows + a == rows + b <==> a == b
  {
    assert (rows + a)[|rows|..] == a && (rows + b)[|rows|..] == b;
  }

  lemma {:induction false} NothingMore(rows: seq<Row>)
    ensures rows + [] == rows
  {
  }

  lemma {:induction false} FilesAfterRollback(db0: Db, run: seq<Statement>, t: string)
    requires db0.txn.None? && StoreOrdered(db0.store) && AllInside(run) && t in db0.catalog.tables
    ensures var start := Execute(db0, Begin);
      TableRows(FilesOf(Execute(Run(start, run), Rollback).store, t)) == TableRows(FilesOf(db0.store, t)) + Kept(start, run, t)
  {
    FullRollback(db0, run, t);
    NothingMore(TableRows(FilesOf(db0.store, t)));
  }

  lemma {:induction false} AddRows(rows: seq<Row>, app: seq<Row>, left: seq<Row>)
    ensures rows + app + left == rows <==> app == [] && left == []
  {
    assert |rows + app + left| == |rows| + |app| + |left|;
  }

  /**
   What a table of BEGIN will hold after ROLLBACK and a later flush: its files at BEGIN, the rows
   appended before its first rewrite, and the buffered rows that the flush before ROLLBACK passed over.
   */
  lemma {:induction false} RollbackAndBuffer(s: Session, rs: seq<Request>, text: string, order: seq<string>, t: string)
    requires s.db.txn.None? && StoreOrdered(s.db.store) && t in s.db.catalog.tables
    requires AllFit(BeginSession(s), rs) && NoBack(rs)
    requires Fits(ServeAll(BeginSession(s), rs), Sql(Rollback, text, order)) && AllFlush(ServeAll(BeginSession(s), rs), order)
    ensures var now := ServeAll(BeginSession(s), rs);
      var end := Serve(now, Sql(Rollback, text, order));
      var app := Kept(BeginSession(s).db, WholeRun(s, rs, order), t);
      && end.buffer == now.buffer - P.TablesToFlush(now.buffer.Keys, text)
      && Later(end, t) == TableRows(FilesOf(s.db.store, t)) + app + P.RowsAt(end.buffer, t)
      && (Later(end, t) == TableRows(FilesOf(s.db.store, t)) <==> app == [] && P.RowsAt(end.buffer, t) == [])
  {
    var end := Serve(ServeAll(BeginSession(s), rs), Sql(Rollback, text, order));
    LastIsRun(s, rs, Sql(Rollback, text, order));
    FilesAfterRollback(s.db, WholeRun(s, rs, order), t);
    AddRows(TableRows(FilesOf(s.db.store, t)), Kept(BeginSession(s).db, WholeRun(s, rs, order), t), P.RowsAt(end.buffer, t));
  }

  predicate NoRewrites(rs: seq<Request>) { forall r :: r in rs && r.Sql? ==> !r.statement.Rewrite? }

  lemma {:induction false} SessionRunKeeps(s: Session, rs: seq<Request>)
    requires NoRewrites(rs)
    ensures forall x :: x in SessionRun(s, rs) ==> !x.Rewrite?
  {
    if rs != [] {
      var before, r := rs[..|rs| - 1], rs[|rs| - 1];
      assert r in rs && forall x :: x in before ==> x in rs;
      SessionRunKeeps(s, before);
      if r.Sql? { FlushRunAppends(ServeAll(s, before), r.order); }
    }
  }

  lemma {:induction false} NothingKept(start: Db, run: seq<Statement>, t: string)
    requires forall x :: x in run ==> !x.Rewrite?
    ensures FirstRewrite(start, run, t).None?
  {
    if run != [] {
      assert run[|run| - 1] in run && forall x :: x in run[..|run| - 1] ==> x in run;
      NothingKept(start, run[..|run| - 1], t);
    }
  }

  predicate NoRows(s: Session) { forall t :: t in s.buffer ==> s.buffer[t] == [] }

  /** Tables of `tables` with buffered rows. */
  function Filled(s: Session, tables: set<string>): set<string> { set t | t in s.buffer && s.buffer[t] != [] && t in tables }

  lemma {:induction false} OpenAtEnd(s: Session, rs: seq<Request>, text: string, order: seq<string>)
    requires s.db.txn.None? && Buffered(s) && AllFit(BeginSession(s), rs) && NoBack(rs)
    requires Fits(ServeAll(BeginSession(s), rs), Sql(Rollback, text, order))
    ensures AllFlush(ServeAll(BeginSession(s), rs), order)
  {
    var now := ServeAll(BeginSession(s), rs);
    BeginOpens(s.db);
    forall t | t in BeginSession(s).buffer ensures Flushable(BeginSession(s), t) { assert Flushable(s, t); }
    BufferedTablesExist(BeginSession(s), rs);
    forall t | t in order ensures Flushable(now, t) {
      if t in now.buffer { assert Flushable(now, t); }
    }
  }

  /** Without rewrites: the buffered rows of a table of BEGIN are kept if they are passed over, and all others undone. */
  lemma {:induction false} UndoneOrKept(s: Session, rs: seq<Request>, end: Request, t: string)
    requires s.db.txn.None? && StoreOrdered(s.db.store) && NoRows(s) && t in s.db.catalog.tables
    requires AllFit(BeginSession(s), rs) && NoBack(rs) && NoRewrites(rs)
    requires end.Sql? && end.statement == Rollback && Fits(ServeAll(BeginSession(s), rs), end)
    ensures var now := ServeAll(BeginSession(s), rs);
      Later(Serve(now, end), t) ==
        TableRows(FilesOf(s.db.store, t)) + P.RowsAt(now.buffer - P.TablesToFlush(now.buffer.Keys, end.text), t)
  {
    assert end == Sql(Rollback, end.text, end.order);
    OpenAtEnd(s, rs, end.text, end.order);
    SessionRunKeeps(BeginSession(s), rs);
    FlushRunAppends(ServeAll(BeginSession(s), rs), end.order);
    RollbackAndBuffer(s, rs, end.text, end.order, t);
    NothingKept(BeginSession(s).db, WholeRun(s, rs, end.order), t);
    NothingMore(TableRows(FilesOf(s.db.store, t)));
  }

  lemma {:induction false} UndoneExactly(s: Session, rs: seq<Request>, end: Request, now: Session, flushed: set<string>, t: string)
    requires s.db.txn.None? && StoreOrdered(s.db.store) && NoRows(s) && t in s.db.catalog.tables
    requires AllFit(BeginSession(s), rs) && NoBack(rs) && NoRewrites(rs)
    requires now == ServeAll(BeginSession(s), rs) && end.Sql? && end.statement == Rollback && Fits(now, end)
    requires flushed == P.TablesToFlush(now.buffer.Keys, end.text)
    ensures Later(Serve(now, end), t) == TableRows(FilesOf(s.db.store, t)) <==>
      t !in Filled(now, s.db.catalog.tables.Keys) || t in flushed
  {
    UndoneOrKept(s, rs, end, t);
    NothingMore(TableRows(FilesOf(s.db.store, t)));
    SameTail(TableRows(FilesOf(s.db.store, t)), P.RowsAt(now.buffer - flushed, t), []);
  }

  /**
   ROLLBACK undoes the INSERTs of a transaction that rewrites nothing if and only if the text of the
   statement mentions none of the buffer entries -- rejected INSERTs leave some without rows -- or
   every table of BEGIN that has buffered rows.
   */
  lemma {:induction false} RollbackUndoesInserts(s: Session, rs: seq<Request>, text: string, order: seq<string>)
    requires s.db.txn.None? && StoreOrdered(s.db.store) && NoRows(s)
    requires AllFit(BeginSession(s), rs) && NoBack(rs) && NoRewrites(rs)
    requires Fits(ServeAll(BeginSession(s), rs), Sql(Rollback, text, order))
    ensures var now := ServeAll(BeginSession(s), rs);
      var end := Serve(now, Sql(Rollback, text, order));
      ((forall t :: t in s.db.catalog.tables ==> Later(end, t) == TableRows(FilesOf(s.db.store, t))) <==>
        P.FlushTakesAll(now.buffer.Keys, Filled(now, s.db.catalog.tables.Keys), text))
  {
    var now, end := ServeAll(BeginSession(s), rs), Sql(Rollback, text, order);
    var flushed, filled := P.TablesToFlush(now.buffer.Keys, text), Filled(now, s.db.catalog.tables.Keys);
    forall t | t in s.db.catalog.tables
      ensures Later(Serve(now, end), t) == TableRows(FilesOf(s.db.store, t)) <==> t !in filled || t in flushed
    {
      UndoneExactly(s, rs, end, now, flushed, t);
    }
    assert filled <= s.db.catalog.tables.Keys;
    P.TakesAllExactly(now.buffer.Keys, filled, text);
  }

  lemma {:induction false} FlushesMentioned(entries: set<string>, text: string, mentioned: set<string>)
    requires mentioned <= entries
    requires forall t :: t in entries ==> (P.Mentions(text, t) <==> t in mentioned)
    ensures P.TablesToFlush(entries, text) == if mentioned == {} then entries else mentioned
  {
    var all := set t | t in entries && P.Mentions(text, t);
    forall t ensures t in all <==> t in mentioned {}
    assert all == mentioned;
    assert P.TablesToFlush(entries, text) == if all == {} then entries else all;
  }

  lemma {:induction false} FirstInsert(s: Session, x: string, rows: seq<Row>)
    requires x in s.db.catalog.tables && rows != [] && s.buffer == map[]
    ensures var one := [Insert(x, rows, true, false)];
      && ServeAll(s, one) == s.(buffer := map[x := rows]) && SessionRun(s, one) == []
      && AllFit(s, one) && NoBack(one) && NoRewrites(one)
  {
    var one, r := [Insert(x, rows, true, false)], Insert(x, rows, true, false);
    OneRequest(s, r);
    assert one[..|one| - 1] == [] && one[|one| - 1] == r;
    assert [] + rows == rows && s.buffer[x := rows] == map[x := rows];
    assert Serve(s, r) == s.(buffer := map[x := rows]) && RequestRun(s, r) == [];
    assert AllFit(s, []);
  }

  /** An accepted INSERT into `x`, and one into `t` that is accepted or not. */
  lemma {:induction false} TwoInserts(s: Session, x: string, rows: seq<Row>, t: string, others: seq<Row>, accepted: bool)
    requires x in s.db.catalog.tables && t in s.db.catalog.tables && x != t && rows != [] && others != [] && s.buffer == map[]
    ensures var rs := [Insert(x, rows, true, false)] + [Insert(t, others, accepted, false)];
      && ServeAll(s, rs) == s.(buffer := map[x := rows, t := if accepted then others else []])
      && SessionRun(s, rs) == [] && AllFit(s, rs) && NoBack(rs) && NoRewrites(rs)
  {
    var one, last := [Insert(x, rows, true, false)], Insert(t, others, accepted, false);
    var two, mid := one + [last], s.(buffer := map[x := rows]);
    FirstInsert(s, x, rows);
    assert two[..|two| - 1] == one && two[|two| - 1] == last;
    assert [] + others == others;
    SessionRunStep(s, two, one, last, []);
    assert Serve(mid, last) == s.(buffer := map[x := rows, t := if accepted then others else []]);
  }

  /** The flushes before a ROLLBACK whose text mentions `a` and not `x`, without an entry for `a` and with one. */
  lemma {:induction false} RejectionFits(begin: Session, x: string, rows: seq<Row>, a: string, others: seq<Row>,
                                         one: seq<Request>, two: seq<Request>, text: string)
    requires begin.buffer == map[] && x in begin.db.catalog.tables && a in begin.db.catalog.tables && rows != [] && others != []
    requires P.Mentions(text, a) && !P.Mentions(text, x)
    requires one == [Insert(x, rows, true, false)] && two == one + [Insert(a, others, false, false)]
    ensures AllFit(begin, one) && NoBack(one) && NoRewrites(one) && AllFit(begin, two) && NoBack(two) && NoRewrites(two)
    ensures var without, with_ := ServeAll(begin, one).buffer, ServeAll(begin, two).buffer;
      && Listed([x]) == P.TablesToFlush(without.Keys, text) && P.RowsAt(without - {x}, x) == []
      && Listed([a]) == P.TablesToFlush(with_.Keys, text) == {a} && P.RowsAt(with_ - {a}, x) == rows
  {
    FirstInsert(begin, x, rows);
    TwoInserts(begin, x, rows, a, others, false);
    FlushesMentioned({x}, text, {});
    FlushesMentioned({x, a}, text, {a});
    assert ServeAll(begin, one).buffer.Keys == {x} && ServeAll(begin, two).buffer.Keys == {x, a};
  }

  /**
   A rejected INSERT changes what ROLLBACK does: with rows of `x` buffered, and a text that mentions
   `a` and not `x`, they are undone as long as `a` has no entry, and survive when it has one.
   */
  lemma {:induction false} RejectionKeepsRows(s: Session, x: string, rows: seq<Row>, a: string, others: seq<Row>,
                                              one: seq<Request>, two: seq<Request>, endX: Request, endA: Request)
    requires s.db.txn.None? && StoreOrdered(s.db.store) && s.buffer == map[]
    requires x in s.db.catalog.tables && a in s.db.catalog.tables && rows != [] && others != []
    requires one == [Insert(x, rows, true, false)] && two == one + [Insert(a, others, false, false)]
    requires endX.Sql? && endX.statement == Rollback && endX.order == [x] && endA == endX.(order := [a])
    requires P.Mentions(endX.text, a) && !P.Mentions(endX.text, x)
    ensures var without, with_ := ServeAll(BeginSession(s), one), ServeAll(BeginSession(s), two);
      && Fits(without, endX) && Fits(with_, endA)
      && Later(Serve(without, endX), x) == TableRows(FilesOf(s.db.store, x))
      && Later(Serve(with_, endA), x) == TableRows(FilesOf(s.db.store, x)) + rows
  {
    BeginOpens(s.db);
    RejectionFits(BeginSession(s), x, rows, a, others, one, two, endX.text);
    UndoneOrKept(s, one, endX, x);
    UndoneOrKept(s, two, endA, x);
    NothingMore(TableRows(FilesOf(s.db.store, x)));
  }

  // ── COMMIT ───────────────────────────────────────────────────

  lemma {:induction false} NothingLeft(buffer: map<string, seq<Row>>, order: seq<string>)
    requires Listed(order) == buffer.Keys
    ensures buffer - Listed(order) == map[]
  {
  }

  /**
   COMMIT leaves nothing buffered, whatever its text mentions, and every row that was answered before
   BEGIN or in the transaction is in the files, unless a statement dropped the table.
   */
  lemma {:induction false} CommitKeepsRows(s: Session, rs: seq<Request>, end: Request, t: string)
    requires s.db.txn.None? && AllFit(BeginSession(s), rs)
    requires var now := ServeAll(BeginSession(s), rs);
      end.Sql? && end.statement == Commit && Fits(now, end) && AllFlush(now, end.order)
    ensures var now := ServeAll(BeginSession(s), rs);
      var after := Serve(now, end);
      && after.buffer == map[] && after.db.txn.None? && after.db.stored == after.db.catalog
      && TableRows(FilesOf(after.db.store, t)) ==
         if Dropped(BeginSession(s).db, WholeRun(s, rs, end.order), t) then [] else Later(now, t)
  {
    var now, run := ServeAll(BeginSession(s), rs), WholeRun(s, rs, end.order);
    LastIsRun(s, rs, end);
    NothingLeft(now.buffer, end.order);
    CommitKeepsFiles(s.db, run, t);
    CommitEnds(s.db, run, Commit);
    FlushKeeps(now, end.order, t);
    FlushLeaves(now, end.order);
    NothingMore(TableRows(FilesOf(FlushEach(now, end.order).db.store, t)));
    FlushIsRun(now, end.order);
    SessionIsRun(BeginSession(s), rs);
    RunConcat(BeginSession(s).db, SessionRun(BeginSession(s), rs), FlushRun(now, end.order));
  }

  // ── Rows that were answered before BEGIN ─────────────────────

  /** BEGIN, whose flush has run, and ROLLBACK with nothing in between. */
  lemma {:induction false} EmptyTransaction(at: Session, end: Request, t: string)
    requires at.db.txn.None? && StoreOrdered(at.db.store) && Buffered(at) && t in at.db.catalog.tables
    requires end.Sql? && end.statement == Rollback && Fits(BeginSession(at), end)
    ensures var left := at.buffer - P.TablesToFlush(at.buffer.Keys, end.text);
      Later(Serve(BeginSession(at), end), t) == TableRows(FilesOf(at.db.store, t)) + P.RowsAt(left, t)
  {
    assert ServeAll(BeginSession(at), []) == BeginSession(at) && SessionRun(BeginSession(at), []) == [];
    assert end == Sql(Rollback, end.text, end.order);
    OpenAtEnd(at, [], end.text, end.order);
    RollbackAndBuffer(at, [], end.text, end.order, t);
    FlushRunAppends(BeginSession(at), end.order);
    NothingKept(BeginSession(at).db, WholeRun(at, [], end.order), t);
    assert TableRows(FilesOf(at.db.store, t)) + [] == TableRows(FilesOf(at.db.store, t));
  }

  lemma {:induction false} AfterFlush(s: Session, order: seq<string>)
    requires Buffered(s) && AllFlush(s, order) && StoreOrdered(s.db.store)
    ensures Buffered(FlushEach(s, order)) && StoreOrdered(FlushEach(s, order).db.store)
  {
    FlushLeaves(s, order);
    var s' := FlushEach(s, order);
    FlushKeeps(s, order, "");
    forall t | t in s'.buffer ensures Flushable(s', t) { assert Flushable(s, t); }
    forall t ensures Ordered(StoreOf(s'.db.store, t)) {
      assert Ordered(StoreOf(s.db.store, t));
      FlushKeeps(s, order, t);
    }
  }

  /**
   BEGIN and ROLLBACK with nothing in between: a table keeps the rows that were answered before if
   and only if BEGIN left none of them buffered, or ROLLBACK passes its entry over. A flush inside
   the transaction is undone, whenever the rows came in.
   */
  lemma {:induction false} BeginThenRollbackExact(s: Session, begin: Request, end: Request, t: string)
    requires s.db.txn.None? && StoreOrdered(s.db.store) && Buffered(s) && t in s.db.catalog.tables
    requires begin.Sql? && begin.statement == Begin && Fits(s, begin)
    requires end.Sql? && end.statement == Rollback && Fits(Serve(s, begin), end)
    ensures var left := s.buffer - P.TablesToFlush(s.buffer.Keys, begin.text);
      Later(Serve(Serve(s, begin), end), t) == Later(s, t) <==>
        P.RowsAt(left, t) == [] || t !in P.TablesToFlush(left.Keys, end.text)
  {
    var at := FlushEach(s, begin.order);
    var left := s.buffer - P.TablesToFlush(s.buffer.Keys, begin.text);
    forall u | u in begin.order ensures Flushable(s, u) { if u in s.buffer { assert Flushable(s, u); } }
    FlushLeaves(s, begin.order);
    FlushKeeps(s, begin.order, t);
    AfterFlush(s, begin.order);
    assert at.buffer == left && Serve(s, begin) == BeginSession(at);
    EmptyTransaction(at, end, t);
    SameTail(TableRows(FilesOf(at.db.store, t)), P.RowsAt(left - P.TablesToFlush(left.Keys, end.text), t), P.RowsAt(left, t));
  }

  const BEGIN_TEXT := "BEGIN"
  const ROLLBACK_TEXT := "ROLLBACK"
  const TABLE_A := "a"
  const TABLE_B := "b"

  lemma {:induction false} ShortNames()
    ensures P.Mentions(BEGIN_TEXT, TABLE_B) && !P.Mentions(BEGIN_TEXT, TABLE_A) && P.Mentions(ROLLBACK_TEXT, TABLE_A)
  {
    assert P.ToUpper(TABLE_B) == "B" && P.ToUpper(TABLE_A) == "A";
    P.ContainsAt(BEGIN_TEXT, 0, "B");
    P.ContainsNot(BEGIN_TEXT, "A");
    assert ROLLBACK_TEXT[5..] == "ACK";
    P.ContainsAt(ROLLBACK_TEXT, 5, "A");
  }

  lemma {:induction false} TwoTables(s: Session, a: string, b: string, beginText: string, endText: string)
    requires s.db.txn.None? && StoreOrdered(s.db.store) && Buffered(s) && s.buffer.Keys == {a, b} && a != b && s.buffer[a] != []
    requires P.Mentions(beginText, b) && !P.Mentions(beginText, a) && P.Mentions(endText, a)
    ensures var begin, end := Sql(Begin, beginText, [b]), Sql(Rollback, endText, [a]);
      Fits(s, begin) && Fits(Serve(s, begin), end) && Later(Serve(Serve(s, begin), end), a) != Later(s, a)
  {
    var begin, end := Sql(Begin, beginText, [b]), Sql(Rollback, endText, [a]);
    FlushesMentioned({a, b}, beginText, {b});
    FlushesMentioned({a}, endText, {a});
    assert Listed([b]) == {b} && Listed([a]) == {a};
    assert Flushable(s, b);
    FlushLeaves(s, [b]);
    assert (s.buffer - {b}).Keys == {a};
    assert Flushable(s, a);
    BeginThenRollbackExact(s, begin, end, a);
  }

  /**
   With rows buffered for `a`, and an entry for `b` that may come from a rejected INSERT, BEGIN and
   ROLLBACK lose the rows of `a`.
   */
  lemma {:induction false} BeginRollbackLosesRows(s: Session)
    requires s.db.txn.None? && StoreOrdered(s.db.store) && Buffered(s)
    requires s.buffer.Keys == {TABLE_A, TABLE_B} && s.buffer[TABLE_A] != []
    ensures var begin, end := Sql(Begin, BEGIN_TEXT, [TABLE_B]), Sql(Rollback, ROLLBACK_TEXT, [TABLE_A]);
      && Fits(s, begin) && Fits(Serve(s, begin), end)
      && Later(Serve(Serve(s, begin), end), TABLE_A) != Later(s, TABLE_A)
  {
    ShortNames();
    TwoTables(s, TABLE_A, TABLE_B, BEGIN_TEXT, ROLLBACK_TEXT);
  }

  // ── ROLLBACK TO ──────────────────────────────────────────────

  /**
   What a table of the savepoint will hold after ROLLBACK TO and a later flush: what ROLLBACK TO leaves
   in its files -- the rows of its files at the savepoint, unless it was rewritten -- and the buffered
   rows that the flush before ROLLBACK TO passed over, whether they came before the savepoint or after.
   */
  lemma {:induction false} RollbackToAndBuffer(s: Session, rs: seq<Request>, back: Request, i: nat, t: string)
    requires s.db.txn.None? && StoreOrdered(s.db.store) && AllFit(BeginSession(s), rs)
    requires back.Sql? && back.statement.RollbackTo?
    requires Fits(ServeAll(BeginSession(s), rs), back) && AllFlush(ServeAll(BeginSession(s), rs), back.order)
    requires LastPlace(Places(WholeRun(s, rs, back.order)), back.statement.name) == Some(i)
    ensures var now, run := ServeAll(BeginSession(s), rs), WholeRun(s, rs, back.order);
      var mark, end := run[..Places(run)[i].at], Serve(now, back);
      var then_ := Run(BeginSession(s).db, mark);
      && end.buffer == now.buffer - P.TablesToFlush(now.buffer.Keys, back.text)
      && (t in then_.catalog.tables ==>
            Later(end, t) ==
            (match Backed(BeginSession(s).db, mark, t)
             case Some(older) => older
             case None => if Lost(BeginSession(s).db, run, |mark|, t) then [] else TableRows(FilesOf(then_.store, t)))
            + P.RowsAt(end.buffer, t))
  {
    LastIsRun(s, rs, back);
    RollbackToExact(s.db, WholeRun(s, rs, back.order), back.statement.name, i, t);
    assert back.statement == RollbackTo(back.statement.name);
  }

  lemma {:induction false} OneRequest(s: Session, r: Request)
    ensures ServeAll(s, [r]) == Serve(s, r) && SessionRun(s, [r]) == RequestRun(s, r)
  {
    assert [r][..0] == [];
    assert ServeAll(s, []) == s && SessionRun(s, []) == [];
    SessionRunStep(s, [r], [], r, RequestRun(s, r));
    assert [] + RequestRun(s, r) == RequestRun(s, r);
  }

  lemma {:induction false} Reassociate(whole: seq<Statement>, x: seq<Statement>, y: seq<Statement>, z: seq<Statement>)
    requires whole == x + (y + z)
    ensures whole == x + y + z
  {
  }

  /** The statements of a session up to and with a request whose flushes succeed. */
  lemma {:induction false} RunWith(begin: Session, before: seq<Request>, sp: Request, mid: Session, mark: seq<Statement>)
    requires mid == ServeAll(begin, before) && sp.Sql? && AllFlush(mid, sp.order)
    requires mark == SessionRun(begin, before) + FlushRun(mid, sp.order)
    ensures SessionRun(begin, before + [sp]) == mark + [sp.statement]
  {
    SessionRunStep(begin, before + [sp], before, sp, FlushRun(mid, sp.order) + [sp.statement]);
    Reassociate(SessionRun(begin, before + [sp]), SessionRun(begin, before), FlushRun(mid, sp.order), [sp.statement]);
  }

  lemma {:induction false} StartsWith(run: seq<Statement>, mark: seq<Statement>, st: Statement, a: seq<Statement>, flush: seq<Statement>)
    requires run == mark + [st] + a + flush
    ensures mark + [st] <= run && run[..|mark|] == mark
    ensures a == [] ==> run == mark + [st] + flush
  {
    if a == [] { assert mark + [st] + a == mark + [st]; }
  }

  /** The statements of a session with a SAVEPOINT in it start with those up to the SAVEPOINT. */
  lemma {:induction false} RunUpTo(s: Session, before: seq<Request>, sp: Request, after: seq<Request>, order: seq<string>,
                                   mark: seq<Statement>, run: seq<Statement>)
    requires sp.Sql? && AllFlush(ServeAll(BeginSession(s), before), sp.order)
    requires mark == WholeRun(s, before, sp.order) && run == WholeRun(s, before + ([sp] + after), order)
    ensures mark + [sp.statement] <= run && run[..|mark|] == mark
    ensures after == [] ==> run == mark + [sp.statement] + FlushRun(Serve(ServeAll(BeginSession(s), before), sp), order)
  {
    var begin, rs := BeginSession(s), before + ([sp] + after);
    var mid := ServeAll(begin, before);
    var at := Serve(mid, sp);
    RunWith(begin, before, sp, mid, mark);
    OneRequest(mid, sp);
    ServeConcat(begin, before, [sp]);
    Grouped(before, sp, after);
    SessionRunConcat(begin, before + [sp], after, at);
    StartsWith(run, mark, sp.statement, SessionRun(at, after), FlushRun(ServeAll(begin, rs), order));
    if after == [] { ServeConcat(begin, before + [sp], []); }
  }

  lemma {:induction false} Grouped(before: seq<Request>, sp: Request, after: seq<Request>)
    ensures before + ([sp] + after) == before + [sp] + after
  {
  }

  lemma {:induction false} SetSavepointKeeps(db: Db, name: string, t: string)
    requires db.txn.Some? && db.inTransaction
    ensures var after := Execute(db, SetSavepoint(name));
      && after.catalog == db.catalog && StoreOf(after.store, t) == StoreOf(db.store, t)
      && after.txn.Some? && after.inTransaction
  {
  }

  /** The session right after a SAVEPOINT. */
  lemma {:induction false} AtSavepoint(s: Session, before: seq<Request>, sp: Request, t: string)
    requires s.db.txn.None? && AllFit(BeginSession(s), before)
    requires sp.Sql? && sp.statement.SetSavepoint? && Fits(ServeAll(BeginSession(s), before), sp)
    requires AllFlush(ServeAll(BeginSession(s), before), sp.order)
    ensures var mid := ServeAll(BeginSession(s), before);
      var at, then_ := Serve(mid, sp), Run(BeginSession(s).db, WholeRun(s, before, sp.order));
      && at.db.catalog == then_.catalog && FilesOf(at.db.store, t) == FilesOf(then_.store, t)
      && at.buffer == mid.buffer - P.TablesToFlush(mid.buffer.Keys, sp.text)
      && Later(at, t) == Later(mid, t)
  {
    var mid := ServeAll(BeginSession(s), before);
    BeginOpens(s.db);
    LastIsRun(s, before, sp);
    RunOpen(BeginSession(s).db, WholeRun(s, before, sp.order));
    SetSavepointKeeps(Run(BeginSession(s).db, WholeRun(s, before, sp.order)), sp.statement.name, t);
    FlushKeeps(mid, sp.order, t);
    FlushLeaves(mid, sp.order);
    assert sp.statement == SetSavepoint(sp.statement.name);
    FlushIsRun(mid, sp.order);
    SessionIsRun(BeginSession(s), before);
    RunConcat(BeginSession(s).db, SessionRun(BeginSession(s), before), FlushRun(mid, sp.order));
    assert FlushEach(mid, sp.order).db == Run(BeginSession(s).db, WholeRun(s, before, sp.order));
  }

  lemma {:induction false} RunOpen(start: Db, run: seq<Statement>)
    requires start.txn.Some? && start.inTransaction && KeepsOpen(run)
    ensures Run(start, run).txn.Some? && Run(start, run).inTransaction
  {
    if run != [] {
      assert run[|run| - 1] in run;
      RunOpen(start, run[..|run| - 1]);
      StackEffect(Run(start, run[..|run| - 1]), run[|run| - 1]);
    }
  }

  /**
   SAVEPOINT, any requests, ROLLBACK TO that savepoint: a table that was not rewritten will hold what
   it was to hold at the savepoint if and only if its buffered rows are those of then. If the flush
   before ROLLBACK TO takes its entry, SAVEPOINT must have left it no rows; if it passes the entry
   over, the entry must have the rows that SAVEPOINT left.
   */
  lemma {:induction false} SavepointToRollbackTo(s: Session, before: seq<Request>, sp: Request, after: seq<Request>, back: Request, i: nat, t: string)
    requires s.db.txn.None? && StoreOrdered(s.db.store) && AllFit(BeginSession(s), before)
    requires sp.Sql? && back.Sql? && back.statement.RollbackTo? && sp.statement == SetSavepoint(back.statement.name)
    requires Fits(ServeAll(BeginSession(s), before), sp) && AllFlush(ServeAll(BeginSession(s), before), sp.order)
    requires AllFit(BeginSession(s), before + ([sp] + after))
    requires var now := ServeAll(BeginSession(s), before + ([sp] + after)); Fits(now, back) && AllFlush(now, back.order)
    requires var mark, run := WholeRun(s, before, sp.order), WholeRun(s, before + ([sp] + after), back.order);
      && LastPlace(Places(run), back.statement.name) == Some(i) && Places(run)[i].at == |mark|
      && Backed(BeginSession(s).db, mark, t).None? && !Lost(BeginSession(s).db, run, |mark|, t)
    requires t in Serve(ServeAll(BeginSession(s), before), sp).db.catalog.tables
    ensures var at := Serve(ServeAll(BeginSession(s), before), sp);
      var now := ServeAll(BeginSession(s), before + ([sp] + after));
      && Later(at, t) == Later(ServeAll(BeginSession(s), before), t)
      && Later(Serve(now, back), t) == TableRows(FilesOf(at.db.store, t)) + P.RowsAt(Serve(now, back).buffer, t)
      && (Later(Serve(now, back), t) == Later(at, t) <==>
            P.RowsAt(at.buffer, t) == if t in P.TablesToFlush(now.buffer.Keys, back.text) then [] else P.RowsAt(now.buffer, t))
  {
    var at, rs := Serve(ServeAll(BeginSession(s), before), sp), before + ([sp] + after);
    var now, mark, run := ServeAll(BeginSession(s), rs), WholeRun(s, before, sp.order), WholeRun(s, rs, back.order);
    RunUpTo(s, before, sp, after, back.order, mark, run);
    AtSavepoint(s, before, sp, t);
    RollbackToAndBuffer(s, rs, back, i, t);
    SameTail(TableRows(FilesOf(at.db.store, t)), P.RowsAt(Serve(now, back).buffer, t), P.RowsAt(at.buffer, t));
  }

  lemma {:induction false} AppendsKeepPlaces(start: Db, run: seq<Statement>, more: seq<Statement>, at: nat, t: string)
    requires forall x :: x in more ==> x.Append?
    requires at <= |run|
    ensures Places(run + more) == Places(run)
    ensures Lost(start, run + more, at, t) ==> Lost(start, run, at, t)
  {
    if more == [] {
      assert run + more == run;
    } else {
      var n := |more| - 1;
      assert more[n] in more && forall x :: x in more[..n] ==> x in more;
      assert (run + more)[..|run + more| - 1] == run + more[..n];
      AppendsKeepPlaces(start, run, more[..n], at, t);
    }
  }

  lemma {:induction false} PlaceOfLast(start: Db, mark: seq<Statement>, name: string, t: string)
    ensures var run := mark + [SetSavepoint(name)];
      && LastPlace(Places(run), name) == Some(|Places(mark)|) && Places(run)[|Places(mark)|].at == |mark|
      && !Lost(start, run, |mark|, t)
  {
    var run := mark + [SetSavepoint(name)];
    assert run[..|mark|] == mark;
    assert Places(run) == Places(mark) + [Place(name, |mark|)];
  }

  /**
   SAVEPOINT and ROLLBACK TO with nothing in between: a table that was not rewritten before keeps its
   rows if and only if SAVEPOINT left none of them buffered, or ROLLBACK TO passes its entry over.
   */
  lemma {:induction false} SavepointThenRollbackToExact(s: Session, before: seq<Request>, sp: Request, back: Request, t: string)
    requires s.db.txn.None? && StoreOrdered(s.db.store) && AllFit(BeginSession(s), before)
    requires sp.Sql? && back.Sql? && back.statement.RollbackTo? && sp.statement == SetSavepoint(back.statement.name)
    requires var mid := ServeAll(BeginSession(s), before); Fits(mid, sp) && AllFlush(mid, sp.order)
    requires var at := Serve(ServeAll(BeginSession(s), before), sp);
      Fits(at, back) && AllFlush(at, back.order) && t in at.db.catalog.tables
    requires Backed(BeginSession(s).db, WholeRun(s, before, sp.order), t).None?
    ensures var mid := ServeAll(BeginSession(s), before);
      var left := mid.buffer - P.TablesToFlush(mid.buffer.Keys, sp.text);
      Later(Serve(Serve(mid, sp), back), t) == Later(mid, t) <==>
        P.RowsAt(left, t) == [] || t !in P.TablesToFlush(left.Keys, back.text)
  {
    var begin, rs, mark := BeginSession(s), before + ([sp] + []), WholeRun(s, before, sp.order);
    var mid := ServeAll(begin, before);
    var at := Serve(mid, sp);
    assert [sp] + [] == [sp] && rs == before + [sp];
    assert rs[..|rs| - 1] == before && rs[|rs| - 1] == sp;
    assert ServeAll(begin, rs) == at && AllFit(begin, rs);
    RunUpTo(s, before, sp, [], back.order, mark, WholeRun(s, rs, back.order));
    AtSavepoint(s, before, sp, t);
    FlushRunAppends(at, back.order);
    PlaceOfLast(begin.db, mark, back.statement.name, t);
    AppendsKeepPlaces(begin.db, mark + [sp.statement], FlushRun(at, back.order), |mark|, t);
    SavepointToRollbackTo(s, before, sp, [], back, |Places(mark)|, t);
  }

  const SAVEPOINT_TEXT := "SAVEPOINT S"
  const BACK_TEXT := "ROLLBACK TO S"
  const TABLE_T := "t"
  const TABLE_X := "x"

  lemma {:induction false} SavepointNames()
    ensures P.Mentions(SAVEPOINT_TEXT, TABLE_T) && !P.Mentions(SAVEPOINT_TEXT, TABLE_X)
  {
    assert P.ToUpper(TABLE_T) == "T" && P.ToUpper(TABLE_X) == "X";
    assert SAVEPOINT_TEXT[8..] == "T S";
    P.ContainsAt(SAVEPOINT_TEXT, 8, "T");
    P.ContainsNot(SAVEPOINT_TEXT, "X");
  }

  lemma {:induction false} BackNames()
    ensures !P.Mentions(BACK_TEXT, TABLE_X)
  {
    assert P.ToUpper(TABLE_X) == "X";
    P.ContainsNot(BACK_TEXT, "X");
  }

  lemma {:induction false} RollbackNames()
    ensures !P.Mentions(ROLLBACK_TEXT, TABLE_X)
  {
    assert P.ToUpper(TABLE_X) == "X";
    P.ContainsNot(ROLLBACK_TEXT, "X");
  }

  lemma {:induction false} NoBackupByAppends(start: Db, run: seq<Statement>, t: string)
    requires forall x :: x in run ==> x.Append?
    ensures Backed(start, run, t).None?
  {
    if run != [] {
      assert run[|run| - 1] in run && forall x :: x in run[..|run| - 1] ==> x in run;
      NoBackupByAppends(start, run[..|run| - 1], t);
    }
  }

  /** The session after the INSERTs: SAVEPOINT has to flush `t` and passes `x` over. */
  lemma {:induction false} BeforeSavepoint(begin: Session, x: string, rows: seq<Row>, t: string, others: seq<Row>, accepted: bool,
                                           rs: seq<Request>, text: string)
    requires begin.buffer == map[] && x in begin.db.catalog.tables && t in begin.db.catalog.tables && rows != [] && others != []
    requires P.Mentions(text, t) && !P.Mentions(text, x)
    requires rs == [Insert(x, rows, true, false)] + [Insert(t, others, accepted, false)]
    ensures var mid := ServeAll(begin, rs);
      && AllFit(begin, rs) && SessionRun(begin, rs) == [] && mid.db == begin.db && AllFlush(mid, [t])
      && P.RowsAt(mid.buffer, x) == rows && mid.buffer - {t} == map[x := rows]
      && P.TablesToFlush(mid.buffer.Keys, text) == {t} && Listed([t]) == {t}
  {
    TwoInserts(begin, x, rows, t, others, accepted);
    FlushesMentioned({x, t}, text, {t});
    assert ServeAll(begin, rs).buffer.Keys == {x, t};
  }

  lemma {:induction false} NotBacked(s: Session, rs: seq<Request>, order: seq<string>, t: string)
    requires SessionRun(BeginSession(s), rs) == []
    ensures Backed(BeginSession(s).db, WholeRun(s, rs, order), t).None?
  {
    FlushRunAppends(ServeAll(BeginSession(s), rs), order);
    NoBackupByAppends(BeginSession(s).db, WholeRun(s, rs, order), t);
  }

  /** The entry of `x`, passed over by SAVEPOINT, is the only one, and ROLLBACK TO takes it. */
  lemma {:induction false} ThenTaken(s: Session, rs: seq<Request>, mid: Session, sp: Request, back: Request, x: string, rows: seq<Row>)
    requires s.db.txn.None? && StoreOrdered(s.db.store) && AllFit(BeginSession(s), rs) && mid == ServeAll(BeginSession(s), rs)
    requires sp.Sql? && back.Sql? && back.statement.RollbackTo? && sp.statement == SetSavepoint(back.statement.name)
    requires Fits(mid, sp) && AllFlush(mid, sp.order) && x in mid.db.catalog.tables
    requires mid.buffer - P.TablesToFlush(mid.buffer.Keys, sp.text) == map[x := rows] && rows != []
    requires Backed(BeginSession(s).db, WholeRun(s, rs, sp.order), x).None?
    requires back.order == [x] && !P.Mentions(back.text, x)
    ensures Fits(Serve(mid, sp), back) && Later(Serve(Serve(mid, sp), back), x) != Later(mid, x)
  {
    TableStays(mid, sp, x);
    FlushLeaves(mid, sp.order);
    FlushesMentioned({x}, back.text, {});
    assert map[x := rows].Keys == {x} && Listed([x]) == {x};
    SavepointThenRollbackToExact(s, rs, sp, back, x);
  }

  lemma {:induction false} PassedOverThenTaken(s: Session, x: string, rows: seq<Row>, t: string, others: seq<Row>, accepted: bool,
                                               rs: seq<Request>, sp: Request, back: Request)
    requires s.db.txn.None? && StoreOrdered(s.db.store) && s.buffer == map[]
    requires x in s.db.catalog.tables && t in s.db.catalog.tables && rows != [] && others != []
    requires rs == [Insert(x, rows, true, false)] + [Insert(t, others, accepted, false)]
    requires sp.Sql? && back.Sql? && back.statement.RollbackTo? && sp.statement == SetSavepoint(back.statement.name)
    requires sp.order == [t] && back.order == [x]
    requires P.Mentions(sp.text, t) && !P.Mentions(sp.text, x) && !P.Mentions(back.text, x)
    ensures var mid := ServeAll(BeginSession(s), rs);
      && Fits(mid, sp) && Fits(Serve(mid, sp), back)
      && Later(mid, x) == TableRows(FilesOf(s.db.store, x)) + rows
      && Later(Serve(Serve(mid, sp), back), x) != Later(mid, x)
  {
    var begin := BeginSession(s);
    BeginOpens(s.db);
    BeforeSavepoint(begin, x, rows, t, others, accepted, rs, sp.text);
    NotBacked(s, rs, sp.order, x);
    ThenTaken(s, rs, ServeAll(begin, rs), sp, back, x, rows);
  }

  lemma {:induction false} TableStays(s: Session, sp: Request, t: string)
    requires sp.Sql? && sp.statement.SetSavepoint? && AllFlush(s, sp.order) && t in s.db.catalog.tables
    ensures t in Serve(s, sp).db.catalog.tables
  {
    FlushKeeps(s, sp.order, t);
  }

  /**
   INSERT into `x` and into `t`, SAVEPOINT S, ROLLBACK TO S: SAVEPOINT S flushes `t` alone, ROLLBACK TO S
   flushes `x` and deletes the file, and the rows of `x` from before the savepoint are lost.
   */
  lemma {:induction false} SavepointLosesRows(s: Session, rows: seq<Row>, others: seq<Row>, accepted: bool, name: string)
    requires s.db.txn.None? && StoreOrdered(s.db.store) && s.buffer == map[]
    requires TABLE_X in s.db.catalog.tables && TABLE_T in s.db.catalog.tables && rows != [] && others != []
    ensures var mid := ServeAll(BeginSession(s), [Insert(TABLE_X, rows, true, false)] + [Insert(TABLE_T, others, accepted, false)]);
      var sp, back := Sql(SetSavepoint(name), SAVEPOINT_TEXT, [TABLE_T]), Sql(RollbackTo(name), BACK_TEXT, [TABLE_X]);
      && Fits(mid, sp) && Fits(Serve(mid, sp), back)
      && Later(mid, TABLE_X) == TableRows(FilesOf(s.db.store, TABLE_X)) + rows
      && Later(Serve(Serve(mid, sp), back), TABLE_X) != Later(mid, TABLE_X)
  {
    SavepointNames();
    BackNames();
    PassedOverThenTaken(s, TABLE_X, rows, TABLE_T, others, accepted,
      [Insert(TABLE_X, rows, true, false)] + [Insert(TABLE_T, others, accepted, false)],
      Sql(SetSavepoint(name), SAVEPOINT_TEXT, [TABLE_T]), Sql(RollbackTo(name), BACK_TEXT, [TABLE_X]));
  }

  /** A rejected INSERT into `a`: ROLLBACK keeps the rows of `x`, which it would have undone. */
  lemma {:induction false} RejectionKeepsRowsOfX(s: Session, rows: seq<Row>, others: seq<Row>)
    requires s.db.txn.None? && StoreOrdered(s.db.store) && s.buffer == map[]
    requires TABLE_X in s.db.catalog.tables && TABLE_A in s.db.catalog.tables && rows != [] && others != []
    ensures var one := [Insert(TABLE_X, rows, true, false)];
      var two := one + [Insert(TABLE_A, others, false, false)];
      var without, with_ := ServeAll(BeginSession(s), one), ServeAll(BeginSession(s), two);
      && Fits(without, Sql(Rollback, ROLLBACK_TEXT, [TABLE_X])) && Fits(with_, Sql(Rollback, ROLLBACK_TEXT, [TABLE_A]))
      && Later(Serve(without, Sql(Rollback, ROLLBACK_TEXT, [TABLE_X])), TABLE_X) == TableRows(FilesOf(s.db.store, TABLE_X))
      && Later(Serve(with_, Sql(Rollback, ROLLBACK_TEXT, [TABLE_A])), TABLE_X) == TableRows(FilesOf(s.db.store, TABLE_X)) + rows
  {
    ShortNames();
    RollbackNames();
    RejectionKeepsRows(s, TABLE_X, rows, TABLE_A, others, [Insert(TABLE_X, rows, true, false)],
      [Insert(TABLE_X, rows, true, false)] + [Insert(TABLE_A, others, false, false)],
      Sql(Rollback, ROLLBACK_TEXT, [TABLE_X]), Sql(Rollback, ROLLBACK_TEXT, [TABLE_A]));
  }
}
