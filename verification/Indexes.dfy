/**
 The index catalogue. The map of indexes has no order, so DROP INDEX may promote any of a table's
 remaining indexes; the statement carries the one it picks.
 */
module Indexes {
  import opened Values

  datatype Index = Index(table: string, columns: seq<string>, logicalOnly: bool, primary: bool)

  datatype Schema = Schema(tables: map<string, seq<string>>, indexes: map<string, Index>)

  datatype Statement =
    | CreateTable(table: string, columns: seq<string>)
    | DropTable(table: string)
    | RenameTable(table: string, newName: string)
    | CreateIndex(name: string, table: string, columns: seq<string>, ifNotExists: bool)
    | DropIndex(name: string, promoted: string)
    | Begin
    | Commit
    | Rollback
    | SetSavepoint
    | RollbackTo(at: nat)
    | Release(at: nat)

  // ── One statement ────────────────────────────────────────────

  function Demoted(i: Index, table: string): Index {
    if i.table == table then i.(primary := false, logicalOnly := true) else i
  }

  function AddIndex(s: Schema, name: string, table: string, columns: seq<string>): Result<Schema> {
    if table !in s.tables then Err("table does not exist")
    else if exists c :: c in columns && c !in s.tables[table] then Err("column does not exist")
    else if columns == [] then Err("index requires a column")
    else
      var demoted := map n | n in s.indexes :: Demoted(s.indexes[n], table);
      Ok(s.(indexes := demoted[name := Index(table, columns, false, true)]))
  }

  function IndexesOf(s: Schema, table: string): set<string> { set n | n in s.indexes && s.indexes[n].table == table }

  function Primaries(s: Schema, table: string): set<string> {
    set n | n in s.indexes && s.indexes[n].table == table && s.indexes[n].primary
  }

  /** The indexes that DROP INDEX may promote; none when the table keeps a primary. */
  function Promotable(s: Schema, name: string): set<string>
    requires name in s.indexes
  {
    var left := s.(indexes := s.indexes - {name});
    var table := s.indexes[name].table;
    if Primaries(left, table) != {} then {} else IndexesOf(left, table)
  }

  function RemoveIndex(s: Schema, name: string, promoted: string): Schema
    requires name in s.indexes
  {
    var left := s.indexes - {name};
    if promoted in Promotable(s, name) then
      s.(indexes := left[promoted := left[promoted].(primary := true, logicalOnly := false)])
    else s.(indexes := left)
  }

  function Renamed(i: Index, table: string, newName: string): Index {
    if i.table == table then i.(table := newName) else i
  }

  function Rename(s: Schema, table: string, newName: string): Result<Schema> {
    if table == newName then Ok(s)
    else if newName in s.tables then Err("table already exists")
    else if table !in s.tables then Err("table does not exist")
    else Ok(Schema((s.tables - {table})[newName := s.tables[table]],
                   map n | n in s.indexes :: Renamed(s.indexes[n], table, newName)))
  }

  /** What a statement on tables or indexes makes of the schema; the others leave it to `Next`. */
  function Apply(s: Schema, stmt: Statement): Result<Schema> {
    match stmt
    case CreateTable(t, columns) => if t in s.tables then Err("table already exists") else Ok(s.(tables := s.tables[t := columns]))
    case DropTable(t) =>
      if t !in s.tables then Err("table does not exist")
      else Ok(Schema(s.tables - {t}, map n | n in s.indexes && s.indexes[n].table != t :: s.indexes[n]))
    case RenameTable(t, u) => Rename(s, t, u)
    case CreateIndex(n, t, columns, ifNotExists) =>
      if n in s.indexes then (if ifNotExists then Ok(s) else Err("index already exists"))
      else AddIndex(s, n, t, columns)
    case DropIndex(n, p) => if n !in s.indexes then Err("index does not exist") else Ok(RemoveIndex(s, n, p))
    case _ => Ok(s)
  }

  /** Promotes some index whenever there is one to promote. */
  predicate Possible(s: Schema, stmt: Statement) {
    stmt.DropIndex? && stmt.name in s.indexes ==>
      Promotable(s, stmt.name) == {} || stmt.promoted in Promotable(s, stmt.name)
  }

  /** The snapshots an open transaction holds: its base and one for each savepoint, oldest first. */
  datatype State = State(now: Schema, base: Option<Schema>, savepoints: seq<Schema>)

  /** The snapshot that the statement restores, if any; a savepoint is given by its place in the stack. */
  function Restored(st: State, stmt: Statement): Option<Schema> {
    match stmt
    case Rollback => st.base
    case RollbackTo(i) => if st.base.Some? && i < |st.savepoints| then Some(st.savepoints[i]) else None
    case _ => None
  }

  function Next(st: State, stmt: Statement): State {
    match stmt
    case Begin => if st.base.None? then State(st.now, Some(st.now), []) else st
    case Commit => State(st.now, None, [])
    case Rollback => if st.base.Some? then State(st.base.value, None, []) else st
    case SetSavepoint => if st.base.Some? then st.(savepoints := st.savepoints + [st.now]) else st
    case RollbackTo(i) =>
      if st.base.Some? && i < |st.savepoints|
      then State(st.savepoints[i], Some(st.savepoints[i]), st.savepoints[..i + 1])
      else st
    case Release(i) => if i < |st.savepoints| then st.(savepoints := st.savepoints[..i]) else st
    case _ => (match Apply(st.now, stmt) case Ok(s) => st.(now := s) case Err(_) => st)
  }

  function Run(st: State, stmts: seq<Statement>): State
    decreases |stmts|
  {
    if stmts == [] then st else Run(Next(st, stmts[0]), stmts[1..])
  }

  predicate PossibleRun(st: State, stmts: seq<Statement>)
    decreases |stmts|
  {
    stmts == [] || (Possible(st.now, stmts[0]) && PossibleRun(Next(st, stmts[0]), stmts[1..]))
  }

  class Catalog {
    var tables: map<string, seq<string>>
    var indexes: map<string, Index>

    constructor ()
      ensures tables == map[] && indexes == map[]
    {
      tables, indexes := map[], map[];
    }

    function Value(): Schema
      reads this
    {
      Schema(tables, indexes)
    }

    method HandleCreateIndex(name: string, table: string, columns: seq<string>, ifNotExists: bool) returns (r: Result<()>)
      modifies this
      ensures var a := Apply(old(Value()), CreateIndex(name, table, columns, ifNotExists));
        r.Ok? == a.Ok? && Value() == if a.Ok? then a.value else old(Value())
    {
      if name in indexes {
        return if ifNotExists then Ok(()) else Err("index already exists");
      }
      if table !in tables { return Err("table does not exist"); }
      for i := 0 to |columns|
        invariant forall k :: 0 <= k < i ==> columns[k] in tables[table]
      {
        if columns[i] !in tables[table] { return Err("column does not exist"); }
      }
      if columns == [] { return Err("index requires a column"); }
      indexes := map n | n in indexes :: Demoted(indexes[n], table);
      indexes := indexes[name := Index(table, columns, false, true)];
      r := Ok(());
    }

    method HandleDropIndex(name: string) returns (r: Result<string>)
      modifies this
      ensures name !in old(indexes) ==> r.Err? && Value() == old(Value())
      ensures (name in old(indexes) ==>
        && r.Ok? && Possible(old(Value()), DropIndex(name, r.value))
        && Value() == RemoveIndex(old(Value()), name, r.value))
    {
      if name !in indexes { return Err("index does not exist"); }
      ghost var before := Value();
      var table := indexes[name].table;
      indexes := indexes - {name};
      var promoted := name;
      if Primaries(Value(), table) == {} {
        var candidates := IndexesOf(Value(), table);
        if candidates != {} {
          promoted :| promoted in candidates;
          indexes := indexes[promoted := indexes[promoted].(primary := true, logicalOnly := false)];
        }
      }
      assert before.(indexes := before.indexes - {name}).tables == tables;
      r := Ok(promoted);
    }
  }

  // ── Consistency ──────────────────────────────────────────────

  ghost predicate OnePrimary(s: Schema, table: string) { exists p :: Primaries(s, table) == {p} }

  /** Indexes name tables, have one primary a table, and only the primary claims the physical order. */
  ghost predicate Consistent(s: Schema) {
    && (forall n :: n in s.indexes ==> s.indexes[n].table in s.tables && s.indexes[n].logicalOnly == !s.indexes[n].primary)
    && (forall n :: n in s.indexes ==> OnePrimary(s, s.indexes[n].table))
  }

  /** A table whose indexes are the same in both schemas. */
  lemma {:induction false} SamePrimaries(s: Schema, after: Schema, table: string)
    requires forall n :: n in s.indexes && s.indexes[n].table == table ==> n in after.indexes && after.indexes[n] == s.indexes[n]
    requires forall n :: n in after.indexes && after.indexes[n].table == table ==> n in s.indexes && after.indexes[n] == s.indexes[n]
    ensures Primaries(after, table) == Primaries(s, table)
  {
  }

  lemma {:induction false} AddIndexConsistent(s: Schema, after: Schema, name: string, index: Index)
    requires Consistent(s) && name !in s.indexes && index.table in s.tables && index.primary && !index.logicalOnly
    requires after.tables == s.tables && after.indexes.Keys == s.indexes.Keys + {name} && after.indexes[name] == index
    requires forall n :: n in s.indexes ==> after.indexes[n] == Demoted(s.indexes[n], index.table)
    ensures Consistent(after)
  {
    assert Primaries(after, index.table) == {name};
    forall n | n in after.indexes ensures OnePrimary(after, after.indexes[n].table) {
      if after.indexes[n].table != index.table { SamePrimaries(s, after, s.indexes[n].table); }
    }
  }

  lemma {:induction false} RemovedPrimaries(s: Schema, name: string, promoted: string, after: Schema, table: string)
    requires Consistent(s) && name in s.indexes && Possible(s, DropIndex(name, promoted))
    requires after == RemoveIndex(s, name, promoted) && table == s.indexes[name].table
    requires IndexesOf(after, table) != {}
    ensures OnePrimary(after, table)
  {
    var left := s.(indexes := s.indexes - {name});
    assert OnePrimary(s, table);
    assert Primaries(left, table) == Primaries(s, table) - {name};
    if promoted in Promotable(s, name) {
      assert Primaries(after, table) == {promoted};
    } else {
      var n :| n in IndexesOf(after, table);
      assert n in IndexesOf(left, table);
      assert Primaries(after, table) == Primaries(left, table);
    }
  }

  lemma {:induction false} RemoveIndexConsistent(s: Schema, name: string, promoted: string)
    requires Consistent(s) && name in s.indexes && Possible(s, DropIndex(name, promoted))
    ensures Consistent(RemoveIndex(s, name, promoted))
  {
    var after := RemoveIndex(s, name, promoted);
    var table := s.indexes[name].table;
    forall n | n in after.indexes ensures OnePrimary(after, after.indexes[n].table) {
      if after.indexes[n].table == table {
        assert n in IndexesOf(after, table);
        RemovedPrimaries(s, name, promoted, after, table);
      } else {
        SamePrimaries(s, after, s.indexes[n].table);
      }
    }
  }

  lemma {:induction false} DropTableConsistent(s: Schema, table: string)
    requires Consistent(s) && table in s.tables
    ensures Consistent(Apply(s, DropTable(table)).value)
  {
    var after := Apply(s, DropTable(table)).value;
    forall n | n in after.indexes ensures OnePrimary(after, after.indexes[n].table) {
      SamePrimaries(s, after, s.indexes[n].table);
    }
  }

  lemma {:induction false} RenamedPrimaries(s: Schema, after: Schema, table: string, newName: string, t: string)
    requires forall n :: n in s.indexes ==> s.indexes[n].table != newName
    requires t != newName && after.indexes.Keys == s.indexes.Keys
    requires forall n :: n in s.indexes ==> after.indexes[n] == Renamed(s.indexes[n], table, newName)
    ensures Primaries(after, if t == table then newName else t) == Primaries(s, t)
  {
    var u := if t == table then newName else t;
    forall n ensures n in Primaries(after, u) <==> n in Primaries(s, t) {
      if n in s.indexes { assert after.indexes[n] == Renamed(s.indexes[n], table, newName); }
    }
  }

  lemma {:induction false} RenameConsistent(s: Schema, after: Schema, table: string, newName: string)
    requires Consistent(s) && table in s.tables && newName !in s.tables
    requires forall t :: t in s.tables && t != table ==> t in after.tables
    requires newName in after.tables && after.indexes.Keys == s.indexes.Keys
    requires forall n :: n in s.indexes ==> after.indexes[n] == Renamed(s.indexes[n], table, newName)
    ensures Consistent(after)
  {
    forall n | n in after.indexes
      ensures after.indexes[n].table in after.tables && after.indexes[n].logicalOnly == !after.indexes[n].primary
      ensures OnePrimary(after, after.indexes[n].table)
    {
      assert after.indexes[n] == Renamed(s.indexes[n], table, newName);
      RenamedPrimaries(s, after, table, newName, s.indexes[n].table);
    }
  }

  lemma {:induction false} ApplyConsistent(s: Schema, stmt: Statement, after: Schema)
    requires Consistent(s) && Possible(s, stmt) && Apply(s, stmt) == Ok(after)
    ensures Consistent(after)
  {
    match stmt
    case CreateTable(t, columns) =>
      forall n | n in after.indexes ensures OnePrimary(after, after.indexes[n].table) {
        SamePrimaries(s, after, s.indexes[n].table);
      }
    case DropTable(t) => DropTableConsistent(s, t);
    case RenameTable(t, u) => if t != u { RenameConsistent(s, after, t, u); }
    case CreateIndex(n, t, columns, _) =>
      if n !in s.indexes { AddIndexConsistent(s, after, n, Index(t, columns, false, true)); }
    case DropIndex(n, p) => RemoveIndexConsistent(s, n, p);
    case _ =>
  }

  /** The schema and every snapshot are consistent. */
  ghost predicate AllConsistent(st: State) {
    && Consistent(st.now)
    && (st.base.Some? ==> Consistent(st.base.value))
    && (forall i :: 0 <= i < |st.savepoints| ==> Consistent(st.savepoints[i]))
  }

  lemma {:induction false} NextConsistent(st: State, stmt: Statement)
    requires AllConsistent(st) && Possible(st.now, stmt)
    ensures AllConsistent(Next(st, stmt))
  {
    var r := Apply(st.now, stmt);
    if r.Ok? { ApplyConsistent(st.now, stmt, r.value); }
  }

  /**
   Every run keeps the catalogue consistent, whatever DROP INDEX promotes, and wherever ROLLBACK and
   ROLLBACK TO go back to in transactions with any nesting of savepoints.
   */
  lemma {:induction false} RunConsistent(st: State, stmts: seq<Statement>)
    requires AllConsistent(st) && PossibleRun(st, stmts)
    ensures AllConsistent(Run(st, stmts))
    decreases |stmts|
  {
    if stmts != [] {
      NextConsistent(st, stmts[0]);
      RunConsistent(Next(st, stmts[0]), stmts[1..]);
    }
  }

  /** A run takes its statements one after the other. */
  lemma {:induction false} RunLast(st: State, stmts: seq<Statement>, last: Statement)
    ensures Run(st, stmts + [last]) == Next(Run(st, stmts), last)
    decreases |stmts|
  {
    if stmts == [] {
      assert [] + [last] == [last] && [last][1..] == [];
      assert Run(Next(st, last), []) == Next(st, last);
    } else {
      assert (stmts + [last])[1..] == stmts[1..] + [last];
      RunLast(Next(st, stmts[0]), stmts[1..], last);
    }
  }

  const EMPTY := State(Schema(map[], map[]), None, [])

  /** The sort orders declared when a table is registered: those of its indexes that are not logical. */
  function DeclaredOrders(s: Schema, table: string): set<string> {
    set n | n in s.indexes && s.indexes[n].table == table && !s.indexes[n].logicalOnly
  }

  /** So an indexed table is always registered with exactly one sort order. */
  lemma {:induction false} OneDeclaredOrder(stmts: seq<Statement>, table: string)
    requires PossibleRun(EMPTY, stmts)
    ensures var s := Run(EMPTY, stmts).now;
      if IndexesOf(s, table) == {} then DeclaredOrders(s, table) == {}
      else exists p :: DeclaredOrders(s, table) == {p}
  {
    RunConsistent(EMPTY, stmts);
    var s := Run(EMPTY, stmts).now;
    if IndexesOf(s, table) == {} {
      forall n ensures n !in DeclaredOrders(s, table) { assert n !in IndexesOf(s, table); }
    } else {
      var n :| n in IndexesOf(s, table);
      assert OnePrimary(s, table);
      var p :| Primaries(s, table) == {p};
      assert DeclaredOrders(s, table) == Primaries(s, table);
    }
  }

  // ── What becomes of one index ────────────────────────────────

  /** The statement takes the index away: DROP INDEX, or the DROP TABLE of its table. */
  predicate Removes(s: Schema, stmt: Statement, n: string)
    requires n in s.indexes
  {
    (stmt == DropTable(s.indexes[n].table) && s.indexes[n].table in s.tables) || (stmt.DropIndex? && stmt.name == n)
  }

  /** The statement makes the index: a CREATE INDEX that finds its table and columns, and no index of that name. */
  predicate Creates(s: Schema, stmt: Statement, n: string) {
    && stmt.CreateIndex? && stmt.name == n && n !in s.indexes
    && stmt.table in s.tables && stmt.columns != [] && forall c :: c in stmt.columns ==> c in s.tables[stmt.table]
  }

  /**
   Which indexes there are after a statement: after a restore those of the snapshot; otherwise an old
   one stays unless it is dropped itself or with its table, and a new one comes by CREATE INDEX only.
   */
  lemma {:induction false} IndexesStay(st: State, stmt: Statement, n: string)
    ensures n in Next(st, stmt).now.indexes <==>
      match Restored(st, stmt)
      case Some(saved) => n in saved.indexes
      case None => (n in st.now.indexes && !Removes(st.now, stmt, n)) || Creates(st.now, stmt, n)
  {
    if stmt.DropIndex? && stmt.name in st.now.indexes {
      assert stmt.promoted in Promotable(st.now, stmt.name) ==> stmt.promoted in st.now.indexes;
    }
  }

  /** The table that an index of the schema belongs to after the statement. */
  function TableAfter(s: Schema, stmt: Statement, table: string): string {
    if stmt.RenameTable? && stmt.table == table && table in s.tables && stmt.newName !in s.tables then stmt.newName else table
  }

  /** A new index is on the table and the columns of its statement, and it is the one that declares the order. */
  lemma {:induction false} NewIndex(st: State, stmt: Statement, n: string)
    requires Creates(st.now, stmt, n)
    ensures n in Next(st, stmt).now.indexes
    ensures Next(st, stmt).now.indexes[n] == Index(stmt.table, stmt.columns, false, true)
  {
    assert AddIndex(st.now, n, stmt.table, stmt.columns).Ok?;
  }

  /** The tables and their columns after a statement that restores nothing. */
  lemma {:induction false} TablesAfter(st: State, stmt: Statement, t: string)
    requires Restored(st, stmt).None?
    ensures var before, after := st.now.tables, Next(st, stmt).now.tables;
      match stmt
      case CreateTable(u, columns) => after == if u in before then before else before[u := columns]
      case DropTable(u) => after == before - {u}
      case RenameTable(u, v) =>
        if u == v || v in before || u !in before then after == before
        else (t in after <==> t == v || (t in before && t != u)) && after[v] == before[u] && (t in before && t != u ==> after[t] == before[t])
      case _ => after == before
  {
    if stmt.DropTable? && stmt.table !in st.now.tables { assert st.now.tables - {stmt.table} == st.now.tables; }
  }

  // ── Transactions ─────────────────────────────────────────────

  /** Statements that neither end the transaction nor restore a savepoint. */
  predicate Inside(stmts: seq<Statement>) { forall s :: s in stmts ==> !s.Commit? && !s.Rollback? && !s.RollbackTo? }

  lemma {:induction false} InsideKeeps(st: State, stmts: seq<Statement>)
    requires Inside(stmts) && st.base.Some?
    ensures Run(st, stmts).base == st.base
    decreases |stmts|
  {
    if stmts != [] {
      assert stmts[0] in stmts;
      InsideKeeps(Next(st, stmts[0]), stmts[1..]);
    }
  }

  /** ROLLBACK brings the catalogue of BEGIN back; COMMIT keeps the one of then. After either, ROLLBACK changes nothing. */
  lemma {:induction false} TransactionEnds(st: State, stmts: seq<Statement>)
    requires st.base.None? && Inside(stmts)
    ensures var at := Run(Next(st, Begin), stmts);
      && Next(at, Rollback).now == st.now && Next(at, Commit).now == at.now
      && Next(Next(at, Rollback), Rollback) == Next(at, Rollback)
      && Next(Next(at, Commit), Rollback) == Next(at, Commit)
  {
    InsideKeeps(Next(st, Begin), stmts);
  }

  /**
   Outside a transaction SAVEPOINT, ROLLBACK TO and ROLLBACK change nothing, inside one BEGIN does; RELEASE
   takes its savepoint and the newer ones off the stack and nothing else.
   */
  lemma {:induction false} OutOfPlace(st: State, i: nat)
    ensures st.base.None? ==> Next(st, SetSavepoint) == st && Next(st, RollbackTo(i)) == st && Next(st, Rollback) == st
    ensures st.base.Some? ==> Next(st, Begin) == st
    ensures Next(st, Release(i)).now == st.now && Next(st, Release(i)).base == st.base
    ensures forall k :: 0 <= k < |Next(st, Release(i)).savepoints| ==> k < |st.savepoints| && Next(st, Release(i)).savepoints[k] == st.savepoints[k]
    ensures |Next(st, Release(i)).savepoints| == if i < |st.savepoints| then i else |st.savepoints|
  {
  }

  /** Statements that set savepoints and work on tables and indexes. */
  predicate Plain(stmts: seq<Statement>) { Inside(stmts) && forall s :: s in stmts ==> !s.Release? }

  lemma {:induction false} PlainKeeps(st: State, stmts: seq<Statement>)
    requires Plain(stmts) && st.base.Some?
    ensures Run(st, stmts).base == st.base && st.savepoints <= Run(st, stmts).savepoints
    decreases |stmts|
  {
    if stmts != [] {
      assert stmts[0] in stmts;
      PlainKeeps(Next(st, stmts[0]), stmts[1..]);
    }
  }

  /** ROLLBACK TO brings back the catalogue of its SAVEPOINT, and a ROLLBACK after it goes no further back. */
  lemma {:induction false} SavepointReturns(st: State, stmts: seq<Statement>)
    requires st.base.Some? && Plain(stmts)
    ensures var back := Next(Run(Next(st, SetSavepoint), stmts), RollbackTo(|st.savepoints|));
      back.now == st.now && back.savepoints == st.savepoints + [st.now] && Next(back, Rollback).now == st.now
  {
    PlainKeeps(Next(st, SetSavepoint), stmts);
    var at := Run(Next(st, SetSavepoint), stmts);
    assert at.savepoints[..|st.savepoints| + 1] == st.savepoints + [st.now];
    assert at.savepoints[|st.savepoints|] == st.now;
  }

  // ── Definitions ──────────────────────────────────────────────

  /**
   The definition of an index that is there before and after: a restore brings back that of the
   snapshot; otherwise the columns stay, and only a rename moves it, with its table.
   */
  lemma {:induction false} DefinitionsStay(st: State, stmt: Statement, n: string)
    requires n in st.now.indexes && n in Next(st, stmt).now.indexes
    ensures var after := Next(st, stmt).now.indexes[n];
      match Restored(st, stmt)
      case Some(saved) => n in saved.indexes && after == saved.indexes[n]
      case None =>
        && after.columns == st.now.indexes[n].columns
        && after.table == TableAfter(st.now, stmt, st.now.indexes[n].table)
  {
    if stmt.DropIndex? && stmt.name in st.now.indexes { assert n != stmt.name; }
  }

  /**
   Which index is primary after a statement that restores nothing: a new index at once, in place of
   the one its table had; otherwise the old one as long as it is there; and when it is dropped, one of
   the others of its table, if there is any.
   */
  lemma {:induction false} PrimaryStays(st: State, stmt: Statement, n: string)
    requires Consistent(st.now) && Possible(st.now, stmt) && Restored(st, stmt).None?
    requires n in Next(st, stmt).now.indexes
    ensures Next(st, stmt).now.indexes[n].primary <==>
      || Creates(st.now, stmt, n)
      || (&& n in st.now.indexes && st.now.indexes[n].primary
          && !(stmt.CreateIndex? && Creates(st.now, stmt, stmt.name) && stmt.table == st.now.indexes[n].table))
      || (&& stmt.DropIndex? && stmt.name in st.now.indexes && st.now.indexes[stmt.name].primary
          && stmt.promoted == n && n in st.now.indexes && n != stmt.name
          && st.now.indexes[n].table == st.now.indexes[stmt.name].table)
  {
    IndexesStay(st, stmt, n);
    if stmt.DropIndex? && stmt.name in st.now.indexes { PrimaryAfterDrop(st.now, stmt.name, stmt.promoted, n); }
  }

  lemma {:induction false} PrimaryAfterDrop(s: Schema, name: string, promoted: string, n: string)
    requires Consistent(s) && name in s.indexes && Possible(s, DropIndex(name, promoted))
    requires n in RemoveIndex(s, name, promoted).indexes
    ensures n in s.indexes && n != name
    ensures RemoveIndex(s, name, promoted).indexes[n].primary <==>
      s.indexes[n].primary || (s.indexes[name].primary && promoted == n && s.indexes[n].table == s.indexes[name].table)
  {
    var left, table := s.(indexes := s.indexes - {name}), s.indexes[name].table;
    assert promoted in Promotable(s, name) ==> promoted in s.indexes;
    assert OnePrimary(s, table);
    var p :| Primaries(s, table) == {p};
    assert Primaries(left, table) == Primaries(s, table) - {name};
    if s.indexes[name].primary {
      assert name in Primaries(s, table);
      assert Primaries(left, table) == {};
      assert n != name ==> n !in Primaries(left, table);
    } else {
      assert p in Primaries(s, table) && p != name;
      assert p in Primaries(left, table);
    }
  }
}
