/**
 CREATE MIGRATION and MIGRATE [TO v]. A migration's body is opaque: a MIGRATE statement carries how
 many bodies run before one fails. Bodies contain neither statement themselves.
 */
module Migrations {
  import opened Values

  datatype Migration = Migration(version: nat, sql: string, applied: bool)

  /** `log` lists the versions whose bodies have run to the end, in that order. */
  datatype Catalog = Catalog(migrations: seq<Migration>, schemaVersion: nat, log: seq<nat>)

  datatype Statement = Create(version: nat, sql: string) | Migrate(target: Option<nat>, bodies: nat)

  // ── One statement ────────────────────────────────────────────

  function Versions(ms: seq<Migration>): (r: seq<nat>)
    ensures |r| == |ms|
  {
    seq(|ms|, i requires 0 <= i < |ms| => ms[i].version)
  }

  predicate Ascending(s: seq<nat>) { forall i, j :: 0 <= i < j < |s| ==> s[i] < s[j] }

  /** `sort_by_key` by version. */
  function Sort(ms: seq<Migration>): seq<Migration> {
    if ms == [] then [] else Insert(Sort(ms[..|ms| - 1]), ms[|ms| - 1])
  }

  function Insert(ms: seq<Migration>, m: Migration): seq<Migration> {
    if ms == [] || ms[|ms| - 1].version <= m.version then ms + [m]
    else Insert(ms[..|ms| - 1], m) + [ms[|ms| - 1]]
  }

  predicate Pending(m: Migration, current: nat, target: Option<nat>) {
    m.version > current && (target.Some? ==> m.version <= target.value)
  }

  function ToRun(ms: seq<Migration>, current: nat, target: Option<nat>): seq<Migration> {
    if ms == [] then []
    else (if Pending(ms[0], current, target) then [ms[0]] else []) + ToRun(ms[1..], current, target)
  }

  /** Marks the first migration of the version. */
  function Marked(ms: seq<Migration>, version: nat): (r: seq<Migration>)
    ensures |r| == |ms|
  {
    if ms == [] then []
    else if ms[0].version == version then [ms[0].(applied := true)] + ms[1..]
    else [ms[0]] + Marked(ms[1..], version)
  }

  function Applied(c: Catalog, version: nat): Catalog {
    Catalog(Marked(c.migrations, version), version, c.log + [version])
  }

  function ApplyAll(c: Catalog, run: seq<Migration>): Catalog
    decreases |run|
  {
    if run == [] then c else ApplyAll(Applied(c, run[0].version), run[1..])
  }

  function Next(c: Catalog, stmt: Statement): (Catalog, bool) {
    match stmt
    case Create(version, sql) =>
      if version in Versions(c.migrations) then (c, false)
      else (c.(migrations := Sort(c.migrations + [Migration(version, sql, false)])), true)
    case Migrate(target, bodies) =>
      var run := ToRun(c.migrations, c.schemaVersion, target);
      var n := if bodies < |run| then bodies else |run|;
      (ApplyAll(c, run[..n]), n == |run|)
  }

  function Run(c: Catalog, stmts: seq<Statement>): Catalog
    decreases |stmts|
  {
    if stmts == [] then c else Run(Next(c, stmts[0]).0, stmts[1..])
  }

  class Engine {
    var catalog: Catalog

    constructor ()
      ensures catalog == Catalog([], 0, [])
    {
      catalog := Catalog([], 0, []);
    }

    method HandleCreateMigration(version: nat, sql: string) returns (ok: bool)
      modifies this
      ensures (catalog, ok) == Next(old(catalog), Create(version, sql))
    {
      for i := 0 to |catalog.migrations|
        invariant version !in Versions(catalog.migrations)[..i]
      {
        if catalog.migrations[i].version == version {
          assert Versions(catalog.migrations)[i] == version;
          return false;
        }
      }
      catalog := catalog.(migrations := Sort(catalog.migrations + [Migration(version, sql, false)]));
      ok := true;
    }

    /** `bodies` of the pending migrations run to their end; the next one, if any, fails. */
    method HandleMigrate(target: Option<nat>, bodies: nat) returns (ok: bool)
      modifies this
      ensures (catalog, ok) == Next(old(catalog), Migrate(target, bodies))
    {
      var run := ToRun(catalog.migrations, catalog.schemaVersion, target);
      ghost var n := if bodies < |run| then bodies else |run|;
      ghost var before := catalog;
      var i := 0;
      while i < |run|
        invariant i <= n
        invariant ApplyAll(before, run[..n]) == ApplyAll(catalog, run[..n][i..])
      {
        if i >= bodies {
          assert run[..n][i..] == [];
          return false;
        }
        assert run[..n][i..][1..] == run[..n][i + 1..];
        catalog := Applied(catalog, run[i].version);
        i := i + 1;
      }
      ok := true;
    }
  }

  // ── Sorting ──────────────────────────────────────────────────

  lemma {:induction false} AscendingSnoc(ms: seq<Migration>, last: Migration)
    requires Ascending(Versions(ms)) && forall x :: x in ms ==> x.version < last.version
    ensures Ascending(Versions(ms + [last]))
  {
    assert Versions(ms + [last]) == Versions(ms) + [last.version];
    forall i | 0 <= i < |ms| ensures Versions(ms)[i] < last.version { assert ms[i] in ms; }
  }

  lemma {:induction false} InsertKeeps(ms: seq<Migration>, m: Migration)
    requires Ascending(Versions(ms)) && m.version !in Versions(ms)
    ensures Ascending(Versions(Insert(ms, m)))
    ensures forall x :: x in Insert(ms, m) <==> x == m || x in ms
  {
    if ms == [] {
    } else if ms[|ms| - 1].version > m.version {
      var front, last := ms[..|ms| - 1], ms[|ms| - 1];
      assert ms == front + [last];
      assert Versions(front) == Versions(ms)[..|ms| - 1];
      InsertKeeps(front, m);
      forall x | x in front ensures x.version < last.version {
        var i :| 0 <= i < |front| && front[i] == x;
        assert Versions(ms)[i] < Versions(ms)[|ms| - 1];
      }
      AscendingSnoc(Insert(front, m), last);
    } else {
      forall x | x in ms ensures x.version < m.version {
        var i :| 0 <= i < |ms| && ms[i] == x;
        assert Versions(ms)[i] <= Versions(ms)[|ms| - 1] && Versions(ms)[|ms| - 1] != m.version;
      }
      AscendingSnoc(ms, m);
    }
  }

  lemma {:induction false} SortSorted(ms: seq<Migration>)
    requires Ascending(Versions(ms))
    ensures Sort(ms) == ms
  {
    if ms != [] {
      var front := ms[..|ms| - 1];
      assert Versions(front) == Versions(ms)[..|ms| - 1];
      SortSorted(front);
      if front != [] { assert Versions(ms)[|ms| - 2] < Versions(ms)[|ms| - 1]; }
    }
  }

  /** A new version is sorted into its place. */
  lemma {:induction false} CreateSorts(ms: seq<Migration>, m: Migration)
    requires Ascending(Versions(ms)) && m.version !in Versions(ms)
    ensures Ascending(Versions(Sort(ms + [m])))
    ensures forall x :: x in Sort(ms + [m]) <==> x == m || x in ms
  {
    assert (ms + [m])[..|ms|] == ms;
    SortSorted(ms);
    InsertKeeps(ms, m);
  }

  // ── What MIGRATE runs ────────────────────────────────────────

  lemma {:induction false} AscendingCons(m: Migration, ms: seq<Migration>)
    requires Ascending(Versions(ms)) && forall x :: x in ms ==> m.version < x.version
    ensures Ascending(Versions([m] + ms))
  {
    assert Versions([m] + ms) == [m.version] + Versions(ms);
    forall j | 0 <= j < |ms| ensures m.version < Versions(ms)[j] { assert ms[j] in ms; }
  }

  lemma {:induction false} ToRunMember(ms: seq<Migration>, current: nat, target: Option<nat>, m: Migration)
    ensures m in ToRun(ms, current, target) <==> m in ms && Pending(m, current, target)
  {
    if ms != [] {
      ToRunMember(ms[1..], current, target, m);
      assert m in ms <==> m == ms[0] || m in ms[1..];
    }
  }

  lemma {:induction false} ToRunAscending(ms: seq<Migration>, current: nat, target: Option<nat>)
    requires Ascending(Versions(ms))
    ensures Ascending(Versions(ToRun(ms, current, target)))
  {
    if ms != [] {
      var rest := ms[1..];
      var run := ToRun(rest, current, target);
      assert Versions(rest) == Versions(ms)[1..];
      ToRunAscending(rest, current, target);
      forall x | x in run ensures ms[0].version < x.version {
        ToRunMember(rest, current, target, x);
        var i :| 0 <= i < |rest| && rest[i] == x;
        assert Versions(ms)[0] < Versions(ms)[i + 1];
      }
      AscendingCons(ms[0], run);
      assert [] + run == run;
    }
  }

  lemma {:induction false} ToRunExact(ms: seq<Migration>, current: nat, target: Option<nat>)
    requires Ascending(Versions(ms))
    ensures Ascending(Versions(ToRun(ms, current, target)))
    ensures forall m :: m in ToRun(ms, current, target) <==> m in ms && Pending(m, current, target)
  {
    ToRunAscending(ms, current, target);
    forall m ensures m in ToRun(ms, current, target) <==> m in ms && Pending(m, current, target) {
      ToRunMember(ms, current, target, m);
    }
  }

  lemma {:induction false} MarkedExact(ms: seq<Migration>, version: nat)
    requires Ascending(Versions(ms))
    ensures Versions(Marked(ms, version)) == Versions(ms)
    ensures forall i :: 0 <= i < |ms| ==> Marked(ms, version)[i].applied == (ms[i].applied || ms[i].version == version)
  {
    if ms != [] {
      if ms[0].version == version {
        forall i | 0 < i < |ms| ensures ms[i].version != version { assert Versions(ms)[0] < Versions(ms)[i]; }
      } else {
        assert Versions(ms[1..]) == Versions(ms)[1..];
        MarkedExact(ms[1..], version);
        assert Versions(Marked(ms, version)) == [ms[0].version] + Versions(Marked(ms[1..], version));
      }
    }
  }

  // ── Runs ─────────────────────────────────────────────────────

  /**
   Versions are sorted and distinct; the bodies that have run are registered, marked, and in strictly
   ascending order up to the schema version, so none has run twice.
   */
  predicate Valid(c: Catalog) {
    && Ascending(Versions(c.migrations))
    && Ascending(c.log)
    && (forall v :: v in c.log ==> v <= c.schemaVersion && v in Versions(c.migrations))
    && (forall i :: 0 <= i < |c.migrations| ==> c.migrations[i].applied == (c.migrations[i].version in c.log))
  }

  lemma {:induction false} AppliedValid(c: Catalog, version: nat)
    requires Valid(c) && version > c.schemaVersion && version in Versions(c.migrations)
    ensures Valid(Applied(c, version))
    ensures Versions(Applied(c, version).migrations) == Versions(c.migrations)
  {
    MarkedExact(c.migrations, version);
    var after := Applied(c, version);
    forall i | 0 <= i < |c.log| ensures c.log[i] < version { assert c.log[i] in c.log; }
    forall i | 0 <= i < |after.migrations|
      ensures after.migrations[i].applied == (after.migrations[i].version in after.log)
    {
      assert Versions(after.migrations)[i] == Versions(c.migrations)[i];
    }
  }

  lemma {:induction false} RestOfRun(c: Catalog, run: seq<Migration>, next: Catalog)
    requires Ascending(Versions(run)) && run != [] && next.schemaVersion == run[0].version
    requires Versions(next.migrations) == Versions(c.migrations)
    requires forall m :: m in run ==> m.version > c.schemaVersion && m.version in Versions(c.migrations)
    ensures Ascending(Versions(run[1..])) && Versions(run) == [run[0].version] + Versions(run[1..])
    ensures forall m :: m in run[1..] ==> m.version > next.schemaVersion && m.version in Versions(next.migrations)
  {
    var rest := run[1..];
    assert Versions(rest) == Versions(run)[1..];
    forall m | m in rest ensures m.version > next.schemaVersion {
      var i :| 0 <= i < |rest| && rest[i] == m;
      assert Versions(run)[0] < Versions(run)[i + 1];
    }
  }

  lemma {:induction false} ApplyAllValid(c: Catalog, run: seq<Migration>)
    requires Valid(c) && Ascending(Versions(run))
    requires forall m :: m in run ==> m.version > c.schemaVersion && m.version in Versions(c.migrations)
    ensures Valid(ApplyAll(c, run))
    ensures Versions(ApplyAll(c, run).migrations) == Versions(c.migrations)
    ensures ApplyAll(c, run).log == c.log + Versions(run)
    ensures ApplyAll(c, run).schemaVersion == if run == [] then c.schemaVersion else run[|run| - 1].version
    decreases |run|
  {
    if run != [] {
      assert run[0] in run;
      AppliedValid(c, run[0].version);
      var next := Applied(c, run[0].version);
      RestOfRun(c, run, next);
      ApplyAllValid(next, run[1..]);
      Append(c.log, run[0].version, Versions(run[1..]));
    }
  }

  lemma {:induction false} Append(log: seq<nat>, v: nat, rest: seq<nat>)
    ensures (log + [v]) + rest == log + ([v] + rest)
  {
  }

  lemma {:induction false} PrefixOfRun(c: Catalog, target: Option<nat>, n: nat)
    requires Valid(c) && n <= |ToRun(c.migrations, c.schemaVersion, target)|
    ensures var run := ToRun(c.migrations, c.schemaVersion, target)[..n];
      && Ascending(Versions(run))
      && (forall m :: m in run ==> m.version > c.schemaVersion && m.version in Versions(c.migrations) && Pending(m, c.schemaVersion, target))
  {
    var run := ToRun(c.migrations, c.schemaVersion, target);
    ToRunExact(c.migrations, c.schemaVersion, target);
    assert Versions(run[..n]) == Versions(run)[..n];
    forall m | m in run[..n] ensures m in run && m.version in Versions(c.migrations) {
      assert m in run && m in c.migrations;
      var i :| 0 <= i < |c.migrations| && c.migrations[i] == m;
      assert Versions(c.migrations)[i] == m.version;
    }
  }

  lemma {:induction false} CreateValid(c: Catalog, m: Migration, after: Catalog)
    requires Valid(c) && m.version !in Versions(c.migrations) && !m.applied
    requires after == c.(migrations := Sort(c.migrations + [m]))
    ensures Valid(after)
  {
    CreateSorts(c.migrations, m);
    forall v | v in c.log ensures v in Versions(after.migrations) {
      var i :| 0 <= i < |c.migrations| && Versions(c.migrations)[i] == v;
      assert c.migrations[i] in after.migrations;
      var j :| 0 <= j < |after.migrations| && after.migrations[j] == c.migrations[i];
      assert Versions(after.migrations)[j] == v;
    }
    forall j | 0 <= j < |after.migrations|
      ensures after.migrations[j].applied == (after.migrations[j].version in after.log)
    {
      assert after.migrations[j] in after.migrations;
      if after.migrations[j] != m { var i :| 0 <= i < |c.migrations| && c.migrations[i] == after.migrations[j]; }
    }
  }

  /** One statement: the schema version does not go down, and versions run are appended in ascending order. */
  lemma {:induction false} NextValid(c: Catalog, stmt: Statement)
    requires Valid(c)
    ensures Valid(Next(c, stmt).0)
    ensures Next(c, stmt).0.schemaVersion >= c.schemaVersion && c.log <= Next(c, stmt).0.log
    ensures forall i :: |c.log| <= i < |Next(c, stmt).0.log| ==> Next(c, stmt).0.log[i] > c.schemaVersion
  {
    match stmt
    case Create(version, sql) =>
      if version !in Versions(c.migrations) { CreateValid(c, Migration(version, sql, false), Next(c, stmt).0); }
    case Migrate(target, bodies) =>
      var all := ToRun(c.migrations, c.schemaVersion, target);
      var run := all[..if bodies < |all| then bodies else |all|];
      PrefixOfRun(c, target, |run|);
      ApplyAllValid(c, run);
      forall i | 0 <= i < |run| ensures run[i].version > c.schemaVersion { assert run[i] in run; }
  }

  /** Over every run versions stay sorted and distinct, and each runs at most once, in ascending order. */
  lemma {:induction false} RunValid(c: Catalog, stmts: seq<Statement>)
    requires Valid(c)
    ensures var after := Run(c, stmts);
      Valid(after) && after.schemaVersion >= c.schemaVersion && c.log <= after.log
    ensures forall i :: |c.log| <= i < |Run(c, stmts).log| ==> Run(c, stmts).log[i] > c.schemaVersion
    decreases |stmts|
  {
    if stmts != [] {
      NextValid(c, stmts[0]);
      RunValid(Next(c, stmts[0]).0, stmts[1..]);
    }
  }

  /** A run takes its statements one after the other. */
  lemma {:induction false} RunLast(c: Catalog, stmts: seq<Statement>, last: Statement)
    ensures Run(c, stmts + [last]) == Next(Run(c, stmts), last).0
    decreases |stmts|
  {
    if stmts == [] {
      assert [] + [last] == [last] && [last][1..] == [];
      assert Run(Next(c, last).0, []) == Next(c, last).0;
    } else {
      assert (stmts + [last])[1..] == stmts[1..] + [last];
      RunLast(Next(c, stmts[0]).0, stmts[1..], last);
    }
  }

  /** A version registered when the schema is already past it never runs; version 0 never runs at all. */
  lemma {:induction false} LateVersionNeverRuns(c: Catalog, stmts: seq<Statement>, version: nat)
    requires Valid(c) && version <= c.schemaVersion && version !in c.log
    ensures version !in Run(c, stmts).log
  {
    RunValid(c, stmts);
    var log := Run(c, stmts).log;
    forall i | 0 <= i < |log| ensures log[i] != version {
      if i < |c.log| { assert log[i] == c.log[i] && c.log[i] in c.log; }
    }
  }

  /** Every pending version up to the target is among those to run, and at most as large as the last. */
  lemma {:induction false} RunCovers(ms: seq<Migration>, current: nat, target: Option<nat>, v: nat)
    requires Ascending(Versions(ms)) && v in Versions(ms) && v > current && (target.Some? ==> v <= target.value)
    ensures var run := ToRun(ms, current, target); v in Versions(run) && v <= run[|run| - 1].version
  {
    var run := ToRun(ms, current, target);
    ToRunExact(ms, current, target);
    var i :| 0 <= i < |ms| && Versions(ms)[i] == v;
    assert ms[i] in run;
    var j :| 0 <= j < |run| && run[j] == ms[i];
    assert Versions(run)[j] == v && Versions(run)[|run| - 1] == run[|run| - 1].version;
  }

  /** A MIGRATE that succeeds runs exactly the pending versions up to its target, and leaves none. */
  lemma {:induction false} MigrateComplete(c: Catalog, target: Option<nat>, bodies: nat, after: Catalog, v: nat)
    requires Valid(c) && Next(c, Migrate(target, bodies)) == (after, true)
    ensures after.log == c.log + Versions(ToRun(c.migrations, c.schemaVersion, target))
    ensures v in Versions(after.migrations) && (target.Some? ==> v <= target.value) ==> v <= after.schemaVersion
    ensures (v in Versions(c.migrations) && v > c.schemaVersion && (target.Some? ==> v <= target.value) ==>
      v in after.log)
  {
    var run := ToRun(c.migrations, c.schemaVersion, target);
    assert run[..|run|] == run;
    PrefixOfRun(c, target, |run|);
    ApplyAllValid(c, run);
    if v in Versions(c.migrations) && v > c.schemaVersion && (target.Some? ==> v <= target.value) {
      RunCovers(c.migrations, c.schemaVersion, target, v);
    }
  }

  // ── Across a reopen ──────────────────────────────────────────

  /** The catalogue in memory and in the object store, and all bodies that ever ran to their end. */
  datatype World = World(memory: Catalog, stored: Catalog, history: seq<nat>)

  /**
   `storedAt`: while a MIGRATE that fails was at work, a statement of some body last stored the
   catalogue when that many migrations were applied; None if none did.
   */
  datatype Event = Do(stmt: Statement, storedAt: Option<nat>) | StoreCatalog | Reopen

  /** The migrations that a statement runs to their end. */
  function Ran(c: Catalog, stmt: Statement): seq<Migration> {
    match stmt
    case Create(_, _) => []
    case Migrate(target, bodies) =>
      var run := ToRun(c.migrations, c.schemaVersion, target);
      run[..if bodies < |run| then bodies else |run|]
  }

  /** A statement that succeeds is stored; a MIGRATE that fails returns before it saves. */
  function After(w: World, e: Event): World {
    match e
    case Do(stmt, storedAt) =>
      var (c, ok) := Next(w.memory, stmt);
      var ran := Ran(w.memory, stmt);
      var stored :=
        if ok then c
        else if stmt.Create? || storedAt.None? then w.stored
        else ApplyAll(w.memory, ran[..if storedAt.value < |ran| then storedAt.value else |ran|]);
      World(c, stored, w.history + Versions(ran))
    case StoreCatalog => w.(stored := w.memory)
    case Reopen => w.(memory := w.stored)
  }

  function History(w: World, events: seq<Event>): World
    decreases |events|
  {
    if events == [] then w else History(After(w, events[0]), events[1..])
  }

  /** `older` is an earlier state of `c`: the same versions registered, fewer run. */
  predicate Earlier(older: Catalog, c: Catalog) {
    && Versions(older.migrations) == Versions(c.migrations)
    && older.schemaVersion <= c.schemaVersion
    && older.log <= c.log
    && forall i :: |older.log| <= i < |c.log| ==> c.log[i] > older.schemaVersion
  }

  predicate Sound(w: World) { Valid(w.memory) && Valid(w.stored) && Earlier(w.stored, w.memory) }

  lemma {:induction false} RanExact(c: Catalog, stmt: Statement)
    requires Valid(c)
    ensures var ran := Ran(c, stmt);
      && Ascending(Versions(ran))
      && (forall m :: m in ran ==> m.version > c.schemaVersion && m.version in Versions(c.migrations))
      && (stmt.Migrate? ==> Next(c, stmt).0 == ApplyAll(c, ran))
  {
    if stmt.Migrate? { PrefixOfRun(c, stmt.target, |Ran(c, stmt)|); }
  }

  /** Of ascending versions above `low`, those behind the first `k` are above the last of these. */
  lemma {:induction false} RestIsAbove(log: seq<nat>, vs: seq<nat>, k: nat, low: nat)
    requires Ascending(vs) && k <= |vs| && forall v :: v in vs ==> v > low
    ensures log + vs[..k] <= log + vs
    ensures forall i :: |log| + k <= i < |log + vs| ==> (log + vs)[i] > if k == 0 then low else vs[k - 1]
    ensures (if k == 0 then low else vs[k - 1]) <= if vs == [] then low else vs[|vs| - 1]
  {
    forall i | |log| + k <= i < |log + vs| ensures (log + vs)[i] > if k == 0 then low else vs[k - 1] {
      var j := i - |log|;
      assert (log + vs)[i] == vs[j] && vs[j] in vs;
      if k > 0 { assert vs[k - 1] < vs[j]; }
    }
    if vs != [] { assert vs[|vs| - 1] in vs; }
  }

  /** A part of a run of migrations leads to an earlier state than the whole. */
  lemma {:induction false} PartIsEarlier(c: Catalog, run: seq<Migration>, k: nat)
    requires Valid(c) && Ascending(Versions(run)) && k <= |run|
    requires forall m :: m in run ==> m.version > c.schemaVersion && m.version in Versions(c.migrations)
    ensures Valid(ApplyAll(c, run[..k])) && Valid(ApplyAll(c, run)) && Earlier(ApplyAll(c, run[..k]), ApplyAll(c, run))
  {
    var part, vs := run[..k], Versions(run);
    assert Versions(part) == vs[..k];
    ApplyAllValid(c, run);
    ApplyAllValid(c, part);
    forall v | v in vs ensures v > c.schemaVersion {
      var i :| 0 <= i < |run| && vs[i] == v;
      assert run[i] in run;
    }
    RestIsAbove(c.log, vs, k, c.schemaVersion);
  }

  lemma {:induction false} EarlierTransitive(a: Catalog, b: Catalog, c: Catalog)
    requires Earlier(a, b) && Earlier(b, c)
    ensures Earlier(a, c)
  {
    forall i | |a.log| <= i < |c.log| ensures c.log[i] > a.schemaVersion {
      if i < |b.log| { assert c.log[i] == b.log[i]; }
    }
  }

  lemma {:induction false} EventSound(w: World, e: Event)
    requires Sound(w)
    ensures Sound(After(w, e))
  {
    match e
    case Do(stmt, storedAt) =>
      NextValid(w.memory, stmt);
      RanExact(w.memory, stmt);
      var ran := Ran(w.memory, stmt);
      if stmt.Migrate? {
        PartIsEarlier(w.memory, ran, 0);
        assert ran[..0] == [] && ApplyAll(w.memory, ran[..0]) == w.memory;
        EarlierTransitive(w.stored, w.memory, ApplyAll(w.memory, ran));
        if storedAt.Some? { PartIsEarlier(w.memory, ran, if storedAt.value < |ran| then storedAt.value else |ran|); }
      }
    case StoreCatalog =>
    case Reopen =>
  }

  const NEW := World(Catalog([], 0, []), Catalog([], 0, []), [])

  lemma {:induction false} HistorySound(w: World, events: seq<Event>)
    requires Sound(w)
    ensures Sound(History(w, events))
    decreases |events|
  {
    if events != [] {
      EventSound(w, events[0]);
      HistorySound(After(w, events[0]), events[1..]);
    }
  }

  /** What a version that was stored or not (`unsaved`) is after the event, as the event itself tells. */
  predicate UnsavedAfter(c: Catalog, e: Event, v: nat, unsaved: bool) {
    match e
    case Do(stmt, storedAt) =>
      var ran := Ran(c, stmt);
      !Next(c, stmt).1 &&
      if stmt.Create? || storedAt.None? then v in Versions(ran) || unsaved
      else storedAt.value < |ran| && v in Versions(ran[storedAt.value..])
    case _ => false
  }

  /**
   The MIGRATE in which the version succeeded failed at a later one, and since the success nothing has
   stored the catalogue: no statement that succeeded, no other statement that stores it, and no body of
   a failed MIGRATE.
   */
  predicate Unsaved(w: World, events: seq<Event>, v: nat) {
    events != [] &&
    var before, e := events[..|events| - 1], events[|events| - 1];
    UnsavedAfter(History(w, before).memory, e, v, Unsaved(w, before, v))
  }

  lemma {:induction false} HistoryLast(w: World, events: seq<Event>)
    requires events != []
    ensures History(w, events) == After(History(w, events[..|events| - 1]), events[|events| - 1])
    decreases |events|
  {
    if |events| == 1 {
      assert events[1..] == [] && events[..0] == [];
      assert History(After(w, events[0]), []) == After(w, events[0]);
    } else {
      assert events[1..][..|events| - 2] == events[..|events| - 1][1..];
      HistoryLast(After(w, events[0]), events[1..]);
    }
  }

  /** Which of the versions of `log` and then `vs` a shorter log lacks. */
  lemma {:induction false} LacksExactly(log: seq<nat>, storedLog: seq<nat>, vs: seq<nat>, k: nat, low: nat, v: nat, unsaved: bool)
    requires Ascending(vs) && k <= |vs| && storedLog <= log
    requires (forall x :: x in vs ==> x > low) && (forall x :: x in log ==> x <= low)
    requires v in log ==> (unsaved <==> v !in storedLog)
    ensures v in log + vs ==> (v in vs || unsaved <==> v !in storedLog) && (v in vs[k..] <==> v !in log + vs[..k])
  {
    var front, back := vs[..k], vs[k..];
    assert vs == front + back;
    assert v in front + back <==> v in front || v in back;
    assert v in log + front <==> v in log || v in front;
    assert v in storedLog ==> v in log;
    if v in vs[k..] {
      var j :| 0 <= j < |vs[k..]| && vs[k..][j] == v;
      forall i | 0 <= i < k ensures vs[..k][i] != v { assert vs[i] < vs[k + j]; }
    }
  }

  lemma {:induction false} RanVersions(c: Catalog, ran: seq<Migration>, k: nat)
    requires Valid(c) && Ascending(Versions(ran)) && k <= |ran|
    requires forall m :: m in ran ==> m.version > c.schemaVersion && m.version in Versions(c.migrations)
    ensures forall x :: x in Versions(ran) ==> x > c.schemaVersion
    ensures ApplyAll(c, ran).log == c.log + Versions(ran)
    ensures ApplyAll(c, ran[..k]).log == c.log + Versions(ran)[..k] && Versions(ran[k..]) == Versions(ran)[k..]
  {
    assert Versions(ran[..k]) == Versions(ran)[..k];
    ApplyAllValid(c, ran);
    ApplyAllValid(c, ran[..k]);
    forall x | x in Versions(ran) ensures x > c.schemaVersion {
      var i :| 0 <= i < |ran| && Versions(ran)[i] == x;
      assert ran[i] in ran;
    }
  }

  lemma {:induction false} MigrateUnsaved(w: World, stmt: Statement, storedAt: Option<nat>, v: nat, unsaved: bool)
    requires Sound(w) && stmt.Migrate? && (v in w.memory.log ==> (unsaved <==> v !in w.stored.log))
    ensures var e := Do(stmt, storedAt);
      v in After(w, e).memory.log ==> (UnsavedAfter(w.memory, e, v, unsaved) <==> v !in After(w, e).stored.log)
  {
    var ran := Ran(w.memory, stmt);
    var k := if storedAt.Some? && storedAt.value < |ran| then storedAt.value else |ran|;
    RanExact(w.memory, stmt);
    RanVersions(w.memory, ran, k);
    LacksExactly(w.memory.log, w.stored.log, Versions(ran), k, w.memory.schemaVersion, v, unsaved);
  }

  /** The events tell which successes the object store does not have. */
  lemma {:induction false} UnsavedExact(w: World, events: seq<Event>, v: nat)
    requires Sound(w) && w.stored.log == w.memory.log && v in History(w, events).memory.log
    ensures v !in History(w, events).stored.log <==> Unsaved(w, events, v)
  {
    UnsavedIfRun(w, events, v);
  }

  lemma {:induction false} UnsavedIfRun(w: World, events: seq<Event>, v: nat)
    requires Sound(w) && w.stored.log == w.memory.log
    ensures v in History(w, events).memory.log ==> (Unsaved(w, events, v) <==> v !in History(w, events).stored.log)
    decreases |events|
  {
    if events != [] {
      var before, e := events[..|events| - 1], events[|events| - 1];
      HistoryLast(w, events);
      HistorySound(w, before);
      UnsavedIfRun(w, before, v);
      if e.Do? && e.stmt.Migrate? {
        MigrateUnsaved(History(w, before), e.stmt, e.storedAt, v, Unsaved(w, before, v));
      }
    }
  }

  lemma {:induction false} RepeatsUnstored(w: World, v: nat)
    requires Sound(w) && v in w.memory.log
    ensures v in Versions(ToRun(w.stored.migrations, w.stored.schemaVersion, None)) <==> v !in w.stored.log
  {
    var c := w.stored;
    ToRunExact(c.migrations, c.schemaVersion, None);
    var run := ToRun(c.migrations, c.schemaVersion, None);
    if v in c.log {
      forall i | 0 <= i < |run| ensures Versions(run)[i] != v { assert run[i] in run; }
    } else {
      var i :| 0 <= i < |w.memory.log| && w.memory.log[i] == v;
      assert v > c.schemaVersion && v in Versions(c.migrations);
      RunCovers(c.migrations, c.schemaVersion, None, v);
    }
  }

  /**
   A version that has succeeded is run again by the MIGRATE after a reopen if and only if its own
   MIGRATE failed at a later version and nothing has stored the catalogue since.
   */
  lemma {:induction false} ReopenRepeatsExactly(w: World, events: seq<Event>, v: nat)
    requires Sound(w) && w.stored.log == w.memory.log && v in History(w, events).memory.log
    ensures var c := After(History(w, events), Reopen).memory;
      v in Versions(ToRun(c.migrations, c.schemaVersion, None)) <==> Unsaved(w, events, v)
  {
    HistorySound(w, events);
    UnsavedExact(w, events, v);
    RepeatsUnstored(History(w, events), v);
  }

  /** Every reopen of the run finds the catalogue stored. */
  predicate NothingLost(w: World, events: seq<Event>)
    decreases |events|
  {
    events == [] || (
      && (events[0].Reopen? ==> w.stored.log == w.memory.log)
      && NothingLost(After(w, events[0]), events[1..]))
  }

  /** Then each version succeeds at most once over all reopens, in strictly ascending order. */
  lemma {:induction false} OnceAcrossReopens(w: World, events: seq<Event>)
    requires Sound(w) && w.history == w.memory.log && NothingLost(w, events)
    ensures var end := History(w, events); end.history == end.memory.log && Ascending(end.history)
    decreases |events|
  {
    if events != [] {
      var e := events[0];
      EventSound(w, e);
      if e.Do? {
        RanExact(w.memory, e.stmt);
        if e.stmt.Migrate? {
          ApplyAllValid(w.memory, Ran(w.memory, e.stmt));
        } else {
          assert w.history + Versions([]) == w.history;
        }
      }
      OnceAcrossReopens(After(w, e), events[1..]);
    }
  }

  /** And a reopen that does lose a success is followed by a second one, in a MIGRATE whose bodies all run. */
  lemma {:induction false} LostRunsTwice(w: World, v: nat, bodies: nat)
    requires Sound(w) && w.history == w.memory.log && v in w.memory.log && v !in w.stored.log
    requires bodies >= |ToRun(w.stored.migrations, w.stored.schemaVersion, None)|
    ensures var again := History(w, [Reopen] + [Do(Migrate(None, bodies), None)]);
      && w.history <= again.history && v in w.history && v in again.history[|w.history|..]
  {
    var migrate := Do(Migrate(None, bodies), None);
    var events := [Reopen] + [migrate];
    var reopened := After(w, Reopen);
    var run := ToRun(w.stored.migrations, w.stored.schemaVersion, None);
    assert events[1..] == [migrate];
    HistoryOne(reopened, migrate);
    RepeatsUnstored(w, v);
    assert run[..|run|] == run;
    assert History(w, events).history == w.history + Versions(run);
    assert (w.history + Versions(run))[|w.history|..] == Versions(run);
  }

  lemma {:induction false} HistoryOne(w: World, e: Event)
    ensures History(w, [e]) == After(w, e)
  {
    assert [e][1..] == [];
    assert History(After(w, e), []) == After(w, e);
  }

  lemma {:induction false} BothPending(m1: Migration, m2: Migration)
    requires m1.version > 0 && m2.version > 0
    ensures ToRun([m1, m2], 0, None) == [m1, m2] && [m1, m2][..1] == [m1]
  {
    assert [m1, m2][1..] == [m2] && [m2][1..] == [];
    assert ToRun([], 0, None) == [];
    assert ToRun([m2], 0, None) == [m2] + [];
    assert ToRun([m1, m2], 0, None) == [m1] + ToRun([m2], 0, None);
  }

  lemma {:induction false} SortedPair(m1: Migration, m2: Migration)
    requires m1.version < m2.version
    ensures Sort([m1]) == [m1] && Sort([m1] + [m2]) == [m1, m2]
  {
    assert [m1][..0] == [] && ([m1] + [m2])[..1] == [m1];
    assert Insert([], m1) == [m1] && Insert([m1], m2) == [m1] + [m2];
  }

  /** Two migrations, the second of which fails: a reopen loses the success of the first. */
  lemma {:induction false} FirstIsLost() returns (w: World)
    ensures w == History(NEW, [Do(Create(1, ""), None)] + ([Do(Create(2, ""), None)] + [Do(Migrate(None, 1), None)]))
    ensures Sound(w) && w.history == w.memory.log && 1 in w.memory.log && 1 !in w.stored.log
    ensures |ToRun(w.stored.migrations, w.stored.schemaVersion, None)| == 2
  {
    var create1, create2, migrate := Do(Create(1, ""), None), Do(Create(2, ""), None), Do(Migrate(None, 1), None);
    var m1, m2 := Migration(1, "", false), Migration(2, "", false);
    SortedPair(m1, m2);
    BothPending(m1, m2);
    var w1 := After(NEW, create1);
    assert [] + [m1] == [m1];
    assert w1.memory == Catalog([m1], 0, []) == w1.stored && w1.history == [] + Versions([]) == [];
    var w2 := After(w1, create2);
    assert Versions([m1]) == [1];
    assert w2.memory == Catalog([m1, m2], 0, []) == w2.stored && w2.history == [] + Versions([]) == [];
    w := After(w2, migrate);
    assert Ran(w2.memory, migrate.stmt) == [m1];
    assert ApplyAll(w2.memory, [m1]) == ApplyAll(Applied(w2.memory, 1), [m1][1..]);
    assert w.memory.log == [1] == w.history && w.stored == w2.stored;
    var two, three := [create2] + [migrate], [create1] + ([create2] + [migrate]);
    assert three[1..] == two && two[1..] == [migrate];
    HistoryOne(w2, migrate);
    HistorySound(NEW, three);
  }
}
