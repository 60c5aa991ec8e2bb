/**
 The buffered insert path of the engine: write buffer, uniqueness cache, Arrow WAL and Parquet
 rows, changed in place by the methods below. Inserts name no columns, and a table's rows are
 those of its Parquet files in write order.
 */
module InsertPath {
  import opened Values
  import opened KeyEncoding
  import opened Uniqueness
  import P = CrashProtocol

  datatype BufferedInsert = BufferedInsert(batches: seq<Batch>, rowCount: nat, approxBytes: nat)

  /** How many rows an INSERT took in, and whether it flushed its table. */
  datatype Inserted = Inserted(rows: nat, flushed: bool)

  /** Tuples to add to a cached key set once their rows are on disk. */
  datatype Merge = Merge(key: CacheKey, tuples: seq<seq<string>>)

  type Cache = map<CacheKey, set<string>>

  /** Constraints that share a cache entry are the same constraint. */
  predicate WellNamed(meta: TableMeta) {
    forall c, d :: c in meta.constraints && d in meta.constraints && CacheKeyOf("", c) == CacheKeyOf("", d) ==> c == d
  }

  /** Every cached key set is the set of key strings on disk. */
  predicate TableAgrees(cache: Cache, t: string, meta: TableMeta, disk: seq<Row>) {
    forall c :: c in meta.constraints && CacheKeyOf(t, c) in cache ==> cache[CacheKeyOf(t, c)] == CachedSet(c, disk)
  }

  predicate CacheAgrees(cache: Cache, tables: map<string, TableMeta>, disk: map<string, seq<Row>>) {
    && (forall t :: t in tables ==> TableAgrees(cache, t, tables[t], P.RowsAt(disk, t)))
    && (forall k :: k in cache ==> k.table in tables)
  }

  function MergesOf(t: string, cs: seq<Constraint>, rows: seq<Row>): seq<Merge> {
    if cs == [] then [] else
      var c := cs[|cs| - 1];
      var before := MergesOf(t, cs[..|cs| - 1], rows);
      if Tuples(rows, c.columns) == [] then before else before + [Merge(CacheKeyOf(t, c), Tuples(rows, c.columns))]
  }

  function Lookup(cache: Cache, k: CacheKey): set<string> { if k in cache then cache[k] else {} }

  function ApplyMerge(cache: Cache, m: Merge): Cache { cache[m.key := Lookup(cache, m.key) + Joined(m.tuples)] }

  function ApplyMerges(cache: Cache, ms: seq<Merge>): Cache {
    if ms == [] then cache else ApplyMerge(ApplyMerges(cache, ms[..|ms| - 1]), ms[|ms| - 1])
  }

  lemma {:induction false} ApplyMergesKeys(cache: Cache, ms: seq<Merge>)
    requires forall m :: m in ms ==> m.key in cache
    ensures ApplyMerges(cache, ms).Keys == cache.Keys
  {
    if ms != [] {
      ApplyMergesKeys(cache, ms[..|ms| - 1]);
      assert ms[|ms| - 1] in ms;
    }
  }

  lemma {:induction false} ApplyMergesElsewhere(cache: Cache, t: string, cs: seq<Constraint>, rows: seq<Row>, k: CacheKey)
    requires forall c :: c in cs ==> k != CacheKeyOf(t, c)
    ensures Lookup(ApplyMerges(cache, MergesOf(t, cs, rows)), k) == Lookup(cache, k)
  {
    if cs != [] {
      ApplyMergesElsewhere(cache, t, cs[..|cs| - 1], rows, k);
      assert cs[|cs| - 1] in cs;
      ApplyLast(cache, t, cs, rows);
    }
  }

  lemma {:induction false} ApplyLast(cache: Cache, t: string, cs: seq<Constraint>, rows: seq<Row>)
    requires cs != []
    ensures var n := |cs| - 1;
      var before := ApplyMerges(cache, MergesOf(t, cs[..n], rows));
      var tuples := Tuples(rows, cs[n].columns);
      ApplyMerges(cache, MergesOf(t, cs, rows))
      == if tuples == [] then before else ApplyMerge(before, Merge(CacheKeyOf(t, cs[n]), tuples))
  {
    var n := |cs| - 1;
    var before := MergesOf(t, cs[..n], rows);
    var ms := MergesOf(t, cs, rows);
    if ms != before {
      assert ms[..|ms| - 1] == before;
    }
  }

  lemma {:induction false} SameEntrySame(t: string, cs: seq<Constraint>, c: Constraint, d: Constraint)
    requires WellNamed(TableMeta(cs)) && c in cs && d in cs && CacheKeyOf(t, c) == CacheKeyOf(t, d)
    ensures c == d
  {
    assert CacheKeyOf("", c) == CacheKeyOf("", d);
  }

  lemma {:induction false} FrontWellNamed(cs: seq<Constraint>, n: nat)
    requires WellNamed(TableMeta(cs)) && n <= |cs|
    ensures WellNamed(TableMeta(cs[..n])) && forall d :: d in cs[..n] ==> d in cs
  {
  }

  /** The merges of a table add to the entry of each of its constraints the tuples of that constraint. */
  lemma {:induction false} ApplyMergesAt(cache: Cache, t: string, cs: seq<Constraint>, rows: seq<Row>, c: Constraint)
    requires WellNamed(TableMeta(cs)) && c in cs
    ensures var k := CacheKeyOf(t, c);
      Lookup(ApplyMerges(cache, MergesOf(t, cs, rows)), k) == Lookup(cache, k) + Joined(Tuples(rows, c.columns))
  {
    var front, last := cs[..|cs| - 1], cs[|cs| - 1];
    assert cs == front + [last] && last in cs;
    FrontWellNamed(cs, |cs| - 1);
    ApplyLast(cache, t, cs, rows);
    if CacheKeyOf(t, c) == CacheKeyOf(t, last) { SameEntrySame(t, cs, c, last); }
    if c in front {
      ApplyMergesAt(cache, t, front, rows, c);
    } else {
      forall d | d in front ensures CacheKeyOf(t, c) != CacheKeyOf(t, d) {
        if CacheKeyOf(t, c) == CacheKeyOf(t, d) { SameEntrySame(t, cs, c, d); }
      }
      ApplyMergesElsewhere(cache, t, front, rows, CacheKeyOf(t, c));
    }
  }

  /** Writing accepted rows and applying their merges keeps the cache in agreement with the disk. */
  lemma {:induction false} WriteKeepsAgreement(cache: Cache, tables: map<string, TableMeta>, disk: map<string, seq<Row>>, t: string, rows: seq<Row>)
    requires CacheAgrees(cache, tables, disk) && t in tables && WellNamed(tables[t])
    requires AllAcceptable(tables[t], P.RowsAt(disk, t), rows)
    requires forall m :: m in MergesOf(t, tables[t].constraints, rows) ==> m.key in cache
    ensures CacheAgrees(ApplyMerges(cache, MergesOf(t, tables[t].constraints, rows)), tables, disk[t := P.RowsAt(disk, t) + rows])
  {
    var cs := tables[t].constraints;
    var r := ApplyMerges(cache, MergesOf(t, cs, rows));
    var disk' := disk[t := P.RowsAt(disk, t) + rows];
    assert TableMeta(cs) == tables[t];
    ApplyMergesKeys(cache, MergesOf(t, cs, rows));
    forall u | u in tables ensures TableAgrees(r, u, tables[u], P.RowsAt(disk', u)) {
      assert TableAgrees(cache, u, tables[u], P.RowsAt(disk, u));
      forall c | c in tables[u].constraints && CacheKeyOf(u, c) in r
        ensures r[CacheKeyOf(u, c)] == CachedSet(c, P.RowsAt(disk', u))
      {
        if u != t {
          ApplyMergesElsewhere(cache, t, cs, rows, CacheKeyOf(u, c));
        } else {
          ApplyMergesAt(cache, t, cs, rows, c);
          assert Acceptable(c, P.RowsAt(disk, t), rows);
          MergeAgrees(c, P.RowsAt(disk, t), rows);
        }
      }
    }
  }

  /** The buffered rows may be written, and their count is right. */
  ghost predicate Accepted(meta: TableMeta, disk: seq<Row>, entry: BufferedInsert) {
    entry.rowCount == |RowsOf(entry.batches)| && AllAcceptable(meta, disk, RowsOf(entry.batches))
  }

  ghost predicate BufferAccepted(tables: map<string, TableMeta>, disk: map<string, seq<Row>>, buffer: map<string, BufferedInsert>) {
    forall t :: t in buffer ==> t in tables && Accepted(tables[t], P.RowsAt(disk, t), buffer[t])
  }

  /** Cache and buffer fit the rows on disk. */
  ghost predicate AgreesOn(tables: map<string, TableMeta>, disk: map<string, seq<Row>>, cache: Cache, buffer: map<string, BufferedInsert>) {
    && CacheAgrees(cache, tables, disk)
    && (forall t :: t in tables ==> WellNamed(tables[t]))
    && BufferAccepted(tables, disk, buffer)
    && disk.Keys <= tables.Keys
  }

  ghost predicate KeysHoldOn(tables: map<string, TableMeta>, disk: map<string, seq<Row>>) {
    forall t :: t in tables ==> KeysHold(tables[t], P.RowsAt(disk, t))
  }

  function Invalidated(cache: Cache, table: string): Cache { map k | k in cache && k.table != table :: cache[k] }

  /** New rows for a table that is not buffered, and its cache entries gone. */
  lemma {:induction false} ReplacedRows(tables: map<string, TableMeta>, disk: map<string, seq<Row>>, cache: Cache,
      buffer: map<string, BufferedInsert>, t: string, rows: seq<Row>)
    requires AgreesOn(tables, disk, cache, buffer) && KeysHoldOn(tables, disk) && t in tables && t !in buffer
    ensures AgreesOn(tables, disk[t := rows], Invalidated(cache, t), buffer)
    ensures KeysHoldOn(tables, disk[t := rows]) <==> KeysHold(tables[t], rows)
  {
    var disk', cache' := disk[t := rows], Invalidated(cache, t);
    forall u | u in tables && u != t ensures P.RowsAt(disk', u) == P.RowsAt(disk, u) {}
    assert P.RowsAt(disk', t) == rows;
    forall u | u in tables ensures TableAgrees(cache', u, tables[u], P.RowsAt(disk', u)) {
      assert TableAgrees(cache, u, tables[u], P.RowsAt(disk, u));
    }
    if KeysHold(tables[t], rows) {
      forall u | u in tables ensures KeysHold(tables[u], P.RowsAt(disk', u)) {}
    }
  }

  /** Accepted rows of a table that is not buffered, written behind the others and merged into the cache. */
  lemma {:induction false} WrittenRows(tables: map<string, TableMeta>, disk: map<string, seq<Row>>, cache: Cache,
      buffer: map<string, BufferedInsert>, t: string, rows: seq<Row>)
    requires AgreesOn(tables, disk, cache, buffer) && KeysHoldOn(tables, disk) && t in tables && t !in buffer
    requires AllAcceptable(tables[t], P.RowsAt(disk, t), rows)
    requires forall m :: m in MergesOf(t, tables[t].constraints, rows) ==> m.key in cache
    ensures var disk' := disk[t := P.RowsAt(disk, t) + rows];
      AgreesOn(tables, disk', ApplyMerges(cache, MergesOf(t, tables[t].constraints, rows)), buffer) && KeysHoldOn(tables, disk')
  {
    var disk' := disk[t := P.RowsAt(disk, t) + rows];
    WriteKeepsAgreement(cache, tables, disk, t, rows);
    AcceptedKeepsKeys(tables[t], P.RowsAt(disk, t), rows);
    forall u | u in tables && u != t ensures P.RowsAt(disk', u) == P.RowsAt(disk, u) {}
    forall u | u in tables ensures KeysHold(tables[u], P.RowsAt(disk', u)) {
      assert KeysHold(tables[u], P.RowsAt(disk, u));
    }
    forall u | u in buffer ensures Accepted(tables[u], P.RowsAt(disk', u), buffer[u]) {
      assert Accepted(tables[u], P.RowsAt(disk, u), buffer[u]);
    }
  }

  lemma {:induction false} BufferUpdate(tables: map<string, TableMeta>, disk: map<string, seq<Row>>, buffer: map<string, BufferedInsert>, t: string, entry: BufferedInsert)
    requires BufferAccepted(tables, disk, buffer)
    requires t in tables && Accepted(tables[t], P.RowsAt(disk, t), entry)
    ensures BufferAccepted(tables, disk, buffer[t := entry])
  {
  }

  function Extended(entry: BufferedInsert, batches: seq<Batch>, bytes: nat): BufferedInsert {
    BufferedInsert(entry.batches + batches, entry.rowCount + |RowsOf(batches)|, entry.approxBytes + bytes)
  }

  /** The rows that wait in the buffer for a table. */
  function PendingIn(buffer: map<string, BufferedInsert>, t: string): seq<Row> {
    if t in buffer then RowsOf(buffer[t].batches) else []
  }

  /** The rows of the non-empty buffer entries. */
  function BufferedRows(buffer: map<string, BufferedInsert>): map<string, seq<Row>> {
    map t | t in buffer && RowsOf(buffer[t].batches) != [] :: RowsOf(buffer[t].batches)
  }

  lemma {:induction false} BufferedRowsExtend(buffer: map<string, BufferedInsert>, t: string, entry: BufferedInsert)
    requires RowsOf(entry.batches) != []
    ensures BufferedRows(buffer[t := entry]) == BufferedRows(buffer)[t := RowsOf(entry.batches)]
    ensures P.RowsAt(BufferedRows(buffer), t) == if t in buffer then RowsOf(buffer[t].batches) else []
  {
  }

  lemma {:induction false} BufferedRowsRemove(buffer: map<string, BufferedInsert>, t: string)
    ensures BufferedRows(buffer - {t}) == BufferedRows(buffer) - {t}
  {
  }

  lemma {:induction false} RemoveUpdated(buffer: map<string, BufferedInsert>, t: string, entry: BufferedInsert)
    ensures buffer[t := entry] - {t} == buffer - {t}
  {
  }

  lemma {:induction false} RemoveMore(buffer: map<string, BufferedInsert>, done: set<string>, t: string)
    ensures buffer - done - {t} == buffer - (done + {t})
  {
  }

  /** The micro-steps of one accepted INSERT. */
  function InsertSteps(t: string, rows: seq<Row>, flushed: bool): seq<P.Step> {
    [P.BufferRows(t, rows), P.LogRows(t, rows)]
    + (if flushed then P.FlushSteps(t) else [])
    + [P.Acknowledge(t, rows)]
  }

  function LoggedView(s: P.State, t: string, rows: seq<Row>): P.State {
    s.(buffer := s.buffer[t := P.RowsAt(s.buffer, t) + rows], wal := s.wal[t := P.RowsAt(s.wal, t) + rows])
  }

  /** The state after an accepted INSERT. */
  function AfterInsert(s: P.State, t: string, rows: seq<Row>, flushed: bool): P.State {
    var logged := LoggedView(s, t, rows);
    if flushed then P.FlushState(logged, t) else logged
  }

  lemma {:induction false} FollowInsert(s: P.State, t: string, rows: seq<Row>, flushed: bool)
    requires s.phase == P.Idle && s.flush == P.NoFlush && t in s.tables && rows != []
    ensures P.Follow(s, InsertSteps(t, rows, flushed)) == Some(AfterInsert(s, t, rows, flushed))
  {
    var s1 := P.Next(s, P.BufferRows(t, rows));
    var s2 := P.Next(s1, P.LogRows(t, rows));
    var s3 := if flushed then P.FlushState(s2, t) else s2;
    var ack := P.Acknowledge(t, rows);
    var flush := if flushed then P.FlushSteps(t) else [];
    if flushed { P.FollowFlush(s2, t); }
    P.FollowStep(s3, ack, [], P.Next(s3, ack));
    P.FollowConcat(s2, flush, s3, [ack] + [], P.Next(s3, ack));
    P.FollowStep(s1, P.LogRows(t, rows), flush + ([ack] + []), P.Next(s3, ack));
    P.FollowStep(s, P.BufferRows(t, rows), [P.LogRows(t, rows)] + (flush + ([ack] + [])), P.Next(s3, ack));
    assert InsertSteps(t, rows, flushed)
        == [P.BufferRows(t, rows)] + ([P.LogRows(t, rows)] + (flush + ([ack] + [])));
  }

  lemma {:induction false} TakeOneMore<T>(s: seq<T>, i: nat)
    requires i < |s|
    ensures s[..i + 1] == s[..i] + [s[i]]
  {
  }

  lemma {:induction false} AcceptStep(constraints: seq<Constraint>, c: Constraint, rows: seq<Row>, unseen: seq<Row>)
    ensures (AllAcceptable(TableMeta(constraints + [c]), rows, unseen) <==>
      AllAcceptable(TableMeta(constraints), rows, unseen) && Acceptable(c, rows, unseen))
  {
    assert forall d :: d in constraints + [c] <==> d in constraints || d == c;
  }

  lemma {:induction false} FlushedRowsOf(s: P.State, ts: set<string>, buffer: map<string, BufferedInsert>, t: string)
    requires s.buffer == BufferedRows(buffer)
    ensures P.RowsAt(P.FlushedState(s, ts).disk, t) == P.RowsAt(s.disk, t) + (if t in ts then PendingIn(buffer, t) else [])
    ensures P.RowsAt(P.FlushedState(s, ts).wal, t) == (if t in ts && PendingIn(buffer, t) != [] then [] else P.RowsAt(s.wal, t))
  {
  }

  lemma {:induction false} FlushedRows(s: P.State, ts: set<string>, buffer: map<string, BufferedInsert>, after: P.State)
    requires s.buffer == BufferedRows(buffer) && after == P.FlushedState(s, ts)
    ensures forall t :: P.RowsAt(after.disk, t) == P.RowsAt(s.disk, t) + (if t in ts then PendingIn(buffer, t) else [])
    ensures forall t :: P.RowsAt(after.wal, t) == (if t in ts && PendingIn(buffer, t) != [] then [] else P.RowsAt(s.wal, t))
  {
    forall t { FlushedRowsOf(s, ts, buffer, t); }
  }

  /** A selective flush leaves no row in memory exactly if it takes every entry with rows. */
  lemma {:induction false} AllOnDiskExactly(disk0: map<string, seq<Row>>, buffer: map<string, BufferedInsert>, sqlUpper: string)
    ensures var flushed := P.TablesToFlush(buffer.Keys, sqlUpper);
      (forall t :: P.RowsAt(disk0, t) + (if t in flushed then PendingIn(buffer, t) else []) == P.RowsAt(disk0, t) + PendingIn(buffer, t))
      <==> P.FlushTakesAll(buffer.Keys, BufferedRows(buffer).Keys, sqlUpper)
  {
    var flushed, filled := P.TablesToFlush(buffer.Keys, sqlUpper), BufferedRows(buffer).Keys;
    P.TakesAllExactly(buffer.Keys, filled, sqlUpper);
    forall t
      ensures P.RowsAt(disk0, t) + (if t in flushed then PendingIn(buffer, t) else []) == P.RowsAt(disk0, t) + PendingIn(buffer, t)
        <==> t !in filled || t in flushed
    {
      assert t in filled <==> PendingIn(buffer, t) != [];
      assert |P.RowsAt(disk0, t) + PendingIn(buffer, t)| == |P.RowsAt(disk0, t)| + |PendingIn(buffer, t)|;
    }
  }

  /** The flush of one table, in the terms of the crash protocol. */
  lemma {:induction false} FlushedView(before: P.State, after: P.State, t: string, buffer: map<string, BufferedInsert>)
    requires before.buffer == BufferedRows(buffer) && after.buffer == BufferedRows(buffer - {t})
    requires after == before.(buffer := after.buffer, disk := after.disk, wal := after.wal)
    requires var pending := PendingIn(buffer, t);
      if pending == [] then after.disk == before.disk && after.wal == before.wal
      else after.disk == before.disk[t := P.RowsAt(before.disk, t) + pending] && after.wal == before.wal - {t}
    ensures after == P.FlushedOne(before, t)
  {
    BufferedRowsRemove(buffer, t);
    if t !in before.buffer { assert before.buffer - {t} == before.buffer; }
  }

  function Restricted(m: map<string, seq<Row>>, ts: set<string>): map<string, seq<Row>> { map t | t in m && t in ts :: m[t] }

  lemma {:induction false} FollowOne(s: P.State, step: P.Step)
    requires P.Enabled(s, step)
    ensures P.Follow(s, [step]) == Some(P.Next(s, step))
  {
    P.FollowStep(s, step, [], P.Next(s, step));
    assert [step] + [] == [step];
  }

  /** The steps that recover one table. */
  function ReplaySteps(s: P.State, t: string): seq<P.Step>
    requires s.phase.Recovering? && t in s.phase.todo
  {
    [P.RecoverTable(t)] + if t in s.tables && s.phase.todo[t] != [] then P.FlushSteps(t) else []
  }

  /** And the state they lead to. */
  function Replayed(s: P.State, t: string): P.State
    requires s.phase.Recovering? && t in s.phase.todo
  {
    var rows, left := s.phase.todo[t], P.Recovering(s.phase.todo - {t});
    if t in s.tables && rows != []
    then s.(disk := s.disk[t := P.RowsAt(s.disk, t) + rows], wal := s.wal - {t}, phase := left)
    else s.(phase := left)
  }

  lemma {:induction false} FollowReplay(start: P.State, steps: seq<P.Step>, s: P.State, t: string)
    requires P.Follow(start, steps) == Some(s) && P.Draining(s) && t in s.phase.todo
    ensures P.Follow(start, steps + ReplaySteps(s, t)) == Some(Replayed(s, t)) && P.Quiet(ReplaySteps(s, t))
  {
    var mid, after := P.Next(s, P.RecoverTable(t)), Replayed(s, t);
    if t in s.tables && s.phase.todo[t] != [] {
      P.FollowFlush(mid, t);
      assert mid.buffer - {t} == map[];
      P.FollowStep(s, P.RecoverTable(t), P.FlushSteps(t), after);
    } else {
      FollowOne(s, P.RecoverTable(t));
      assert ReplaySteps(s, t) == [P.RecoverTable(t)];
    }
    P.FollowConcat(start, steps, s, ReplaySteps(s, t), after);
  }

  lemma {:induction false} OneBatch(rows: seq<Row>)
    ensures RowsOf([rows]) == rows
  {
    assert [rows][..0] == [];
    assert [] + rows == rows;
  }

  /** With nothing buffered but empty entries, one entry more is all there is. */
  lemma {:induction false} OnlyOne(buffer: map<string, BufferedInsert>, t: string, entry: BufferedInsert)
    requires BufferedRows(buffer) == map[]
    ensures BufferedRows(buffer[t := entry]) == if RowsOf(entry.batches) == [] then map[] else map[t := RowsOf(entry.batches)]
  {
    assert forall u :: u in buffer ==> (u in BufferedRows(buffer) <==> RowsOf(buffer[u].batches) != []);
  }

  lemma {:induction false} NothingBuffered(buffer: map<string, BufferedInsert>, t: string)
    requires BufferedRows(buffer) == map[] && t in buffer
    ensures RowsOf(buffer[t].batches) == []
  {
    assert t !in BufferedRows(buffer);
  }

  // ── Replaying the WAL ────────────────────────────────────────

  /** How far a start-up has come with a table: it is untouched, or its WAL rows are on disk. */
  predicate ReplayingAt(ms: map<string, TableMeta>, disk0: map<string, seq<Row>>, recovered: map<string, seq<Row>>,
                        waits: bool, disk: map<string, seq<Row>>, wal: map<string, seq<Row>>, t: string) {
    if waits then
      t in recovered && t in wal && wal[t] == recovered[t] && P.RowsAt(disk, t) == P.RowsAt(disk0, t)
    else
      && P.RowsAt(disk, t) == P.RowsAt(disk0, t) + (if t in ms then P.RowsAt(recovered, t) else [])
      && (t in ms ==> P.RowsAt(wal, t) == [])
      && (t in ms && t in recovered ==> AllAcceptable(ms[t], P.RowsAt(disk0, t), recovered[t]))
  }

  ghost predicate Replaying(ms: map<string, TableMeta>, disk0: map<string, seq<Row>>, recovered: map<string, seq<Row>>,
                            todo: set<string>, disk: map<string, seq<Row>>, wal: map<string, seq<Row>>) {
    forall t :: ReplayingAt(ms, disk0, recovered, t in todo, disk, wal, t)
  }

  lemma {:induction false} ReplayingStart(ms: map<string, TableMeta>, disk: map<string, seq<Row>>, recovered: map<string, seq<Row>>)
    ensures Replaying(ms, disk, recovered, recovered.Keys, disk, recovered)
  {
  }

  lemma {:induction false} ReplayingStep(ms: map<string, TableMeta>, disk0: map<string, seq<Row>>, recovered: map<string, seq<Row>>,
      todo: set<string>, s: P.State, t: string, after: P.State)
    requires Replaying(ms, disk0, recovered, todo, s.disk, s.wal) && t in todo && s.tables == ms.Keys && t in recovered
    requires t in ms ==> AllAcceptable(ms[t], P.RowsAt(s.disk, t), recovered[t])
    requires s.phase == P.Recovering(Restricted(recovered, todo)) && after == Replayed(s, t)
    ensures Replaying(ms, disk0, recovered, todo - {t}, after.disk, after.wal)
    ensures after.phase == P.Recovering(Restricted(recovered, todo - {t}))
  {
    assert Restricted(recovered, todo) - {t} == Restricted(recovered, todo - {t});
    forall u ensures ReplayingAt(ms, disk0, recovered, u in todo - {t}, after.disk, after.wal, u) {
      assert ReplayingAt(ms, disk0, recovered, u in todo, s.disk, s.wal, u);
      ReplayedRows(s, t, u);
    }
  }

  /** A start-up that came through. */
  lemma {:induction false} ReplayingDone(ms: map<string, TableMeta>, disk0: map<string, seq<Row>>, recovered: map<string, seq<Row>>,
      todo: set<string>, disk: map<string, seq<Row>>, wal: map<string, seq<Row>>)
    requires Replaying(ms, disk0, recovered, todo, disk, wal) && todo == {}
    ensures forall t :: P.RowsAt(disk, t) == P.RowsAt(disk0, t) + (if t in ms then P.RowsAt(recovered, t) else [])
    ensures forall t :: t in ms ==> P.RowsAt(wal, t) == []
    ensures forall t :: t in recovered && t in ms ==> AllAcceptable(ms[t], P.RowsAt(disk0, t), recovered[t])
  {
    forall t
      ensures P.RowsAt(disk, t) == P.RowsAt(disk0, t) + (if t in ms then P.RowsAt(recovered, t) else [])
      ensures t in ms ==> P.RowsAt(wal, t) == []
      ensures t in recovered && t in ms ==> AllAcceptable(ms[t], P.RowsAt(disk0, t), recovered[t])
    {
      assert ReplayingAt(ms, disk0, recovered, t in todo, disk, wal, t);
    }
  }

  lemma {:induction false} ReplayedRows(s: P.State, t: string, u: string)
    requires s.phase.Recovering? && t in s.phase.todo
    ensures var after := Replayed(s, t);
      && P.RowsAt(after.disk, u) == P.RowsAt(s.disk, u) + (if u == t && t in s.tables then s.phase.todo[t] else [])
      && (u != t ==> P.RowsAt(after.wal, u) == P.RowsAt(s.wal, u) && (u in s.wal ==> u in after.wal))
      && (u == t && t in s.tables && s.phase.todo[t] != [] ==> P.RowsAt(after.wal, u) == [])
      && (u == t && (t !in s.tables || s.phase.todo[t] == []) ==> after.wal == s.wal)
  {
    assert P.RowsAt(s.disk, u) + [] == P.RowsAt(s.disk, u);
  }

  class Engine {
    var tables: map<string, TableMeta>
    var disk: map<string, seq<Row>>
    var wal: map<string, seq<Row>>
    var writeBuffer: map<string, BufferedInsert>
    var cache: Cache
    const rowThreshold: nat
    const byteThreshold: nat

    ghost function Pending(t: string): seq<Row>
      reads this
    {
      PendingIn(writeBuffer, t)
    }

    /** Cache and buffer fit the rows on disk. */
    ghost predicate Agrees()
      reads this
    {
      AgreesOn(tables, disk, cache, writeBuffer)
    }

    /** And the keys of every table are in order. */
    ghost predicate Valid()
      reads this
    {
      Agrees() && KeysHoldOn(tables, disk)
    }

    /**
     In every state that the methods below leave behind, the rows of a table on disk and in the buffer
     together have no key twice, and no NULL in a primary key.
     */
    lemma {:induction false} AllKeysHold(t: string)
      requires Valid() && t in tables
      ensures KeysHold(tables[t], P.RowsAt(disk, t) + Pending(t))
    {
      if t in writeBuffer {
        assert Accepted(tables[t], P.RowsAt(disk, t), writeBuffer[t]);
        AcceptedKeepsKeys(tables[t], P.RowsAt(disk, t), Pending(t));
      } else {
        assert P.RowsAt(disk, t) + [] == P.RowsAt(disk, t);
      }
    }

    ghost function Entry(t: string): BufferedInsert
      reads this
    {
      if t in writeBuffer then writeBuffer[t] else BufferedInsert([], 0, 0)
    }

    predicate Full(entry: BufferedInsert) {
      entry.rowCount >= rowThreshold || entry.approxBytes >= byteThreshold
    }

    /** The engine between two statements, as the crash protocol sees it. */
    ghost function View(): P.State
      reads this
    {
      P.State(tables.Keys, disk, wal, BufferedRows(writeBuffer), P.Idle, P.NoFlush)
    }

    constructor (rowThreshold: nat, byteThreshold: nat)
      ensures Valid() && tables == map[] && writeBuffer == map[] && disk == map[] && wal == map[]
      ensures this.rowThreshold == rowThreshold && this.byteThreshold == byteThreshold
    {
      tables, disk, wal, writeBuffer, cache := map[], map[], map[], map[], map[];
      this.rowThreshold, this.byteThreshold := rowThreshold, byteThreshold;
    }

    // ── Uniqueness cache ───────────────────────────────────────

    method EnsureUniquenessLoaded(key: CacheKey, table: string, columns: seq<nat>, skipNullRows: bool)
      modifies this`cache
      ensures cache == if key in old(cache) then old(cache) else old(cache)[key := KeySet(P.RowsAt(disk, table), columns, skipNullRows)]
    {
      if key in cache {
        return;
      }
      var rows := P.RowsAt(disk, table);
      var loaded: set<string> := {};
      for row := 0 to |rows|
        invariant cache == old(cache)
        invariant loaded == KeySet(rows[..row], columns, skipNullRows)
      {
        assert rows[..row + 1] == rows[..row] + [rows[row]];
        var tuple := Literals(Project(rows[row], columns));
        NullTest(Project(rows[row], columns));
        NullKeyProjects(rows[row], columns);
        KeySetStep(rows[..row], rows[row], columns, skipNullRows);
        if !(skipNullRows && "NULL" in tuple) {
          loaded := loaded + {Join(tuple)};
        }
      }
      assert rows[..|rows|] == rows;
      cache := cache[key := loaded];
    }

    method MergeUniquenessKeys(m: Merge)
      modifies this`cache
      ensures cache == ApplyMerge(old(cache), m)
    {
      var keys := Lookup(cache, m.key);
      for i := 0 to |m.tuples|
        invariant cache == old(cache)
        invariant keys == Lookup(old(cache), m.key) + Joined(m.tuples[..i])
      {
        assert m.tuples[..i + 1] == m.tuples[..i] + [m.tuples[i]];
        keys := keys + {Join(m.tuples[i])};
      }
      assert m.tuples[..|m.tuples|] == m.tuples;
      cache := cache[m.key := keys];
    }

    method CheckAgainstTableCached(table: string, c: Constraint, tuples: seq<seq<string>>) returns (ok: bool)
      requires table in tables && c in tables[table].constraints && WellNamed(tables[table])
      requires CacheAgrees(cache, tables, disk)
      modifies this`cache
      ensures CacheAgrees(cache, tables, disk)
      ensures cache.Keys == old(cache).Keys + {CacheKeyOf(table, c)}
      ensures ok <==> Joined(tuples) !! CachedSet(c, P.RowsAt(disk, table))
    {
      var key := CacheKeyOf(table, c);
      EnsureUniquenessLoaded(key, table, c.columns, c.Unique?);
      LoadKeepsAgreement(old(cache), tables, disk, table, c, cache);
      ok := true;
      for i := 0 to |tuples|
        invariant ok
        invariant Joined(tuples[..i]) !! cache[key]
      {
        if Join(tuples[i]) in cache[key] {
          assert Join(tuples[i]) in Joined(tuples) * cache[key];
          return false;
        }
        assert tuples[..i + 1] == tuples[..i] + [tuples[i]];
      }
      assert tuples[..|tuples|] == tuples;
    }

    // ── Validation ─────────────────────────────────────────────

    method ValidateConstraint(table: string, c: Constraint, batches: seq<Batch>) returns (r: Result<seq<Merge>>)
      requires table in tables && c in tables[table].constraints && WellNamed(tables[table])
      requires CacheAgrees(cache, tables, disk)
      modifies this`cache
      ensures CacheAgrees(cache, tables, disk) && old(cache).Keys <= cache.Keys
      ensures r.Ok? <==> Acceptable(c, P.RowsAt(disk, table), RowsOf(batches))
      ensures r.Ok? ==> forall m :: m in r.value ==> m.key in cache
      ensures r.Ok? ==> var tuples := Tuples(RowsOf(batches), c.columns);
        r.value == if tuples == [] then [] else [Merge(CacheKeyOf(table, c), tuples)]
    {
      var collected := CollectTuples(c, batches);
      if collected.Err? {
        return Err(collected.error);
      }
      var tuples := collected.value;
      LookupIsClashTest(c, P.RowsAt(disk, table), RowsOf(batches));
      if tuples == [] {
        return Ok([]);
      }
      var unseen := CheckAgainstTableCached(table, c, tuples);
      if !unseen {
        return Err(if c.PrimaryKey? then "PRIMARY KEY violation" else "UNIQUE constraint violation");
      }
      return Ok([Merge(CacheKeyOf(table, c), tuples)]);
    }

    method ValidateConstraintsBatch(table: string, batches: seq<Batch>) returns (r: Result<seq<Merge>>)
      requires CacheAgrees(cache, tables, disk) && (table in tables ==> WellNamed(tables[table]))
      modifies this`cache
      ensures CacheAgrees(cache, tables, disk)
      ensures r.Ok? <==> (table in tables ==> AllAcceptable(tables[table], P.RowsAt(disk, table), RowsOf(batches)))
      ensures r.Ok? ==> forall m :: m in r.value ==> m.key in cache
      ensures r.Ok? && table in tables ==> r.value == MergesOf(table, tables[table].constraints, RowsOf(batches))
    {
      if table !in tables {
        return Ok([]);
      }
      var constraints := tables[table].constraints;
      if batches == [] {
        NothingToMerge(table, constraints);
        return Ok([]);
      }
      var merges: seq<Merge> := [];
      for i := 0 to |constraints|
        invariant CacheAgrees(cache, tables, disk)
        invariant forall m :: m in merges ==> m.key in cache
        invariant merges == MergesOf(table, constraints[..i], RowsOf(batches))
        invariant AllAcceptable(TableMeta(constraints[..i]), P.RowsAt(disk, table), RowsOf(batches))
      {
        var one := ValidateConstraint(table, constraints[i], batches);
        if one.Err? {
          assert constraints[i] in tables[table].constraints;
          return Err(one.error);
        }
        TakeOneMore(constraints, i);
        MergesStep(table, constraints[..i], constraints[i], RowsOf(batches));
        AcceptStep(constraints[..i], constraints[i], P.RowsAt(disk, table), RowsOf(batches));
        merges := merges + one.value;
      }
      assert constraints[..|constraints|] == constraints;
      return Ok(merges);
    }

    // ── Flush and insert ───────────────────────────────────────

    /** Writes the buffered rows of a table; validation cannot fail, because the rows were accepted. */
    method FlushTable(table: string) returns (r: Result<nat>)
      requires Valid()
      modifies this
      ensures Valid() && tables == old(tables)
      ensures r == Ok(|old(Pending(table))|)
      ensures writeBuffer == old(writeBuffer) - {table}
      ensures old(Pending(table)) == [] ==> disk == old(disk) && wal == old(wal)
      ensures old(Pending(table)) != [] ==>
        && disk == old(disk)[table := P.RowsAt(old(disk), table) + old(Pending(table))]
        && wal == old(wal) - {table}
    {
      if table !in writeBuffer {
        assert writeBuffer - {table} == writeBuffer;
        return Ok(0);
      }
      var buffered := writeBuffer[table];
      writeBuffer := writeBuffer - {table};
      if buffered.rowCount == 0 || buffered.batches == [] {
        return Ok(0);
      }
      var merges := ValidateConstraintsBatch(table, buffered.batches);
      if merges.Err? {
        assert false;  // accepted rows pass the second validation too
      }
      var rows := RowsOf(buffered.batches);
      WrittenRows(tables, disk, cache, writeBuffer, table, rows);
      disk := disk[table := P.RowsAt(disk, table) + rows];
      ApplyAll(merges.value);
      wal := wal - {table};
      return Ok(buffered.rowCount);
    }

    /** Extends the buffer entry and validates it; a rejected insert leaves it as it was, or one without rows if there was none. */
    method StageBatches(table: string, batches: seq<Batch>, incomingBytes: nat) returns (r: Result<()>)
      requires Valid() && table in tables
      modifies this`writeBuffer, this`cache
      ensures Valid()
      ensures r.Ok? <==> AllAcceptable(tables[table], P.RowsAt(disk, table), old(Pending(table)) + RowsOf(batches))
      ensures r.Ok? ==> writeBuffer == old(writeBuffer)[table := Extended(old(Entry(table)), batches, incomingBytes)]
      ensures r.Ok? ==> writeBuffer[table].approxBytes == old(Entry(table)).approxBytes + incomingBytes
      ensures r.Err? ==> writeBuffer == old(writeBuffer)[table := old(Entry(table))]
    {
      var before := if table in writeBuffer then writeBuffer[table] else BufferedInsert([], 0, 0);
      assert before == old(Entry(table)) && Accepted(tables[table], P.RowsAt(disk, table), before);
      var entry := Extended(before, batches, incomingBytes);
      RowsOfConcat(before.batches, batches);
      var checked := ValidateConstraintsBatch(table, entry.batches);
      if checked.Err? {
        var restored := BufferedInsert(entry.batches[..|before.batches|], before.rowCount, before.approxBytes);
        assert restored == before;
        BufferUpdate(tables, disk, writeBuffer, table, restored);
        writeBuffer := writeBuffer[table := restored];
        r := Err(checked.error);
      } else {
        BufferUpdate(tables, disk, writeBuffer, table, entry);
        writeBuffer := writeBuffer[table := entry];
        r := Ok(());
      }
    }

    method BufferInsertBatches(table: string, batches: seq<Batch>, incomingBytes: nat, timeElapsed: bool)
        returns (r: Result<Inserted>)
      requires Valid() && table in tables
      modifies this
      ensures Valid() && tables == old(tables)
      ensures KeysHold(tables[table], P.RowsAt(disk, table) + Pending(table))
      ensures RowsOf(batches) == [] ==>
        r == Ok(Inserted(0, false)) && disk == old(disk) && wal == old(wal) && writeBuffer == old(writeBuffer)
      ensures RowsOf(batches) != [] ==>
        (r.Ok? <==> AllAcceptable(tables[table], P.RowsAt(old(disk), table), old(Pending(table)) + RowsOf(batches)))
      ensures r.Err? ==>
        disk == old(disk) && wal == old(wal) && writeBuffer == old(writeBuffer)[table := old(Entry(table))]
      ensures r.Ok? && RowsOf(batches) != [] ==>
        var entry := Extended(old(Entry(table)), batches, incomingBytes);
        && r.value == Inserted(|RowsOf(batches)|, Full(entry) || timeElapsed)
        && writeBuffer == (if r.value.flushed then old(writeBuffer) - {table} else old(writeBuffer)[table := entry])
        && View() == AfterInsert(old(View()), table, RowsOf(batches), r.value.flushed)
        && P.Follow(old(View()), InsertSteps(table, RowsOf(batches), r.value.flushed)) == Some(View())
      ensures r.Ok? && RowsOf(batches) != [] ==>
        (r.value.flushed <==>
          || old(Entry(table)).rowCount + |RowsOf(batches)| >= rowThreshold
          || old(Entry(table)).approxBytes + incomingBytes >= byteThreshold || timeElapsed)
    {
      ghost var start := View();
      var rows := RowsOf(batches);
      if |rows| == 0 {
        AllKeysHold(table);
        return Ok(Inserted(0, false));
      }
      var staged := StageBatches(table, batches, incomingBytes);
      if staged.Err? {
        AllKeysHold(table);
        return Err(staged.error);
      }
      RowsOfConcat(old(Entry(table)).batches, batches);
      BufferedRowsExtend(old(writeBuffer), table, writeBuffer[table]);
      var flushed := LogAndFlush(table, rows, timeElapsed);
      FollowInsert(start, table, rows, flushed);
      RemoveUpdated(old(writeBuffer), table, Extended(old(Entry(table)), batches, incomingBytes));
      AllKeysHold(table);
      return Ok(Inserted(|rows|, flushed));
    }

    /** The second half of an accepted insert: the WAL append and, at a threshold, the flush. */
    method LogAndFlush(table: string, rows: seq<Row>, timeElapsed: bool) returns (flushed: bool)
      requires Valid() && table in writeBuffer && Pending(table) != []
      modifies this
      ensures Valid() && tables == old(tables)
      ensures flushed <==> Full(old(writeBuffer)[table]) || timeElapsed
      ensures writeBuffer == if flushed then old(writeBuffer) - {table} else old(writeBuffer)
      ensures var logged := old(View()).(wal := old(wal)[table := P.RowsAt(old(wal), table) + rows]);
        View() == if flushed then P.FlushState(logged, table) else logged
    {
      wal := wal[table := P.RowsAt(wal, table) + rows];
      var entry := writeBuffer[table];
      flushed := entry.rowCount >= rowThreshold || entry.approxBytes >= byteThreshold || timeElapsed;
      if flushed {
        BufferedRowsRemove(writeBuffer, table);
        var _ := FlushTable(table);
      }
    }

    /**
     Flushes before a statement: the buffered tables that its text mentions, or all if it mentions
     none. Their rows reach the disk behind the older ones and their WAL goes; nothing else changes.
     */
    method FlushBufferedForSql(sqlUpper: string) returns (ghost steps: seq<P.Step>)
      requires Valid()
      modifies this
      ensures Valid() && tables == old(tables)
      ensures var flushed := P.TablesToFlush(old(writeBuffer).Keys, sqlUpper);
        && writeBuffer == old(writeBuffer) - flushed
        && (forall t :: P.RowsAt(disk, t) == P.RowsAt(old(disk), t) + (if t in flushed then PendingIn(old(writeBuffer), t) else []))
        && (forall t :: P.RowsAt(wal, t) == (if t in flushed && PendingIn(old(writeBuffer), t) != [] then [] else P.RowsAt(old(wal), t)))
        && View() == P.FlushedState(old(View()), flushed)
      ensures P.Follow(old(View()), steps) == Some(View()) && P.Quiet(steps)
    {
      ghost var start := View();
      var todo := P.TablesToFlush(writeBuffer.Keys, sqlUpper);
      FlushListed(todo);
      steps := P.FollowFlushesOf(start, todo);
      FlushedRows(start, todo, old(writeBuffer), View());
    }

    method FlushListed(listed: set<string>)
      requires Valid()
      modifies this
      ensures Valid() && tables == old(tables) && writeBuffer == old(writeBuffer) - listed
      ensures View() == P.FlushedState(old(View()), listed)
    {
      var todo := listed;
      ghost var start := View();
      ghost var done: set<string> := {};
      P.FlushedNone(start);
      assert writeBuffer - {} == writeBuffer;
      while todo != {}
        invariant Valid() && tables == old(tables)
        invariant todo !! done && todo + done == listed
        invariant writeBuffer == old(writeBuffer) - done
        invariant View() == P.FlushedState(start, done)
        decreases todo
      {
        var t :| t in todo;
        ghost var before, buffer := View(), writeBuffer;
        var _ := FlushTable(t);
        RemoveMore(old(writeBuffer), done, t);
        FlushedView(before, View(), t, buffer);
        P.FlushedMore(start, done, t);
        done := done + {t};
        todo := todo - {t};
      }
      assert done == listed;
    }

    /**
     `CHECKPOINT`: the flush before the statement, then the removal of all WAL files. No row is left
     without WAL and disk if and only if the text mentions none of the buffer entries -- those that a
     rejected INSERT left empty among them -- or all that have rows.
     */
    method Checkpoint() returns (ghost steps: seq<P.Step>)
      requires Valid()
      modifies this
      ensures Valid() && tables == old(tables)
      ensures var flushed := P.TablesToFlush(old(writeBuffer).Keys, P.CHECKPOINT_TEXT);
        && writeBuffer == old(writeBuffer) - flushed
        && (forall t :: P.RowsAt(disk, t) == P.RowsAt(old(disk), t) + (if t in flushed then PendingIn(old(writeBuffer), t) else []))
        && View() == P.FlushedState(old(View()), flushed).(wal := map[])
      ensures P.Follow(old(View()), steps) == Some(View())
      ensures (forall t :: P.RowsAt(disk, t) == P.RowsAt(old(disk), t) + PendingIn(old(writeBuffer), t)) <==>
        P.FlushTakesAll(old(writeBuffer).Keys, BufferedRows(old(writeBuffer)).Keys, P.CHECKPOINT_TEXT)
    {
      ghost var start := View();
      AllOnDiskExactly(disk, writeBuffer, P.CHECKPOINT_TEXT);
      steps := FlushBufferedForSql(P.CHECKPOINT_TEXT);
      ghost var mid := View();
      wal := map[];
      P.FollowStep(mid, P.CheckpointAll, [], View());
      P.FollowConcat(start, steps, mid, [P.CheckpointAll] + [], View());
      steps := steps + ([P.CheckpointAll] + []);
    }

    // ── Start-up ───────────────────────────────────────────────

    /** Rows recovered for one table: buffered without logging them again, then flushed. */
    method ReplayTable(table: string, rows: seq<Row>, incomingBytes: nat, timeElapsed: bool) returns (r: Result<()>)
      requires Valid() && table in tables && BufferedRows(writeBuffer) == map[]
      modifies this
      ensures Valid() && tables == old(tables) && BufferedRows(writeBuffer) == map[]
      ensures r.Ok? <==> AllAcceptable(tables[table], P.RowsAt(old(disk), table), rows)
      ensures r.Err? || rows == [] ==> disk == old(disk) && wal == old(wal)
      ensures r.Ok? && rows != [] ==>
        disk == old(disk)[table := P.RowsAt(old(disk), table) + rows] && wal == old(wal) - {table}
    {
      if rows == [] {
        return Ok(());
      }
      r := StageRecovered(table, rows, incomingBytes);
      if r.Err? {
        return r;
      }
      RemoveUpdated(old(writeBuffer), table, writeBuffer[table]);
      BufferedRowsRemove(old(writeBuffer), table);
      FlushRecovered(table, timeElapsed);
    }

    /** A flush at a threshold, and the one that follows in any case. */
    method FlushRecovered(table: string, timeElapsed: bool)
      requires Valid() && table in writeBuffer && Pending(table) != []
      modifies this
      ensures Valid() && tables == old(tables) && writeBuffer == old(writeBuffer) - {table}
      ensures disk == old(disk)[table := P.RowsAt(old(disk), table) + PendingIn(old(writeBuffer), table)]
      ensures wal == old(wal) - {table}
    {
      if writeBuffer[table].rowCount >= rowThreshold || writeBuffer[table].approxBytes >= byteThreshold || timeElapsed {
        var _ := FlushTable(table);
        assert writeBuffer - {table} == writeBuffer;
      }
      var _ := FlushTable(table);
    }

    method StageRecovered(table: string, rows: seq<Row>, incomingBytes: nat) returns (r: Result<()>)
      requires Valid() && table in tables && BufferedRows(writeBuffer) == map[]
      modifies this`writeBuffer, this`cache
      ensures Valid()
      ensures r.Ok? <==> AllAcceptable(tables[table], P.RowsAt(disk, table), rows)
      ensures r.Ok? ==> table in writeBuffer && writeBuffer == old(writeBuffer)[table := writeBuffer[table]] && Pending(table) == rows
      ensures r.Err? ==> BufferedRows(writeBuffer) == map[]
    {
      ghost var before := Entry(table);
      OneBatch(rows);
      if table in writeBuffer { NothingBuffered(writeBuffer, table); }
      assert RowsOf(before.batches) == [];
      assert [] + rows == rows;
      r := StageBatches(table, [rows], incomingBytes);
      if r.Ok? {
        RowsOfConcat(before.batches, [rows]);
      } else {
        OnlyOne(old(writeBuffer), table, before);
      }
    }

    /** One table of the recovered map; a table that the catalog does not have is skipped. */
    method ReplayNext(t: string, recovered: map<string, seq<Row>>, ghost todo: set<string>, ghost now: P.State,
                      ghost disk0: map<string, seq<Row>>, incomingBytes: nat, timeElapsed: bool) returns (r: Result<()>)
      requires Valid() && BufferedRows(writeBuffer) == map[] && t in todo && t in recovered
      requires Replaying(tables, disk0, recovered, todo, disk, wal)
      requires now == View().(phase := P.Recovering(Restricted(recovered, todo)))
      modifies this
      ensures Valid() && tables == old(tables) && BufferedRows(writeBuffer) == map[]
      ensures r.Ok? ==> Replaying(tables, disk0, recovered, todo - {t}, disk, wal)
      ensures r.Ok? ==> t in now.phase.todo && Replayed(now, t) == View().(phase := P.Recovering(Restricted(recovered, todo - {t})))
      ensures r.Err? ==> t in tables && t in wal && wal[t] == recovered[t] && P.RowsAt(disk, t) == P.RowsAt(disk0, t)
      ensures r.Err? ==> !AllAcceptable(tables[t], P.RowsAt(disk, t), recovered[t])
    {
      assert ReplayingAt(tables, disk0, recovered, true, disk, wal, t);
      r := Ok(());
      if t in tables {
        r := ReplayTable(t, recovered[t], incomingBytes, timeElapsed);
      }
      if r.Ok? {
        ReplayingStep(tables, disk0, recovered, todo, now, t, Replayed(now, t));
      }
    }

    /**
     Start-up of a process that finds rows in the WAL. It comes up if and only if validation accepts
     the WAL rows of each table on top of those on disk; then they are on disk too, behind the others,
     by the steps of the crash protocol. If it does not come up, the next start-up will not either.
     */
    method ReplayWal(incomingBytes: nat, timeElapsed: bool) returns (r: Result<()>, ghost steps: seq<P.Step>)
      requires Valid() && writeBuffer == map[]
      modifies this
      ensures Valid() && tables == old(tables)
      ensures (r.Ok? <==>
        forall t :: t in old(wal) && t in tables ==> AllAcceptable(tables[t], P.RowsAt(old(disk), t), old(wal)[t]))
      ensures r.Ok? ==> forall t ::
        P.RowsAt(disk, t) == P.RowsAt(old(disk), t) + (if t in tables then P.RowsAt(old(wal), t) else [])
      ensures r.Ok? ==> forall t :: t in tables ==> P.RowsAt(wal, t) == []
      ensures r.Ok? ==> P.Follow(old(View()).(phase := P.Down), steps) == Some(View()) && P.Quiet(steps)
      ensures r.Err? ==> exists t :: t in tables && t in wal && !AllAcceptable(tables[t], P.RowsAt(disk, t), wal[t])
    {
      var recovered := wal;
      var todo := recovered.Keys;
      ghost var start := View().(phase := P.Down);
      ghost var now := start.(phase := P.Recovering(recovered));
      steps := [P.Reopen];
      FollowOne(start, P.Reopen);
      ReplayingStart(tables, disk, recovered);
      assert Restricted(recovered, todo) == recovered;
      while todo != {}
        invariant Valid() && tables == old(tables) && BufferedRows(writeBuffer) == map[]
        invariant Replaying(tables, old(disk), recovered, todo, disk, wal)
        invariant now == View().(phase := P.Recovering(Restricted(recovered, todo)))
        invariant P.Follow(start, steps) == Some(now) && P.Quiet(steps)
        decreases todo
      {
        var t :| t in todo;
        assert ReplayingAt(tables, old(disk), recovered, true, disk, wal, t);
        FollowReplay(start, steps, now, t);
        var replayed := ReplayNext(t, recovered, todo, now, old(disk), incomingBytes, timeElapsed);
        if replayed.Err? {
          return Err(replayed.error), steps;
        }
        steps := steps + ReplaySteps(now, t);
        now := Replayed(now, t);
        todo := todo - {t};
      }
      assert now.phase.todo == map[];
      FollowOne(now, P.FinishRecovery);
      P.FollowConcat(start, steps, now, [P.FinishRecovery], View());
      steps := steps + [P.FinishRecovery];
      ReplayingDone(tables, old(disk), recovered, todo, disk, wal);
      r := Ok(());
    }

    // ── Statements that replace or remove a table's rows ───────

    method InvalidateCache(table: string)
      modifies this`cache
      ensures cache == Invalidated(old(cache), table)
    {
      cache := map k | k in cache && k.table != table :: cache[k];
    }

    /**
     The copy-on-write rewrite behind DELETE and UPDATE; the table was flushed before the statement.
     The keys of the table are in order afterwards if and only if those of the new rows are.
     */
    method RewriteTable(table: string, rows: seq<Row>) returns (r: Result<()>)
      requires Valid() && table !in writeBuffer
      modifies this`disk, this`cache
      ensures Agrees()
      ensures r.Ok? <==> table in tables
      ensures r.Ok? ==> (Valid() <==> KeysHold(tables[table], rows))
      ensures r.Err? ==> Valid()
      ensures disk == if r.Ok? then old(disk)[table := rows] else old(disk)
    {
      if table !in tables {
        return Err("Table does not exist");
      }
      ReplacedRows(tables, disk, cache, writeBuffer, table, rows);
      InvalidateCache(table);
      disk := disk[table := rows];
      return Ok(());
    }

    method TruncateTable(table: string) returns (r: Result<()>)
      requires Valid() && table !in writeBuffer
      modifies this`disk, this`cache
      ensures Valid()
      ensures r.Ok? <==> table in tables
      ensures disk == if r.Ok? then old(disk)[table := []] else old(disk)
    {
      if table !in tables {
        return Err("Table does not exist");
      }
      ReplacedRows(tables, disk, cache, writeBuffer, table, []);
      disk := disk[table := []];
      InvalidateCache(table);
      return Ok(());
    }

    method DropTable(table: string) returns (r: Result<()>)
      requires Valid() && table !in writeBuffer
      modifies this`tables, this`disk, this`cache
      ensures Valid()
      ensures r.Ok? <==> table in old(tables)
      ensures tables == old(tables) - {table}
      ensures disk == if r.Ok? then old(disk) - {table} else old(disk)
    {
      if table !in tables {
        assert tables - {table} == tables;
        return Err("Table does not exist");
      }
      tables := tables - {table};
      InvalidateCache(table);
      disk := disk - {table};
      return Ok(());
    }

    method CreateTable(table: string, meta: TableMeta) returns (r: Result<()>)
      requires Valid() && WellNamed(meta)
      modifies this`tables
      ensures Valid()
      ensures r.Ok? <==> table !in old(tables)
      ensures tables == if r.Ok? then old(tables)[table := meta] else old(tables)
    {
      if table in tables {
        return Err("Table already exists");
      }
      tables := tables[table := meta];
      assert P.RowsAt(disk, table) == [];
      return Ok(());
    }

    method ApplyAll(merges: seq<Merge>)
      modifies this`cache
      ensures cache == ApplyMerges(old(cache), merges)
    {
      for i := 0 to |merges|
        invariant cache == ApplyMerges(old(cache), merges[..i])
      {
        assert merges[..i + 1][..i] == merges[..i];
        MergeUniquenessKeys(merges[i]);
      }
      assert merges[..|merges|] == merges;
    }
  }

  /** Two tables, of which `t` has a primary key, in an engine that flushes above `rows` buffered rows. */
  method TwoTables(u: string, t: string, rows: nat) returns (e: Engine)
    requires t != u
    ensures fresh(e) && e.Valid() && e.writeBuffer == map[] && e.disk == map[]
    ensures e.tables == map[u := TableMeta([]), t := TableMeta([PrimaryKey([0])])]
    ensures e.rowThreshold == rows + 1 && e.byteThreshold == 1
  {
    e := new Engine(rows + 1, 1);
    var _ := e.CreateTable(u, TableMeta([]));
    var _ := e.CreateTable(t, TableMeta([PrimaryKey([0])]));
  }

  /** An INSERT that is answered; a table without constraints accepts any rows. */
  method Answer(e: Engine, u: string, rows: seq<Row>) returns (answered: Result<Inserted>)
    requires e.Valid() && e.writeBuffer == map[] && u in e.tables && e.tables[u].constraints == [] && rows != []
    requires e.rowThreshold > |rows| && e.byteThreshold > 0
    modifies e
    ensures e.Valid() && e.tables == old(e.tables) && e.disk == old(e.disk)
    ensures e.writeBuffer.Keys == {u} && e.Pending(u) == rows && answered == Ok(Inserted(|rows|, false))
  {
    OneBatch(rows);
    ghost var before, entry := e.View(), Extended(e.Entry(u), [rows], 0);
    assert entry.batches == [rows] && entry.rowCount == |rows| && !e.Full(entry);
    AnyRowsFit(e.tables[u], P.RowsAt(e.disk, u), e.Pending(u) + RowsOf([rows]));
    answered := e.BufferInsertBatches(u, [rows], 0, false);
    assert e.View() == AfterInsert(before, u, rows, false);
    assert AfterInsert(before, u, rows, false).disk == before.disk;
  }

  lemma {:induction false} AnyRowsFit(meta: TableMeta, disk: seq<Row>, rows: seq<Row>)
    requires meta.constraints == []
    ensures AllAcceptable(meta, disk, rows)
  {
  }

  /** An INSERT of a NULL key, which is rejected and leaves an entry behind. */
  method Reject(e: Engine, t: string) returns (rejected: Result<Inserted>)
    requires e.Valid() && t in e.tables && e.tables[t].constraints == [PrimaryKey([0])] && t !in e.writeBuffer
    modifies e
    ensures e.Valid() && e.disk == old(e.disk)
    ensures e.writeBuffer.Keys == old(e.writeBuffer).Keys + {t} && rejected.Err?
  {
    var keyless: Row := [Null];
    OneBatch([keyless]);
    assert Project(keyless, [0])[0] == Null;
    NullKeyRejected(keyless, [0]);
    assert [] + [keyless] == [keyless];
    assert e.tables[t].constraints[0] in e.tables[t].constraints;
    rejected := e.BufferInsertBatches(t, [[keyless]], 0, false);
  }

  /** A CHECKPOINT that flushes an entry without rows and passes over the other. */
  method CheckpointPassesOver(e: Engine, t: string, u: string)
    requires e.Valid() && e.writeBuffer.Keys == {t, u}
    requires P.Mentions(P.CHECKPOINT_TEXT, t) && !P.Mentions(P.CHECKPOINT_TEXT, u)
    modifies e
    ensures P.RowsAt(e.disk, u) == P.RowsAt(old(e.disk), u) && e.wal == map[]
  {
    ghost var mentioned := set x | x in e.writeBuffer.Keys && P.Mentions(P.CHECKPOINT_TEXT, x);
    assert t in mentioned && u !in mentioned;
    var _ := e.Checkpoint();
  }

  /**
   INSERT into `orders`, answered; INSERT of a NULL key into `t`, rejected; CHECKPOINT: the rows of
   `orders` are neither on disk nor in the WAL.
   */
  method RejectedInsertThenCheckpoint(orders: seq<Row>) returns (e: Engine, answered: Result<Inserted>, rejected: Result<Inserted>)
    requires orders != []
    ensures answered == Ok(Inserted(|orders|, false)) && rejected.Err?
    ensures P.RowsAt(e.disk, P.TABLE_ORDERS) == [] && e.wal == map[]
  {
    P.TableNames();
    e := TwoTables(P.TABLE_ORDERS, P.TABLE_T, |orders|);
    answered := Answer(e, P.TABLE_ORDERS, orders);
    rejected := Reject(e, P.TABLE_T);
    CheckpointPassesOver(e, P.TABLE_T, P.TABLE_ORDERS);
  }

  lemma {:induction false} NullKeyRejected(row: Row, columns: seq<nat>)
    requires NullKey(row, columns)
    ensures forall disk :: !Acceptable(PrimaryKey(columns), disk, [row])
  {
    assert [row][0] == row;
  }

  lemma {:induction false} MergesStep(t: string, cs: seq<Constraint>, c: Constraint, rows: seq<Row>)
    ensures MergesOf(t, cs + [c], rows)
         == MergesOf(t, cs, rows) + (if Tuples(rows, c.columns) == [] then [] else [Merge(CacheKeyOf(t, c), Tuples(rows, c.columns))])
  {
    assert (cs + [c])[..|cs|] == cs;
  }

  lemma {:induction false} LoadKeepsAgreement(cache: Cache, tables: map<string, TableMeta>, disk: map<string, seq<Row>>, t: string, c: Constraint, cache': Cache)
    requires CacheAgrees(cache, tables, disk) && t in tables && c in tables[t].constraints && WellNamed(tables[t])
    requires cache' == if CacheKeyOf(t, c) in cache then cache else cache[CacheKeyOf(t, c) := CachedSet(c, P.RowsAt(disk, t))]
    ensures CacheAgrees(cache', tables, disk)
    ensures CacheKeyOf(t, c) in cache' && cache'[CacheKeyOf(t, c)] == CachedSet(c, P.RowsAt(disk, t))
  {
    assert TableAgrees(cache, t, tables[t], P.RowsAt(disk, t));
    forall u | u in tables ensures TableAgrees(cache', u, tables[u], P.RowsAt(disk, u)) {
      assert TableAgrees(cache, u, tables[u], P.RowsAt(disk, u));
      forall d | d in tables[u].constraints && CacheKeyOf(u, d) in cache'
        ensures cache'[CacheKeyOf(u, d)] == CachedSet(d, P.RowsAt(disk, u))
      {
        if CacheKeyOf(u, d) == CacheKeyOf(t, c) {
          assert CacheKeyOf("", c) == CacheKeyOf("", d);
        }
      }
    }
  }

  lemma {:induction false} NothingToMerge(t: string, cs: seq<Constraint>)
    ensures MergesOf(t, cs, []) == []
  {
    if cs != [] { NothingToMerge(t, cs[..|cs| - 1]); }
  }
}
