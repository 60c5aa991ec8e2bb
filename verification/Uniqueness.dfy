/**
 PRIMARY KEY and UNIQUE validation of buffered inserts. `Acceptable` says on values what the
 constraints demand; the engine works on key strings and on a cache of them.
 */
module Uniqueness {
  import opened Values
  import opened KeyEncoding

  datatype Constraint =
    | PrimaryKey(columns: seq<nat>)
    | Unique(name: string, columns: seq<nat>)

  datatype TableMeta = TableMeta(constraints: seq<Constraint>)

  /** `pk␟table␟columns` and `uq␟table␟name`, for names without the separator. */
  datatype CacheKey =
    | PkKey(table: string, columns: seq<nat>)
    | UniqueKey(table: string, name: string)

  function CacheKeyOf(table: string, c: Constraint): CacheKey {
    match c
    case PrimaryKey(columns) => PkKey(table, columns)
    case Unique(name, _) => UniqueKey(table, name)
  }

  function Project(row: Row, columns: seq<nat>): (r: seq<Value>)
    ensures |r| == |columns|
  {
    seq(|columns|, i requires 0 <= i < |columns| => if columns[i] < |row| then row[columns[i]] else Null)
  }

  predicate HasNull(values: seq<Value>) { Null in values }

  function KeyOf(row: Row, columns: seq<nat>): string { KeyString(Project(row, columns)) }

  // ── What the constraints demand ──────────────────────────────

  /** Some column of the key is null or missing. */
  predicate NullKey(row: Row, columns: seq<nat>) { exists c :: c in columns && (c < |row| ==> row[c] == Null) }

  /** The rows agree in every column of the key, and none of them is null. */
  predicate Clash(r: Row, s: Row, columns: seq<nat>) {
    forall c :: c in columns ==> c < |r| && c < |s| && r[c] != Null && r[c] == s[c]
  }

  /** The projected key has a null exactly if a cell of the key is one. */
  lemma {:induction false} NullKeyProjects(row: Row, columns: seq<nat>)
    ensures NullKey(row, columns) <==> HasNull(Project(row, columns))
  {
    if NullKey(row, columns) {
      var c :| c in columns && (c < |row| ==> row[c] == Null);
      var i :| 0 <= i < |columns| && columns[i] == c;
      assert Project(row, columns)[i] == Null;
    }
    if HasNull(Project(row, columns)) {
      var i :| 0 <= i < |columns| && Project(row, columns)[i] == Null;
      assert columns[i] in columns;
    }
  }

  /** Two rows clash exactly if their projected keys are equal and without nulls. */
  lemma {:induction false} ClashProjects(r: Row, s: Row, columns: seq<nat>)
    ensures Clash(r, s, columns) <==> !NullKey(r, columns) && Project(r, columns) == Project(s, columns)
  {
    if !NullKey(r, columns) && Project(r, columns) == Project(s, columns) {
      forall c | c in columns ensures c < |r| && c < |s| && r[c] != Null && r[c] == s[c] {
        var i :| 0 <= i < |columns| && columns[i] == c;
        assert Project(r, columns)[i] == Project(s, columns)[i];
      }
    }
    if Clash(r, s, columns) {
      forall i | 0 <= i < |columns| ensures Project(r, columns)[i] == Project(s, columns)[i] { assert columns[i] in columns; }
    }
  }

  predicate KeysPresent(rows: seq<Row>, columns: seq<nat>) {
    forall i :: 0 <= i < |rows| ==> !NullKey(rows[i], columns)
  }

  predicate ClashFree(rows: seq<Row>, columns: seq<nat>) {
    forall i, j :: 0 <= i < j < |rows| ==> !Clash(rows[i], rows[j], columns)
  }

  predicate NoClashWith(rows: seq<Row>, disk: seq<Row>, columns: seq<nat>) {
    forall i, d :: 0 <= i < |rows| && 0 <= d < |disk| ==> !Clash(rows[i], disk[d], columns)
  }

  /** The new rows may join those on disk. */
  predicate Acceptable(c: Constraint, disk: seq<Row>, rows: seq<Row>) {
    && (c.PrimaryKey? ==> KeysPresent(rows, c.columns))
    && ClashFree(rows, c.columns)
    && NoClashWith(rows, disk, c.columns)
  }

  predicate AllAcceptable(meta: TableMeta, disk: seq<Row>, rows: seq<Row>) {
    forall c :: c in meta.constraints ==> Acceptable(c, disk, rows)
  }

  /** A table's rows keep its constraints: no NULL in a primary key, no key twice. */
  predicate KeysHold(meta: TableMeta, rows: seq<Row>) {
    forall c :: c in meta.constraints ==> (c.PrimaryKey? ==> KeysPresent(rows, c.columns)) && ClashFree(rows, c.columns)
  }

  /** No two rows of a table that keeps its constraints agree in a key without nulls, and no primary key has one. */
  lemma {:induction false} KeysDiffer(meta: TableMeta, rows: seq<Row>, c: Constraint, i: nat, j: nat)
    requires KeysHold(meta, rows) && c in meta.constraints && i < j < |rows|
    ensures exists k :: k in c.columns && !(k < |rows[i]| && k < |rows[j]| && rows[i][k] != Null && rows[i][k] == rows[j][k])
    ensures c.PrimaryKey? ==> forall k :: k in c.columns ==> k < |rows[i]| && rows[i][k] != Null
  {
    assert !Clash(rows[i], rows[j], c.columns);
    assert c.PrimaryKey? ==> !NullKey(rows[i], c.columns);
  }

  lemma {:induction false} KeysHoldFor(c: Constraint, disk: seq<Row>, rows: seq<Row>)
    requires Acceptable(c, disk, rows)
    ensures ClashFree(disk + rows, c.columns) <==> ClashFree(disk, c.columns)
    ensures c.PrimaryKey? ==> (KeysPresent(disk + rows, c.columns) <==> KeysPresent(disk, c.columns))
  {
    var all := disk + rows;
    assert forall i :: 0 <= i < |disk| ==> disk[i] == all[i];
    assert forall i :: 0 <= i < |rows| ==> rows[i] == all[|disk| + i];
    if ClashFree(disk, c.columns) {
      forall i, j | 0 <= i < j < |all| ensures !Clash(all[i], all[j], c.columns) {
        if j >= |disk| && i < |disk| {
          assert !Clash(rows[j - |disk|], disk[i], c.columns);
        } else if i >= |disk| {
          assert !Clash(rows[i - |disk|], rows[j - |disk|], c.columns);
        }
      }
    }
    if ClashFree(all, c.columns) {
      forall i, j | 0 <= i < j < |disk| ensures !Clash(disk[i], disk[j], c.columns) {
        assert !Clash(all[i], all[j], c.columns);
      }
    }
    if c.PrimaryKey? && KeysPresent(all, c.columns) {
      forall i | 0 <= i < |disk| ensures !NullKey(disk[i], c.columns) { assert !NullKey(all[i], c.columns); }
    }
  }

  /** Accepted rows leave a table's keys in order exactly if they were before. */
  lemma {:induction false} AcceptedKeepsKeys(meta: TableMeta, disk: seq<Row>, rows: seq<Row>)
    requires AllAcceptable(meta, disk, rows)
    ensures KeysHold(meta, disk + rows) <==> KeysHold(meta, disk)
  {
    forall c | c in meta.constraints
      ensures ClashFree(disk + rows, c.columns) <==> ClashFree(disk, c.columns)
      ensures c.PrimaryKey? ==> (KeysPresent(disk + rows, c.columns) <==> KeysPresent(disk, c.columns))
    {
      KeysHoldFor(c, disk, rows);
    }
  }

  /**
   Rows that a crash left both on disk and in the WAL cannot be replayed into a table with a
   primary key: validation rejects them, so start-up fails. Under UNIQUE the same holds exactly
   when one of the rows has a key without nulls.
   */
  lemma {:induction false} ReplayAfterWindow(c: Constraint, disk: seq<Row>, rows: seq<Row>)
    requires rows != [] && Acceptable(c, disk, rows)
    ensures c.PrimaryKey? ==> !Acceptable(c, disk + rows, rows)
    ensures c.Unique? ==>
      (!Acceptable(c, disk + rows, rows) <==> exists i :: 0 <= i < |rows| && !NullKey(rows[i], c.columns))
  {
    var all := disk + rows;
    assert c.PrimaryKey? ==> !NullKey(rows[0], c.columns);
    if i :| 0 <= i < |rows| && !NullKey(rows[i], c.columns) {
      assert all[|disk| + i] == rows[i];
      assert Clash(rows[i], all[|disk| + i], c.columns);
    }
  }

  /** No row has a key that a constraint looks at. */
  predicate KeyFree(meta: TableMeta, rows: seq<Row>) {
    forall c, i :: c in meta.constraints && 0 <= i < |rows| ==> NullKey(rows[i], c.columns)
  }

  /** Accepted rows are accepted once more exactly if each has a NULL in every key of the table. */
  lemma {:induction false} ReplayedTwice(meta: TableMeta, disk: seq<Row>, rows: seq<Row>)
    requires AllAcceptable(meta, disk, rows)
    ensures AllAcceptable(meta, disk + rows, rows) <==> KeyFree(meta, rows)
  {
    if rows == [] {
      assert disk + rows == disk;
    } else {
      forall c | c in meta.constraints
        ensures Acceptable(c, disk + rows, rows) <==> forall i :: 0 <= i < |rows| ==> NullKey(rows[i], c.columns)
      {
        ReplayAfterWindow(c, disk, rows);
        assert c.PrimaryKey? ==> !NullKey(rows[0], c.columns);
      }
    }
  }

  /** Rows accepted together are accepted if the last of them never come. */
  lemma {:induction false} AcceptedPrefix(meta: TableMeta, disk: seq<Row>, rows: seq<Row>, more: seq<Row>)
    requires AllAcceptable(meta, disk, rows + more)
    ensures AllAcceptable(meta, disk, rows)
  {
    var all := rows + more;
    assert forall i :: 0 <= i < |rows| ==> rows[i] == all[i];
    forall c | c in meta.constraints ensures Acceptable(c, disk, rows) {
      assert Acceptable(c, disk, all);
    }
  }

  /** A primary key of two columns: a row may join if one cell differs, unless either is null. */
  lemma {:induction false} EveryColumnCounts(r: Row, s: Row, a: nat, b: nat)
    requires a < |r| && b < |r| && a < |s| && b < |s|
    ensures Acceptable(PrimaryKey([a, b]), [s], [r]) <==> r[a] != Null && r[b] != Null && (r[a] != s[a] || r[b] != s[b])
  {
    assert [r][0] == r && [s][0] == s;
    assert a in [a, b] && b in [a, b];
    assert NullKey([r][0], [a, b]) <==> r[a] == Null || r[b] == Null;
    assert Clash([r][0], [s][0], [a, b]) <==> r[a] != Null && r[b] != Null && r[a] == s[a] && r[b] == s[b];
  }

  // ── Key strings ──────────────────────────────────────────────

  /** The key strings a constraint looks at: all of them for PRIMARY KEY, those without NULL for UNIQUE. */
  function KeySet(rows: seq<Row>, columns: seq<nat>, skipNull: bool): set<string> {
    set r | r in rows && (skipNull ==> !NullKey(r, columns)) :: KeyOf(r, columns)
  }

  function CachedSet(c: Constraint, disk: seq<Row>): set<string> { KeySet(disk, c.columns, c.Unique?) }

  /** The rendered tuples of the rows without NULL, in order. */
  function Tuples(rows: seq<Row>, columns: seq<nat>): seq<seq<string>> {
    if rows == [] then [] else
      var last := rows[|rows| - 1];
      var before := Tuples(rows[..|rows| - 1], columns);
      if NullKey(last, columns) then before else before + [Literals(Project(last, columns))]
  }

  function Joined(tuples: seq<seq<string>>): set<string> { set v | v in tuples :: Join(v) }

  lemma {:induction false} ClashIsEqualKey(r: Row, s: Row, columns: seq<nat>)
    ensures Clash(r, s, columns) <==> !NullKey(r, columns) && KeyOf(r, columns) == KeyOf(s, columns)
  {
    ClashProjects(r, s, columns);
    KeyStringInjective(Project(r, columns), Project(s, columns));
  }

  lemma {:induction false} KeySetStep(rows: seq<Row>, r: Row, columns: seq<nat>, skipNull: bool)
    ensures KeySet(rows + [r], columns, skipNull)
         == KeySet(rows, columns, skipNull) + (if skipNull && NullKey(r, columns) then {} else {KeyOf(r, columns)})
  {
    assert forall x :: x in rows + [r] <==> x in rows || x == r;
  }

  /** The textual null test on a rendered tuple is the null test on its values. */
  lemma {:induction false} NullTest(values: seq<Value>)
    ensures "NULL" in Literals(values) <==> HasNull(values)
  {
    forall i | 0 <= i < |values| ensures Literals(values)[i] == "NULL" <==> values[i].Null? {
      NullTestExact(values[i]);
    }
    if HasNull(values) {
      var i :| 0 <= i < |values| && values[i] == Null;
      assert Literals(values)[i] == "NULL";
    }
  }

  lemma {:induction false} JoinedTuples(rows: seq<Row>, columns: seq<nat>)
    ensures Joined(Tuples(rows, columns)) == KeySet(rows, columns, true)
  {
    if rows != [] {
      var n := |rows| - 1;
      var last := rows[n];
      JoinedTuples(rows[..n], columns);
      var before := Tuples(rows[..n], columns);
      assert rows == rows[..n] + [last];
      if !NullKey(last, columns) {
        var v := Literals(Project(last, columns));
        assert Joined(before + [v]) == Joined(before) + {Join(v)};
        assert KeySet(rows, columns, true) == KeySet(rows[..n], columns, true) + {KeyOf(last, columns)};
      } else {
        assert KeySet(rows, columns, true) == KeySet(rows[..n], columns, true);
      }
    }
  }

  /** After a write, the cached set and the merged tuples are the set of the longer table. */
  lemma {:induction false} MergeAgrees(c: Constraint, disk: seq<Row>, rows: seq<Row>)
    requires c.PrimaryKey? ==> KeysPresent(rows, c.columns)
    ensures CachedSet(c, disk + rows) == CachedSet(c, disk) + Joined(Tuples(rows, c.columns))
  {
    JoinedTuples(rows, c.columns);
    var all := disk + rows;
    forall k ensures k in CachedSet(c, all) <==> k in CachedSet(c, disk) || k in KeySet(rows, c.columns, true) {
      if k in CachedSet(c, all) {
        var r :| r in all && (c.Unique? ==> !NullKey(r, c.columns)) && KeyOf(r, c.columns) == k;
        assert r in disk || r in rows;
      }
    }
  }

  lemma {:induction false} NotBoth(rows: seq<Row>, disk: seq<Row>, c: Constraint, i: nat, d: nat)
    requires i < |rows| && d < |disk| && KeySet(rows, c.columns, true) !! CachedSet(c, disk)
    requires !NullKey(rows[i], c.columns)
    ensures KeyOf(rows[i], c.columns) != KeyOf(disk[d], c.columns)
  {
    assert rows[i] in rows && disk[d] in disk;
    assert KeyOf(rows[i], c.columns) in KeySet(rows, c.columns, true);
    assert c.PrimaryKey? || !NullKey(disk[d], c.columns) ==> KeyOf(disk[d], c.columns) in CachedSet(c, disk);
    if KeyOf(rows[i], c.columns) == KeyOf(disk[d], c.columns) {
      KeyStringInjective(Project(rows[i], c.columns), Project(disk[d], c.columns));
      NullKeyProjects(rows[i], c.columns);
      NullKeyProjects(disk[d], c.columns);
    }
  }

  /** Looking the tuples up in the cached set is the clash test against the disk. */
  lemma {:induction false} LookupIsClashTest(c: Constraint, disk: seq<Row>, rows: seq<Row>)
    requires c.PrimaryKey? ==> KeysPresent(rows, c.columns)
    ensures Joined(Tuples(rows, c.columns)) !! CachedSet(c, disk) <==> NoClashWith(rows, disk, c.columns)
  {
    JoinedTuples(rows, c.columns);
    var keys, cached := KeySet(rows, c.columns, true), CachedSet(c, disk);
    if keys !! cached {
      forall i, d | 0 <= i < |rows| && 0 <= d < |disk| ensures !Clash(rows[i], disk[d], c.columns) {
        ClashIsEqualKey(rows[i], disk[d], c.columns);
        if !NullKey(rows[i], c.columns) { NotBoth(rows, disk, c, i, d); }
      }
    }
    if NoClashWith(rows, disk, c.columns) {
      forall k | k in keys ensures k !in cached {
        var r :| r in rows && !NullKey(r, c.columns) && KeyOf(r, c.columns) == k;
        var i :| 0 <= i < |rows| && rows[i] == r;
        forall s | s in disk ensures KeyOf(s, c.columns) != k {
          var d :| 0 <= d < |disk| && disk[d] == s;
          ClashIsEqualKey(r, s, c.columns);
          assert !Clash(rows[i], disk[d], c.columns);
        }
      }
    }
  }

  /**
   Two UNIQUE constraints of one name share a cache entry. If it was loaded for `c`, the lookup for
   `d` compares the new rows' columns of `d` with the columns of `c` on disk.
   */
  lemma {:induction false} SharedEntryCompares(c: Constraint, d: Constraint, disk: seq<Row>, rows: seq<Row>)
    requires c.Unique? && d.Unique?
    ensures Joined(Tuples(rows, d.columns)) !! CachedSet(c, disk) <==>
      forall i, k :: 0 <= i < |rows| && 0 <= k < |disk| && !NullKey(rows[i], d.columns) ==>
        Project(rows[i], d.columns) != Project(disk[k], c.columns)
  {
    JoinedTuples(rows, d.columns);
    var keys, cached := KeySet(rows, d.columns, true), CachedSet(c, disk);
    if keys !! cached {
      forall i, k | 0 <= i < |rows| && 0 <= k < |disk| && !NullKey(rows[i], d.columns)
        ensures Project(rows[i], d.columns) != Project(disk[k], c.columns)
      {
        assert rows[i] in rows && disk[k] in disk;
        assert KeyOf(rows[i], d.columns) in keys;
        NullKeyProjects(rows[i], d.columns);
        NullKeyProjects(disk[k], c.columns);
      }
    } else {
      var key :| key in keys && key in cached;
      var r :| r in rows && !NullKey(r, d.columns) && KeyOf(r, d.columns) == key;
      var s :| s in disk && !NullKey(s, c.columns) && KeyOf(s, c.columns) == key;
      var i :| 0 <= i < |rows| && rows[i] == r;
      var k :| 0 <= k < |disk| && disk[k] == s;
      KeyStringInjective(Project(r, d.columns), Project(s, c.columns));
    }
  }

  /** So a row can pass whose key is on disk, and one be rejected whose key is not. */
  lemma {:induction false} SharedEntryMisleads()
    ensures var c, d, disk := Unique("u", [0]), Unique("u", [1]), [[Int(1), Int(2)]];
      var again, fresh_ := [[Int(3), Int(2)]], [[Int(3), Int(1)]];
      && CacheKeyOf("t", c) == CacheKeyOf("t", d)
      && Joined(Tuples(again, d.columns)) !! CachedSet(c, disk) && !NoClashWith(again, disk, d.columns)
      && !(Joined(Tuples(fresh_, d.columns)) !! CachedSet(c, disk)) && NoClashWith(fresh_, disk, d.columns)
  {
    var c, d, disk := Unique("u", [0]), Unique("u", [1]), [[Int(1), Int(2)]];
    var again, fresh_ := [[Int(3), Int(2)]], [[Int(3), Int(1)]];
    SharedEntryCompares(c, d, disk, again);
    SharedEntryCompares(c, d, disk, fresh_);
    assert Project(disk[0], [0]) == [Int(1)] && Project(disk[0], [1]) == [Int(2)];
    assert Project(again[0], [1]) == [Int(2)] && Project(fresh_[0], [1]) == [Int(1)];
    assert Clash(again[0], disk[0], d.columns);
    assert 1 in d.columns && fresh_[0][1] != disk[0][1];
    assert !NullKey(again[0], d.columns) && !NullKey(fresh_[0], d.columns);
  }

  // ── The validation loops ─────────────────────────────────────

  /** One row of the scan: it fails on a NULL in a primary key and on a key seen before. */
  method ScanRow(c: Constraint, row: Row, seen: set<string>, values: seq<seq<string>>, ghost done: seq<Row>, ghost all: seq<Row>)
      returns (ok: bool, seen': set<string>, values': seq<seq<string>>)
    requires Scanned(c, done, seen, values) && done + [row] <= all
    ensures ok ==> Scanned(c, done + [row], seen', values')
    ensures !ok ==> !((c.PrimaryKey? ==> KeysPresent(all, c.columns)) && ClashFree(all, c.columns))
  {
    seen', values' := seen, values;
    var tuple := Literals(Project(row, c.columns));
    NullTest(Project(row, c.columns));
    NullKeyProjects(row, c.columns);
    assert all[|done|] == (done + [row])[|done|];
    if "NULL" in tuple {
      ok := c.Unique?;
      if ok { ScanSkip(c, done, seen, values, row); }
    } else {
      var key := Join(tuple);
      ok := key !in seen;
      if ok {
        ScanAdd(c, done, seen, values, row);
        seen' := seen + {key};
        values' := values + [tuple];
      } else {
        SeenClashes(c, done, seen, values, row, all);
      }
    }
  }

  lemma {:induction false} RowsUpTo(batches: seq<Batch>, b: nat, row: nat)
    requires b < |batches| && row < |batches[b]|
    ensures RowsOf(batches[..b]) + batches[b][..row + 1] == RowsOf(batches[..b]) + batches[b][..row] + [batches[b][row]]
  {
  }

  lemma {:induction false} RowsOfNext(batches: seq<Batch>, b: nat)
    requires b < |batches|
    ensures RowsOf(batches[..b]) + batches[b][..0] == RowsOf(batches[..b])
    ensures RowsOf(batches[..b]) + batches[b][..|batches[b]|] == RowsOf(batches[..b + 1])
  {
    assert batches[..b + 1][..b] == batches[..b];
    assert batches[b][..|batches[b]|] == batches[b];
  }

  /** The scan of one constraint over the incoming batches; it returns the tuples to look up. */
  method CollectTuples(c: Constraint, batches: seq<Batch>) returns (r: Result<seq<seq<string>>>)
    ensures r.Ok? <==> (c.PrimaryKey? ==> KeysPresent(RowsOf(batches), c.columns)) && ClashFree(RowsOf(batches), c.columns)
    ensures r.Ok? ==> r.value == Tuples(RowsOf(batches), c.columns)
  {
    var seen: set<string> := {};
    var values: seq<seq<string>> := [];
    for b := 0 to |batches|
      invariant Scanned(c, RowsOf(batches[..b]), seen, values)
    {
      var batch := batches[b];
      RowsOfNext(batches, b);
      for row := 0 to |batch|
        invariant Scanned(c, RowsOf(batches[..b]) + batch[..row], seen, values)
      {
        PrefixOfRows(batches, b, row);
        RowsUpTo(batches, b, row);
        var ok;
        ok, seen, values := ScanRow(c, batch[row], seen, values, RowsOf(batches[..b]) + batch[..row], RowsOf(batches));
        if !ok {
          return Err(if c.PrimaryKey? then "PRIMARY KEY violation" else "UNIQUE constraint violation");
        }
      }
    }
    assert batches[..|batches|] == batches;
    return Ok(values);
  }

  ghost predicate Scanned(c: Constraint, done: seq<Row>, seen: set<string>, values: seq<seq<string>>) {
    && (c.PrimaryKey? ==> KeysPresent(done, c.columns))
    && ClashFree(done, c.columns)
    && seen == KeySet(done, c.columns, true)
    && values == Tuples(done, c.columns)
  }

  lemma {:induction false} PrefixOfRows(batches: seq<Batch>, b: nat, row: nat)
    requires b < |batches| && row < |batches[b]|
    ensures RowsOf(batches[..b]) + batches[b][..row] + [batches[b][row]] <= RowsOf(batches)
  {
    assert batches == batches[..b + 1] + batches[b + 1..];
    RowsOfConcat(batches[..b + 1], batches[b + 1..]);
    assert batches[..b + 1][..b] == batches[..b];
    assert batches[b][..row] + [batches[b][row]] <= batches[b];
  }

  lemma {:induction false} ScanSkip(c: Constraint, done: seq<Row>, seen: set<string>, values: seq<seq<string>>, r: Row)
    requires Scanned(c, done, seen, values) && c.Unique? && NullKey(r, c.columns)
    ensures Scanned(c, done + [r], seen, values)
  {
    var next := done + [r];
    assert next[..|done|] == done;
    forall i, j | 0 <= i < j < |next| ensures !Clash(next[i], next[j], c.columns) {
      if j == |done| {
        var k :| k in c.columns && (k < |r| ==> r[k] == Null);
        assert !Clash(next[i], r, c.columns);
      }
    }
    assert KeySet(next, c.columns, true) == KeySet(done, c.columns, true);
  }

  lemma {:induction false} KeySetAdd(done: seq<Row>, columns: seq<nat>, r: Row)
    requires !NullKey(r, columns)
    ensures KeySet(done + [r], columns, true) == KeySet(done, columns, true) + {KeyOf(r, columns)}
  {
  }

  lemma {:induction false} ClashFreeAdd(done: seq<Row>, columns: seq<nat>, r: Row)
    requires ClashFree(done, columns) && !NullKey(r, columns) && KeyOf(r, columns) !in KeySet(done, columns, true)
    ensures ClashFree(done + [r], columns)
  {
    var next := done + [r];
    forall i, j | 0 <= i < j < |next| ensures !Clash(next[i], next[j], columns) {
      if j == |done| {
        assert next[i] in done;
        ClashIsEqualKey(next[i], r, columns);
        assert !NullKey(next[i], columns) ==> KeyOf(next[i], columns) in KeySet(done, columns, true);
      }
    }
  }

  lemma {:induction false} ScanAdd(c: Constraint, done: seq<Row>, seen: set<string>, values: seq<seq<string>>, r: Row)
    requires Scanned(c, done, seen, values) && !NullKey(r, c.columns) && KeyOf(r, c.columns) !in seen
    ensures Scanned(c, done + [r], seen + {KeyOf(r, c.columns)}, values + [Literals(Project(r, c.columns))])
  {
    assert (done + [r])[..|done|] == done;
    ClashFreeAdd(done, c.columns, r);
    KeySetAdd(done, c.columns, r);
  }

  lemma {:induction false} SeenClashes(c: Constraint, done: seq<Row>, seen: set<string>, values: seq<seq<string>>, r: Row, all: seq<Row>)
    requires Scanned(c, done, seen, values) && !NullKey(r, c.columns) && KeyOf(r, c.columns) in seen
    requires done + [r] <= all
    ensures !ClashFree(all, c.columns)
  {
    var s :| s in done && !NullKey(s, c.columns) && KeyOf(s, c.columns) == KeyOf(r, c.columns);
    var i :| 0 <= i < |done| && done[i] == s;
    ClashIsEqualKey(s, r, c.columns);
    assert (done + [r])[i] == all[i] && (done + [r])[|done|] == all[|done|];
    assert Clash(all[i], all[|done|], c.columns);
  }
}
