/**
 INSERT … ON CONFLICT. Source rows have a value for every column of the table, NULL where the
 statement names none; expressions see the table's row and the source's (`EXCLUDED`) row.
 */
module Upsert {
  import opened Values
  import opened KeyEncoding
  import opened ForeignKeys

  type Expression = (nat, Row, Row) -> Option<Value>

  type Selection = (Row, Row) -> Truth

  /** `assign(c, row, excluded)` is the new value of column `c`, if the column is assigned at all. */
  datatype Action = DoNothing | DoUpdate(assign: Expression, selection: Option<Selection>)

  datatype Upserted = Upserted(rows: seq<Row>, inserted: nat, updated: nat, skipped: nat)

  function Key(row: Row, columns: seq<nat>): (r: seq<Value>)
    ensures |r| == |columns|
  {
    seq(|columns|, i requires 0 <= i < |columns| => Cell(row, columns[i]))
  }

  /** `c1 = v1 AND c2 = v2 …` is true: no value is NULL. */
  predicate Matches(key: seq<Value>, other: seq<Value>) {
    key == other && Null !in key
  }

  predicate Conflicts(row: Row, source: seq<Row>, columns: seq<nat>) {
    exists s :: s in source && Matches(Key(row, columns), Key(s, columns))
  }

  /** Key strings of the table rows that some source row conflicts with. */
  function ExistingKeys(rows: seq<Row>, source: seq<Row>, columns: seq<nat>): set<string> {
    set r | r in rows && Conflicts(r, source, columns) :: KeyString(Key(r, columns))
  }

  function WithKey(source: seq<Row>, columns: seq<nat>, keys: set<string>): seq<Row> {
    if source == [] then []
    else (if KeyString(Key(source[0], columns)) in keys then [source[0]] else []) + WithKey(source[1..], columns, keys)
  }

  function WithoutKey(source: seq<Row>, columns: seq<nat>, keys: set<string>): seq<Row> {
    if source == [] then []
    else (if KeyString(Key(source[0], columns)) in keys then [] else [source[0]]) + WithoutKey(source[1..], columns, keys)
  }

  predicate Applies(row: Row, excluded: Row, columns: seq<nat>, selection: Option<Selection>) {
    && Matches(Key(row, columns), Key(excluded, columns))
    && (selection.Some? ==> (selection.value)(row, excluded) == True)
  }

  /** The `WHEN` branch a row takes. */
  function Chosen(row: Row, updates: seq<Row>, columns: seq<nat>, selection: Option<Selection>): Option<Row> {
    if updates == [] then None
    else if Applies(row, updates[0], columns, selection) then Some(updates[0])
    else Chosen(row, updates[1..], columns, selection)
  }

  function Assigned(row: Row, excluded: Row, assign: Expression): (r: Row)
    ensures |r| == |row|
  {
    seq(|row|, c requires 0 <= c < |row| =>
      if assign(c, row, excluded).Some? then assign(c, row, excluded).value else row[c])
  }

  function Rewritten(row: Row, updates: seq<Row>, columns: seq<nat>, action: Action): Row
    requires action.DoUpdate?
  {
    var u := Chosen(row, updates, columns, action.selection);
    if u.Some? then Assigned(row, u.value, action.assign) else row
  }

  function RewriteAll(rows: seq<Row>, updates: seq<Row>, columns: seq<nat>, action: Action): (r: seq<Row>)
    requires action.DoUpdate?
    ensures |r| == |rows|
  {
    seq(|rows|, i requires 0 <= i < |rows| => Rewritten(rows[i], updates, columns, action))
  }

  /** Rows without a conflict are inserted; then the action runs for the others, over the whole table. */
  function Run(rows: seq<Row>, source: seq<Row>, columns: seq<nat>, action: Action): Upserted {
    var existing := ExistingKeys(rows, source, columns);
    var inserts, updates := WithoutKey(source, columns, existing), WithKey(source, columns, existing);
    match action
    case DoNothing => Upserted(rows + inserts, |inserts|, 0, |updates|)
    case DoUpdate(_, _) =>
      Upserted(if updates == [] then rows + inserts else RewriteAll(rows + inserts, updates, columns, action),
               |inserts|, |updates|, 0)
  }

  lemma {:induction false} SplitTurn(source: seq<Row>, i: nat, columns: seq<nat>, keys: set<string>, inserts: seq<Row>, updates: seq<Row>)
    requires i < |source|
    ensures var found := KeyString(Key(source[i], columns)) in keys;
      && (updates + WithKey(source[i..], columns, keys) ==
          (if found then updates + [source[i]] else updates) + WithKey(source[i + 1..], columns, keys))
      && (inserts + WithoutKey(source[i..], columns, keys) ==
          (if found then inserts else inserts + [source[i]]) + WithoutKey(source[i + 1..], columns, keys))
  {
    assert source[i..][1..] == source[i + 1..];
  }

  /** Separates the source rows whose key the table holds from the others. */
  method SplitByKey(source: seq<Row>, columns: seq<nat>, existing: set<string>)
    returns (inserts: seq<Row>, updates: seq<Row>)
    ensures inserts == WithoutKey(source, columns, existing) && updates == WithKey(source, columns, existing)
  {
    inserts, updates := [], [];
    for i := 0 to |source|
      invariant WithKey(source, columns, existing) == updates + WithKey(source[i..], columns, existing)
      invariant WithoutKey(source, columns, existing) == inserts + WithoutKey(source[i..], columns, existing)
    {
      SplitTurn(source, i, columns, existing, inserts, updates);
      if KeyString(Key(source[i], columns)) in existing {
        updates := updates + [source[i]];
      } else {
        inserts := inserts + [source[i]];
      }
    }
  }

  lemma {:induction false} NoSource(rows: seq<Row>, columns: seq<nat>, action: Action)
    ensures Run(rows, [], columns, action) == Upserted(rows, 0, 0, 0)
  {
    assert rows + [] == rows;
  }

  class Engine {
    var tables: Tables

    constructor ()
      ensures tables == map[]
    {
      tables := map[];
    }

    /**
     `validations`: NOT NULL, the table's constraints and its CHECKs, in this order, each over the data
     as written. The first that fails makes the statement fail; the rows stay written all the same.
     Without source rows the statement succeeds and runs none of them.
     */
    method HandleUpsert(table: string, columns: seq<nat>, source: seq<Row>, action: Action, validations: seq<Tables -> bool>)
        returns (r: Result<Upserted>)
      modifies this
      ensures table !in old(tables) || columns == [] ==> r.Err? && tables == old(tables)
      ensures (table in old(tables) && columns != [] ==>
        var done := Run(old(tables)[table], source, columns, action);
        && tables == old(tables)[table := done.rows]
        && (r.Ok? <==> source == [] || forall i :: 0 <= i < |validations| ==> validations[i](tables))
        && (r.Ok? ==> r.value == done))
      ensures source == [] ==> tables == old(tables)
    {
      if table !in tables { return Err("table does not exist"); }
      if columns == [] { return Err("ON CONFLICT requires a conflict target"); }
      if source == [] {
        NoSource(tables[table], columns, action);
        return Ok(Upserted(tables[table], 0, 0, 0));
      }
      var existing := ExistingKeys(tables[table], source, columns);
      var inserts, updates := SplitByKey(source, columns, existing);
      tables := tables[table := tables[table] + inserts];
      var updated, skipped := 0, 0;
      match action {
        case DoNothing => skipped := |updates|;
        case DoUpdate(_, _) =>
          if updates != [] {
            tables := tables[table := RewriteAll(tables[table], updates, columns, action)];
            updated := |updates|;
          }
      }
      for i := 0 to |validations|
        invariant forall k :: 0 <= k < i ==> validations[k](tables)
      {
        if !validations[i](tables) { return Err("constraint violation"); }
      }
      r := Ok(Upserted(tables[table], |inserts|, updated, skipped));
    }
  }

  // ── Keys ─────────────────────────────────────────────────────

  function Keys(rows: seq<Row>, columns: seq<nat>): set<seq<Value>> { set r | r in rows :: Key(r, columns) }

  predicate NoNullKeys(rows: seq<Row>, columns: seq<nat>) { forall r :: r in rows ==> Null !in Key(r, columns) }

  predicate UniqueKeys(rows: seq<Row>, columns: seq<nat>) {
    forall i, j :: 0 <= i < j < |rows| ==> Key(rows[i], columns) != Key(rows[j], columns)
  }

  lemma {:induction false} WithKeyMember(source: seq<Row>, columns: seq<nat>, keys: set<string>, s: Row)
    ensures s in WithKey(source, columns, keys) <==> s in source && KeyString(Key(s, columns)) in keys
    ensures s in WithoutKey(source, columns, keys) <==> s in source && KeyString(Key(s, columns)) !in keys
  {
    if source != [] {
      WithKeyMember(source[1..], columns, keys, s);
      assert s in source <==> s == source[0] || s in source[1..];
    }
  }

  lemma {:induction false} Partition(source: seq<Row>, columns: seq<nat>, keys: set<string>)
    ensures |WithKey(source, columns, keys)| + |WithoutKey(source, columns, keys)| == |source|
  {
    if source != [] { Partition(source[1..], columns, keys); }
  }

  /** A source row conflicts exactly when the table has its key. */
  lemma {:induction false} ExistingExact(rows: seq<Row>, source: seq<Row>, columns: seq<nat>, s: Row)
    requires columns != [] && s in source && Null !in Key(s, columns)
    ensures (KeyString(Key(s, columns)) in ExistingKeys(rows, source, columns) <==>
      Key(s, columns) in Keys(rows, columns))
  {
    var existing := ExistingKeys(rows, source, columns);
    if KeyString(Key(s, columns)) in existing {
      var r :| r in rows && Conflicts(r, source, columns) && KeyString(Key(r, columns)) == KeyString(Key(s, columns));
      KeyStringInjective(Key(r, columns), Key(s, columns));
    }
    if Key(s, columns) in Keys(rows, columns) {
      var r :| r in rows && Key(r, columns) == Key(s, columns);
      assert Matches(Key(r, columns), Key(s, columns));
      assert Conflicts(r, source, columns);
    }
  }

  /** Every source row is counted once. */
  lemma {:induction false} CountsAddUp(rows: seq<Row>, source: seq<Row>, columns: seq<nat>, action: Action)
    ensures var u := Run(rows, source, columns, action); u.inserted + u.updated + u.skipped == |source|
    ensures |Run(rows, source, columns, action).rows| == |rows| + Run(rows, source, columns, action).inserted
  {
    Partition(source, columns, ExistingKeys(rows, source, columns));
  }

  // ── What an upsert does to each row ──────────────────────────

  /** Assignments leave the conflict columns alone. */
  ghost predicate OffKey(action: Action, columns: seq<nat>) {
    action.DoUpdate? ==> forall c: nat, r, u :: c in columns ==> (action.assign)(c, r, u) == None
  }

  lemma {:induction false} AssignedKeepsKey(row: Row, excluded: Row, columns: seq<nat>, action: Action)
    requires action.DoUpdate? && OffKey(action, columns)
    ensures Key(Assigned(row, excluded, action.assign), columns) == Key(row, columns)
  {
    var after := Assigned(row, excluded, action.assign);
    forall i | 0 <= i < |columns| ensures Cell(after, columns[i]) == Cell(row, columns[i]) {
      var c := columns[i];
      assert c in columns;
      assert (action.assign)(c, row, excluded) == None;
    }
  }

  lemma {:induction false} ChosenApplies(row: Row, updates: seq<Row>, columns: seq<nat>, selection: Option<Selection>)
    ensures var u := Chosen(row, updates, columns, selection);
      && (u.Some? ==> u.value in updates && Applies(row, u.value, columns, selection))
      && (u.None? ==> forall s :: s in updates ==> !Applies(row, s, columns, selection))
  {
    if updates != [] && !Applies(row, updates[0], columns, selection) {
      ChosenApplies(row, updates[1..], columns, selection);
      assert forall s :: s in updates ==> s == updates[0] || s in updates[1..];
    }
  }

  /** A row behind the old ones is the inserted source row: no update reaches it. */
  lemma {:induction false} InsertedUntouched(rows: seq<Row>, source: seq<Row>, columns: seq<nat>, action: Action, i: nat)
    requires columns != []
    requires i < |WithoutKey(source, columns, ExistingKeys(rows, source, columns))|
    ensures |Run(rows, source, columns, action).rows| > |rows| + i
    ensures (Run(rows, source, columns, action).rows[|rows| + i] ==
      WithoutKey(source, columns, ExistingKeys(rows, source, columns))[i])
  {
    var existing := ExistingKeys(rows, source, columns);
    var inserts, updates := WithoutKey(source, columns, existing), WithKey(source, columns, existing);
    var row := inserts[i];
    WithKeyMember(source, columns, existing, row);
    if action.DoUpdate? && updates != [] {
      ChosenApplies(row, updates, columns, action.selection);
      var u := Chosen(row, updates, columns, action.selection);
      if u.Some? { WithKeyMember(source, columns, existing, u.value); }
      assert (rows + inserts)[|rows| + i] == row;
    }
  }

  /** Source rows that name distinct keys. */
  lemma {:induction false} InsertsUnique(source: seq<Row>, columns: seq<nat>, keys: set<string>)
    requires UniqueKeys(source, columns)
    ensures UniqueKeys(WithoutKey(source, columns, keys), columns)
  {
    if source != [] {
      var rest, more := source[1..], WithoutKey(source[1..], columns, keys);
      assert UniqueKeys(rest, columns) by {
        forall i, j | 0 <= i < j < |rest| ensures Key(rest[i], columns) != Key(rest[j], columns) {
          assert rest[i] == source[i + 1] && rest[j] == source[j + 1];
        }
      }
      InsertsUnique(rest, columns, keys);
      forall s | s in more ensures Key(s, columns) != Key(source[0], columns) {
        WithKeyMember(rest, columns, keys, s);
        var j :| 0 <= j < |rest| && rest[j] == s;
        assert s == source[j + 1];
      }
    }
  }

  /** The source row has the key of the row, cell by cell, and the WHERE of DO UPDATE, if any, is true of the two. */
  predicate Selected(row: Row, s: Row, columns: seq<nat>, selection: Option<Selection>) {
    && (forall c :: c in columns ==> Cell(row, c) == Cell(s, c))
    && match selection case Some(holds) => holds(row, s) == True case None => true
  }

  lemma {:induction false} SameCells(row: Row, s: Row, columns: seq<nat>)
    ensures Key(row, columns) == Key(s, columns) <==> forall c :: c in columns ==> Cell(row, c) == Cell(s, c)
  {
    if Key(row, columns) == Key(s, columns) {
      forall c | c in columns ensures Cell(row, c) == Cell(s, c) {
        var i :| 0 <= i < |columns| && columns[i] == c;
        assert Key(row, columns)[i] == Key(s, columns)[i];
      }
    } else {
      var i :| 0 <= i < |columns| && Key(row, columns)[i] != Key(s, columns)[i];
      assert columns[i] in columns;
    }
  }

  lemma {:induction false} SelectedApplies(row: Row, s: Row, columns: seq<nat>, selection: Option<Selection>)
    requires Null !in Key(s, columns)
    ensures Applies(row, s, columns, selection) <==> Selected(row, s, columns, selection)
  {
    SameCells(row, s, columns);
  }

  /** A source row with a NULL in its key conflicts with nothing and is inserted, whatever keys the table has. */
  lemma {:induction false} NullKeyIsInserted(rows: seq<Row>, source: seq<Row>, columns: seq<nat>, s: Row, c: nat)
    requires s in source && c in columns && Cell(s, c) == Null
    ensures s in WithoutKey(source, columns, ExistingKeys(rows, source, columns))
  {
    var existing := ExistingKeys(rows, source, columns);
    var i :| 0 <= i < |columns| && columns[i] == c;
    assert Key(s, columns)[i] == Null;
    if KeyString(Key(s, columns)) in existing {
      var r :| r in rows && Conflicts(r, source, columns) && KeyString(Key(r, columns)) == KeyString(Key(s, columns));
      KeyStringInjective(Key(r, columns), Key(s, columns));
    }
    WithKeyMember(source, columns, existing, s);
  }

  /** DO UPDATE gives an old row the assigned cells of the source row with its key, and leaves its other cells. */
  lemma {:induction false} UpdatedRow(rows: seq<Row>, source: seq<Row>, columns: seq<nat>, action: Action, i: nat)
    requires columns != [] && action.DoUpdate? && i < |rows|
    requires UniqueKeys(source, columns) && NoNullKeys(source, columns)
    ensures i < |Run(rows, source, columns, action).rows|
    ensures var after := Run(rows, source, columns, action).rows[i];
      && |after| == |rows[i]|
      && (forall s, c: nat :: s in source && Selected(rows[i], s, columns, action.selection) && c < |rows[i]| ==>
            after[c] == match (action.assign)(c, rows[i], s) case Some(v) => v case None => rows[i][c])
      && ((forall s :: s in source ==> !Selected(rows[i], s, columns, action.selection)) ==> after == rows[i])
  {
    forall s | s in source
      ensures Applies(rows[i], s, columns, action.selection) <==> Selected(rows[i], s, columns, action.selection)
    {
      SelectedApplies(rows[i], s, columns, action.selection);
    }
    var existing := ExistingKeys(rows, source, columns);
    var updates := WithKey(source, columns, existing);
    var row := rows[i];
    ChosenApplies(row, updates, columns, action.selection);
    var u := Chosen(row, updates, columns, action.selection);
    if u.Some? { WithKeyMember(source, columns, existing, u.value); }
    forall s | s in source && Applies(row, s, columns, action.selection) ensures u == Some(s) {
      ExistingExact(rows, source, columns, s);
      assert Key(s, columns) in Keys(rows, columns);
      WithKeyMember(source, columns, existing, s);
      SameKeySameRow(source, columns, s, u.value);
    }
  }

  lemma {:induction false} SameKeySameRow(source: seq<Row>, columns: seq<nat>, s: Row, t: Row)
    requires UniqueKeys(source, columns) && s in source && t in source && Key(s, columns) == Key(t, columns)
    ensures s == t
  {
    var i :| 0 <= i < |source| && source[i] == s;
    var j :| 0 <= j < |source| && source[j] == t;
  }

  /** DO NOTHING leaves every old row as it is, in its place. */
  lemma {:induction false} DoNothingKeepsRows(rows: seq<Row>, source: seq<Row>, columns: seq<nat>)
    ensures Run(rows, source, columns, DoNothing).rows[..|rows|] == rows
  {
  }

  // ── The keys of the table ────────────────────────────────────

  /** The rows after the statement have, place by place, the keys of the old rows and the inserted ones. */
  lemma {:induction false} KeysByPlace(rows: seq<Row>, source: seq<Row>, columns: seq<nat>, action: Action, i: nat)
    requires OffKey(action, columns) && i < |Run(rows, source, columns, action).rows|
    ensures var before := rows + WithoutKey(source, columns, ExistingKeys(rows, source, columns));
      |before| == |Run(rows, source, columns, action).rows|
        && Key(Run(rows, source, columns, action).rows[i], columns) == Key(before[i], columns)
  {
    var existing := ExistingKeys(rows, source, columns);
    var updates := WithKey(source, columns, existing);
    var before := rows + WithoutKey(source, columns, existing);
    if action.DoUpdate? && updates != [] {
      var u := Chosen(before[i], updates, columns, action.selection);
      if u.Some? { AssignedKeepsKey(before[i], u.value, columns, action); }
    }
  }

  /** The keys after are the old keys and the source's. */
  lemma {:induction false} KeysAfter(rows: seq<Row>, source: seq<Row>, columns: seq<nat>, action: Action)
    requires columns != [] && OffKey(action, columns) && NoNullKeys(source, columns)
    ensures Keys(Run(rows, source, columns, action).rows, columns) == Keys(rows, columns) + Keys(source, columns)
  {
    var existing := ExistingKeys(rows, source, columns);
    var inserts := WithoutKey(source, columns, existing);
    var before, after := rows + inserts, Run(rows, source, columns, action).rows;
    forall k ensures k in Keys(after, columns) <==> k in Keys(before, columns) {
      if k in Keys(after, columns) {
        var r :| r in after && Key(r, columns) == k;
        var i :| 0 <= i < |after| && after[i] == r;
        KeysByPlace(rows, source, columns, action, i);
        assert before[i] in before;
      }
      if k in Keys(before, columns) {
        var r :| r in before && Key(r, columns) == k;
        var i :| 0 <= i < |before| && before[i] == r;
        CountsAddUp(rows, source, columns, action);
        KeysByPlace(rows, source, columns, action, i);
        assert after[i] in after;
      }
    }
    forall s | s in source ensures Key(s, columns) in Keys(before, columns) {
      WithKeyMember(source, columns, existing, s);
      ExistingExact(rows, source, columns, s);
      if Key(s, columns) in Keys(rows, columns) {
        var r :| r in rows && Key(r, columns) == Key(s, columns);
        assert r in before;
      } else {
        assert s in before;
      }
    }
    forall s | s in inserts ensures s in source { WithKeyMember(source, columns, existing, s); }
    forall r | r in rows ensures r in before { }
  }

  /** Unique keys stay unique when no new key is given twice, and only then. */
  lemma {:induction false} UniquenessExact(rows: seq<Row>, source: seq<Row>, columns: seq<nat>, action: Action)
    requires columns != [] && OffKey(action, columns) && NoNullKeys(source, columns) && UniqueKeys(rows, columns)
    ensures (UniqueKeys(Run(rows, source, columns, action).rows, columns) <==>
      UniqueKeys(WithoutKey(source, columns, ExistingKeys(rows, source, columns)), columns))
    ensures UniqueKeys(source, columns) ==> UniqueKeys(Run(rows, source, columns, action).rows, columns)
  {
    var existing := ExistingKeys(rows, source, columns);
    var inserts := WithoutKey(source, columns, existing);
    var before, after := rows + inserts, Run(rows, source, columns, action).rows;
    CountsAddUp(rows, source, columns, action);
    forall i | 0 <= i < |after| ensures Key(after[i], columns) == Key(before[i], columns) {
      KeysByPlace(rows, source, columns, action, i);
    }
    forall i, j | 0 <= i < |rows| && 0 <= j < |inserts| ensures Key(rows[i], columns) != Key(inserts[j], columns) {
      WithKeyMember(source, columns, existing, inserts[j]);
      ExistingExact(rows, source, columns, inserts[j]);
      assert rows[i] in rows;
    }
    if UniqueKeys(after, columns) {
      forall i, j | 0 <= i < j < |inserts| ensures Key(inserts[i], columns) != Key(inserts[j], columns) {
        assert before[|rows| + i] == inserts[i] && before[|rows| + j] == inserts[j];
        assert Key(after[|rows| + i], columns) != Key(after[|rows| + j], columns);
      }
    }
    if UniqueKeys(inserts, columns) {
      forall i, j | 0 <= i < j < |after| ensures Key(after[i], columns) != Key(after[j], columns) {
        assert before[i] == if i < |rows| then rows[i] else inserts[i - |rows|];
        assert before[j] == if j < |rows| then rows[j] else inserts[j - |rows|];
      }
    }
    if UniqueKeys(source, columns) { InsertsUnique(source, columns, existing); }
  }
}
