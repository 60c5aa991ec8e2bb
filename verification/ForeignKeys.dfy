/**
 DELETE with single-column foreign keys. Queries are filters over rows under SQL's three truth
 values: a `WHERE` keeps a row whose condition is true, and `NOT` of unknown is unknown.
 */
module ForeignKeys {
  import opened Values

  datatype Truth = True | False | Unknown

  function Not(t: Truth): Truth {
    match t
    case True => False
    case False => True
    case Unknown => Unknown
  }

  type Condition = Row -> Truth

  datatype OnDelete = Cascade | SetNull | Restrict

  datatype ForeignKey = ForeignKey(child: string, column: nat, parent: string, refColumn: nat, onDelete: OnDelete)

  type Tables = map<string, seq<Row>>

  function RowsIn(tables: Tables, name: string): seq<Row> { if name in tables then tables[name] else [] }

  function Cell(row: Row, column: nat): Value { if column < |row| then row[column] else Null }

  /** `value IN (keys)` for a list of keys that are not null. */
  function InKeys(v: Value, keys: set<Value>): Truth {
    if v == Null then Unknown else if v in keys then True else False
  }

  // ── Queries ──────────────────────────────────────────────────

  /** The rows a `WHERE` keeps. */
  function Where(rows: seq<Row>, condition: Condition): seq<Row> {
    if rows == [] then []
    else (if condition(rows[0]) == True then [rows[0]] else []) + Where(rows[1..], condition)
  }

  /** `NOT (condition)` */
  function Negation(condition: Condition): Condition { r => Not(condition(r)) }

  /** The rows whose condition has the truth value `t`. */
  function Having(rows: seq<Row>, condition: Condition, t: Truth): seq<Row> {
    Where(rows, r => if condition(r) == t then True else False)
  }

  /** `SELECT DISTINCT column … WHERE column IS NOT NULL` */
  function KeysIn(rows: seq<Row>, column: nat): set<Value> {
    set r | r in rows && Cell(r, column) != Null :: Cell(r, column)
  }

  function NotIn(column: nat, keys: set<Value>): Condition { r => Not(InKeys(Cell(r, column), keys)) }

  /** `CASE WHEN column IN (keys) THEN NULL ELSE column END` */
  function Nullified(row: Row, column: nat, keys: set<Value>): Row {
    if column < |row| && InKeys(row[column], keys) == True then row[column := Null] else row
  }

  function NullifyKeys(rows: seq<Row>, column: nat, keys: set<Value>): seq<Row> {
    seq(|rows|, i requires 0 <= i < |rows| => Nullified(rows[i], column, keys))
  }

  lemma {:induction false} WhereMember(rows: seq<Row>, condition: Condition, r: Row)
    ensures r in Where(rows, condition) <==> r in rows && condition(r) == True
  {
    if rows != [] {
      WhereMember(rows[1..], condition, r);
      assert r in rows <==> r == rows[0] || r in rows[1..];
    }
  }

  // ── The statement ────────────────────────────────────────────

  datatype Outcome = Deleted(tables: Tables, count: nat) | Restricted(tables: Tables, child: string) | NoSuchTable

  /** One foreign key, before its parent rows go. `None`: the delete is refused. */
  function Act(tables: Tables, fk: ForeignKey, condition: Condition): Option<Tables> {
    var keys := KeysIn(Where(RowsIn(tables, fk.parent), condition), fk.refColumn);
    var children := RowsIn(tables, fk.child);
    if keys == {} || KeysIn(children, fk.column) * keys == {} then Some(tables)
    else
      match fk.onDelete
      case Cascade => Some(tables[fk.child := Where(children, NotIn(fk.column, keys))])
      case SetNull => Some(tables[fk.child := NullifyKeys(children, fk.column, keys)])
      case Restrict => None
  }

  /** The foreign keys in turn; a refused one leaves the rewrites before it in place. */
  function ActAll(tables: Tables, fks: seq<ForeignKey>, condition: Condition): (Tables, Option<string>)
    decreases |fks|
  {
    if fks == [] then (tables, None)
    else
      match Act(tables, fks[0], condition)
      case None => (tables, Some(fks[0].child))
      case Some(next) => ActAll(next, fks[1..], condition)
  }

  function Referencing(fks: seq<ForeignKey>, parent: string): seq<ForeignKey> {
    if fks == [] then []
    else (if fks[0].parent == parent then [fks[0]] else []) + Referencing(fks[1..], parent)
  }

  /** The statement from a moment at which the foreign keys `actions` are still to act. */
  function Finish(tables: Tables, actions: seq<ForeignKey>, parent: string, condition: Condition): Outcome {
    var (acted, refused) := ActAll(tables, actions, condition);
    if refused.Some? then Restricted(acted, refused.value)
    else
      var rows := RowsIn(acted, parent);
      var kept := Where(rows, Negation(condition));
      WhereShrinks(rows, Negation(condition));
      Deleted(acted[parent := kept], |rows| - |kept|)
  }

  function Delete(tables: Tables, fks: seq<ForeignKey>, parent: string, condition: Condition): Outcome {
    if parent !in tables then NoSuchTable else Finish(tables, Referencing(fks, parent), parent, condition)
  }

  lemma {:induction false} WhereShrinks(rows: seq<Row>, condition: Condition)
    ensures |Where(rows, condition)| <= |rows|
  {
    if rows != [] { WhereShrinks(rows[1..], condition); }
  }

  lemma {:induction false} CollectTurn(fks: seq<ForeignKey>, i: nat, parent: string, actions: seq<ForeignKey>)
    requires i < |fks|
    ensures (actions + Referencing(fks[i..], parent) ==
      (if fks[i].parent == parent then actions + [fks[i]] else actions) + Referencing(fks[i + 1..], parent))
  {
    assert fks[i..][1..] == fks[i + 1..];
  }

  /** The foreign keys that refer to the table. */
  method CollectActions(fks: seq<ForeignKey>, parent: string) returns (actions: seq<ForeignKey>)
    ensures actions == Referencing(fks, parent)
  {
    actions := [];
    for i := 0 to |fks|
      invariant Referencing(fks, parent) == actions + Referencing(fks[i..], parent)
    {
      CollectTurn(fks, i, parent, actions);
      if fks[i].parent == parent { actions := actions + [fks[i]]; }
    }
  }

  class Engine {
    var tables: Tables
    var foreignKeys: seq<ForeignKey>

    constructor ()
      ensures tables == map[] && foreignKeys == []
    {
      tables, foreignKeys := map[], [];
    }

    /** Lets one foreign key act; `false`: it refuses. */
    method RunAction(fk: ForeignKey, condition: Condition) returns (ok: bool)
      modifies this`tables
      ensures (match Act(old(tables), fk, condition)
        case None => !ok && tables == old(tables)
        case Some(next) => ok && tables == next)
    {
      var keys := KeysIn(Where(RowsIn(tables, fk.parent), condition), fk.refColumn);
      if keys == {} { return true; }
      var children := RowsIn(tables, fk.child);
      if KeysIn(children, fk.column) * keys == {} { return true; }
      match fk.onDelete {
        case Cascade => tables := tables[fk.child := Where(children, NotIn(fk.column, keys))];
        case SetNull => tables := tables[fk.child := NullifyKeys(children, fk.column, keys)];
        case Restrict => return false;
      }
      ok := true;
    }

    /** Keeps the rows for which the negated condition is true. */
    method RemoveRows(parent: string, condition: Condition) returns (count: nat)
      modifies this`tables
      ensures Finish(old(tables), [], parent, condition) == Deleted(tables, count)
    {
      var rows := RowsIn(tables, parent);
      var kept := Where(rows, Negation(condition));
      WhereShrinks(rows, Negation(condition));
      tables := tables[parent := kept];
      count := |rows| - |kept|;
    }

    method HandleDelete(parent: string, condition: Condition) returns (r: Result<nat>)
      modifies this`tables
      ensures var o := Delete(old(tables), foreignKeys, parent, condition);
        match o
        case NoSuchTable => r.Err? && tables == old(tables)
        case Restricted(acted, _) => r.Err? && tables == acted
        case Deleted(acted, count) => r == Ok(count) && tables == acted
    {
      if parent !in tables { return Err("table does not exist"); }
      var actions := CollectActions(foreignKeys, parent);
      ghost var outcome := Finish(tables, actions, parent, condition);
      var i := 0;
      while i < |actions|
        modifies this`tables
        invariant i <= |actions|
        invariant Finish(tables, actions[i..], parent, condition) == outcome
      {
        assert actions[i..][0] == actions[i] && actions[i..][1..] == actions[i + 1..];
        var ok := RunAction(actions[i], condition);
        if !ok { return Err("foreign key restricts"); }
        i := i + 1;
      }
      var count := RemoveRows(parent, condition);
      r := Ok(count);
    }
  }

  // ── Integrity ────────────────────────────────────────────────

  /** Every child key that is not null has a parent row. */
  predicate Intact(tables: Tables, fk: ForeignKey) {
    KeysIn(RowsIn(tables, fk.child), fk.column) <= KeysIn(RowsIn(tables, fk.parent), fk.refColumn)
  }

  lemma {:induction false} KeysNotIn(rows: seq<Row>, column: nat, keys: set<Value>)
    ensures KeysIn(Where(rows, NotIn(column, keys)), column) == KeysIn(rows, column) - keys
  {
    var kept := Where(rows, NotIn(column, keys));
    forall r ensures r in kept <==> r in rows && Cell(r, column) != Null && Cell(r, column) !in keys {
      WhereMember(rows, NotIn(column, keys), r);
    }
    forall v | v in KeysIn(rows, column) - keys ensures v in KeysIn(kept, column) {
      var r :| r in rows && Cell(r, column) == v;
      assert r in kept;
    }
  }

  lemma {:induction false} KeysOfSubset(some: seq<Row>, rows: seq<Row>, column: nat)
    requires forall r :: r in some ==> r in rows
    ensures KeysIn(some, column) <= KeysIn(rows, column)
  {
  }

  lemma {:induction false} KeysNullified(rows: seq<Row>, column: nat, keys: set<Value>, other: nat)
    ensures KeysIn(NullifyKeys(rows, column, keys), column) == KeysIn(rows, column) - keys
    ensures KeysIn(NullifyKeys(rows, column, keys), other) <= KeysIn(rows, other)
  {
    var after := NullifyKeys(rows, column, keys);
    forall v | v in KeysIn(rows, column) - keys ensures v in KeysIn(after, column) {
      var r :| r in rows && Cell(r, column) == v;
      var i :| 0 <= i < |rows| && rows[i] == r;
      assert after[i] == r;
    }
    forall r | r in after ensures Cell(r, column) !in keys || Cell(r, column) == Null {
      var i :| 0 <= i < |after| && after[i] == r;
      assert r == Nullified(rows[i], column, keys);
    }
    forall r, c: nat | r in after && Cell(r, c) != Null ensures Cell(r, c) in KeysIn(rows, c) {
      var i :| 0 <= i < |after| && after[i] == r;
      assert r == Nullified(rows[i], column, keys);
      assert Cell(rows[i], c) == Cell(r, c);
    }
  }

  /** What one foreign key does: it removes the deleted keys from its child column, and adds no key anywhere. */
  lemma {:induction false} ActEffect(tables: Tables, fk: ForeignKey, condition: Condition, after: Tables, keys: set<Value>)
    requires fk.child != fk.parent && Act(tables, fk, condition) == Some(after)
    requires keys == KeysIn(Where(RowsIn(tables, fk.parent), condition), fk.refColumn)
    ensures KeysIn(RowsIn(after, fk.child), fk.column) == KeysIn(RowsIn(tables, fk.child), fk.column) - keys
    ensures forall t, c: nat :: KeysIn(RowsIn(after, t), c) <= KeysIn(RowsIn(tables, t), c)
    ensures forall t :: t != fk.child ==> RowsIn(after, t) == RowsIn(tables, t)
  {
    var children := RowsIn(tables, fk.child);
    if keys == {} || KeysIn(children, fk.column) * keys == {} {
      var held := KeysIn(children, fk.column);
      assert forall v :: v in held && v in keys ==> v in held * keys;
      assert held - keys == held;
    } else if fk.onDelete == Cascade {
      KeysNotIn(children, fk.column, keys);
      var kept := Where(children, NotIn(fk.column, keys));
      forall r | r in kept ensures r in children { WhereMember(children, NotIn(fk.column, keys), r); }
      forall t, c: nat ensures KeysIn(RowsIn(after, t), c) <= KeysIn(RowsIn(tables, t), c) {
        KeysOfSubset(kept, children, c);
      }
    } else {
      KeysNullified(children, fk.column, keys, fk.column);
      forall t, c: nat ensures KeysIn(RowsIn(after, t), c) <= KeysIn(RowsIn(tables, t), c) {
        KeysNullified(children, fk.column, keys, c);
      }
    }
  }

  /** All foreign keys of `actions` refer to one parent that none of them rewrites. */
  predicate ToParent(actions: seq<ForeignKey>, parent: string) {
    forall i :: 0 <= i < |actions| ==> actions[i].parent == parent && actions[i].child != parent
  }

  /** Keys only disappear; the parent keeps its rows; a table that is no child keeps its rows. */
  lemma {:induction false} ActAllShrinks(tables: Tables, actions: seq<ForeignKey>, parent: string, condition: Condition)
    requires ToParent(actions, parent)
    ensures var after := ActAll(tables, actions, condition).0;
      && RowsIn(after, parent) == RowsIn(tables, parent)
      && (parent in after <==> parent in tables)
      && (forall t, c: nat :: KeysIn(RowsIn(after, t), c) <= KeysIn(RowsIn(tables, t), c))
      && (forall t :: (forall i :: 0 <= i < |actions| ==> actions[i].child != t) ==> RowsIn(after, t) == RowsIn(tables, t))
    decreases |actions|
  {
    if actions != [] && Act(tables, actions[0], condition).Some? {
      var next := Act(tables, actions[0], condition).value;
      ActEffect(tables, actions[0], condition, next,
                KeysIn(Where(RowsIn(tables, parent), condition), actions[0].refColumn));
      ActAllShrinks(next, actions[1..], parent, condition);
      forall t | forall i :: 0 <= i < |actions| ==> actions[i].child != t
        ensures RowsIn(ActAll(tables, actions, condition).0, t) == RowsIn(tables, t)
      {
        assert actions[0].child != t;
        forall i | 0 <= i < |actions[1..]| ensures actions[1..][i].child != t {
          assert actions[1..][i] == actions[i + 1];
        }
      }
    }
  }

  /** When no foreign key refuses, no child key among the deleted ones is left. */
  lemma {:induction false} ActAllClears(tables: Tables, actions: seq<ForeignKey>, parent: string, condition: Condition, i: nat)
    requires ToParent(actions, parent) && i < |actions|
    requires ActAll(tables, actions, condition).1 == None
    ensures var after := ActAll(tables, actions, condition).0;
      KeysIn(RowsIn(after, actions[i].child), actions[i].column)
        !! KeysIn(Where(RowsIn(tables, parent), condition), actions[i].refColumn)
    decreases |actions|
  {
    var next := Act(tables, actions[0], condition).value;
    ActEffect(tables, actions[0], condition, next,
              KeysIn(Where(RowsIn(tables, parent), condition), actions[0].refColumn));
    if i == 0 {
      ActAllShrinks(next, actions[1..], parent, condition);
    } else {
      ActAllClears(next, actions[1..], parent, condition, i - 1);
    }
  }

  lemma {:induction false} ReferencingHas(fks: seq<ForeignKey>, parent: string, fk: ForeignKey)
    ensures fk in Referencing(fks, parent) <==> fk in fks && fk.parent == parent
  {
    if fks != [] {
      assert fk in fks <==> fk == fks[0] || fk in fks[1..];
      ReferencingHas(fks[1..], parent, fk);
    }
  }

  /** `parent` does not refer to itself. */
  predicate NoSelfReference(fks: seq<ForeignKey>, parent: string) {
    forall fk :: fk in fks && fk.parent == parent ==> fk.child != parent
  }

  lemma {:induction false} ActionsToParent(fks: seq<ForeignKey>, parent: string)
    requires NoSelfReference(fks, parent)
    ensures ToParent(Referencing(fks, parent), parent)
  {
    var actions := Referencing(fks, parent);
    forall i | 0 <= i < |actions| ensures actions[i].parent == parent && actions[i].child != parent {
      ReferencingHas(fks, parent, actions[i]);
    }
  }

  /** Keys that only rows of unknown condition hold, among the rows that are not certainly deleted. */
  function UnknownKeys(rows: seq<Row>, condition: Condition, column: nat): set<Value> {
    KeysIn(Having(rows, condition, Unknown), column) - KeysIn(Having(rows, condition, False), column)
  }

  lemma {:induction false} HavingMember(rows: seq<Row>, condition: Condition, t: Truth, r: Row)
    ensures r in Having(rows, condition, t) <==> r in rows && condition(r) == t
  {
    WhereMember(rows, r => if condition(r) == t then True else False, r);
  }

  /** A row stays exactly when the condition is false; a row of unknown condition is deleted too. */
  lemma {:induction false} DeletedRows(tables: Tables, fks: seq<ForeignKey>, parent: string, condition: Condition, r: Row)
    requires Delete(tables, fks, parent, condition).Deleted? && NoSelfReference(fks, parent)
    ensures (r in RowsIn(Delete(tables, fks, parent, condition).tables, parent) <==>
      r in RowsIn(tables, parent) && condition(r) == False)
  {
    var actions := Referencing(fks, parent);
    ActionsToParent(fks, parent);
    ActAllShrinks(tables, actions, parent, condition);
    WhereMember(RowsIn(tables, parent), Negation(condition), r);
  }

  lemma {:induction false} RowsByTruth(rows: seq<Row>, kept: seq<Row>, condition: Condition, column: nat)
    requires forall r :: r in kept <==> r in rows && condition(r) == False
    ensures KeysIn(kept, column) == KeysIn(Having(rows, condition, False), column)
    ensures (KeysIn(rows, column) ==
      KeysIn(Where(rows, condition), column) + KeysIn(kept, column) + KeysIn(Having(rows, condition, Unknown), column))
  {
    forall r ensures r in Where(rows, condition) <==> r in rows && condition(r) == True {
      WhereMember(rows, condition, r);
    }
    forall r, t ensures r in Having(rows, condition, t) <==> r in rows && condition(r) == t {
      HavingMember(rows, condition, t, r);
    }
    forall v | v in KeysIn(rows, column)
      ensures v in KeysIn(Where(rows, condition), column) + KeysIn(kept, column) + KeysIn(Having(rows, condition, Unknown), column)
    {
      var r :| r in rows && Cell(r, column) == v;
      assert condition(r) == False ==> r in kept;
      assert condition(r) == Unknown ==> r in Having(rows, condition, Unknown);
      assert condition(r) == True ==> r in Where(rows, condition);
    }
  }

  /**
   A completed DELETE keeps a foreign key intact exactly when no child left behind refers to a key
   that only parent rows of unknown condition held.
   */
  lemma {:induction false} DeleteKeepsKeyExactly(tables: Tables, fks: seq<ForeignKey>, parent: string, condition: Condition,
                              fk: ForeignKey, after: Tables)
    requires NoSelfReference(fks, parent) && fk in fks && fk.parent == parent && Intact(tables, fk)
    requires Delete(tables, fks, parent, condition).Deleted?
    requires after == Delete(tables, fks, parent, condition).tables
    ensures (Intact(after, fk) <==>
      KeysIn(RowsIn(after, fk.child), fk.column) !! UnknownKeys(RowsIn(tables, parent), condition, fk.refColumn))
  {
    var actions := Referencing(fks, parent);
    var rows := RowsIn(tables, parent);
    ActionsToParent(fks, parent);
    ReferencingHas(fks, parent, fk);
    var i :| 0 <= i < |actions| && actions[i] == fk;
    ActAllClears(tables, actions, parent, condition, i);
    ActAllShrinks(tables, actions, parent, condition);
    var kept := RowsIn(after, parent);
    forall r ensures r in kept <==> r in rows && condition(r) == False {
      DeletedRows(tables, fks, parent, condition, r);
    }
    RowsByTruth(rows, kept, condition, fk.refColumn);
    var left := KeysIn(RowsIn(after, fk.child), fk.column);
    var acted := ActAll(tables, actions, condition).0;
    assert RowsIn(after, fk.child) == RowsIn(acted, fk.child);
    assert left <= KeysIn(RowsIn(tables, fk.child), fk.column) <= KeysIn(rows, fk.refColumn);
  }

  /** The keys left in a child that has one foreign key to the parent. */
  lemma {:induction false} ChildKeysLeft(tables: Tables, actions: seq<ForeignKey>, parent: string, condition: Condition,
                                         fk: ForeignKey, keys: set<Value>)
    requires ToParent(actions, parent) && fk in actions
    requires forall i :: 0 <= i < |actions| && actions[i].child == fk.child ==> actions[i] == fk
    requires ActAll(tables, actions, condition).1 == None
    requires keys == KeysIn(Where(RowsIn(tables, parent), condition), fk.refColumn)
    ensures (KeysIn(RowsIn(ActAll(tables, actions, condition).0, fk.child), fk.column) ==
      KeysIn(RowsIn(tables, fk.child), fk.column) - keys)
    decreases |actions|
  {
    var next := Act(tables, actions[0], condition).value;
    var more := actions[1..];
    ActEffect(tables, actions[0], condition, next,
              KeysIn(Where(RowsIn(tables, parent), condition), actions[0].refColumn));
    if fk in more {
      ChildKeysLeft(next, more, parent, condition, fk, keys);
    } else {
      assert actions[0] == fk;
      forall i | 0 <= i < |more| ensures more[i].child != fk.child { assert more[i] in more && more[i] == actions[i + 1]; }
      ActAllShrinks(next, more, parent, condition);
    }
  }

  /** The same condition before the statement, for a child with one foreign key to the parent. */
  lemma {:induction false} DeleteKeepsKeyCheckable(tables: Tables, fks: seq<ForeignKey>, parent: string, condition: Condition,
                                fk: ForeignKey, after: Tables)
    requires NoSelfReference(fks, parent) && fk in fks && fk.parent == parent && Intact(tables, fk)
    requires forall g :: g in fks && g.parent == parent && g.child == fk.child ==> g == fk
    requires Delete(tables, fks, parent, condition).Deleted?
    requires after == Delete(tables, fks, parent, condition).tables
    ensures (Intact(after, fk) <==>
      KeysIn(RowsIn(tables, fk.child), fk.column) - KeysIn(Where(RowsIn(tables, parent), condition), fk.refColumn)
        !! UnknownKeys(RowsIn(tables, parent), condition, fk.refColumn))
  {
    var actions := Referencing(fks, parent);
    ActionsToParent(fks, parent);
    ReferencingHas(fks, parent, fk);
    forall i | 0 <= i < |actions| && actions[i].child == fk.child ensures actions[i] == fk {
      ReferencingHas(fks, parent, actions[i]);
    }
    ChildKeysLeft(tables, actions, parent, condition, fk, KeysIn(Where(RowsIn(tables, parent), condition), fk.refColumn));
    DeleteKeepsKeyExactly(tables, fks, parent, condition, fk, after);
    assert RowsIn(after, fk.child) == RowsIn(ActAll(tables, actions, condition).0, fk.child);
  }

  /** A condition that is never unknown on the parent's rows. */
  predicate Decided(rows: seq<Row>, condition: Condition) {
    forall r :: r in rows ==> condition(r) != Unknown
  }

  /** No child of `parent` is itself referred to: CASCADE goes one level deep. */
  predicate OneLevel(fks: seq<ForeignKey>, parent: string) {
    forall a, b :: a in fks && b in fks && a.parent == parent ==> b.parent != a.child
  }

  predicate AllIntact(tables: Tables, fks: seq<ForeignKey>) { forall fk :: fk in fks ==> Intact(tables, fk) }

  lemma {:induction false} OtherKeysStay(tables: Tables, fks: seq<ForeignKey>, parent: string, condition: Condition, fk: ForeignKey)
    requires OneLevel(fks, parent) && fk in fks && Intact(tables, fk)
    ensures Intact(ActAll(tables, Referencing(fks, parent), condition).0, fk)
  {
    var actions := Referencing(fks, parent);
    forall i | 0 <= i < |actions| ensures actions[i].child != fk.parent && actions[i] in fks && actions[i].parent == parent {
      ReferencingHas(fks, parent, actions[i]);
    }
    ActionsToParent(fks, parent);
    ActAllShrinks(tables, actions, parent, condition);
  }

  /**
   Referential integrity: whatever mix of actions the foreign keys have, a DELETE keeps every one of
   them intact, also when a RESTRICT stops it after other children were rewritten.
   */
  lemma {:induction false} DeleteKeepsIntegrity(tables: Tables, fks: seq<ForeignKey>, parent: string, condition: Condition)
    requires AllIntact(tables, fks) && OneLevel(fks, parent)
    requires Decided(RowsIn(tables, parent), condition)
    ensures var o := Delete(tables, fks, parent, condition);
      match o
      case NoSuchTable => parent !in tables
      case Restricted(after, _) => AllIntact(after, fks) && RowsIn(after, parent) == RowsIn(tables, parent)
      case Deleted(after, _) => AllIntact(after, fks)
  {
    if parent in tables {
      var actions := Referencing(fks, parent);
      var acted := ActAll(tables, actions, condition).0;
      ActionsToParent(fks, parent);
      ActAllShrinks(tables, actions, parent, condition);
      forall fk | fk in fks ensures Intact(acted, fk) { OtherKeysStay(tables, fks, parent, condition, fk); }
      var o := Delete(tables, fks, parent, condition);
      if o.Deleted? {
        forall fk | fk in fks ensures Intact(o.tables, fk) {
          AfterParent(tables, fks, parent, condition, fk, acted, o.tables);
        }
      }
    }
  }

  lemma {:induction false} AfterParent(tables: Tables, fks: seq<ForeignKey>, parent: string, condition: Condition, fk: ForeignKey,
                    acted: Tables, after: Tables)
    requires OneLevel(fks, parent) && fk in fks && Intact(tables, fk) && Intact(acted, fk)
    requires Decided(RowsIn(tables, parent), condition)
    requires acted == ActAll(tables, Referencing(fks, parent), condition).0
    requires Delete(tables, fks, parent, condition).Deleted?
    requires after == Delete(tables, fks, parent, condition).tables
    ensures Intact(after, fk)
  {
    if fk.parent == parent {
      forall r ensures r !in Having(RowsIn(tables, parent), condition, Unknown) {
        HavingMember(RowsIn(tables, parent), condition, Unknown, r);
      }
      DeleteKeepsKeyExactly(tables, fks, parent, condition, fk, after);
    } else {
      var kept := RowsIn(after, parent);
      forall r | r in kept ensures r in RowsIn(acted, parent) {
        WhereMember(RowsIn(acted, parent), Negation(condition), r);
      }
      KeysOfSubset(kept, RowsIn(acted, parent), fk.column);
      assert RowsIn(after, fk.parent) == RowsIn(acted, fk.parent);
    }
  }

  // ── RESTRICT ─────────────────────────────────────────────────

  /** The child row has a key, and the parent row holds it. */
  predicate Refers(fk: ForeignKey, child: Row, parent: Row) {
    && fk.column < |child| && fk.refColumn < |parent|
    && child[fk.column] != Null && child[fk.column] == parent[fk.refColumn]
  }

  /** A row about to be deleted has a child. */
  predicate Blocks(tables: Tables, fk: ForeignKey, condition: Condition) {
    exists c, p :: c in RowsIn(tables, fk.child) && p in RowsIn(tables, fk.parent) && condition(p) == True && Refers(fk, c, p)
  }

  lemma {:induction false} BlocksByKeys(tables: Tables, fk: ForeignKey, condition: Condition)
    ensures Blocks(tables, fk, condition) <==>
      KeysIn(RowsIn(tables, fk.child), fk.column) * KeysIn(Where(RowsIn(tables, fk.parent), condition), fk.refColumn) != {}
  {
    var children, parents := RowsIn(tables, fk.child), RowsIn(tables, fk.parent);
    var held, gone := KeysIn(children, fk.column), KeysIn(Where(parents, condition), fk.refColumn);
    forall p ensures p in Where(parents, condition) <==> p in parents && condition(p) == True { WhereMember(parents, condition, p); }
    if Blocks(tables, fk, condition) {
      var c, p :| c in children && p in parents && condition(p) == True && Refers(fk, c, p);
      assert Cell(c, fk.column) in held && Cell(p, fk.refColumn) in gone;
      assert Cell(c, fk.column) in held * gone;
    }
    if held * gone != {} {
      var v :| v in held * gone;
      var c :| c in children && Cell(c, fk.column) != Null && Cell(c, fk.column) == v;
      var p :| p in Where(parents, condition) && Cell(p, fk.refColumn) != Null && Cell(p, fk.refColumn) == v;
      assert Refers(fk, c, p);
    }
  }

  /** One foreign key refuses exactly if it restricts and a row to be deleted has a child; without one no action changes anything. */
  lemma {:induction false} ActRefusesExactly(tables: Tables, fk: ForeignKey, condition: Condition)
    ensures Act(tables, fk, condition).None? <==> fk.onDelete == Restrict && Blocks(tables, fk, condition)
    ensures !Blocks(tables, fk, condition) ==> Act(tables, fk, condition) == Some(tables)
  {
    BlocksByKeys(tables, fk, condition);
    var keys := KeysIn(Where(RowsIn(tables, fk.parent), condition), fk.refColumn);
    if keys == {} { assert KeysIn(RowsIn(tables, fk.child), fk.column) * keys == {}; }
  }

  /** The foreign key is reached, and refuses with the tables as the actions before it have left them. */
  predicate RefusesAt(tables: Tables, actions: seq<ForeignKey>, condition: Condition, i: nat)
    requires i < |actions|
  {
    var (acted, refused) := ActAll(tables, actions[..i], condition);
    refused.None? && actions[i].onDelete == Restrict && Blocks(acted, actions[i], condition)
  }

  /** Some foreign key refuses at its turn. */
  predicate Refused(tables: Tables, actions: seq<ForeignKey>, condition: Condition) {
    exists i :: 0 <= i < |actions| && RefusesAt(tables, actions, condition, i)
  }

  lemma {:induction false} RefusesLater(tables: Tables, actions: seq<ForeignKey>, condition: Condition, i: nat)
    requires i + 1 < |actions| && Act(tables, actions[0], condition).Some?
    ensures RefusesAt(tables, actions, condition, i + 1) <==>
      RefusesAt(Act(tables, actions[0], condition).value, actions[1..], condition, i)
  {
    assert actions[..i + 1][0] == actions[0] && actions[..i + 1][1..] == actions[1..][..i];
    assert actions[1..][i] == actions[i + 1];
  }

  lemma {:induction false} RefusesFirst(tables: Tables, actions: seq<ForeignKey>, condition: Condition)
    requires actions != []
    ensures RefusesAt(tables, actions, condition, 0) <==> Act(tables, actions[0], condition).None?
    ensures Act(tables, actions[0], condition).None? ==>
      forall i :: 0 < i < |actions| ==> ActAll(tables, actions[..i], condition).1.Some?
  {
    ActRefusesExactly(tables, actions[0], condition);
    assert actions[..0] == [];
    forall i | 0 < i < |actions| ensures actions[..i] != [] && actions[..i][0] == actions[0] {}
  }

  lemma {:induction false} RefusedExactly(tables: Tables, actions: seq<ForeignKey>, condition: Condition)
    ensures ActAll(tables, actions, condition).1.Some? <==> Refused(tables, actions, condition)
    decreases |actions|
  {
    if actions != [] {
      RefusesFirst(tables, actions, condition);
      if Act(tables, actions[0], condition).Some? {
        var next, rest := Act(tables, actions[0], condition).value, actions[1..];
        RefusedExactly(next, rest, condition);
        forall i: nat | i < |rest| ensures RefusesAt(tables, actions, condition, i + 1) <==> RefusesAt(next, rest, condition, i) {
          RefusesLater(tables, actions, condition, i);
        }
        if i :| 0 <= i < |rest| && RefusesAt(next, rest, condition, i) { assert RefusesAt(tables, actions, condition, i + 1); }
        if i :| 0 <= i < |actions| && RefusesAt(tables, actions, condition, i) { assert RefusesAt(next, rest, condition, i - 1); }
      }
    }
  }

  /** A DELETE is refused if and only if one of the foreign keys to the table, at its turn, restricts and has a child to protect. */
  lemma {:induction false} DeleteRefusedExactly(tables: Tables, fks: seq<ForeignKey>, parent: string, condition: Condition)
    requires parent in tables
    ensures Delete(tables, fks, parent, condition).Restricted? <==> Refused(tables, Referencing(fks, parent), condition)
  {
    RefusedExactly(tables, Referencing(fks, parent), condition);
  }

  /** Of the foreign keys, those of this child restrict. */
  predicate RestrictsChild(actions: seq<ForeignKey>, child: string) {
    forall i :: 0 <= i < |actions| && actions[i].child == child ==> actions[i].onDelete == Restrict
  }

  /** A table keeps its rows if the only foreign keys it is a child of restrict. */
  lemma {:induction false} RestrictOnly(tables: Tables, actions: seq<ForeignKey>, condition: Condition, t: string)
    requires RestrictsChild(actions, t)
    ensures RowsIn(ActAll(tables, actions, condition).0, t) == RowsIn(tables, t)
    decreases |actions|
  {
    if actions != [] && Act(tables, actions[0], condition).Some? {
      ActRefusesExactly(tables, actions[0], condition);
      RestrictOnly(Act(tables, actions[0], condition).value, actions[1..], condition, t);
    }
  }

  /** No foreign key to the table that does not restrict has this child. */
  predicate OnlyRestricts(fks: seq<ForeignKey>, parent: string, child: string) {
    forall f :: f in fks && f.parent == parent && f.child == child ==> f.onDelete == Restrict
  }

  lemma {:induction false} ActionsRestrict(fks: seq<ForeignKey>, parent: string, child: string)
    requires OnlyRestricts(fks, parent, child)
    ensures RestrictsChild(Referencing(fks, parent), child)
  {
    var actions := Referencing(fks, parent);
    forall i | 0 <= i < |actions| && actions[i].child == child ensures actions[i].onDelete == Restrict {
      ReferencingHas(fks, parent, actions[i]);
    }
  }

  /** Whether the DELETE completes or is refused, the child of foreign keys that restrict has exactly its rows of before. */
  lemma {:induction false} RestrictKeepsChild(tables: Tables, fks: seq<ForeignKey>, parent: string, condition: Condition, child: string)
    requires parent in tables && child != parent && OnlyRestricts(fks, parent, child)
    ensures RowsIn(Delete(tables, fks, parent, condition).tables, child) == RowsIn(tables, child)
  {
    ActionsRestrict(fks, parent, child);
    RestrictOnly(tables, Referencing(fks, parent), condition, child);
  }

  lemma {:induction false} BlocksStays(tables: Tables, fks: seq<ForeignKey>, parent: string, condition: Condition, i: nat)
    requires NoSelfReference(fks, parent) && i < |Referencing(fks, parent)|
    requires OnlyRestricts(fks, parent, Referencing(fks, parent)[i].child)
    ensures var fk := Referencing(fks, parent)[i];
      Blocks(ActAll(tables, Referencing(fks, parent)[..i], condition).0, fk, condition) <==> Blocks(tables, fk, condition)
  {
    var actions := Referencing(fks, parent);
    var fk := actions[i];
    ReferencingHas(fks, parent, fk);
    ActionsToParent(fks, parent);
    ActionsRestrict(fks, parent, fk.child);
    RestrictOnly(tables, actions[..i], condition, fk.child);
    ActAllShrinks(tables, actions[..i], parent, condition);
  }

  /**
   The same on the state before the statement, if no child that a foreign key protects is rewritten by
   another: the DELETE is refused if and only if a row to be deleted has a child under RESTRICT.
   */
  lemma {:induction false} DeleteRefusedCheckable(tables: Tables, fks: seq<ForeignKey>, parent: string, condition: Condition)
    requires parent in tables && NoSelfReference(fks, parent)
    requires forall f :: f in fks && f.parent == parent && f.onDelete == Restrict ==> OnlyRestricts(fks, parent, f.child)
    ensures Delete(tables, fks, parent, condition).Restricted? <==>
      exists f :: f in fks && f.parent == parent && f.onDelete == Restrict && Blocks(tables, f, condition)
  {
    var actions := Referencing(fks, parent);
    DeleteRefusedExactly(tables, fks, parent, condition);
    if Refused(tables, actions, condition) {
      var i :| 0 <= i < |actions| && RefusesAt(tables, actions, condition, i);
      ReferencingHas(fks, parent, actions[i]);
      BlocksStays(tables, fks, parent, condition, i);
    }
    if f :| f in fks && f.parent == parent && f.onDelete == Restrict && Blocks(tables, f, condition) {
      ReferencingHas(fks, parent, f);
      var i :| 0 <= i < |actions| && actions[i] == f;
      BlocksStays(tables, fks, parent, condition, i);
      ReachedOrRefused(tables, actions, condition, i);
    }
  }

  lemma {:induction false} ReachedOrRefused(tables: Tables, actions: seq<ForeignKey>, condition: Condition, i: nat)
    requires i < |actions| && actions[i].onDelete == Restrict
    requires Blocks(ActAll(tables, actions[..i], condition).0, actions[i], condition)
    ensures Refused(tables, actions, condition)
  {
    if ActAll(tables, actions[..i], condition).1.Some? {
      RefusedBefore(tables, actions, condition, i);
    } else {
      assert RefusesAt(tables, actions, condition, i);
    }
  }

  lemma {:induction false} RefusedBefore(tables: Tables, actions: seq<ForeignKey>, condition: Condition, i: nat)
    requires i < |actions| && ActAll(tables, actions[..i], condition).1.Some?
    ensures Refused(tables, actions, condition)
  {
    RefusedExactly(tables, actions[..i], condition);
    var k :| 0 <= k < i && RefusesAt(tables, actions[..i], condition, k);
    assert actions[..i][..k] == actions[..k] && actions[..i][k] == actions[k];
    assert RefusesAt(tables, actions, condition, k);
  }

  /** If all foreign keys to the table restrict, a refused DELETE changes nothing, a table that refers to itself included. */
  lemma {:induction false} AllRestrict(tables: Tables, fks: seq<ForeignKey>, parent: string, condition: Condition)
    requires parent in tables && forall f :: f in fks && f.parent == parent ==> f.onDelete == Restrict
    ensures Delete(tables, fks, parent, condition).Restricted? <==> exists f :: f in fks && f.parent == parent && Blocks(tables, f, condition)
    ensures Delete(tables, fks, parent, condition).Restricted? ==> Delete(tables, fks, parent, condition).tables == tables
  {
    var actions := Referencing(fks, parent);
    forall f ensures f in actions <==> f in fks && f.parent == parent { ReferencingHas(fks, parent, f); }
    RestrictsInTurn(tables, actions, condition);
  }

  lemma {:induction false} RestrictsInTurn(tables: Tables, actions: seq<ForeignKey>, condition: Condition)
    requires forall f :: f in actions ==> f.onDelete == Restrict
    ensures ActAll(tables, actions, condition).0 == tables
    ensures ActAll(tables, actions, condition).1.Some? <==> exists f :: f in actions && Blocks(tables, f, condition)
    decreases |actions|
  {
    if actions != [] {
      ActRefusesExactly(tables, actions[0], condition);
      assert actions[0] in actions && forall f :: f in actions <==> f == actions[0] || f in actions[1..];
      if Act(tables, actions[0], condition).Some? { RestrictsInTurn(tables, actions[1..], condition); }
    }
  }

  // ── Two levels ───────────────────────────────────────────────

  lemma {:induction false} OneAct(tables: Tables, fk: ForeignKey, condition: Condition, g: ForeignKey, after: Tables)
    requires fk.child != fk.parent && g.child != g.parent && g.parent == fk.parent
    requires Act(tables, g, condition) == Some(after) && (g.child == fk.child ==> g == fk)
    ensures RowsIn(after, fk.parent) == RowsIn(tables, fk.parent)
    ensures (Act(after, fk, condition).Some? ==>
      Act(tables, fk, condition).Some?
      && RowsIn(Act(after, fk, condition).value, fk.child) == RowsIn(Act(tables, fk, condition).value, fk.child))
  {
    var keys := KeysIn(Where(RowsIn(tables, fk.parent), condition), g.refColumn);
    ActEffect(tables, g, condition, after, keys);
    if g == fk {
      assert KeysIn(RowsIn(after, fk.child), fk.column) * keys == {};
      assert Act(after, fk, condition) == Some(after);
    }
  }

  /** The rows left in a child that has one foreign key to the parent: the other actions do not matter. */
  lemma {:induction false} ChildRowsLeft(tables: Tables, actions: seq<ForeignKey>, parent: string, condition: Condition, fk: ForeignKey)
    requires ToParent(actions, parent) && fk in actions
    requires forall i :: 0 <= i < |actions| && actions[i].child == fk.child ==> actions[i] == fk
    requires ActAll(tables, actions, condition).1 == None
    ensures Act(tables, fk, condition).Some?
    ensures RowsIn(ActAll(tables, actions, condition).0, fk.child) == RowsIn(Act(tables, fk, condition).value, fk.child)
    decreases |actions|
  {
    var next := Act(tables, actions[0], condition).value;
    var more := actions[1..];
    if fk in more {
      ChildRowsLeft(next, more, parent, condition, fk);
      OneAct(tables, fk, condition, actions[0], next);
    } else {
      assert actions[0] == fk;
      forall i | 0 <= i < |more| ensures more[i].child != fk.child { assert more[i] in more && more[i] == actions[i + 1]; }
      ActAllShrinks(next, more, parent, condition);
    }
  }

  /** Keys of the child that only rows dropped by CASCADE hold. */
  function DroppedKeys(tables: Tables, fk: ForeignKey, condition: Condition, column: nat): set<Value> {
    var keys, children := KeysIn(Where(RowsIn(tables, fk.parent), condition), fk.refColumn), RowsIn(tables, fk.child);
    if KeysIn(children, fk.column) * keys == {} then {}
    else KeysIn(children, column) - KeysIn(Where(children, NotIn(fk.column, keys)), column)
  }

  lemma {:induction false} CascadeDrops(tables: Tables, fk: ForeignKey, condition: Condition, column: nat)
    requires fk.onDelete == Cascade
    ensures Act(tables, fk, condition).Some?
    ensures var before, left := KeysIn(RowsIn(tables, fk.child), column), KeysIn(RowsIn(Act(tables, fk, condition).value, fk.child), column);
      left <= before && before - left == DroppedKeys(tables, fk, condition, column)
  {
    var keys, children := KeysIn(Where(RowsIn(tables, fk.parent), condition), fk.refColumn), RowsIn(tables, fk.child);
    forall r | r in Where(children, NotIn(fk.column, keys)) ensures r in children {
      WhereMember(children, NotIn(fk.column, keys), r);
    }
    KeysOfSubset(Where(children, NotIn(fk.column, keys)), children, column);
  }

  /**
   CASCADE goes one level deep. A foreign key `g` to a child of `parent` stays intact if and only if
   no row left in the table of `g` refers to a key that only dropped rows of the child held. If no
   action touches that table, these are its rows of before the statement.
   */
  lemma {:induction false} CascadeKeepsGrandchildExactly(tables: Tables, fks: seq<ForeignKey>, parent: string, condition: Condition,
                                                         fk: ForeignKey, g: ForeignKey, after: Tables)
    requires NoSelfReference(fks, parent) && fk in fks && fk.parent == parent && fk.onDelete == Cascade
    requires forall f :: f in fks && f.parent == parent && f.child == fk.child ==> f == fk
    requires g.parent == fk.child && Intact(tables, g)
    requires Delete(tables, fks, parent, condition).Deleted? && after == Delete(tables, fks, parent, condition).tables
    ensures (Intact(after, g) <==>
      KeysIn(RowsIn(after, g.child), g.column) !! DroppedKeys(tables, fk, condition, g.refColumn))
    ensures (g.child != parent && (forall f :: f in fks && f.parent == parent ==> f.child != g.child) ==>
      RowsIn(after, g.child) == RowsIn(tables, g.child))
  {
    var actions := Referencing(fks, parent);
    var acted := ActAll(tables, actions, condition).0;
    ActionsToParent(fks, parent);
    ReferencingHas(fks, parent, fk);
    forall i | 0 <= i < |actions| ensures actions[i] in fks && actions[i].parent == parent { ReferencingHas(fks, parent, actions[i]); }
    ChildRowsLeft(tables, actions, parent, condition, fk);
    CascadeDrops(tables, fk, condition, g.refColumn);
    ActAllShrinks(tables, actions, parent, condition);
    assert RowsIn(after, fk.child) == RowsIn(acted, fk.child);
    assert KeysIn(RowsIn(after, g.child), g.column) <= KeysIn(RowsIn(tables, g.child), g.column) by {
      if g.child == parent {
        forall r | r in RowsIn(after, parent) ensures r in RowsIn(acted, parent) {
          WhereMember(RowsIn(acted, parent), Negation(condition), r);
        }
        KeysOfSubset(RowsIn(after, parent), RowsIn(acted, parent), g.column);
      }
    }
  }

  /** One parent row, deleted, and one child row that refers to it: CASCADE leaves none. */
  lemma {:induction false} OnlyChildGoes(tables: Tables, fk: ForeignKey, condition: Condition, parentRow: Row, childRow: Row, key: Value)
    requires RowsIn(tables, fk.parent) == [parentRow] && RowsIn(tables, fk.child) == [childRow]
    requires condition(parentRow) == True && Cell(parentRow, fk.refColumn) == key == Cell(childRow, fk.column) && key != Null
    requires fk.onDelete == Cascade
    ensures Act(tables, fk, condition) == Some(tables[fk.child := []])
  {
    var keys := KeysIn(Where([parentRow], condition), fk.refColumn);
    assert parentRow in [parentRow] && childRow in [childRow] && [childRow][1..] == [];
    WhereMember([parentRow], condition, parentRow);
    assert key in keys && key in KeysIn([childRow], fk.column);
    assert key in KeysIn([childRow], fk.column) * keys;
    assert Where([childRow], NotIn(fk.column, keys)) == [];
  }

  /** Parent, child and grandchild with one row each: the grandchild is orphaned. */
  lemma {:induction false} CascadeOrphans(p: string, c: string, d: string, key: Value, id: Value)
    requires p != c && p != d && c != d && key != Null && id != Null
    ensures var tables := map[p := [[key]], c := [[id, key]], d := [[id]]];
      var fk, g := ForeignKey(c, 1, p, 0, Cascade), ForeignKey(d, 0, c, 0, Cascade);
      var o := Delete(tables, [fk, g], p, (r: Row) => True);
      Intact(tables, fk) && Intact(tables, g) && o.Deleted? && RowsIn(o.tables, d) == [[id]] && !Intact(o.tables, g)
  {
    var tables: Tables := map[p := [[key]], c := [[id, key]], d := [[id]]];
    var fk, g := ForeignKey(c, 1, p, 0, Cascade), ForeignKey(d, 0, c, 0, Cascade);
    var all: Condition := (r: Row) => True;
    var parentRow, childRow, grandRow: Row := [key], [id, key], [id];
    assert parentRow in RowsIn(tables, p) && childRow in RowsIn(tables, c) && grandRow in RowsIn(tables, d);
    assert Cell(parentRow, 0) == key && Cell(childRow, 1) == key && Cell(childRow, 0) == id && Cell(grandRow, 0) == id;
    assert [fk, g][1..] == [g] && [g][1..] == [] && [fk][1..] == [];
    assert Referencing([g], p) == [] && Referencing([fk, g], p) == [fk];
    OnlyChildGoes(tables, fk, all, parentRow, childRow, key);
    assert ActAll(tables, [fk], all) == ActAll(tables[c := []], [], all) == (tables[c := []], None);
    var o := Delete(tables, [fk, g], p, all);
    assert RowsIn(o.tables, d) == [grandRow] && grandRow in RowsIn(o.tables, d);
    assert id in KeysIn(RowsIn(o.tables, d), 0);
    assert RowsIn(o.tables, c) == [];
  }

  // ── What the actions do to the rows ──────────────────────────

  /** A filter keeps a row as often as it was there, or drops all its copies. */
  lemma {:induction false} WhereCounts(rows: seq<Row>, condition: Condition, r: Row)
    ensures multiset(Where(rows, condition))[r] == if condition(r) == True then multiset(rows)[r] else 0
  {
    if rows != [] {
      assert rows == [rows[0]] + rows[1..];
      WhereCounts(rows[1..], condition, r);
    }
  }

  /** SET NULL changes the key cell of the rows that refer to a deleted key, and nothing else in any row. */
  lemma {:induction false} SetNullExact(tables: Tables, fk: ForeignKey, condition: Condition, keys: set<Value>, i: nat, c: nat)
    requires fk.onDelete == SetNull && fk.child != fk.parent
    requires keys == KeysIn(Where(RowsIn(tables, fk.parent), condition), fk.refColumn)
    requires i < |RowsIn(tables, fk.child)|
    ensures Act(tables, fk, condition).Some?
    ensures var before, after := RowsIn(tables, fk.child), RowsIn(Act(tables, fk, condition).value, fk.child);
      && |after| == |before| && |after[i]| == |before[i]|
      && Cell(after[i], c) == if c == fk.column && Cell(before[i], c) in keys then Null else Cell(before[i], c)
  {
    var children := RowsIn(tables, fk.child);
    assert children[i] in children;
    if keys == {} || KeysIn(children, fk.column) * keys == {} {
      assert Cell(children[i], fk.column) in keys ==> Cell(children[i], fk.column) in KeysIn(children, fk.column) * keys;
    }
  }

  /** CASCADE drops the children of deleted keys, and with them every child without a key. */
  lemma {:induction false} CascadeDropsKeylessChildren(tables: Tables, fk: ForeignKey, condition: Condition, keys: set<Value>, r: Row)
    requires fk.onDelete == Cascade
    requires keys == KeysIn(Where(RowsIn(tables, fk.parent), condition), fk.refColumn)
    requires KeysIn(RowsIn(tables, fk.child), fk.column) * keys != {}
    ensures Act(tables, fk, condition).Some?
    ensures (r in RowsIn(Act(tables, fk, condition).value, fk.child) <==>
      r in RowsIn(tables, fk.child) && Cell(r, fk.column) != Null && Cell(r, fk.column) !in keys)
  {
    WhereMember(RowsIn(tables, fk.child), NotIn(fk.column, keys), r);
  }

  /** With a condition that can be unknown a child may lose its parent. */
  lemma {:induction false} UnknownOrphans()
    ensures var tables := map["p" := [[Int(1), Null]], "c" := [[Int(1)]]];
      var fk := ForeignKey("c", 0, "p", 0, Restrict);
      var condition := (r: Row) => if Cell(r, 1) == Null then Unknown else True;
      && Intact(tables, fk)
      && Delete(tables, [fk], "p", condition).Deleted?
      && !Intact(Delete(tables, [fk], "p", condition).tables, fk)
  {
    var tables := map["p" := [[Int(1), Null]], "c" := [[Int(1)]]];
    var fk := ForeignKey("c", 0, "p", 0, Restrict);
    var condition := (r: Row) => if Cell(r, 1) == Null then Unknown else True;
    var p, c: Row := [Int(1), Null], [Int(1)];
    assert p in RowsIn(tables, "p") && Cell(p, 0) == Int(1);
    assert c in RowsIn(tables, "c") && Cell(c, 0) == Int(1);
    assert Int(1) in KeysIn(RowsIn(tables, "p"), 0) && Int(1) in KeysIn(RowsIn(tables, "c"), 0);
    assert [p][1..] == [];
    assert Where([p], condition) == [];
    assert Referencing([fk], "p") == [fk];
    assert Act(tables, fk, condition) == Some(tables);
    assert ActAll(tables, [fk], condition) == ActAll(tables, [fk][1..], condition) == (tables, None);
    var after := Delete(tables, [fk], "p", condition).tables;
    assert RowsIn(after, "p") == [] && RowsIn(after, "c") == RowsIn(tables, "c");
  }
}
