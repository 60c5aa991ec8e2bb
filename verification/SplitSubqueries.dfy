/**
 The optimizer rule that splits a projection with several scalar subqueries into nested projections
 with one each: plans, their meaning, the rule, and what the rule preserves.
 */
module SplitSubqueries {
  import opened Text
  import opened Values

  // ── Plans ────────────────────────────────────────────────────

  /** A column reference or a field of a schema: an optional relation and a name. */
  datatype Column = Column(relation: Option<string>, name: string)

  /** A subquery knows its outer references; what it computes from them is left to the semantics. */
  datatype Expr =
    | ColumnExpr(column: Column)
    | Literal(value: Value)
    | Alias(relation: Option<string>, expr: Expr, name: string)
    | Apply(op: nat, args: seq<Expr>)
    | ScalarSubquery(id: nat, outer: seq<Column>)

  datatype Plan =
    | Source(schema: seq<Column>, rows: seq<seq<Value>>)
    | Projection(exprs: seq<Expr>, input: Plan)

  /** The printed name of an unnamed expression, and what subqueries and operators compute. */
  datatype Semantics = Semantics(
    display: Expr -> string,
    subquery: (nat, seq<Value>) -> Value,
    apply: (nat, seq<Value>) -> Value)

  // ── Names ────────────────────────────────────────────────────

  /** An unqualified reference matches any field of that name, a qualified one only its own. */
  predicate Matches(c: Column, field: Column) {
    c.name == field.name && (c.relation.None? || c.relation == field.relation)
  }

  /** The first matching field. */
  function Find(schema: seq<Column>, c: Column): (r: Option<nat>)
    ensures r.Some? ==> r.value < |schema| && Matches(c, schema[r.value])
    ensures r.Some? ==> forall i :: 0 <= i < r.value ==> !Matches(c, schema[i])
    ensures r.None? ==> forall i :: 0 <= i < |schema| ==> !Matches(c, schema[i])
  {
    if schema == [] then None
    else if Matches(c, schema[0]) then Some(0)
    else
      match Find(schema[1..], c)
      case Some(i) =>
        assert forall j :: 0 <= j < i + 1 ==> j == 0 || schema[j] == schema[1..][j - 1];
        Some(i + 1)
      case None =>
        assert forall j :: 0 <= j < |schema| ==> j == 0 || schema[j] == schema[1..][j - 1];
        None
  }

  /** Two fields that a reference could confuse. */
  predicate Ambiguous(a: Column, b: Column) {
    a.name == b.name && (a.relation == b.relation || a.relation.None? || b.relation.None?)
  }

  /** The check that a schema is built with. */
  predicate Unambiguous(schema: seq<Column>) {
    forall i, j :: 0 <= i < j < |schema| ==> !Ambiguous(schema[i], schema[j])
  }

  ghost function FieldOf(sem: Semantics, e: Expr): Column {
    match e
    case ColumnExpr(c) => c
    case Alias(relation, _, name) => Column(relation, name)
    case _ => Column(None, sem.display(e))
  }

  ghost function FieldsOf(sem: Semantics, exprs: seq<Expr>): seq<Column> {
    seq(|exprs|, i requires 0 <= i < |exprs| => FieldOf(sem, exprs[i]))
  }

  ghost function SchemaOf(sem: Semantics, plan: Plan): seq<Column> {
    match plan
    case Source(schema, _) => schema
    case Projection(exprs, _) => FieldsOf(sem, exprs)
  }

  // ── Meaning ──────────────────────────────────────────────────

  predicate Resolves(schema: seq<Column>, e: Expr) {
    match e
    case ColumnExpr(c) => Find(schema, c).Some?
    case Literal(_) => true
    case Alias(_, inner, _) => Resolves(schema, inner)
    case Apply(_, args) => forall i :: 0 <= i < |args| ==> Resolves(schema, args[i])
    case ScalarSubquery(_, outer) => forall i :: 0 <= i < |outer| ==> Find(schema, outer[i]).Some?
  }

  function Eval(sem: Semantics, schema: seq<Column>, row: seq<Value>, e: Expr): Value
    requires Resolves(schema, e) && |row| == |schema|
  {
    match e
    case ColumnExpr(c) => row[Find(schema, c).value]
    case Literal(v) => v
    case Alias(_, inner, _) => Eval(sem, schema, row, inner)
    case Apply(op, args) =>
      sem.apply(op, seq(|args|, i requires 0 <= i < |args| => Eval(sem, schema, row, args[i])))
    case ScalarSubquery(id, outer) =>
      sem.subquery(id, seq(|outer|, i requires 0 <= i < |outer| => row[Find(schema, outer[i]).value]))
  }

  ghost predicate Valid(sem: Semantics, plan: Plan) {
    && Unambiguous(SchemaOf(sem, plan))
    && match plan
       case Source(schema, rows) => forall r :: 0 <= r < |rows| ==> |rows[r]| == |schema|
       case Projection(exprs, input) =>
         Valid(sem, input) && forall i :: 0 <= i < |exprs| ==> Resolves(SchemaOf(sem, input), exprs[i])
  }

  ghost function ProjectRow(sem: Semantics, schema: seq<Column>, row: seq<Value>, exprs: seq<Expr>): (r: seq<Value>)
    requires |row| == |schema| && forall i :: 0 <= i < |exprs| ==> Resolves(schema, exprs[i])
    ensures |r| == |exprs|
  {
    seq(|exprs|, i requires 0 <= i < |exprs| => Eval(sem, schema, row, exprs[i]))
  }

  /** The rows a plan yields. */
  ghost function RowsOfPlan(sem: Semantics, plan: Plan): (rows: seq<seq<Value>>)
    requires Valid(sem, plan)
    ensures forall r :: 0 <= r < |rows| ==> |rows[r]| == |SchemaOf(sem, plan)|
  {
    match plan
    case Source(_, rows) => rows
    case Projection(exprs, input) =>
      var rows := RowsOfPlan(sem, input);
      seq(|rows|, r requires 0 <= r < |rows| => ProjectRow(sem, SchemaOf(sem, input), rows[r], exprs))
  }

  // ── The rule ─────────────────────────────────────────────────

  predicate HasSubquery(e: Expr) {
    match e
    case ColumnExpr(_) => false
    case Literal(_) => false
    case Alias(_, inner, _) => HasSubquery(inner)
    case Apply(_, args) => exists i :: 0 <= i < |args| && HasSubquery(args[i])
    case ScalarSubquery(_, _) => true
  }

  /** The positions of the expressions with subqueries, in order, from `from` on. */
  function SubqueryIndices(exprs: seq<Expr>, from: nat): (r: seq<nat>)
    requires from <= |exprs|
    ensures forall k :: 0 <= k < |r| ==> from <= r[k] < |exprs|
    decreases |exprs| - from
  {
    if from == |exprs| then []
    else if HasSubquery(exprs[from]) then [from] + SubqueryIndices(exprs, from + 1)
    else SubqueryIndices(exprs, from + 1)
  }

  /** The subexpression at the end of a path: 0 leads through an alias, `i` to the i-th argument. */
  function At(e: Expr, path: seq<nat>): Option<Expr>
    decreases |path|
  {
    if path == [] then Some(e)
    else
      match e
      case Alias(_, inner, _) => if path[0] == 0 then At(inner, path[1..]) else None
      case Apply(_, args) => if path[0] < |args| then At(args[path[0]], path[1..]) else None
      case _ => None
  }

  predicate LeadsToSubquery(e: Expr, path: seq<nat>) {
    match At(e, path) case Some(end) => end.ScalarSubquery? case None => false
  }

  /** A scalar subquery occurs in the expression, under whatever aliases and operators. */
  ghost predicate Bears(e: Expr) { exists path :: LeadsToSubquery(e, path) }

  lemma {:induction false} LongerPath(e: Expr, i: nat, inner: Expr, path: seq<nat>)
    requires (e.Alias? && i == 0 && inner == e.expr) || (e.Apply? && i < |e.args| && inner == e.args[i])
    ensures At(e, [i] + path) == At(inner, path)
  {
    assert ([i] + path)[1..] == path;
  }

  /** The recursive search finds exactly the expressions that bear a subquery. */
  lemma {:induction false} HasSubqueryExact(e: Expr)
    ensures HasSubquery(e) <==> Bears(e)
  {
    if HasSubquery(e) { PathOf(e); }
    if path :| LeadsToSubquery(e, path) { FoundBy(e, path); }
  }

  lemma {:induction false} PathOf(e: Expr)
    requires HasSubquery(e)
    ensures Bears(e)
    decreases e
  {
    match e
    case ScalarSubquery(_, _) => assert LeadsToSubquery(e, []);
    case Alias(_, inner, _) =>
      PathOf(inner);
      var path :| LeadsToSubquery(inner, path);
      LongerPath(e, 0, inner, path);
      assert LeadsToSubquery(e, [0] + path);
    case Apply(_, args) =>
      var i :| 0 <= i < |args| && HasSubquery(args[i]);
      PathOf(args[i]);
      var path :| LeadsToSubquery(args[i], path);
      LongerPath(e, i, args[i], path);
      assert LeadsToSubquery(e, [i] + path);
  }

  lemma {:induction false} FoundBy(e: Expr, path: seq<nat>)
    requires LeadsToSubquery(e, path)
    ensures HasSubquery(e)
    decreases |path|
  {
    if path != [] {
      if e.Alias? { FoundBy(e.expr, path[1..]); } else { FoundBy(e.args[path[0]], path[1..]); }
    }
  }

  /** At most one expression bears a subquery. */
  ghost predicate AtMostOne(exprs: seq<Expr>) {
    forall i, j :: 0 <= i < j < |exprs| ==> !Bears(exprs[i]) || !Bears(exprs[j])
  }

  lemma {:induction false} CountExact(exprs: seq<Expr>)
    ensures Count(exprs) <= 1 <==> AtMostOne(exprs)
    ensures Count(exprs) > 0 ==> Bears(exprs[First(exprs)]) && forall i :: 0 <= i < First(exprs) ==> !Bears(exprs[i])
  {
    var r := SubqueryIndices(exprs, 0);
    IndicesExact(exprs, 0);
    forall i | 0 <= i < |exprs| ensures i in r <==> Bears(exprs[i]) { HasSubqueryExact(exprs[i]); }
    if |r| > 1 {
      assert r[0] in r && r[1] in r && r[0] < r[1];
    }
    if i, j :| 0 <= i < j < |exprs| && Bears(exprs[i]) && Bears(exprs[j]) {
      var a :| 0 <= a < |r| && r[a] == i;
      var b :| 0 <= b < |r| && r[b] == j;
      assert a != b;
    }
    if |r| > 0 {
      assert r[0] in r;
      assert forall a :: 0 <= a < |r| ==> r[0] <= r[a];
      assert forall i :: 0 <= i < r[0] ==> i !in r;
    }
  }

  /** The rule leaves a projection alone if and only if at most one of its expressions bears a subquery. */
  lemma {:induction false} RewriteLeavesExactly(sem: Semantics, exprs: seq<Expr>, input: Plan)
    ensures Rewrite(sem, Projection(exprs, input)) == Ok((false, Projection(exprs, input))) <==> AtMostOne(exprs)
  {
    CountExact(exprs);
  }

  /** The positions come in order, and they are those of the subquery-bearing expressions. */
  lemma {:induction false} IndicesExact(exprs: seq<Expr>, from: nat)
    requires from <= |exprs|
    ensures var r := SubqueryIndices(exprs, from);
      && (forall j, k :: 0 <= j < k < |r| ==> r[j] < r[k])
      && (forall i :: i in r <==> from <= i < |exprs| && HasSubquery(exprs[i]))
    decreases |exprs| - from
  {
    if from < |exprs| { IndicesExact(exprs, from + 1); }
  }

  function Count(exprs: seq<Expr>): nat { |SubqueryIndices(exprs, 0)| }

  function SqAlias(i: nat): string { "__potato_sq_" + Decimal(i) }

  function BaseExpr(e: Expr): Expr { if e.Alias? then e.expr else e }

  function InnerExprs(schema: seq<Column>, e: Expr, i: nat): seq<Expr> {
    seq(|schema|, k requires 0 <= k < |schema| => ColumnExpr(schema[k])) + [Alias(None, BaseExpr(e), SqAlias(i))]
  }

  /** The alias is kept without its relation. */
  function OuterRef(e: Expr, i: nat): Expr {
    var ref := ColumnExpr(Column(None, SqAlias(i)));
    if e.Alias? then Alias(None, ref, e.name) else ref
  }

  /** The name of the output that stands for a split expression. */
  function OuterName(e: Expr, i: nat): string { if e.Alias? then e.name else SqAlias(i) }

  /** One application: whether the plan changed and the plan; an error if a schema is ambiguous. */
  ghost function Rewrite(sem: Semantics, plan: Plan): Result<(bool, Plan)> {
    match plan
    case Source(_, _) => Ok((false, plan))
    case Projection(exprs, input) =>
      var indices := SubqueryIndices(exprs, 0);
      if |indices| <= 1 then Ok((false, plan)) else
        var i := indices[0];
        var inner := Projection(InnerExprs(SchemaOf(sem, input), exprs[i], i), input);
        var outer := Projection(exprs[i := OuterRef(exprs[i], i)], inner);
        if !Unambiguous(SchemaOf(sem, inner)) || !Unambiguous(SchemaOf(sem, outer))
        then Err("ambiguous reference")
        else Ok((true, outer))
  }

  // ── Extending a schema ───────────────────────────────────────

  lemma {:induction false} FindExtended(schema: seq<Column>, f: Column, c: Column)
    requires Find(schema, c).Some?
    ensures Find(schema + [f], c) == Find(schema, c)
  {
    var all := schema + [f];
    var i, j := Find(schema, c), Find(all, c);
    assert forall k :: 0 <= k < |schema| ==> all[k] == schema[k];
    assert Matches(c, all[i.value]);
    assert j.Some? && j.value <= i.value;
    assert all[j.value] == schema[j.value];
  }

  lemma {:induction false} FindLast(schema: seq<Column>, name: string)
    requires forall i :: 0 <= i < |schema| ==> schema[i].name != name
    ensures Find(schema + [Column(None, name)], Column(None, name)) == Some(|schema|)
  {
    var all := schema + [Column(None, name)];
    assert Matches(Column(None, name), all[|schema|]);
    forall i | 0 <= i < |schema| ensures !Matches(Column(None, name), all[i]) {
      assert all[i] == schema[i];
    }
  }

  /** In an unambiguous schema each field finds itself. */
  lemma {:induction false} FindSelf(schema: seq<Column>, k: nat)
    requires Unambiguous(schema) && k < |schema|
    ensures Find(schema, schema[k]) == Some(k)
  {
    var r := Find(schema, schema[k]);
    assert Matches(schema[k], schema[k]);
    if r.value < k {
      assert Ambiguous(schema[r.value], schema[k]);
    }
  }

  /** A column added at the end changes no value of an expression that resolved without it. */
  lemma {:induction false} EvalExtended(sem: Semantics, schema: seq<Column>, row: seq<Value>, f: Column, v: Value, e: Expr)
    requires Resolves(schema, e) && |row| == |schema|
    ensures Resolves(schema + [f], e)
    ensures Eval(sem, schema + [f], row + [v], e) == Eval(sem, schema, row, e)
    decreases e
  {
    match e
    case ColumnExpr(c) => FindExtended(schema, f, c);
    case Literal(_) =>
    case Alias(_, inner, _) => EvalExtended(sem, schema, row, f, v, inner);
    case Apply(op, args) =>
      forall i | 0 <= i < |args|
        ensures Resolves(schema + [f], args[i])
        ensures Eval(sem, schema + [f], row + [v], args[i]) == Eval(sem, schema, row, args[i])
      {
        EvalExtended(sem, schema, row, f, v, args[i]);
      }
      assert seq(|args|, i requires 0 <= i < |args| => Eval(sem, schema + [f], row + [v], args[i]))
          == seq(|args|, i requires 0 <= i < |args| => Eval(sem, schema, row, args[i]));
    case ScalarSubquery(id, outer) =>
      forall i | 0 <= i < |outer| ensures Find(schema + [f], outer[i]) == Find(schema, outer[i]) {
        FindExtended(schema, f, outer[i]);
      }
      assert seq(|outer|, i requires 0 <= i < |outer| => (row + [v])[Find(schema + [f], outer[i]).value])
          == seq(|outer|, i requires 0 <= i < |outer| => row[Find(schema, outer[i]).value]);
  }

  // ── One application of the rule ──────────────────────────────

  ghost predicate Splittable(sem: Semantics, exprs: seq<Expr>, input: Plan) {
    Valid(sem, Projection(exprs, input)) && Count(exprs) > 1
  }

  function First(exprs: seq<Expr>): nat
    requires Count(exprs) > 0
  {
    SubqueryIndices(exprs, 0)[0]
  }

  ghost function InnerPlan(sem: Semantics, exprs: seq<Expr>, input: Plan): Plan
    requires Count(exprs) > 0
  {
    Projection(InnerExprs(SchemaOf(sem, input), exprs[First(exprs)], First(exprs)), input)
  }

  function OuterExprs(exprs: seq<Expr>): seq<Expr>
    requires Count(exprs) > 0
  {
    exprs[First(exprs) := OuterRef(exprs[First(exprs)], First(exprs))]
  }

  lemma {:induction false} InnerSchema(sem: Semantics, exprs: seq<Expr>, input: Plan)
    requires Count(exprs) > 0
    ensures SchemaOf(sem, InnerPlan(sem, exprs, input)) == SchemaOf(sem, input) + [Column(None, SqAlias(First(exprs)))]
  {
  }

  lemma {:induction false} OuterFields(sem: Semantics, exprs: seq<Expr>)
    requires Count(exprs) > 0
    ensures var i := First(exprs);
      FieldsOf(sem, OuterExprs(exprs)) == FieldsOf(sem, exprs)[i := Column(None, OuterName(exprs[i], i))]
  {
  }

  lemma {:induction false} UnambiguousUpdate(schema: seq<Column>, i: nat, f: Column)
    requires Unambiguous(schema) && i < |schema|
    ensures Unambiguous(schema[i := f]) <==> forall k :: 0 <= k < |schema| && k != i ==> !Ambiguous(schema[k], f)
  {
    var s' := schema[i := f];
    if Unambiguous(s') {
      forall k | 0 <= k < |schema| && k != i ensures !Ambiguous(schema[k], f) {
        if k < i { assert !Ambiguous(s'[k], s'[i]); } else { assert !Ambiguous(s'[i], s'[k]); }
      }
    }
  }

  lemma {:induction false} UnambiguousAppend(schema: seq<Column>, f: Column)
    requires Unambiguous(schema)
    ensures Unambiguous(schema + [f]) <==> forall k :: 0 <= k < |schema| ==> !Ambiguous(schema[k], f)
  {
    var s' := schema + [f];
    if Unambiguous(s') {
      forall k | 0 <= k < |schema| ensures !Ambiguous(schema[k], f) {
        assert !Ambiguous(s'[k], s'[|schema|]);
      }
    }
  }

  /**
   The rule fails exactly on a name clash: when the input has a column with the name it makes up, or
   another output has the name that the split one goes by afterwards, without its relation.
   */
  lemma {:induction false} RewriteSucceedsExactly(sem: Semantics, exprs: seq<Expr>, input: Plan)
    requires Splittable(sem, exprs, input)
    ensures var i := First(exprs);
      Rewrite(sem, Projection(exprs, input)).Ok? <==>
        && (forall k :: 0 <= k < |SchemaOf(sem, input)| ==> SchemaOf(sem, input)[k].name != SqAlias(i))
        && (forall k :: 0 <= k < |exprs| && k != i ==> FieldOf(sem, exprs[k]).name != OuterName(exprs[i], i))
  {
    var i := First(exprs);
    var name, field := Column(None, SqAlias(i)), Column(None, OuterName(exprs[i], i));
    var schema, fields := SchemaOf(sem, input), FieldsOf(sem, exprs);
    assert Valid(sem, input);
    InnerSchema(sem, exprs, input);
    OuterFields(sem, exprs);
    UnambiguousAppend(schema, name);
    assert forall k :: 0 <= k < |schema| ==> (Ambiguous(schema[k], name) <==> schema[k].name == SqAlias(i));
    UnambiguousUpdate(fields, i, field);
    assert forall k :: 0 <= k < |fields| ==> (Ambiguous(fields[k], field) <==> FieldOf(sem, exprs[k]).name == field.name);
  }

  lemma {:induction false} InnerValid(sem: Semantics, exprs: seq<Expr>, input: Plan)
    requires Splittable(sem, exprs, input) && Unambiguous(SchemaOf(sem, InnerPlan(sem, exprs, input)))
    ensures Valid(sem, InnerPlan(sem, exprs, input))
  {
    var i, schema := First(exprs), SchemaOf(sem, input);
    var inner := InnerExprs(schema, exprs[i], i);
    assert Valid(sem, input);
    forall k | 0 <= k < |inner| ensures Resolves(schema, inner[k]) {
      if k < |schema| { FindSelf(schema, k); }
    }
  }

  lemma {:induction false} InnerRow(sem: Semantics, schema: seq<Column>, row: seq<Value>, e: Expr, i: nat)
    requires Unambiguous(schema) && |row| == |schema| && Resolves(schema, e)
    ensures forall k :: 0 <= k < |InnerExprs(schema, e, i)| ==> Resolves(schema, InnerExprs(schema, e, i)[k])
    ensures ProjectRow(sem, schema, row, InnerExprs(schema, e, i)) == row + [Eval(sem, schema, row, e)]
  {
    var inner := InnerExprs(schema, e, i);
    forall k | 0 <= k < |schema| ensures Resolves(schema, inner[k]) && Eval(sem, schema, row, inner[k]) == row[k] {
      FindSelf(schema, k);
    }
    var projected, extended := ProjectRow(sem, schema, row, inner), row + [Eval(sem, schema, row, e)];
    assert |projected| == |extended|;
    forall k | 0 <= k < |extended| ensures projected[k] == extended[k] {
      assert k == |schema| ==> Eval(sem, schema, row, inner[k]) == Eval(sem, schema, row, e);
    }
  }

  lemma {:induction false} OuterRow(sem: Semantics, schema: seq<Column>, row: seq<Value>, exprs: seq<Expr>, i: nat)
    requires Unambiguous(schema) && |row| == |schema| && i < |exprs|
    requires forall k :: 0 <= k < |exprs| ==> Resolves(schema, exprs[k])
    requires forall k :: 0 <= k < |schema| ==> schema[k].name != SqAlias(i)
    ensures var f := Column(None, SqAlias(i));
      var outer := exprs[i := OuterRef(exprs[i], i)];
      && (forall k :: 0 <= k < |outer| ==> Resolves(schema + [f], outer[k]))
      && ProjectRow(sem, schema + [f], row + [Eval(sem, schema, row, exprs[i])], outer) == ProjectRow(sem, schema, row, exprs)
  {
    var f, v := Column(None, SqAlias(i)), Eval(sem, schema, row, exprs[i]);
    var outer := exprs[i := OuterRef(exprs[i], i)];
    FindLast(schema, SqAlias(i));
    forall k | 0 <= k < |outer|
      ensures Resolves(schema + [f], outer[k])
      ensures Eval(sem, schema + [f], row + [v], outer[k]) == Eval(sem, schema, row, exprs[k])
    {
      if k != i { EvalExtended(sem, schema, row, f, v, exprs[k]); }
    }
  }

  lemma {:induction false} SameIndices(a: seq<Expr>, b: seq<Expr>, from: nat)
    requires |a| == |b| && from <= |a| && forall k :: from <= k < |a| ==> a[k] == b[k]
    ensures SubqueryIndices(a, from) == SubqueryIndices(b, from)
    decreases |a| - from
  {
    if from < |a| { SameIndices(a, b, from + 1); }
  }

  lemma {:induction false} IndicesAfterSplit(exprs: seq<Expr>, from: nat, i: nat, e: Expr)
    requires from <= i < |exprs| && SubqueryIndices(exprs, from) != [] && SubqueryIndices(exprs, from)[0] == i
    requires !HasSubquery(e)
    ensures SubqueryIndices(exprs[i := e], from) == SubqueryIndices(exprs, from)[1..]
    decreases |exprs| - from
  {
    var after := exprs[i := e];
    if from < i {
      assert !HasSubquery(exprs[from]) && after[from] == exprs[from];
      IndicesAfterSplit(exprs, from + 1, i, e);
    } else {
      SameIndices(exprs, after, i + 1);
    }
  }

  /** Each application leaves one subquery-bearing expression fewer. */
  lemma {:induction false} OuterCount(exprs: seq<Expr>)
    requires Count(exprs) > 0
    ensures SubqueryIndices(OuterExprs(exprs), 0) == SubqueryIndices(exprs, 0)[1..]
    ensures Count(OuterExprs(exprs)) == Count(exprs) - 1
  {
    IndicesAfterSplit(exprs, 0, First(exprs), OuterRef(exprs[First(exprs)], First(exprs)));
  }

  lemma {:induction false} InnerCountFrom(schema: seq<Column>, e: Expr, i: nat, from: nat)
    requires from <= |schema|
    ensures |SubqueryIndices(InnerExprs(schema, e, i), from)| <= 1
    decreases |schema| - from
  {
    if from < |schema| {
      InnerCountFrom(schema, e, i, from + 1);
    } else {
      assert |SubqueryIndices(InnerExprs(schema, e, i), from + 1)| == 0;
    }
  }

  lemma {:induction false} OuterValid(sem: Semantics, exprs: seq<Expr>, input: Plan)
    requires Splittable(sem, exprs, input) && Rewrite(sem, Projection(exprs, input)).Ok?
    requires Valid(sem, InnerPlan(sem, exprs, input))
    ensures Valid(sem, Projection(OuterExprs(exprs), InnerPlan(sem, exprs, input)))
  {
    var schema := SchemaOf(sem, input);
    RewriteSucceedsExactly(sem, exprs, input);
    InnerSchema(sem, exprs, input);
    var row := seq(|schema|, k => Null);
    OuterRow(sem, schema, row, exprs, First(exprs));
  }

  /**
   One application preserves the meaning: the same value at every position of every row. The output
   names are kept too, except that an unnamed split expression now goes by the made-up name.
   */
  lemma {:induction false} SplitPreserves(sem: Semantics, exprs: seq<Expr>, input: Plan)
    requires Splittable(sem, exprs, input) && Rewrite(sem, Projection(exprs, input)).Ok?
    ensures var plan := Projection(OuterExprs(exprs), InnerPlan(sem, exprs, input));
      && Rewrite(sem, Projection(exprs, input)) == Ok((true, plan))
      && Valid(sem, plan)
      && RowsOfPlan(sem, plan) == RowsOfPlan(sem, Projection(exprs, input))
  {
    var i, schema, rows := First(exprs), SchemaOf(sem, input), RowsOfPlan(sem, input);
    var inner := InnerPlan(sem, exprs, input);
    var plan := Projection(OuterExprs(exprs), inner);
    RewriteSucceedsExactly(sem, exprs, input);
    InnerSchema(sem, exprs, input);
    InnerValid(sem, exprs, input);
    OuterValid(sem, exprs, input);
    var before, mid, after := RowsOfPlan(sem, Projection(exprs, input)), RowsOfPlan(sem, inner), RowsOfPlan(sem, plan);
    forall r | 0 <= r < |rows| ensures after[r] == before[r] {
      InnerRow(sem, schema, rows[r], exprs[i], i);
      OuterRow(sem, schema, rows[r], exprs, i);
    }
  }

  /** What happens to the outputs in one application: the split one loses its relation and keeps its alias. */
  lemma {:induction false} SplitNames(sem: Semantics, exprs: seq<Expr>, k: nat)
    requires Count(exprs) > 0 && k < |exprs|
    ensures FieldOf(sem, OuterExprs(exprs)[k]) ==
      if k == First(exprs) then Column(None, OuterName(exprs[k], k)) else FieldOf(sem, exprs[k])
  {
  }

  // ── Repeated application ─────────────────────────────────────

  function CountOf(plan: Plan): nat { if plan.Projection? then Count(plan.exprs) else 0 }

  lemma {:induction false} RewriteShrinks(sem: Semantics, plan: Plan)
    requires Rewrite(sem, plan).Ok? && Rewrite(sem, plan).value.0
    ensures CountOf(Rewrite(sem, plan).value.1) < CountOf(plan)
  {
    OuterCount(plan.exprs);
  }

  /** The rule applied until it no longer changes the plan. */
  ghost function SplitAll(sem: Semantics, plan: Plan): Result<Plan>
    decreases CountOf(plan)
  {
    match Rewrite(sem, plan)
    case Err(e) => Err(e)
    case Ok(r) =>
      if !r.0 then Ok(plan) else
        RewriteShrinks(sem, plan);
        SplitAll(sem, r.1)
  }

  /** The positions that repeated application splits: all with subqueries but the last. */
  function SplitIndices(exprs: seq<Expr>): seq<nat> {
    var r := SubqueryIndices(exprs, 0);
    if r == [] then [] else r[..|r| - 1]
  }

  /** The name of output `k` when position `i` is split. */
  ghost function NameThen(sem: Semantics, exprs: seq<Expr>, k: nat, i: nat): string
    requires k < |exprs|
  {
    if k in SubqueryIndices(exprs, 0) && k < i then OuterName(exprs[k], k) else FieldOf(sem, exprs[k]).name
  }

  /** Splitting position `i` in its turn meets no column of the input and no output of a name it needs. */
  ghost predicate FreeAt(sem: Semantics, exprs: seq<Expr>, schema: seq<Column>, i: nat)
    requires i < |exprs|
  {
    && (forall k :: 0 <= k < |schema| ==> schema[k].name != SqAlias(i))
    && (forall k :: 0 <= k < |exprs| && k != i ==> NameThen(sem, exprs, k, i) != OuterName(exprs[i], i))
  }

  ghost predicate NamesFree(sem: Semantics, exprs: seq<Expr>, input: Plan) {
    forall i :: i in SplitIndices(exprs) ==> FreeAt(sem, exprs, SchemaOf(sem, input), i)
  }

  lemma {:induction false} SqAliasInjective(i: nat, j: nat)
    requires SqAlias(i) == SqAlias(j)
    ensures i == j
  {
    var n := |"__potato_sq_"|;
    assert SqAlias(i)[n..] == Decimal(i) && SqAlias(j)[n..] == Decimal(j);
    DecimalRoundTrip(i);
    DecimalRoundTrip(j);
  }

  /** The positions still to be split after one application. */
  lemma {:induction false} SplitIndicesAfter(exprs: seq<Expr>)
    requires Count(exprs) > 1
    ensures SplitIndices(exprs) == [First(exprs)] + SplitIndices(OuterExprs(exprs))
    ensures forall i :: i in SubqueryIndices(OuterExprs(exprs), 0) <==> i in SubqueryIndices(exprs, 0) && i != First(exprs)
    ensures forall i :: i in SplitIndices(OuterExprs(exprs)) ==> i in SubqueryIndices(exprs, 0) && i > First(exprs)
  {
    OuterCount(exprs);
    IndicesExact(exprs, 0);
    var r := SubqueryIndices(exprs, 0);
    assert r == [r[0]] + r[1..];
  }

  /** A later split finds the names it needs free exactly as it would have from the start. */
  lemma {:induction false} FreeAfter(sem: Semantics, exprs: seq<Expr>, schema: seq<Column>, i: nat)
    requires Count(exprs) > 1 && i < |exprs| && i in SplitIndices(OuterExprs(exprs))
    ensures FreeAt(sem, exprs, schema, i) <==>
      FreeAt(sem, OuterExprs(exprs), schema + [Column(None, SqAlias(First(exprs)))], i)
  {
    var i0, outer := First(exprs), OuterExprs(exprs);
    var longer := schema + [Column(None, SqAlias(i0))];
    SplitIndicesAfter(exprs);
    if SqAlias(i) == SqAlias(i0) { SqAliasInjective(i, i0); }
    assert (forall k :: 0 <= k < |longer| ==> longer[k].name != SqAlias(i)) <==>
      (forall k :: 0 <= k < |schema| ==> schema[k].name != SqAlias(i)) by {
      assert forall k :: 0 <= k < |schema| ==> longer[k] == schema[k];
    }
    forall k | 0 <= k < |exprs| ensures NameThen(sem, outer, k, i) == NameThen(sem, exprs, k, i) {
      SplitNames(sem, exprs, k);
    }
  }

  lemma {:induction false} NamesFreeStep(sem: Semantics, exprs: seq<Expr>, input: Plan)
    requires Splittable(sem, exprs, input)
    ensures NamesFree(sem, exprs, input) <==>
      Rewrite(sem, Projection(exprs, input)).Ok? && NamesFree(sem, OuterExprs(exprs), InnerPlan(sem, exprs, input))
  {
    var i0, schema := First(exprs), SchemaOf(sem, input);
    RewriteSucceedsExactly(sem, exprs, input);
    SplitIndicesAfter(exprs);
    InnerSchema(sem, exprs, input);
    IndicesExact(exprs, 0);
    forall k | 0 <= k < |exprs| ensures NameThen(sem, exprs, k, i0) == FieldOf(sem, exprs[k]).name {
      assert k in SubqueryIndices(exprs, 0) ==> k >= i0;
    }
    assert FreeAt(sem, exprs, schema, i0) <==> Rewrite(sem, Projection(exprs, input)).Ok?;
    forall i | i in SplitIndices(OuterExprs(exprs))
      ensures i < |exprs| && (FreeAt(sem, exprs, schema, i) <==>
        FreeAt(sem, OuterExprs(exprs), SchemaOf(sem, InnerPlan(sem, exprs, input)), i))
    {
      FreeAfter(sem, exprs, schema, i);
    }
  }

  /** Projections with at most one subquery-bearing expression each, down to `base`. */
  ghost predicate AtMostOneDownTo(plan: Plan, base: Plan) {
    plan == base || (plan.Projection? && AtMostOne(plan.exprs) && AtMostOneDownTo(plan.input, base))
  }

  /** The output fields in the end: the split ones go by their alias alone, or by the made-up name. */
  ghost function FinalFields(sem: Semantics, exprs: seq<Expr>): seq<Column> {
    seq(|exprs|, k requires 0 <= k < |exprs| =>
      if k in SplitIndices(exprs) then Column(None, OuterName(exprs[k], k)) else FieldOf(sem, exprs[k]))
  }

  lemma {:induction false} FinalFieldsStep(sem: Semantics, exprs: seq<Expr>)
    requires Count(exprs) > 1
    ensures FinalFields(sem, OuterExprs(exprs)) == FinalFields(sem, exprs)
  {
    SplitIndicesAfter(exprs);
    var a, b := FinalFields(sem, OuterExprs(exprs)), FinalFields(sem, exprs);
    forall k | 0 <= k < |exprs| ensures a[k] == b[k] {
      SplitNames(sem, exprs, k);
      if k == First(exprs) { assert k !in SplitIndices(OuterExprs(exprs)); }
    }
  }

  /** What the final plan is to be. */
  ghost predicate SplitWell(sem: Semantics, exprs: seq<Expr>, input: Plan, base: Plan, after: Plan) {
    && Valid(sem, Projection(exprs, input)) && Valid(sem, after)
    && RowsOfPlan(sem, after) == RowsOfPlan(sem, Projection(exprs, input))
    && SchemaOf(sem, after) == FinalFields(sem, exprs)
    && AtMostOneDownTo(after, base)
  }

  lemma {:induction false} SplitAllFrom(sem: Semantics, exprs: seq<Expr>, input: Plan, base: Plan)
    requires Valid(sem, Projection(exprs, input)) && AtMostOneDownTo(input, base)
    ensures SplitAll(sem, Projection(exprs, input)).Ok? <==> NamesFree(sem, exprs, input)
    ensures var r := SplitAll(sem, Projection(exprs, input)); r.Ok? ==> SplitWell(sem, exprs, input, base, r.value)
    decreases Count(exprs)
  {
    if Count(exprs) > 1 {
      NamesFreeStep(sem, exprs, input);
      if Rewrite(sem, Projection(exprs, input)).Ok? {
        SplitPreserves(sem, exprs, input);
        OuterCount(exprs);
        FinalFieldsStep(sem, exprs);
        InnerCountFrom(SchemaOf(sem, input), exprs[First(exprs)], First(exprs), 0);
        CountExact(InnerExprs(SchemaOf(sem, input), exprs[First(exprs)], First(exprs)));
        SplitAllFrom(sem, OuterExprs(exprs), InnerPlan(sem, exprs, input), base);
      }
    } else {
      CountExact(exprs);
      assert FinalFields(sem, exprs) == FieldsOf(sem, exprs);
    }
  }

  /**
   Repeated application terminates; it meets no name clash if and only if each position to be split
   finds its names free. The final plan then yields the same rows, each projection from it down to
   the original input has at most one subquery-bearing expression, and the output fields keep their
   names but for split ones without an alias.
   */
  lemma {:induction false} SplitAllPreserves(sem: Semantics, exprs: seq<Expr>, input: Plan)
    requires Valid(sem, Projection(exprs, input))
    ensures SplitAll(sem, Projection(exprs, input)).Ok? <==> NamesFree(sem, exprs, input)
    ensures var r := SplitAll(sem, Projection(exprs, input)); r.Ok? ==> SplitWell(sem, exprs, input, input, r.value)
  {
    SplitAllFrom(sem, exprs, input, input);
  }

  // ── Two subqueries over one row ──────────────────────────────

  lemma {:induction false} FindBoth(x: Column, y: Column)
    requires !Matches(y, x)
    ensures Find([x, y], x) == Some(0) && Find([x, y], y) == Some(1)
  {
    assert [x, y][1..] == [y] && [y][1..] == [];
    assert Matches(x, x) && Matches(y, y);
    assert Find([y], y) == Some(0);
  }

  /** What each subquery sees of the row. */
  lemma {:induction false} SubqueryValues(sem: Semantics, x: Column, y: Column, u: Value, v: Value, a: string, b: string)
    requires !Ambiguous(x, y) && !Matches(y, x)
    ensures var q1, q2 := Alias(None, ScalarSubquery(1, [x, y]), a), Alias(None, Apply(3, [ScalarSubquery(2, [y]), ColumnExpr(x)]), b);
      && Resolves([x, y], q1) && Resolves([x, y], q2)
      && Eval(sem, [x, y], [u, v], q1) == sem.subquery(1, [u, v]) && Eval(sem, [x, y], [u, v], q2) == sem.apply(3, [sem.subquery(2, [v]), u])
  {
    FindBoth(x, y);
    var schema, row := [x, y], [u, v];
    assert seq(2, i requires 0 <= i < 2 => row[Find(schema, [x, y][i]).value]) == [u, v];
    assert seq(1, i requires 0 <= i < 1 => row[Find(schema, [y][i]).value]) == [v];
    var args := [ScalarSubquery(2, [y]), ColumnExpr(x)];
    assert Eval(sem, schema, row, args[0]) == sem.subquery(2, [v]) && Eval(sem, schema, row, args[1]) == u;
    assert seq(2, i requires 0 <= i < 2 => Eval(sem, schema, row, args[i])) == [sem.subquery(2, [v]), u];
  }

  lemma {:induction false} PairSplittable(sem: Semantics, q1: Expr, q2: Expr, x: Column, y: Column, row: seq<Value>)
    requires q1.Alias? && q2.Alias? && q1.relation.None? && q2.relation.None? && q1.name != q2.name
    requires HasSubquery(q1) && HasSubquery(q2) && Resolves([x, y], q1) && Resolves([x, y], q2)
    requires !Ambiguous(x, y) && |row| == 2 && x.name != SqAlias(0) && y.name != SqAlias(0)
    ensures var plan := Projection([q1, q2], Source([x, y], [row]));
      Splittable(sem, [q1, q2], plan.input) && Rewrite(sem, plan).Ok?
  {
    var exprs, input := [q1, q2], Source([x, y], [row]);
    assert SubqueryIndices(exprs, 2) == [] && SubqueryIndices(exprs, 1) == [1] + [] && SubqueryIndices(exprs, 0) == [0] + [1];
    assert First(exprs) == 0;
    var fields := FieldsOf(sem, exprs);
    assert fields[0] == Column(None, q1.name) && fields[1] == Column(None, q2.name);
    RewriteSucceedsExactly(sem, exprs, input);
  }

  /** Two subqueries over one row, one of them under an operator: the rule splits them, and each still sees its own columns in their order. */
  lemma {:induction false} PairKeepsValues(sem: Semantics, x: Column, y: Column, u: Value, v: Value, a: string, b: string)
    requires !Ambiguous(x, y) && !Matches(y, x) && a != b && x.name != SqAlias(0) && y.name != SqAlias(0)
    ensures var q1, q2 := Alias(None, ScalarSubquery(1, [x, y]), a), Alias(None, Apply(3, [ScalarSubquery(2, [y]), ColumnExpr(x)]), b);
      var after := Rewrite(sem, Projection([q1, q2], Source([x, y], [[u, v]])));
      && after.Ok? && after.value.0 && Valid(sem, after.value.1)
      && RowsOfPlan(sem, after.value.1) == [[sem.subquery(1, [u, v]), sem.apply(3, [sem.subquery(2, [v]), u])]]
  {
    var q1, q2 := Alias(None, ScalarSubquery(1, [x, y]), a), Alias(None, Apply(3, [ScalarSubquery(2, [y]), ColumnExpr(x)]), b);
    var exprs, input := [q1, q2], Source([x, y], [[u, v]]);
    SubqueryValues(sem, x, y, u, v, a, b);
    assert HasSubquery(q2.expr.args[0]);
    PairSplittable(sem, q1, q2, x, y, [u, v]);
    SplitPreserves(sem, exprs, input);
    assert RowsOfPlan(sem, input) == [[u, v]];
    assert ProjectRow(sem, [x, y], [u, v], exprs) == [sem.subquery(1, [u, v]), sem.apply(3, [sem.subquery(2, [v]), u])];
  }
}
