/**
 Key strings of the uniqueness cache: SQL literals joined by the unit separator. Only the types
 with a printed form of their own are modelled: NULL, integers, booleans and strings.
 */
module KeyEncoding {
  import opened Text
  import opened Values

  const SEPARATOR: char := '\U{1F}'

  /** `value.replace('\'', "''")` */
  function EscapeQuotes(s: string): string {
    if s == "" then ""
    else (if s[0] == '\'' then "''" else [s[0]]) + EscapeQuotes(s[1..])
  }

  function SqlLiteral(v: Value): (s: string)
    ensures s != ""
  {
    match v
    case Null => "NULL"
    case Int(n) => IntText(n)
    case Bool(b) => if b then "TRUE" else "FALSE"
    case Str(s) => "'" + EscapeQuotes(s) + "'"
  }

  function Literals(values: seq<Value>): (r: seq<string>)
    ensures |r| == |values|
  {
    seq(|values|, i requires 0 <= i < |values| => SqlLiteral(values[i]))
  }

  /** `tuple.join("\x1f")` */
  function Join(parts: seq<string>): string {
    if parts == [] then ""
    else if |parts| == 1 then parts[0]
    else parts[0] + [SEPARATOR] + Join(parts[1..])
  }

  function KeyString(values: seq<Value>): string { Join(Literals(values)) }

  /** What may follow a literal inside a key. */
  predicate IsTail(s: string) { s == "" || s[0] == SEPARATOR }

  /** Reads a quoted string, from behind its opening quote, and returns what follows it. */
  function ReadQuoted(s: string): (string, string) {
    if s == "" then ("", "")
    else if s[0] == '\'' then
      if |s| > 1 && s[1] == '\'' then
        var (text, rest) := ReadQuoted(s[2..]);
        (['\''] + text, rest)
      else ("", s[1..])
    else
      var (text, rest) := ReadQuoted(s[1..]);
      ([s[0]] + text, rest)
  }

  lemma {:induction false} ReadQuotedEscaped(a: string, x: string)
    requires IsTail(x)
    ensures ReadQuoted(EscapeQuotes(a) + "'" + x) == (a, x)
  {
    var s := EscapeQuotes(a) + "'" + x;
    if a == "" {
      assert s[1..] == x;
    } else {
      ReadQuotedEscaped(a[1..], x);
      var k := if a[0] == '\'' then 2 else 1;
      assert s[k..] == EscapeQuotes(a[1..]) + "'" + x;
      assert a == [a[0]] + a[1..];
    }
  }

  /** Reads up to the next separator. */
  function ReadPlain(s: string): (string, string) {
    if s == "" || s[0] == SEPARATOR then ("", s)
    else
      var (text, rest) := ReadPlain(s[1..]);
      ([s[0]] + text, rest)
  }

  lemma {:induction false} ReadPlainText(a: string, x: string)
    requires SEPARATOR !in a && IsTail(x)
    ensures ReadPlain(a + x) == (a, x)
  {
    if a == "" {
      assert a + x == x;
    } else {
      assert (a + x)[1..] == a[1..] + x;
      ReadPlainText(a[1..], x);
      assert a == [a[0]] + a[1..];
    }
  }

  /** A literal without quotes contains no separator. */
  lemma {:induction false} DigitsHaveNoSeparator(s: string)
    requires AllDigits(s)
    ensures SEPARATOR !in s
  {
  }

  lemma {:induction false} PlainLiteral(v: Value)
    requires !v.Str?
    ensures SEPARATOR !in SqlLiteral(v)
    ensures SqlLiteral(v)[0] != '\''
  {
    match v
    case Int(n) =>
      if n < 0 { DigitsHaveNoSeparator(Decimal(-n)); } else { DigitsHaveNoSeparator(Decimal(n)); }
    case _ =>
  }

  lemma {:induction false} PlainLiteralsDiffer(v: Value, w: Value)
    requires !v.Str? && !w.Str? && SqlLiteral(v) == SqlLiteral(w)
    ensures v == w
  {
    if v.Int? && w.Int? {
      IntTextInjective(v.n, w.n);
    } else {
      var s := SqlLiteral(v);
      assert v.Int? || w.Int? ==> s[0] == '-' || IsDigit(s[0]);
    }
  }

  /** A literal followed by the rest of a key can be read in only one way. */
  lemma {:induction false} LiteralUnique(v: Value, w: Value, x: string, y: string)
    requires SqlLiteral(v) + x == SqlLiteral(w) + y && IsTail(x) && IsTail(y)
    ensures v == w && x == y
  {
    var p := SqlLiteral(v) + x;
    assert p[0] == SqlLiteral(v)[0];
    assert p[0] == SqlLiteral(w)[0];
    StrStartsWithQuote(v);
    StrStartsWithQuote(w);
    if v.Str? {
      ReadStr(v, x);
      ReadStr(w, y);
    } else {
      PlainLiteral(v);
      PlainLiteral(w);
      ReadPlainText(SqlLiteral(v), x);
      ReadPlainText(SqlLiteral(w), y);
      PlainLiteralsDiffer(v, w);
    }
  }

  lemma {:induction false} StrStartsWithQuote(v: Value)
    ensures v.Str? <==> SqlLiteral(v)[0] == '\''
  {
    if !v.Str? { PlainLiteral(v); }
  }

  lemma {:induction false} ReadStr(v: Value, x: string)
    requires v.Str? && IsTail(x)
    ensures ReadQuoted((SqlLiteral(v) + x)[1..]) == (v.s, x)
  {
    assert (SqlLiteral(v) + x)[1..] == EscapeQuotes(v.s) + "'" + x;
    ReadQuotedEscaped(v.s, x);
  }

  function TailOf(values: seq<Value>): string {
    if values == [] then "" else [SEPARATOR] + KeyString(values)
  }

  lemma {:induction false} KeyStringStep(values: seq<Value>)
    requires values != []
    ensures KeyString(values) == SqlLiteral(values[0]) + TailOf(values[1..])
  {
    var parts, first := Literals(values), SqlLiteral(values[0]);
    assert parts[0] == first;
    assert parts[1..] == Literals(values[1..]);
    if |values| == 1 {
      assert TailOf(values[1..]) == "" && first + "" == first;
    } else {
      var rest := Join(parts[1..]);
      assert Join(parts) == first + [SEPARATOR] + rest;
      assert TailOf(values[1..]) == [SEPARATOR] + rest;
      assert first + [SEPARATOR] + rest == first + ([SEPARATOR] + rest);
    }
  }

  lemma {:induction false} TailInjective(a: seq<Value>, b: seq<Value>)
    requires TailOf(a) == TailOf(b)
    ensures a == b
  {
    if a != [] && b != [] {
      assert TailOf(a)[1..] == KeyString(a) && TailOf(b)[1..] == KeyString(b);
      KeyStringStep(a);
      KeyStringStep(b);
      LiteralUnique(a[0], b[0], TailOf(a[1..]), TailOf(b[1..]));
      TailInjective(a[1..], b[1..]);
      assert a == [a[0]] + a[1..] && b == [b[0]] + b[1..];
    }
  }

  /** Two lists of values have the same key string only if they are the same list. */
  lemma {:induction false} KeyStringInjective(a: seq<Value>, b: seq<Value>)
    ensures KeyString(a) == KeyString(b) <==> a == b
  {
    if a != [] { KeyStringStep(a); }
    if b != [] { KeyStringStep(b); }
    if KeyString(a) == KeyString(b) {
      TailInjective(a, b);
    }
  }

  /** The null test on a rendered tuple is the null test on the values. */
  lemma {:induction false} NullTestExact(v: Value)
    ensures SqlLiteral(v) == "NULL" <==> v.Null?
  {
    match v
    case Int(n) => assert SqlLiteral(v)[0] == '-' || IsDigit(SqlLiteral(v)[0]);
    case Str(s) => assert SqlLiteral(v)[0] == '\'';
    case _ =>
  }
}
