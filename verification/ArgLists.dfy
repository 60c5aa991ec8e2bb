/**
 The argument-list readers: the top-level CSV splitter, which reads `''` as an escape, and the
 parenthesis matcher, which toggles at every quote.
 */
module ArgLists {
  import opened Values
  import KeyEncoding
  import opened SqlLexer

  // ── Nesting ──────────────────────────────────────────────────

  /** Open parentheses, and whether the text is inside a quoted literal. */
  datatype State = State(depth: nat, quoted: bool)

  const START := State(0, false)

  function Step(st: State, c: char): State {
    if c == '\'' then st.(quoted := !st.quoted)
    else if st.quoted then st
    else if c == '(' then st.(depth := st.depth + 1)
    else if c == ')' && st.depth > 0 then st.(depth := st.depth - 1)
    else st
  }

  function After(s: string, st: State): State {
    if s == "" then st else After(s[1..], Step(st, s[0]))
  }

  predicate TopLevelComma(c: char, st: State) { c == ',' && st == START }

  predicate HasTopLevelComma(s: string, st: State) {
    s != "" && (TopLevelComma(s[0], st) || HasTopLevelComma(s[1..], Step(st, s[0])))
  }

  /** A closing parenthesis that nothing opened. */
  predicate Underflows(s: string, st: State) {
    s != "" && ((s[0] == ')' && st == START) || Underflows(s[1..], Step(st, s[0])))
  }

  lemma {:induction false} AfterConcat(a: string, b: string, st: State)
    ensures After(a + b, st) == After(b, After(a, st))
    ensures HasTopLevelComma(a + b, st) <==> HasTopLevelComma(a, st) || HasTopLevelComma(b, After(a, st))
    ensures Underflows(a + b, st) <==> Underflows(a, st) || Underflows(b, After(a, st))
  {
    if a == "" {
      assert a + b == b;
    } else {
      assert (a + b)[1..] == a[1..] + b;
      AfterConcat(a[1..], b, Step(st, a[0]));
    }
  }

  // ── The splitter ─────────────────────────────────────────────

  function Item(cur: string): seq<string> { if Trim(cur) == "" then [] else [Trim(cur)] }

  /** The items of a list, with `cur` already read of the first. */
  function Items(s: string, cur: string, st: State): seq<string> {
    if s == "" then Item(cur)
    else if TopLevelComma(s[0], st) then Item(cur) + Items(s[1..], "", START)
    else Items(s[1..], cur + [s[0]], Step(st, s[0]))
  }

  function Csv(input: string): seq<string> { Items(input, "", START) }

  function JoinComma(args: seq<string>): string {
    if args == [] then "" else if |args| == 1 then args[0] else args[0] + "," + JoinComma(args[1..])
  }

  /** A trimmed text without a comma of its own. */
  predicate IsItem(s: string) { s != "" && Trim(s) == s && !HasTopLevelComma(s, START) }

  /** Items of which all but the last close what they open. */
  predicate IsList(args: seq<string>) {
    || args == []
    || (IsItem(args[0]) && (|args| == 1 || (After(args[0], START) == START && IsList(args[1..]))))
  }

  lemma {:induction false} ItemsRun(a: string, b: string, cur: string, st: State)
    requires !HasTopLevelComma(a, st)
    ensures Items(a + b, cur, st) == Items(b, cur + a, After(a, st))
  {
    if a == "" {
      assert a + b == b && cur + a == cur;
    } else {
      assert (a + b)[1..] == a[1..] + b;
      assert cur + a == (cur + [a[0]]) + a[1..];
      ItemsRun(a[1..], b, cur + [a[0]], Step(st, a[0]));
    }
  }

  lemma {:induction false} ListRoundTrip(args: seq<string>)
    requires IsList(args)
    ensures Csv(JoinComma(args)) == args
  {
    if args != [] {
      var a := args[0];
      assert "" + a == a;
      if |args| == 1 {
        assert a + "" == a;
        ItemsRun(a, "", "", START);
      } else {
        var rest := JoinComma(args[1..]);
        var tail := "," + rest;
        assert a + "," + rest == a + tail && tail[1..] == rest;
        ItemsRun(a, tail, "", START);
        ListRoundTrip(args[1..]);
      }
    }
  }

  lemma {:induction false} SpacesKeepState(s: string, st: State)
    requires forall i :: 0 <= i < |s| ==> IsSpace(s[i])
    ensures After(s, st) == st && !HasTopLevelComma(s, st)
  {
    if s != "" { SpacesKeepState(s[1..], st); }
  }

  lemma {:induction false} PaddingKeepsState(lead: string, core: string, trail: string)
    requires (forall i :: 0 <= i < |lead| ==> IsSpace(lead[i])) && (forall i :: 0 <= i < |trail| ==> IsSpace(trail[i]))
    ensures After(lead + (core + trail), START) == After(core, START)
    ensures HasTopLevelComma(lead + (core + trail), START) <==> HasTopLevelComma(core, START)
  {
    SpacesKeepState(lead, START);
    AfterConcat(lead, core + trail, START);
    SpacesKeepState(trail, After(core, START));
    AfterConcat(core, trail, START);
  }

  lemma {:induction false} TrimKeepsState(s: string)
    ensures After(Trim(s), START) == After(s, START)
    ensures HasTopLevelComma(Trim(s), START) <==> HasTopLevelComma(s, START)
  {
    var t := TrimStart(s);
    TrimStartPrefix(s);
    TrimEndSuffix(t);
    PaddingKeepsState(s[..|s| - |t|], Trim(s), t[|Trim(s)|..]);
    assert t == Trim(s) + t[|Trim(s)|..] && s == s[..|s| - |t|] + t;
  }

  /** The first comma at the top level, or the end. */
  lemma {:induction false} ItemsAreList(s: string, cur: string)
    requires !HasTopLevelComma(cur, START)
    ensures IsList(Items(s, cur, After(cur, START)))
    decreases |s|
  {
    TrimIdempotent(cur);
    TrimKeepsState(cur);
    if s != "" {
      if TopLevelComma(s[0], After(cur, START)) {
        ItemsAreList(s[1..], "");
        var rest := Items(s[1..], "", START);
        if Trim(cur) == "" {
          assert [] + rest == rest;
        } else {
          assert ([Trim(cur)] + rest)[1..] == rest;
        }
      } else {
        AfterConcat(cur, [s[0]], START);
        assert [s[0]][1..] == "";
        ItemsAreList(s[1..], cur + [s[0]]);
      }
    }
  }

  /** Splitting the comma join of some texts returns them exactly when they form a list. */
  lemma {:induction false} CsvExact(args: seq<string>)
    ensures Csv(JoinComma(args)) == args <==> IsList(args)
  {
    ItemsAreList(JoinComma(args), "");
    if IsList(args) { ListRoundTrip(args); }
  }

  /** The texts without the spaces around them, but for those that are nothing else. */
  function Parts(texts: seq<string>): seq<string> {
    if texts == [] then [] else (if Trim(texts[0]) == "" then [] else [Trim(texts[0])]) + Parts(texts[1..])
  }

  /** Texts without a comma of their own, of which all but the last close what they open. */
  predicate Separable(texts: seq<string>) {
    texts == [] || (
      && !HasTopLevelComma(texts[0], START)
      && (|texts| == 1 || (After(texts[0], START) == START && Separable(texts[1..]))))
  }

  /** The items of a list are the texts between its commas, trimmed; empty ones are left out. */
  lemma {:induction false} CsvTrims(texts: seq<string>)
    requires Separable(texts)
    ensures Csv(JoinComma(texts)) == Parts(texts)
  {
    if texts != [] {
      var a := texts[0];
      assert "" + a == a;
      if |texts| == 1 {
        assert a + "" == a && texts[1..] == [];
        ItemsRun(a, "", "", START);
      } else {
        var rest := JoinComma(texts[1..]);
        var tail := "," + rest;
        assert a + "," + rest == a + tail && tail[1..] == rest;
        ItemsRun(a, tail, "", START);
        CsvTrims(texts[1..]);
      }
    }
  }

  // ── The matcher ──────────────────────────────────────────────

  function Plus(position: Option<nat>, n: nat): Option<nat> {
    if position.None? then None else Some(n + position.value)
  }

  /** Position in `s` of the parenthesis that brings the depth to zero. */
  function Closing(s: string, st: State): Option<nat> {
    if s == "" then None
    else if s[0] == ')' && !st.quoted && st.depth <= 1 then Some(0)
    else Plus(Closing(s[1..], Step(st, s[0])), 1)
  }

  function MatchingParen(s: string, open: nat): Option<nat> {
    if open >= |s| || s[open] != '(' then None
    else Plus(Closing(s[open + 1..], State(1, false)), open + 1)
  }

  /** Every parenthesis outside quotes has its partner, and every literal is closed. */
  predicate Balanced(s: string) { After(s, START) == START && !Underflows(s, START) }

  function Deeper(st: State): State { st.(depth := st.depth + 1) }

  /** The matcher stops inside `body` exactly where `body` closes something it did not open. */
  lemma {:induction false} ClosingBehind(body: string, rest: string, st: State)
    ensures !Underflows(body, st) ==> Closing(body + rest, Deeper(st)) == Plus(Closing(rest, Deeper(After(body, st))), |body|)
    ensures (Underflows(body, st) ==>
      Closing(body + rest, Deeper(st)).Some? && Closing(body + rest, Deeper(st)).value < |body|)
  {
    if body == "" {
      assert body + rest == rest;
    } else {
      assert (body + rest)[1..] == body[1..] + rest;
      if !(body[0] == ')' && st == START) {
        assert Step(Deeper(st), body[0]) == Deeper(Step(st, body[0]));
        ClosingBehind(body[1..], rest, Step(st, body[0]));
      }
    }
  }

  /** The partner of an opening parenthesis is the one behind `body` exactly when `body` is balanced. */
  lemma {:induction false} MatchingParenExact(before: string, body: string, rest: string)
    ensures (MatchingParen(before + "(" + body + ")" + rest, |before|) == Some(|before| + 1 + |body|) <==>
      Balanced(body))
  {
    var s := before + "(" + body + ")" + rest;
    var tail := ")" + rest;
    assert s[|before| + 1..] == body + tail;
    ClosingBehind(body, tail, START);
    var st := After(body, START);
    assert Deeper(START) == State(1, false);
    assert Closing(tail, Deeper(st)) == Some(0) <==> st == START;
  }

  // ── Argument lists ───────────────────────────────────────────

  /** What a caller may write as an argument. */
  predicate IsArgument(s: string) { IsItem(s) && Balanced(s) }

  predicate AreArguments(args: seq<string>) { forall i :: 0 <= i < |args| ==> IsArgument(args[i]) }

  lemma {:induction false} ArgumentsFit(args: seq<string>)
    requires AreArguments(args)
    ensures IsList(args) && Balanced(JoinComma(args))
  {
    if args != [] {
      var a, more := args[0], args[1..];
      assert AreArguments(more) by { forall i | 0 <= i < |more| ensures IsArgument(more[i]) { assert more[i] == args[i + 1]; } }
      ArgumentsFit(more);
      if |args| > 1 {
        AfterConcat(a + ",", JoinComma(more), START);
        AfterConcat(a, ",", START);
        assert ","[1..] == "";
      }
    }
  }

  /** A call's arguments are read back: the matcher finds the end of the list, the splitter its parts. */
  lemma {:induction false} CallRoundTrip(before: string, args: seq<string>, rest: string)
    requires AreArguments(args)
    ensures var s := before + "(" + JoinComma(args) + ")" + rest;
      var close := |before| + 1 + |JoinComma(args)|;
      MatchingParen(s, |before|) == Some(close) && Csv(s[|before| + 1..close]) == args
  {
    var body := JoinComma(args);
    var s := before + "(" + body + ")" + rest;
    ArgumentsFit(args);
    MatchingParenExact(before, body, rest);
    ListRoundTrip(args);
    assert s[|before| + 1..|before| + 1 + |body|] == body;
  }

  /** Any string printed as a literal is an argument, whatever commas, quotes and parentheses it holds. */
  lemma {:induction false} LiteralIsArgument(v: string)
    ensures IsArgument(KeyEncoding.SqlLiteral(Str(v)))
  {
    var e := KeyEncoding.EscapeQuotes(v);
    var lit := "'" + e + "'";
    EscapedAtDepth(v, 0);
    AfterConcat("'" + e, "'", START);
    AfterConcat("'", e, START);
    assert "'"[1..] == "";
    assert lit[0] == '\'' && lit[|lit| - 1] == '\'';
  }

  // ── Nested texts ─────────────────────────────────────────────

  /** A text made of other characters, groups in parentheses and printed strings, whatever these hold. */
  datatype Nested =
    | Empty
    | Other(c: char, next: Nested)
    | Group(inner: Nested, next: Nested)
    | Quoted(value: string, next: Nested)

  predicate Proper(b: Nested) {
    match b
    case Empty => true
    case Other(c, next) => c != '\'' && c != '(' && c != ')' && Proper(next)
    case Group(inner, next) => Proper(inner) && Proper(next)
    case Quoted(_, next) => Proper(next)
  }

  function Render(b: Nested): string {
    match b
    case Empty => ""
    case Other(c, next) => [c] + Render(next)
    case Group(inner, next) => "(" + Render(inner) + ")" + Render(next)
    case Quoted(v, next) => "'" + KeyEncoding.EscapeQuotes(v) + "'" + Render(next)
  }

  /** A comma that is in no group and in no string. */
  predicate CommaOutside(b: Nested) {
    match b
    case Empty => false
    case Other(c, next) => c == ',' || CommaOutside(next)
    case Group(_, next) => CommaOutside(next)
    case Quoted(_, next) => CommaOutside(next)
  }

  lemma {:induction false} OneChar(c: char, st: State)
    ensures After([c], st) == Step(st, c)
    ensures HasTopLevelComma([c], st) <==> c == ',' && st == START
    ensures Underflows([c], st) <==> c == ')' && st == START
  {
    assert [c][1..] == "";
  }

  lemma {:induction false} EscapedAtDepth(v: string, depth: nat)
    ensures After(KeyEncoding.EscapeQuotes(v), State(depth, true)) == State(depth, true)
    ensures !HasTopLevelComma(KeyEncoding.EscapeQuotes(v), State(depth, true))
    ensures !Underflows(KeyEncoding.EscapeQuotes(v), State(depth, true))
  {
    var e := KeyEncoding.EscapeQuotes(v);
    if v != "" {
      EscapedAtDepth(v[1..], depth);
      var k := if v[0] == '\'' then 2 else 1;
      assert e[1..] == e[1..k] + e[k..] && e[k..] == KeyEncoding.EscapeQuotes(v[1..]);
      if k == 2 { assert e[1..][1..] == e[2..]; }
    }
  }

  lemma {:induction false} Surrounded(open: char, body: string, close: char, rest: string, st: State)
    ensures var inside := Step(st, open);
      var behind := Step(After(body, inside), close);
      var s := [open] + body + [close] + rest;
      && After(s, st) == After(rest, behind)
      && (HasTopLevelComma(s, st) <==>
            (open == ',' && st == START) || HasTopLevelComma(body, inside)
            || (close == ',' && After(body, inside) == START) || HasTopLevelComma(rest, behind))
      && (Underflows(s, st) <==>
            (open == ')' && st == START) || Underflows(body, inside)
            || (close == ')' && After(body, inside) == START) || Underflows(rest, behind))
  {
    OneChar(open, st);
    OneChar(close, After(body, Step(st, open)));
    AfterConcat([open], body, st);
    AfterConcat([open] + body, [close], st);
    AfterConcat([open] + body + [close], rest, st);
  }

  /** Groups and strings close what they open, and hide the commas and parentheses in them. */
  lemma {:induction false} NestedReads(b: Nested, depth: nat)
    requires Proper(b)
    ensures After(Render(b), State(depth, false)) == State(depth, false)
    ensures !Underflows(Render(b), State(depth, false))
    ensures HasTopLevelComma(Render(b), State(depth, false)) <==> depth == 0 && CommaOutside(b)
  {
    match b
    case Empty =>
    case Other(c, next) =>
      NestedReads(next, depth);
      OneChar(c, State(depth, false));
      AfterConcat([c], Render(next), State(depth, false));
    case Group(inner, next) =>
      NestedReads(inner, depth + 1);
      NestedReads(next, depth);
      Surrounded('(', Render(inner), ')', Render(next), State(depth, false));
    case Quoted(v, next) =>
      EscapedAtDepth(v, depth);
      NestedReads(next, depth);
      Surrounded('\'', KeyEncoding.EscapeQuotes(v), '\'', Render(next), State(depth, false));
  }

  /** So such a text is one argument if and only if no comma stands outside, and the matcher finds its end. */
  lemma {:induction false} NestedArgument(b: Nested, before: string, rest: string)
    requires Proper(b) && Render(b) != "" && Trim(Render(b)) == Render(b)
    ensures IsArgument(Render(b)) <==> !CommaOutside(b)
    ensures MatchingParen(before + "(" + Render(b) + ")" + rest, |before|) == Some(|before| + 1 + |Render(b)|)
    ensures !CommaOutside(b) ==> Csv(Render(b)) == [Render(b)]
  {
    NestedReads(b, 0);
    MatchingParenExact(before, Render(b), rest);
    if !CommaOutside(b) {
      assert IsList([Render(b)]);
      ListRoundTrip([Render(b)]);
    }
  }

  // ── The loops ────────────────────────────────────────────────

  /** Inside a literal a character that is no quote, or an escaped quote, leaves the state as it is. */
  lemma {:induction false} EscapeStep(s: string, cur: string, depth: nat)
    requires s != "" && QuoteStride(s) > 0
    ensures QuoteStride(s) <= |s|
    ensures (Items(s, cur, State(depth, true)) ==
      Items(s[QuoteStride(s)..], cur + s[..QuoteStride(s)], State(depth, true)))
  {
    if QuoteStride(s) == 2 {
      assert s[1..][1..] == s[2..] && cur + [s[0]] + [s[1]] == cur + s[..2];
    } else {
      assert cur + [s[0]] == cur + s[..1];
    }
  }

  /** Reading a literal with `''` as an escape comes to the same as toggling at every quote. */
  lemma {:induction false} EscapeIsToggle(s: string, cur: string, depth: nat)
    ensures Items(s, cur, State(depth, true)) == Items(s[QuoteLen(s)..], cur + s[..QuoteLen(s)], State(depth, false))
    decreases |s|
  {
    if s == "" {
      assert cur + "" == cur;
    } else if QuoteStride(s) > 0 {
      var n, k := QuoteLen(s), QuoteStride(s);
      var t := s[k..];
      EscapeStep(s, cur, depth);
      EscapeIsToggle(t, cur + s[..k], depth);
      assert t[n - k..] == s[n..] && cur + s[..k] + t[..n - k] == cur + s[..n];
    } else {
      assert s[..1] == [s[0]];
    }
  }

  lemma {:induction false} ItemsLiteral(input: string, i: nat, cur: string, depth: nat)
    requires i < |input| && input[i] == '\''
    ensures var n := i + 1 + QuoteLen(input[i + 1..]);
      Items(input[i..], cur, State(depth, false)) == Items(input[n..], cur + input[i..n], State(depth, false))
  {
    var t := input[i + 1..];
    var n := QuoteLen(t);
    assert input[i..][1..] == t && t[n..] == input[i + 1 + n..];
    assert cur + ['\''] + t[..n] == cur + input[i..i + 1 + n];
    EscapeIsToggle(t, cur + ['\''], depth);
  }

  method SplitTopLevelCsv(input: string) returns (out: seq<string>)
    ensures out == Csv(input)
  {
    out := [];
    var cur := "";
    var depth: nat := 0;
    var i := 0;
    assert input[0..] == input;
    while i < |input|
      invariant i <= |input|
      invariant out + Items(input[i..], cur, State(depth, false)) == Csv(input)
    {
      var c := input[i];
      assert input[i..][1..] == input[i + 1..];
      if c == '\'' {
        ItemsLiteral(input, i, cur, depth);
        var end := ReadLiteral(input, i + 1);
        cur, i := cur + input[i..end], end;
      } else if c == ',' && depth == 0 {
        ghost var more := Items(input[i + 1..], "", START);
        assert out + (Item(cur) + more) == out + Item(cur) + more;
        var item := Trim(cur);
        if item != "" { out := out + [item]; }
        cur, i := "", i + 1;
      } else {
        if c == '(' {
          depth := depth + 1;
        } else if c == ')' && depth > 0 {
          depth := depth - 1;
        }
        cur, i := cur + [c], i + 1;
      }
    }
    var item := Trim(cur);
    if item != "" { out := out + [item]; }
  }

  lemma {:induction false} ClosingTurn(s: string, i: nat, st: State)
    requires i < |s|
    ensures s[i] == ')' && !st.quoted && st.depth <= 1 ==> Plus(Closing(s[i..], st), i) == Some(i)
    ensures (!(s[i] == ')' && !st.quoted && st.depth <= 1) ==>
      Plus(Closing(s[i..], st), i) == Plus(Closing(s[i + 1..], Step(st, s[i])), i + 1))
  {
    assert s[i..][1..] == s[i + 1..];
  }

  method FindMatchingParen(s: string, open: nat) returns (r: Option<nat>)
    ensures r == MatchingParen(s, open)
  {
    if open >= |s| || s[open] != '(' { return None; }
    var depth: nat := 0;
    var quoted := false;
    var i := open;
    ClosingTurn(s, open, START);
    while i < |s|
      invariant open <= i <= |s|
      invariant MatchingParen(s, open) == Plus(Closing(s[i..], State(depth, quoted)), i)
    {
      var c := s[i];
      ClosingTurn(s, i, State(depth, quoted));
      if c == '\'' {
        quoted := !quoted;
      } else if !quoted {
        if c == '(' {
          depth := depth + 1;
        } else if c == ')' {
          depth := if depth > 0 then depth - 1 else 0;
          if depth == 0 { return Some(i); }
        }
      }
      i := i + 1;
    }
    assert s[i..] == "";
    return None;
  }
}
