/**
 The statement splitter of the engine and the comment stripper of the terminal client. `Lex` says
 what a text is: its characters with comments replaced, and its statement terminators.
 */
module SqlLexer {
  import opened Values
  import KeyEncoding

  /** `char::is_whitespace` */
  predicate IsSpace(c: char) {
    || c == ' ' || '\U{9}' <= c <= '\U{D}' || c == '\U{85}' || c == '\U{A0}' || c == '\U{1680}'
    || '\U{2000}' <= c <= '\U{200A}' || c == '\U{2028}' || c == '\U{2029}' || c == '\U{202F}'
    || c == '\U{205F}' || c == '\U{3000}'
  }

  function TrimStart(s: string): string { if s != "" && IsSpace(s[0]) then TrimStart(s[1..]) else s }

  function TrimEnd(s: string): string { if s != "" && IsSpace(s[|s| - 1]) then TrimEnd(s[..|s| - 1]) else s }

  function Trim(s: string): string { TrimEnd(TrimStart(s)) }

  // ── Lexical structure ────────────────────────────────────────

  /** A character of the text without comments, or a terminator outside quotes. */
  datatype Item = Ch(c: char) | Semi

  function Chars(s: string): (r: seq<Item>)
    ensures |r| == |s|
  {
    seq(|s|, i requires 0 <= i < |s| => Ch(s[i]))
  }

  function TextOf(items: seq<Item>): (r: string)
    ensures |r| == |items|
  {
    seq(|items|, i requires 0 <= i < |items| => if items[i].Semi? then ';' else items[i].c)
  }

  /** Length of a quoted literal behind its opening quote, the closing quote included. */
  function QuoteLen(s: string): (n: nat)
    ensures n <= |s|
  {
    if s == "" then 0
    else if s[0] != '\'' then 1 + QuoteLen(s[1..])
    else if |s| > 1 && s[1] == '\'' then 2 + QuoteLen(s[2..])
    else 1
  }

  /** Length of a line comment behind its dashes, the newline included. */
  function LineLen(s: string): (n: nat)
    ensures n <= |s|
  {
    if s == "" then 0 else if s[0] == '\n' then 1 else 1 + LineLen(s[1..])
  }

  /** Length of a block comment of the given depth, its closers included. */
  function BlockLen(s: string, depth: nat): (n: nat)
    ensures n <= |s|
  {
    if depth == 0 || s == "" then 0
    else if |s| > 1 && s[0] == '*' && s[1] == '/' then 2 + BlockLen(s[2..], depth - 1)
    else if |s| > 1 && s[0] == '/' && s[1] == '*' then 2 + BlockLen(s[2..], depth + 1)
    else 1 + BlockLen(s[1..], depth)
  }

  predicate OpensLine(s: string) { |s| > 1 && s[0] == '-' && s[1] == '-' }

  predicate OpensBlock(s: string) { |s| > 1 && s[0] == '/' && s[1] == '*' }

  function Lex(s: string): seq<Item> {
    if s == "" then []
    else if s[0] == '\'' then
      var n := 1 + QuoteLen(s[1..]);
      Chars(s[..n]) + Lex(s[n..])
    else if OpensLine(s) then
      var n := LineLen(s[2..]);
      (if '\n' in s[2..] then [Ch(' ')] else []) + Lex(s[2 + n..])
    else if OpensBlock(s) then
      [Ch(' ')] + Lex(s[2 + BlockLen(s[2..], 1)..])
    else if s[0] == ';' then [Semi] + Lex(s[1..])
    else [Ch(s[0])] + Lex(s[1..])
  }

  /** The statements of an item sequence, with `cur` already read of the first. */
  function Statements(items: seq<Item>, cur: string): seq<string> {
    if items == [] then (if Trim(cur) == "" then [] else [Trim(cur)])
    else if items[0].Ch? then Statements(items[1..], cur + [items[0].c])
    else (if Trim(cur) == "" then [] else [Trim(cur) + ";"]) + Statements(items[1..], "")
  }

  function Split(sql: string): seq<string> { Statements(Lex(sql), "") }

  function Strip(sql: string): string { Trim(TextOf(Lex(sql))) }

  // ── Trimming ─────────────────────────────────────────────────

  lemma {:induction false} TrimEndSuffix(s: string)
    ensures TrimEnd(s) <= s
    ensures TrimEnd(s) == "" || !IsSpace(TrimEnd(s)[|TrimEnd(s)| - 1])
    ensures forall i :: |TrimEnd(s)| <= i < |s| ==> IsSpace(s[i])
  {
    if s != "" && IsSpace(s[|s| - 1]) { TrimEndSuffix(s[..|s| - 1]); }
  }

  lemma {:induction false} TrimStartPrefix(s: string)
    ensures |TrimStart(s)| <= |s| && TrimStart(s) == s[|s| - |TrimStart(s)|..]
    ensures TrimStart(s) == "" || !IsSpace(TrimStart(s)[0])
    ensures forall i :: 0 <= i < |s| - |TrimStart(s)| ==> IsSpace(s[i])
  {
    if s != "" && IsSpace(s[0]) {
      TrimStartPrefix(s[1..]);
      var n := |s| - |TrimStart(s)|;
      assert TrimStart(s) == TrimStart(s[1..]) == s[1..][n - 1..] == s[n..];
      forall i | 0 <= i < n ensures IsSpace(s[i]) {
        if i > 0 { assert s[i] == s[1..][i - 1]; }
      }
    } else {
      assert TrimStart(s) == s;
    }
  }

  /** A trimmed text has no space at either end. */
  lemma {:induction false} TrimEnds(s: string)
    ensures Trim(s) == "" || (!IsSpace(Trim(s)[0]) && !IsSpace(Trim(s)[|Trim(s)| - 1]))
  {
    TrimStartPrefix(s);
    TrimEndSuffix(TrimStart(s));
  }

  lemma {:induction false} TrimIdempotent(s: string)
    ensures Trim(Trim(s)) == Trim(s)
  {
    TrimEnds(s);
  }

  lemma {:induction false} TrimLeadingSpace(c: char, s: string)
    requires IsSpace(c)
    ensures Trim([c] + s) == Trim(s)
  {
    assert ([c] + s)[1..] == s;
  }

  lemma {:induction false} TrimStartAppend(s: string, c: char)
    ensures TrimStart(s + [c]) ==
      if TrimStart(s) == "" then (if IsSpace(c) then "" else [c]) else TrimStart(s) + [c]
  {
    if s == "" {
      assert s + [c] == [c];
      assert [c][1..] == "";
    } else {
      assert (s + [c])[1..] == s[1..] + [c];
      TrimStartAppend(s[1..], c);
    }
  }

  lemma {:induction false} TrimTrailingSpace(s: string, c: char)
    requires IsSpace(c)
    ensures Trim(s + [c]) == Trim(s)
  {
    TrimStartAppend(s, c);
    var t := TrimStart(s);
    if t != "" {
      assert (t + [c])[..|t|] == t;
    }
  }

  // ── Item sequences that lex to themselves ────────────────────

  /** `QuoteLen` on items; a terminator cannot be part of a literal. */
  function ItemQuoteLen(items: seq<Item>): (n: nat)
    ensures n <= |items|
  {
    if items == [] then 0
    else if items[0] != Ch('\'') then 1 + ItemQuoteLen(items[1..])
    else if |items| > 1 && items[1] == Ch('\'') then 2 + ItemQuoteLen(items[2..])
    else 1
  }

  predicate AllChars(items: seq<Item>) { forall i :: 0 <= i < |items| ==> items[i].Ch? }

  predicate StartsWith(items: seq<Item>, c: char) { items != [] && items[0] == Ch(c) }

  /** Outside quotes there is no comment opener, and each semicolon is a terminator. */
  predicate WellLexed(items: seq<Item>) {
    if items == [] then true
    else if items[0] == Ch('\'') then
      var n := 1 + ItemQuoteLen(items[1..]);
      AllChars(items[..n]) && WellLexed(items[n..])
    else
      && items[0] != Ch(';')
      && (items[0] == Ch('-') ==> !StartsWith(items[1..], '-'))
      && (items[0] == Ch('/') ==> !StartsWith(items[1..], '*'))
      && WellLexed(items[1..])
  }

  lemma {:induction false} QuoteLenOfText(items: seq<Item>)
    requires AllChars(items[..ItemQuoteLen(items)])
    ensures QuoteLen(TextOf(items)) == ItemQuoteLen(items)
  {
    if items != [] {
      var n := ItemQuoteLen(items);
      assert n >= 1 && items[..n][0] == items[0];
      var k := if items[0] != Ch('\'') then 1 else if |items| > 1 && items[1] == Ch('\'') then 2 else 0;
      if k > 0 {
        assert TextOf(items)[k..] == TextOf(items[k..]);
        assert items[k..][..n - k] == items[..n][k..];
        QuoteLenOfText(items[k..]);
      }
      if |items| > 1 && TextOf(items)[1] == '\'' {
        assert items[1].Ch?;
      }
    }
  }

  lemma {:induction false} LiteralText(items: seq<Item>, n: nat)
    requires StartsWith(items, '\'') && n == 1 + ItemQuoteLen(items[1..]) && AllChars(items[..n])
    ensures Lex(TextOf(items)) == items[..n] + Lex(TextOf(items[n..]))
  {
    var s := TextOf(items);
    assert s[1..] == TextOf(items[1..]) && s[n..] == TextOf(items[n..]);
    assert items[1..][..n - 1] == items[..n][1..];
    QuoteLenOfText(items[1..]);
    forall i | 0 <= i < n ensures Chars(s[..n])[i] == items[..n][i] { assert items[..n][i].Ch?; }
    assert Chars(s[..n]) == items[..n];
  }

  /** Lexing the text of a well-lexed sequence gives the sequence back. */
  lemma {:induction false} LexOfText(items: seq<Item>)
    requires WellLexed(items)
    ensures Lex(TextOf(items)) == items
  {
    if items != [] {
      var s := TextOf(items);
      if items[0] == Ch('\'') {
        var n := 1 + ItemQuoteLen(items[1..]);
        LiteralText(items, n);
        LexOfText(items[n..]);
      } else {
        assert s[1..] == TextOf(items[1..]);
        LexOfText(items[1..]);
        assert items == [items[0]] + items[1..];
        assert |s| > 1 ==> s[1] == TextOf(items[1..])[0];
        assert !OpensLine(s) && !OpensBlock(s);
      }
    }
  }

  lemma {:induction false} FirstOfLex(s: string, c: char)
    requires StartsWith(Lex(s), c)
    ensures s != "" && (s[0] == c || c == ' ')
  {
    if s[0] == '\'' {
      assert Lex(s)[0] == Chars(s[..1 + QuoteLen(s[1..])])[0];
    } else if OpensLine(s) && '\n' !in s[2..] {
      LastLine(s);
    }
  }

  lemma {:induction false} LineToTheEnd(s: string)
    requires '\n' !in s
    ensures LineLen(s) == |s|
  {
    if s != "" { LineToTheEnd(s[1..]); }
  }

  /** A line comment that ends the text leaves nothing behind. */
  lemma {:induction false} LastLine(s: string)
    requires OpensLine(s) && '\n' !in s[2..]
    ensures Lex(s) == []
  {
    LineToTheEnd(s[2..]);
    assert s[2 + LineLen(s[2..])..] == "";
  }

  /** How many items of a literal are read at once: an escaped quote is two. */
  function QuoteStride(s: string): nat
    requires s != ""
  {
    if s[0] != '\'' then 1 else if |s| > 1 && s[1] == '\'' then 2 else 0
  }

  lemma {:induction false} QuoteLenStep(q: string, body: string, rest: seq<Item>, k: nat)
    requires q != "" && k == QuoteStride(q) && k > 0 && k <= |q|
    requires ItemQuoteLen(Chars(body) + rest) == |body|
    ensures ItemQuoteLen(Chars(q[..k] + body) + rest) == k + |body|
  {
    var items := Chars(q[..k] + body) + rest;
    assert items[k..] == Chars(body) + rest;
    assert items[0] == Ch(q[0]) && (k == 2 ==> items[1] == Ch(q[1]));
  }

  lemma {:induction false} QuoteLenInLex(q: string)
    ensures ItemQuoteLen(Chars(q[..QuoteLen(q)]) + Lex(q[QuoteLen(q)..])) == QuoteLen(q)
  {
    var n := QuoteLen(q);
    if q != "" {
      var k := QuoteStride(q);
      if k > 0 {
        var t := q[k..];
        QuoteLenInLex(t);
        assert t[..n - k] == q[k..n] && t[n - k..] == q[n..];
        QuoteLenStep(q, q[k..n], Lex(q[n..]), k);
        assert q[..k] + q[k..n] == q[..n];
      } else {
        var items := Chars(q[..1]) + Lex(q[1..]);
        if |items| > 1 && items[1] == Ch('\'') {
          assert Lex(q[1..])[0] == items[1];
          FirstOfLex(q[1..], '\'');
        }
      }
    }
  }

  lemma {:induction false} LiteralJoins(q: seq<Item>, rest: seq<Item>)
    requires StartsWith(q, '\'') && AllChars(q) && WellLexed(rest)
    requires ItemQuoteLen(q[1..] + rest) == |q| - 1
    ensures WellLexed(q + rest)
  {
    var items := q + rest;
    assert items[1..] == q[1..] + rest;
    assert items[..|q|] == q && items[|q|..] == rest;
  }

  lemma {:induction false} LexOfLiteral(s: string, n: nat)
    requires s != "" && s[0] == '\'' && n == 1 + QuoteLen(s[1..])
    requires WellLexed(Lex(s[n..]))
    ensures WellLexed(Lex(s))
  {
    var q, rest := s[1..], Lex(s[n..]);
    QuoteLenInLex(q);
    assert q[..n - 1] == s[1..n] && q[n - 1..] == s[n..];
    assert Chars(s[..n])[1..] == Chars(s[1..n]);
    LiteralJoins(Chars(s[..n]), rest);
  }

  lemma {:induction false} LexOfChar(s: string)
    requires s != "" && s[0] != '\'' && !OpensLine(s) && !OpensBlock(s)
    requires WellLexed(Lex(s[1..]))
    ensures WellLexed(Lex(s))
  {
    var rest := Lex(s[1..]);
    var item := if s[0] == ';' then Semi else Ch(s[0]);
    assert Lex(s) == [item] + rest;
    assert ([item] + rest)[1..] == rest;
    if s[0] == '-' && StartsWith(rest, '-') { FirstOfLex(s[1..], '-'); }
    if s[0] == '/' && StartsWith(rest, '*') { FirstOfLex(s[1..], '*'); }
  }

  /** What the lexer yields is well lexed: removing comments creates no new comment and no new quote. */
  lemma {:induction false} LexIsWellLexed(s: string)
    ensures WellLexed(Lex(s))
  {
    if s == "" {
    } else if s[0] == '\'' {
      var n := 1 + QuoteLen(s[1..]);
      LexIsWellLexed(s[n..]);
      LexOfLiteral(s, n);
    } else if OpensLine(s) {
      var rest := s[2 + LineLen(s[2..])..];
      LexIsWellLexed(rest);
      assert ([Ch(' ')] + Lex(rest))[1..] == Lex(rest);
      assert [] + Lex(rest) == Lex(rest);
    } else if OpensBlock(s) {
      var rest := s[2 + BlockLen(s[2..], 1)..];
      LexIsWellLexed(rest);
      assert ([Ch(' ')] + Lex(rest))[1..] == Lex(rest);
    } else {
      LexIsWellLexed(s[1..]);
      LexOfChar(s);
    }
  }

  // ── Cutting at terminators, dropping spaces ──────────────────

  lemma {:induction false} QuoteBeforeSemi(a: seq<Item>, y: seq<Item>)
    requires AllChars(a)
    ensures ItemQuoteLen(a + [Semi]) <= |a| <==> ItemQuoteLen(a + [Semi] + y) <= |a|
    ensures ItemQuoteLen(a + [Semi]) <= |a| ==> ItemQuoteLen(a + [Semi] + y) == ItemQuoteLen(a + [Semi])
  {
    if a != [] {
      var k := if a[0] != Ch('\'') then 1 else if |a| > 1 && a[1] == Ch('\'') then 2 else 0;
      if k > 0 {
        assert (a + [Semi])[k..] == a[k..] + [Semi];
        assert (a + [Semi] + y)[k..] == a[k..] + [Semi] + y;
        QuoteBeforeSemi(a[k..], y);
      }
    }
  }

  lemma {:induction false} Cut<T>(a: seq<T>, b: seq<T>, n: nat)
    requires n <= |a|
    ensures (a + b)[..n] == a[..n] && (a + b)[n..] == a[n..] + b
  {
  }

  /** A literal that starts the items ends before the terminator, or they are not well lexed. */
  lemma {:induction false} SemiBehindQuote(a: seq<Item>, y: seq<Item>, short: seq<Item>, long: seq<Item>, n: nat)
    requires AllChars(a) && a != [] && a[0] == Ch('\'') && short == a + [Semi] && long == a + [Semi] + y
    requires n == 1 + ItemQuoteLen(short[1..])
    ensures n <= |a| ==>
      && (WellLexed(short) <==> WellLexed(a[n..] + [Semi]))
      && (WellLexed(long) <==> WellLexed(a[n..] + [Semi] + y))
    ensures n > |a| ==> !WellLexed(short) && !WellLexed(long)
  {
    assert short[1..] == a[1..] + [Semi] && long[1..] == a[1..] + [Semi] + y;
    QuoteBeforeSemi(a[1..], y);
    if n <= |a| {
      Cut(a, [Semi], n);
      Cut(short, y, n);
      assert AllChars(a[..n]);
    } else {
      assert short[..n][|a|] == Semi;
      assert long[..1 + ItemQuoteLen(long[1..])][|a|] == Semi;
    }
  }

  /** A terminator separates: what follows it does not change how the statement before it is read. */
  lemma {:induction false} SemiSeparates(a: seq<Item>, y: seq<Item>)
    requires AllChars(a)
    ensures WellLexed(a + [Semi] + y) <==> WellLexed(a + [Semi]) && WellLexed(y)
  {
    var short, long := a + [Semi], a + [Semi] + y;
    if a == [] {
      assert long[1..] == y && short[1..] == [];
    } else if a[0] == Ch('\'') {
      var n := 1 + ItemQuoteLen(short[1..]);
      SemiBehindQuote(a, y, short, long, n);
      if n <= |a| { SemiSeparates(a[n..], y); }
    } else {
      assert short[1..] == a[1..] + [Semi] && long[1..] == a[1..] + [Semi] + y;
      SemiSeparates(a[1..], y);
    }
  }

  lemma {:induction false} QuoteLenWithoutSpace(q: seq<Item>, w: Item, y: seq<Item>)
    requires w.Ch? && IsSpace(w.c) && (y == [] || y == [Semi])
    ensures ItemQuoteLen(q + [w] + y) <= |q| ==> ItemQuoteLen(q + y) == ItemQuoteLen(q + [w] + y)
    ensures (ItemQuoteLen(q + [w] + y) > |q| ==>
      ItemQuoteLen(q + [w] + y) == |q| + 1 + |y| && ItemQuoteLen(q + y) == |q| + |y|)
  {
    if q != [] {
      var k := if q[0] != Ch('\'') then 1 else if |q| > 1 && q[1] == Ch('\'') then 2 else 0;
      if k > 0 {
        assert (q + [w] + y)[k..] == q[k..] + [w] + y && (q + y)[k..] == q[k..] + y;
        QuoteLenWithoutSpace(q[k..], w, y);
      }
    } else {
      assert (q + [w] + y)[1..] == y && q + y == y;
      assert y != [] ==> y[1..] == [];
    }
  }

  lemma {:induction false} DropTrailingSpace(x: seq<Item>, w: Item, y: seq<Item>)
    requires w.Ch? && IsSpace(w.c) && (y == [] || y == [Semi])
    requires WellLexed(x + [w] + y)
    ensures WellLexed(x + y)
  {
    var long, short := x + [w] + y, x + y;
    if x == [] {
      assert long[1..] == y && short == y;
    } else {
      assert long[1..] == x[1..] + [w] + y && short[1..] == x[1..] + y;
      if x[0] == Ch('\'') {
        QuoteLenWithoutSpace(x[1..], w, y);
        var n := 1 + ItemQuoteLen(long[1..]);
        if n <= |x| {
          assert long[n..] == x[n..] + [w] + y && short[n..] == x[n..] + y;
          assert long[..n] == x[..n] && short[..n] == x[..n];
          DropTrailingSpace(x[n..], w, y);
        } else {
          OpenLiteral(x, w, y);
        }
      } else {
        DropTrailingSpace(x[1..], w, y);
        assert |x| > 1 ==> short[1] == long[1];
      }
    }
  }

  lemma {:induction false} OpenLiteral(x: seq<Item>, w: Item, y: seq<Item>)
    requires y == [] || y == [Semi]
    requires AllChars((x + [w] + y)[..|x| + 1 + |y|])
    ensures AllChars((x + y)[..|x| + |y|]) && WellLexed((x + y)[|x| + |y|..])
  {
    var long := x + [w] + y;
    assert long[..|x| + 1 + |y|] == long;
    if y == [] {
      assert x + y == long[..|x|];
    } else {
      EndsInSemi(x + [w]);
    }
  }

  lemma {:induction false} EndsInSemi(z: seq<Item>)
    ensures !AllChars(z + [Semi])
  {
    assert (z + [Semi])[|z|] == Semi;
  }

  // ── The splitter's image ─────────────────────────────────────

  function Concat(stmts: seq<string>): string {
    if stmts == [] then "" else stmts[0] + Concat(stmts[1..])
  }

  /** A non-empty trimmed text and its terminator; no comment and no other terminator outside quotes. */
  predicate Terminated(stmt: string) {
    && |stmt| > 1
    && stmt == stmt[..|stmt| - 1] + ";"
    && Trim(stmt[..|stmt| - 1]) == stmt[..|stmt| - 1]
    && WellLexed(Chars(stmt[..|stmt| - 1]) + [Semi])
  }

  predicate Unterminated(stmt: string) { stmt != "" && Trim(stmt) == stmt && WellLexed(Chars(stmt)) }

  /** Statements of which at most the last lacks its terminator. */
  predicate Script(stmts: seq<string>) {
    || stmts == []
    || (Terminated(stmts[0]) && Script(stmts[1..]))
    || (|stmts| == 1 && Unterminated(stmts[0]))
  }

  lemma {:induction false} StatementsRun(a: seq<Item>, y: seq<Item>, cur: string)
    requires AllChars(a)
    ensures Statements(a + y, cur) == Statements(y, cur + TextOf(a))
  {
    if a == [] {
      assert a + y == y && cur + TextOf(a) == cur;
    } else {
      assert (a + y)[1..] == a[1..] + y;
      assert TextOf(a) == [a[0].c] + TextOf(a[1..]);
      assert cur + TextOf(a) == cur + [a[0].c] + TextOf(a[1..]);
      StatementsRun(a[1..], y, cur + [a[0].c]);
    }
  }

  /** Trimming a run of characters keeps it well lexed, before a terminator or at the end. */
  lemma {:induction false} TrimRun(a: seq<Item>, y: seq<Item>)
    requires AllChars(a) && (y == [] || y == [Semi]) && WellLexed(a + y)
    ensures WellLexed(Chars(Trim(TextOf(a))) + y)
    decreases |a|
  {
    var s := TextOf(a);
    if a != [] && IsSpace(s[0]) {
      assert (a + y)[1..] == a[1..] + y;
      assert s == [s[0]] + TextOf(a[1..]);
      TrimLeadingSpace(s[0], TextOf(a[1..]));
      TrimRun(a[1..], y);
    } else if a != [] && IsSpace(s[|a| - 1]) {
      var front, w := a[..|a| - 1], a[|a| - 1];
      assert a == front + [w];
      DropTrailingSpace(front, w, y);
      assert s == TextOf(front) + [s[|a| - 1]];
      TrimTrailingSpace(TextOf(front), s[|a| - 1]);
      TrimRun(front, y);
    } else {
      assert TrimStart(s) == s && Trim(s) == s;
      assert Chars(s) == a;
    }
  }

  function FirstSemi(items: seq<Item>): (k: nat)
    ensures k <= |items| && AllChars(items[..k])
    ensures k < |items| ==> items[k] == Semi
  {
    if items == [] || items[0].Semi? then 0
    else
      var k := 1 + FirstSemi(items[1..]);
      assert items[..k] == [items[0]] + items[1..][..k - 1];
      k
  }

  lemma {:induction false} TerminatedThen(a: seq<Item>, rest: seq<Item>)
    requires AllChars(a)
    ensures WellLexed(a + [Semi] + rest) <==> WellLexed(a + [Semi]) && WellLexed(rest)
    ensures TextOf(a + [Semi] + rest) == TextOf(a) + ";" + TextOf(rest)
    ensures (Statements(a + [Semi] + rest, "") ==
      (if Trim(TextOf(a)) == "" then [] else [Trim(TextOf(a)) + ";"]) + Statements(rest, ""))
  {
    var y := [Semi] + rest;
    SemiSeparates(a, rest);
    assert a + [Semi] + rest == a + y && y[1..] == rest;
    StatementsRun(a, y, "");
    assert "" + TextOf(a) == TextOf(a);
  }

  lemma {:induction false} LastStatement(a: seq<Item>)
    requires AllChars(a) && WellLexed(a)
    ensures Script(Statements(a, ""))
  {
    StatementsRun(a, [], "");
    assert a + [] == a && "" + TextOf(a) == TextOf(a);
    TrimIdempotent(TextOf(a));
    TrimRun(a, []);
    assert Chars(Trim(TextOf(a))) + [] == Chars(Trim(TextOf(a)));
  }

  lemma {:induction false} StatementsAreScript(items: seq<Item>)
    requires WellLexed(items)
    ensures Script(Statements(items, ""))
    decreases |items|
  {
    var k := FirstSemi(items);
    var a := items[..k];
    if k == |items| {
      LastStatement(items);
    } else {
      var rest := items[k + 1..];
      assert items == a + [Semi] + rest;
      TerminatedThen(a, rest);
      StatementsAreScript(rest);
      TrimIdempotent(TextOf(a));
      TrimRun(a, [Semi]);
      var more := Statements(rest, "");
      if Trim(TextOf(a)) == "" {
        assert [] + more == more;
      } else {
        ScriptCons(Trim(TextOf(a)), more);
      }
    }
  }

  lemma {:induction false} ScriptCons(t: string, rest: seq<string>)
    requires t != "" && Trim(t) == t && WellLexed(Chars(t) + [Semi]) && Script(rest)
    ensures Script([t + ";"] + rest)
  {
    var stmt := t + ";";
    assert stmt[..|stmt| - 1] == t;
    assert ([stmt] + rest)[1..] == rest;
  }

  lemma {:induction false} ScriptItems(stmts: seq<string>) returns (items: seq<Item>)
    requires Script(stmts)
    ensures WellLexed(items) && TextOf(items) == Concat(stmts) && Statements(items, "") == stmts
  {
    if stmts == [] {
      items := [];
    } else if Terminated(stmts[0]) {
      var t := stmts[0][..|stmts[0]| - 1];
      var rest := ScriptItems(stmts[1..]);
      items := Chars(t) + [Semi] + rest;
      assert TextOf(Chars(t)) == t;
      TerminatedThen(Chars(t), rest);
    } else {
      items := Chars(stmts[0]);
      assert stmts[1..] == [] && TextOf(items) == stmts[0] == stmts[0] + "";
      StatementsRun(items, [], "");
      assert items + [] == items && "" + TextOf(items) == stmts[0];
    }
  }

  /** Every text splits into a script: trimmed, comment-free statements, one terminator each. */
  lemma {:induction false} SplitGivesScript(sql: string)
    ensures Script(Split(sql))
  {
    LexIsWellLexed(sql);
    StatementsAreScript(Lex(sql));
  }

  /** The concatenation of statements splits back into them exactly when they form a script. */
  lemma {:induction false} ScriptExact(stmts: seq<string>)
    ensures Split(Concat(stmts)) == stmts <==> Script(stmts)
  {
    if Script(stmts) {
      var items := ScriptItems(stmts);
      LexOfText(items);
    }
    SplitGivesScript(Concat(stmts));
  }

  lemma {:induction false} SplitFixpoint(sql: string)
    ensures Split(Concat(Split(sql))) == Split(sql)
  {
    SplitGivesScript(sql);
    ScriptExact(Split(sql));
  }

  lemma {:induction false} TerminatedLexes(t: string)
    requires t != "" && Trim(t) == t && WellLexed(Chars(t) + [Semi])
    ensures Lex(t + ";") == Chars(t) + [Semi] && TextOf(Chars(t) + [Semi]) == t + ";"
    ensures Trim(t + ";") == t + ";"
  {
    assert TextOf(Chars(t) + [Semi]) == t + ";";
    LexOfText(Chars(t) + [Semi]);
    TrimEnds(t);
  }

  lemma {:induction false} UnterminatedLexes(t: string)
    requires WellLexed(Chars(t))
    ensures Lex(t) == Chars(t) && TextOf(Chars(t)) == t
  {
    assert TextOf(Chars(t)) == t;
    LexOfText(Chars(t));
  }

  lemma {:induction false} EmittedTerminated(stmt: string)
    requires Terminated(stmt)
    ensures Trim(stmt) == stmt && TextOf(Lex(stmt)) == stmt && Lex(stmt)[|stmt| - 1] == Semi
    ensures forall k :: 0 <= k < |stmt| - 1 ==> Lex(stmt)[k] != Semi
  {
    TerminatedLexes(stmt[..|stmt| - 1]);
  }

  /** Lexing an emitted statement finds no comment, and a terminator only at its end: always, but for the last. */
  lemma {:induction false} EmittedStatement(stmts: seq<string>, i: nat)
    requires Script(stmts) && i < |stmts|
    ensures stmts[i] != "" && Trim(stmts[i]) == stmts[i] && TextOf(Lex(stmts[i])) == stmts[i]
    ensures forall k :: 0 <= k < |stmts[i]| - 1 ==> Lex(stmts[i])[k] != Semi
    ensures i < |stmts| - 1 ==> Lex(stmts[i])[|stmts[i]| - 1] == Semi
  {
    if i > 0 {
      EmittedStatement(stmts[1..], i - 1);
    } else if Terminated(stmts[0]) {
      EmittedTerminated(stmts[0]);
    } else {
      UnterminatedLexes(stmts[0]);
    }
  }

  // ── Stripping first changes nothing ──────────────────────────

  lemma {:induction false} StatementsLeadingSpace(items: seq<Item>, c: char, cur: string)
    requires IsSpace(c)
    ensures Statements(items, [c] + cur) == Statements(items, cur)
  {
    TrimLeadingSpace(c, cur);
    if items != [] && items[0].Ch? {
      assert [c] + cur + [items[0].c] == [c] + (cur + [items[0].c]);
      StatementsLeadingSpace(items[1..], c, cur + [items[0].c]);
    }
  }

  lemma {:induction false} StatementsTrailingSpace(items: seq<Item>, w: Item, cur: string)
    requires w.Ch? && IsSpace(w.c)
    ensures Statements(items + [w], cur) == Statements(items, cur)
  {
    if items == [] {
      assert items + [w] == [w] && [w][1..] == [];
      TrimTrailingSpace(cur, w.c);
    } else {
      assert (items + [w])[1..] == items[1..] + [w];
      StatementsTrailingSpace(items[1..], w, if items[0].Ch? then cur + [items[0].c] else "");
    }
  }

  lemma {:induction false} TrimItems(items: seq<Item>) returns (core: seq<Item>)
    requires WellLexed(items)
    ensures WellLexed(core) && TextOf(core) == Trim(TextOf(items))
    ensures Statements(core, "") == Statements(items, "")
    decreases |items|
  {
    var s := TextOf(items);
    if items != [] && IsSpace(s[0]) {
      assert s == [s[0]] + TextOf(items[1..]);
      TrimLeadingSpace(s[0], TextOf(items[1..]));
      StatementsLeadingSpace(items[1..], s[0], "");
      assert [s[0]] + "" == "" + [s[0]];
      core := TrimItems(items[1..]);
    } else if items != [] && IsSpace(s[|s| - 1]) {
      var front, w := items[..|s| - 1], items[|s| - 1];
      assert items == front + [w] && front + [] == front && front + [w] + [] == front + [w];
      DropTrailingSpace(front, w, []);
      assert s == TextOf(front) + [w.c];
      TrimTrailingSpace(TextOf(front), w.c);
      StatementsTrailingSpace(front, w, "");
      core := TrimItems(front);
    } else {
      core := items;
      assert Trim(s) == s;
    }
  }

  /** The client may strip comments before the engine splits: the statements are the same. */
  lemma {:induction false} StripThenSplit(sql: string)
    ensures Split(Strip(sql)) == Split(sql)
    ensures Strip(Strip(sql)) == Strip(sql)
  {
    LexIsWellLexed(sql);
    var core := TrimItems(Lex(sql));
    LexOfText(core);
    TrimIdempotent(TextOf(Lex(sql)));
  }

  // ── What the lexer recognises ────────────────────────────────

  /** The text inside a block comment: plain characters and whole comments. */
  datatype Comment = End | Plain(c: char, next: Comment) | Inside(inner: Comment, next: Comment)

  /** Plain characters that cannot be half of a delimiter. */
  predicate Delimited(b: Comment) {
    match b
    case End => true
    case Plain(c, next) => c != '/' && c != '*' && Delimited(next)
    case Inside(inner, next) => Delimited(inner) && Delimited(next)
  }

  function Render(b: Comment): string {
    match b
    case End => ""
    case Plain(c, next) => [c] + Render(next)
    case Inside(inner, next) => "/*" + Render(inner) + "*/" + Render(next)
  }

  lemma {:induction false} BlockInside(s: string, body: string, after: string, depth: nat)
    requires depth > 0 && s == "/*" + body + "*/" + after
    requires BlockLen(body + ("*/" + after), depth + 1) == |body| + BlockLen("*/" + after, depth + 1)
    ensures BlockLen(s, depth) == |body| + 4 + BlockLen(after, depth)
  {
    var closed := "*/" + after;
    assert closed[2..] == after;
    assert s[2..] == body + closed;
  }

  lemma {:induction false} RenderInside(b: Comment, rest: string)
    requires b.Inside?
    ensures Render(b) + rest == "/*" + Render(b.inner) + "*/" + (Render(b.next) + rest)
    ensures |Render(b)| == |Render(b.inner)| + 4 + |Render(b.next)|
  {
  }

  lemma {:induction false} BlockLenOfRender(b: Comment, depth: nat, rest: string)
    requires Delimited(b) && depth > 0
    ensures BlockLen(Render(b) + rest, depth) == |Render(b)| + BlockLen(rest, depth)
  {
    match b
    case End => assert Render(b) + rest == rest;
    case Plain(c, next) =>
      assert (Render(b) + rest)[1..] == Render(next) + rest;
      BlockLenOfRender(next, depth, rest);
    case Inside(inner, next) =>
      var after := Render(next) + rest;
      BlockLenOfRender(inner, depth + 1, "*/" + after);
      BlockLenOfRender(next, depth, rest);
      RenderInside(b, rest);
      BlockInside(Render(b) + rest, Render(inner), after, depth);
  }

  /** The length that the lexer finds for a block comment, from behind its opener. */
  lemma {:induction false} CommentLen(b: Comment, rest: string)
    requires Delimited(b)
    ensures BlockLen(Render(b) + ("*/" + rest), 1) == |Render(b)| + 2
  {
    BlockLenOfRender(b, 1, "*/" + rest);
    assert ("*/" + rest)[2..] == rest;
  }

  lemma {:induction false} LexComment(s: string, body: string, rest: string)
    requires s == "/*" + (body + ("*/" + rest)) && BlockLen(body + ("*/" + rest), 1) == |body| + 2
    ensures Lex(s) == [Ch(' ')] + Lex(rest)
  {
    assert s[0] == '/' && s[1] == '*';
    assert s[2..] == body + ("*/" + rest);
    assert s[2 + (|body| + 2)..] == rest;
  }

  /** A block comment reads as one space, however deeply comments nest in it. */
  lemma {:induction false} NestedComment(b: Comment, rest: string)
    requires Delimited(b)
    ensures Lex("/*" + Render(b) + "*/" + rest) == [Ch(' ')] + Lex(rest)
  {
    var s := "/*" + Render(b) + "*/" + rest;
    assert s == "/*" + (Render(b) + ("*/" + rest));
    CommentLen(b, rest);
    LexComment(s, Render(b), rest);
  }

  lemma {:induction false} LineLenStops(body: string, rest: string)
    requires '\n' !in body
    ensures LineLen(body + ("\n" + rest)) == |body| + 1
  {
    var s := body + ("\n" + rest);
    if body != "" {
      assert s[1..] == body[1..] + ("\n" + rest);
      LineLenStops(body[1..], rest);
    }
  }

  /** A line comment reads as one space and ends at its newline, or at the end of the text, where it reads as nothing. */
  lemma {:induction false} LineComment(body: string, rest: string)
    requires '\n' !in body
    ensures Lex("--" + body + "\n" + rest) == [Ch(' ')] + Lex(rest)
    ensures Lex("--" + body) == []
  {
    var s, tail := "--" + body + "\n" + rest, body + ("\n" + rest);
    LineLenStops(body, rest);
    assert s[2..] == tail && tail[|body|] == '\n';
    assert s[2 + (|body| + 1)..] == rest;
    assert ("--" + body)[2..] == body;
    LastLine("--" + body);
  }

  // ── Statements and what follows them ─────────────────────────

  /** A literal that closes before a semicolon is as long whatever comes behind it. */
  lemma {:induction false} QuoteLenBefore(x: string, y: string)
    requires QuoteLen(x + ";") <= |x|
    ensures QuoteLen(x + (";" + y)) == QuoteLen(x + ";")
  {
    var short, long := x + ";", x + (";" + y);
    if x != "" {
      var k := QuoteStride(x);
      if k > 0 {
        assert short[k..] == x[k..] + ";" && long[k..] == x[k..] + (";" + y);
        QuoteLenBefore(x[k..], y);
      }
    }
  }

  lemma {:induction false} ThenTail(a: seq<Item>, rest: string, k: nat)
    requires k <= |a|
    ensures (TextOf(a) + (";" + rest))[k..] == TextOf(a[k..]) + (";" + rest)
    ensures (a + [Semi])[k..] == a[k..] + [Semi]
    ensures TextOf(a + [Semi]) == TextOf(a) + ";"
  {
  }

  lemma {:induction false} LiteralLenThen(a: seq<Item>, rest: string, n: nat)
    requires AllChars(a) && a != [] && n <= |a| && n == 1 + ItemQuoteLen(a[1..] + [Semi])
    ensures QuoteLen(TextOf(a[1..]) + (";" + rest)) == n - 1
  {
    var tail := a[1..] + [Semi];
    assert tail[..n - 1] == a[1..n];
    QuoteLenOfText(tail);
    ThenTail(a[1..], rest, 0);
    QuoteLenBefore(TextOf(a[1..]), rest);
  }

  lemma {:induction false} SameChars(a: seq<Item>, tail: string, n: nat)
    requires AllChars(a) && n <= |a|
    ensures Chars((TextOf(a) + tail)[..n]) == a[..n]
  {
    forall i | 0 <= i < n ensures Chars((TextOf(a) + tail)[..n])[i] == a[..n][i] { assert a[i].Ch?; }
  }

  lemma {:induction false} LiteralThen(a: seq<Item>, rest: string, n: nat)
    requires AllChars(a) && StartsWith(a, '\'') && WellLexed(a + [Semi]) && n == 1 + ItemQuoteLen((a + [Semi])[1..])
    ensures n <= |a| && WellLexed(a[n..] + [Semi])
    ensures Lex(TextOf(a) + (";" + rest)) == a[..n] + Lex(TextOf(a[n..]) + (";" + rest))
  {
    assert a + [Semi] + [] == a + [Semi];
    SemiBehindQuote(a, [], a + [Semi], a + [Semi] + [], n);
    ThenTail(a, rest, 1);
    ThenTail(a, rest, n);
    LiteralLenThen(a, rest, n);
    SameChars(a, ";" + rest, n);
  }

  lemma {:induction false} CharThen(a: seq<Item>, rest: string)
    requires AllChars(a) && a != [] && a[0] != Ch('\'') && WellLexed(a + [Semi])
    ensures WellLexed(a[1..] + [Semi])
    ensures Lex(TextOf(a) + (";" + rest)) == [a[0]] + Lex(TextOf(a[1..]) + (";" + rest))
  {
    var s := TextOf(a) + (";" + rest);
    ThenTail(a, rest, 1);
    assert |a| > 1 ==> s[1] == a[1].c && (a[1..] + [Semi])[0] == a[1];
    assert !OpensLine(s) && !OpensBlock(s);
  }

  /** One literal or character of what comes before a terminator. */
  lemma {:induction false} StepThen(a: seq<Item>, rest: string) returns (n: nat)
    requires AllChars(a) && a != [] && WellLexed(a + [Semi])
    ensures 0 < n <= |a| && WellLexed(a[n..] + [Semi])
    ensures Lex(TextOf(a) + (";" + rest)) == a[..n] + Lex(TextOf(a[n..]) + (";" + rest))
  {
    if a[0] == Ch('\'') {
      n := 1 + ItemQuoteLen((a + [Semi])[1..]);
      LiteralThen(a, rest, n);
    } else {
      n := 1;
      CharThen(a, rest);
    }
  }

  lemma {:induction false} SemiThen(text: string, rest: string)
    requires text == ";" + rest
    ensures Lex(text) == [Semi] + Lex(rest)
  {
    assert text[1..] == rest;
  }

  lemma {:induction false} Rejoin(whole: seq<Item>, a: seq<Item>, n: nat, tail: seq<Item>)
    requires n <= |a| && whole == a[..n] + (a[n..] + tail)
    ensures whole == a + tail
  {
  }

  /** What follows a terminator is read as if the text began there. */
  lemma {:induction false} LexThen(a: seq<Item>, rest: string, tail: seq<Item>)
    requires AllChars(a) && WellLexed(a + [Semi]) && tail == [Semi] + Lex(rest)
    ensures Lex(TextOf(a) + (";" + rest)) == a + tail
    decreases |a|
  {
    if a == [] {
      SemiThen(TextOf(a) + (";" + rest), rest);
      assert a + tail == tail;
    } else {
      var n := StepThen(a, rest);
      LexThen(a[n..], rest, tail);
      Rejoin(Lex(TextOf(a) + (";" + rest)), a, n, tail);
    }
  }

  /** A complete statement is split off whatever follows it. */
  lemma {:induction false} TerminatedSplitsOff(stmt: string, rest: string)
    requires Terminated(stmt)
    ensures Split(stmt + rest) == [stmt] + Split(rest)
  {
    var t := stmt[..|stmt| - 1];
    assert TextOf(Chars(t)) == t && stmt + rest == t + (";" + rest);
    LexThen(Chars(t), rest, [Semi] + Lex(rest));
    assert Chars(t) + ([Semi] + Lex(rest)) == Chars(t) + [Semi] + Lex(rest);
    TerminatedThen(Chars(t), Lex(rest));
  }

  predicate AllTerminated(stmts: seq<string>) { forall i :: 0 <= i < |stmts| ==> Terminated(stmts[i]) }

  /** So are any number of them. */
  lemma {:induction false} SplitsOff(stmts: seq<string>, rest: string)
    requires AllTerminated(stmts)
    ensures Split(Concat(stmts) + rest) == stmts + Split(rest)
  {
    if stmts == [] {
      assert Concat(stmts) + rest == rest && stmts + Split(rest) == Split(rest);
    } else {
      assert Concat(stmts) + rest == stmts[0] + (Concat(stmts[1..]) + rest);
      TerminatedSplitsOff(stmts[0], Concat(stmts[1..]) + rest);
      SplitsOff(stmts[1..], rest);
      assert [stmts[0]] + (stmts[1..] + Split(rest)) == stmts + Split(rest);
    }
  }

  /** A comment that reads as a space is not seen by the splitter at the start of a text. */
  lemma {:induction false} LeadingComment(comment: string, rest: string)
    requires Lex(comment + rest) == [Ch(' ')] + Lex(rest)
    ensures Split(comment + rest) == Split(rest)
  {
    assert ([Ch(' ')] + Lex(rest))[1..] == Lex(rest);
    assert "" + [' '] == [' '] + "";
    StatementsLeadingSpace(Lex(rest), ' ', "");
  }

  /** Between complete statements, a line comment or a block comment does not change what is split. */
  lemma {:induction false} CommentsBetween(stmts: seq<string>, body: string, b: Comment, rest: string)
    requires AllTerminated(stmts) && '\n' !in body && Delimited(b)
    ensures Split(Concat(stmts) + ("--" + body + "\n" + rest)) == stmts + Split(rest)
    ensures Split(Concat(stmts) + ("/*" + Render(b) + "*/" + rest)) == stmts + Split(rest)
    ensures Split(Concat(stmts) + ("--" + body)) == stmts
  {
    LineComment(body, rest);
    NestedComment(b, rest);
    assert "--" + body + "\n" + rest == ("--" + body + "\n") + rest;
    assert "/*" + Render(b) + "*/" + rest == ("/*" + Render(b) + "*/") + rest;
    LeadingComment("--" + body + "\n", rest);
    LeadingComment("/*" + Render(b) + "*/", rest);
    SplitsOff(stmts, "--" + body + "\n" + rest);
    SplitsOff(stmts, "/*" + Render(b) + "*/" + rest);
    SplitsOff(stmts, "--" + body);
    assert Split("--" + body) == [] && stmts + [] == stmts;
  }

  lemma {:induction false} QuoteLenOfEscaped(v: string, rest: string)
    requires rest == "" || rest[0] != '\''
    ensures QuoteLen(KeyEncoding.EscapeQuotes(v) + "'" + rest) == |KeyEncoding.EscapeQuotes(v)| + 1
  {
    var s := KeyEncoding.EscapeQuotes(v) + "'" + rest;
    if v == "" {
      assert s == "'" + rest && (|s| > 1 ==> s[1] == rest[0]);
    } else {
      var k := if v[0] == '\'' then 2 else 1;
      assert s[k..] == KeyEncoding.EscapeQuotes(v[1..]) + "'" + rest;
      QuoteLenOfEscaped(v[1..], rest);
    }
  }

  /** Any string printed as a literal is read verbatim: quotes, semicolons and comment marks in it are data. */
  lemma {:induction false} LiteralIsVerbatim(v: string, rest: string)
    requires rest == "" || rest[0] != '\''
    ensures (Lex(KeyEncoding.SqlLiteral(Str(v)) + rest) ==
      Chars(KeyEncoding.SqlLiteral(Str(v))) + Lex(rest))
  {
    var lit := "'" + KeyEncoding.EscapeQuotes(v) + "'";
    var s := lit + rest;
    assert s[1..] == KeyEncoding.EscapeQuotes(v) + "'" + rest;
    QuoteLenOfEscaped(v, rest);
    assert s[..|lit|] == lit && s[|lit|..] == rest;
  }

  // ── The loops ────────────────────────────────────────────────

  lemma {:induction false} QuoteStep(sql: string, i: nat)
    requires i < |sql|
    ensures sql[i] != '\'' ==> QuoteLen(sql[i..]) == 1 + QuoteLen(sql[i + 1..])
    ensures sql[i] == '\'' && i + 1 < |sql| && sql[i + 1] == '\'' ==> QuoteLen(sql[i..]) == 2 + QuoteLen(sql[i + 2..])
    ensures sql[i] == '\'' && !(i + 1 < |sql| && sql[i + 1] == '\'') ==> QuoteLen(sql[i..]) == 1
  {
    assert sql[i..][1..] == sql[i + 1..];
    if i + 1 < |sql| { assert sql[i..][2..] == sql[i + 2..]; }
  }

  lemma {:induction false} BlockStep(sql: string, i: nat, depth: nat)
    requires i < |sql| && depth > 0
    ensures OpensBlock(sql[i..]) ==> BlockLen(sql[i..], depth) == 2 + BlockLen(sql[i + 2..], depth + 1)
    ensures (i + 1 < |sql| && sql[i] == '*' && sql[i + 1] == '/' ==>
      BlockLen(sql[i..], depth) == 2 + BlockLen(sql[i + 2..], depth - 1))
    ensures (!OpensBlock(sql[i..]) && !(i + 1 < |sql| && sql[i] == '*' && sql[i + 1] == '/') ==>
      BlockLen(sql[i..], depth) == 1 + BlockLen(sql[i + 1..], depth))
  {
    assert sql[i..][1..] == sql[i + 1..];
    if i + 1 < |sql| { assert sql[i..][2..] == sql[i + 2..]; }
  }

  /** From behind an opening quote to behind the closing one. */
  method ReadLiteral(sql: string, start: nat) returns (i: nat)
    requires start <= |sql|
    ensures i == start + QuoteLen(sql[start..])
  {
    i := start;
    while i < |sql|
      invariant start <= i <= |sql|
      invariant i + QuoteLen(sql[i..]) == start + QuoteLen(sql[start..])
    {
      QuoteStep(sql, i);
      var c := sql[i];
      i := i + 1;
      if c == '\'' {
        if i < |sql| && sql[i] == '\'' {
          i := i + 1;
        } else {
          break;
        }
      }
    }
  }

  /** To behind the newline that ends a line comment, or to the end of the text. */
  method SkipLine(sql: string, start: nat) returns (i: nat, newline: bool)
    requires start <= |sql|
    ensures i == start + LineLen(sql[start..])
    ensures newline <==> '\n' in sql[start..]
  {
    i, newline := start, false;
    while i < |sql|
      invariant start <= i <= |sql|
      invariant i + LineLen(sql[i..]) == start + LineLen(sql[start..])
      invariant '\n' in sql[start..] <==> '\n' in sql[i..]
    {
      var c := sql[i];
      assert sql[i..] == [c] + sql[i + 1..];
      i := i + 1;
      if c == '\n' {
        newline := true;
        break;
      }
    }
  }

  /** To behind the closer of a block comment, counting the openers and closers inside it. */
  method SkipBlock(sql: string, start: nat) returns (i: nat)
    requires start <= |sql|
    ensures i == start + BlockLen(sql[start..], 1)
  {
    i := start;
    var depth := 1;
    while depth > 0 && i < |sql|
      invariant start <= i <= |sql| && depth >= 0
      invariant i + BlockLen(sql[i..], depth) == start + BlockLen(sql[start..], 1)
      decreases |sql| - i
    {
      BlockStep(sql, i, depth);
      if sql[i] == '*' && i + 1 < |sql| && sql[i + 1] == '/' {
        i, depth := i + 2, depth - 1;
      } else if sql[i] == '/' && i + 1 < |sql| && sql[i + 1] == '*' {
        i, depth := i + 2, depth + 1;
      } else {
        i := i + 1;
      }
    }
  }

  /** One turn of the lexer: how many characters it reads and the items it delivers. */
  function Turn(s: string): (r: (nat, seq<Item>))
    requires s != ""
    ensures 0 < r.0 <= |s|
  {
    if s[0] == '\'' then (1 + QuoteLen(s[1..]), Chars(s[..1 + QuoteLen(s[1..])]))
    else if OpensLine(s) then (2 + LineLen(s[2..]), if '\n' in s[2..] then [Ch(' ')] else [])
    else if OpensBlock(s) then (2 + BlockLen(s[2..], 1), [Ch(' ')])
    else (1, if s[0] == ';' then [Semi] else [Ch(s[0])])
  }

  lemma {:induction false} LexTurn(s: string)
    requires s != ""
    ensures Lex(s) == Turn(s).1 + Lex(s[Turn(s).0..])
    ensures s[0] == ';' ==> Turn(s) == (1, [Semi])
    ensures s[0] != ';' ==> AllChars(Turn(s).1)
  {
  }

  /** One turn of either loop: the next position and the text it appends. */
  method ReadTurn(sql: string, start: nat) returns (i: nat, text: string)
    requires start < |sql|
    ensures i == start + Turn(sql[start..]).0
    ensures text == TextOf(Turn(sql[start..]).1)
  {
    ghost var s := sql[start..];
    assert s[1..] == sql[start + 1..];
    if sql[start] == '\'' {
      i := ReadLiteral(sql, start + 1);
      text := sql[start..i];
    } else if sql[start] == '-' && start + 1 < |sql| && sql[start + 1] == '-' {
      assert s[2..] == sql[start + 2..];
      var newline;
      i, newline := SkipLine(sql, start + 2);
      text := if newline then " " else "";
    } else if sql[start] == '/' && start + 1 < |sql| && sql[start + 1] == '*' {
      assert s[2..] == sql[start + 2..];
      i := SkipBlock(sql, start + 2);
      text := " ";
    } else {
      i, text := start + 1, [sql[start]];
    }
  }

  lemma {:induction false} SplitTurn(sql: string, i: nat, done: seq<string>, current: string, n: nat, items: seq<Item>)
    requires i < |sql| && (n, items) == Turn(sql[i..])
    ensures (done + Statements(Lex(sql[i..]), current) ==
      if sql[i] != ';' then done + Statements(Lex(sql[i + n..]), current + TextOf(items))
      else if Trim(current) == "" then done + Statements(Lex(sql[i + n..]), "")
      else (done + [Trim(current) + ";"]) + Statements(Lex(sql[i + n..]), ""))
  {
    var s := sql[i..];
    var rest := Lex(sql[i + n..]);
    LexTurn(s);
    assert s[n..] == sql[i + n..];
    if sql[i] == ';' {
      assert Lex(s)[1..] == rest;
      var more := Statements(rest, "");
      assert [] + more == more;
      assert done + ([Trim(current) + ";"] + more) == (done + [Trim(current) + ";"]) + more;
    } else {
      StatementsRun(items, rest, current);
    }
  }

  lemma {:induction false} StripTurn(sql: string, i: nat, n: nat, items: seq<Item>)
    requires i < |sql| && (n, items) == Turn(sql[i..])
    ensures TextOf(Lex(sql[i..])) == TextOf(items) + TextOf(Lex(sql[i + n..]))
  {
    LexTurn(sql[i..]);
    assert sql[i..][n..] == sql[i + n..];
  }

  lemma {:induction false} Advance(done: string, text: string, rest: string, todo: string, whole: string)
    requires done + todo == whole && todo == text + rest
    ensures (done + text) + rest == whole
  {
  }

  method SplitSqlStatements(sql: string) returns (statements: seq<string>)
    ensures statements == Split(sql)
  {
    statements := [];
    var current := "";
    var i := 0;
    assert sql[0..] == sql;
    while i < |sql|
      invariant i <= |sql|
      invariant statements + Statements(Lex(sql[i..]), current) == Split(sql)
    {
      ghost var (n, items) := Turn(sql[i..]);
      SplitTurn(sql, i, statements, current, n, items);
      var next, text := ReadTurn(sql, i);
      if sql[i] == ';' {
        var stmt := Trim(current);
        if stmt != "" { statements := statements + [stmt + ";"]; }
        current := "";
      } else {
        current := current + text;
      }
      i := next;
    }
    var stmt := Trim(current);
    if stmt != "" { statements := statements + [stmt]; }
  }

  method StripSqlComments(sql: string) returns (stripped: string)
    ensures stripped == Strip(sql)
  {
    var result := "";
    var i := 0;
    ghost var whole := TextOf(Lex(sql));
    assert sql[0..] == sql;
    while i < |sql|
      invariant i <= |sql|
      invariant result + TextOf(Lex(sql[i..])) == whole
    {
      ghost var (n, items) := Turn(sql[i..]);
      var next, text := ReadTurn(sql, i);
      StripTurn(sql, i, n, items);
      Advance(result, text, TextOf(Lex(sql[next..])), TextOf(Lex(sql[i..])), whole);
      result, i := result + text, next;
    }
    assert sql[i..] == "" && result + "" == result;
    stripped := Trim(result);
  }
}
