/**
 The server's parameter binder, which replaces `$n`, …, `$1` one after the other in the whole text,
 and when it gives the same text as the engine's.
 */
module Binders {
  import opened Text
  import opened Placeholders

  // ── The server: repeated replacement ─────────────────────────

  /** `str::replace`: leftmost matches, not overlapping. */
  function Replace(s: string, pattern: string, value: string): string
    requires pattern != ""
  {
    if s == "" then ""
    else if pattern <= s then value + Replace(s[|pattern|..], pattern, value)
    else [s[0]] + Replace(s[1..], pattern, value)
  }

  function Placeholder(k: nat): string { "$" + Decimal(k) }

  /** Replaces `$k`, …, `$1`, in this order. */
  function Bind(sql: string, values: seq<string>, k: nat): string
    requires k <= |values|
    decreases k
  {
    if k == 0 then sql else Bind(Replace(sql, Placeholder(k), values[k - 1]), values, k - 1)
  }

  method BindPortalSql(template: string, values: seq<string>) returns (sql: string)
    ensures sql == Bind(template, values, |values|)
  {
    sql := template;
    var i := |values|;
    while i > 0
      invariant 0 <= i <= |values|
      invariant Bind(sql, values, i) == Bind(template, values, |values|)
    {
      i := i - 1;
      sql := Replace(sql, Placeholder(i + 1), values[i]);
    }
  }

  // ── Decimal prefixes ─────────────────────────────────────────

  lemma {:induction false} DigitsGrow(a: string, b: string)
    requires AllDigits(a + b)
    ensures AllDigits(a) && DigitsValue(a) <= DigitsValue(a + b)
    ensures b != "" ==> 10 * DigitsValue(a) <= DigitsValue(a + b)
  {
    assert forall i :: 0 <= i < |a| ==> a[i] == (a + b)[i];
    if b == "" {
      assert a + b == a;
    } else {
      assert (a + b)[..|a + b| - 1] == a + b[..|b| - 1];
      assert IsDigit((a + b)[|a + b| - 1]);
      DigitsGrow(a, b[..|b| - 1]);
    }
  }

  lemma {:induction false} DecimalSnoc(v: nat, digit: nat)
    requires v >= 1 && digit < 10
    ensures Decimal(10 * v + digit) == Decimal(v) + [DigitChar(digit)]
  {
    assert (10 * v + digit) / 10 == v && (10 * v + digit) % 10 == digit;
  }

  lemma {:induction false} LastDigit(d: string, front: string, last: char)
    requires AllDigits(d) && d == front + [last]
    ensures AllDigits(front) && IsDigit(last)
    ensures DigitsValue(d) == 10 * DigitsValue(front) + (last as int - '0' as int)
    ensures DigitChar(last as int - '0' as int) == last
  {
    assert d[..|d| - 1] == front && d[|d| - 1] == last && IsDigit(d[|d| - 1]);
    forall i | 0 <= i < |front| ensures IsDigit(front[i]) { assert d[i] == front[i]; }
  }

  lemma {:induction false} Canonical(d: string)
    requires AllDigits(d) && d != "" && d[0] != '0'
    ensures DigitsValue(d) >= 1 && Decimal(DigitsValue(d)) == d
  {
    var front, last := d[..|d| - 1], d[|d| - 1];
    LastDigit(d, front, last);
    var digit := last as int - '0' as int;
    if |d| > 1 {
      Canonical(front);
      DecimalSnoc(DigitsValue(front), digit);
    } else {
      assert front == "" && Decimal(digit) == [last];
    }
  }

  lemma {:induction false} DecimalHead(m: nat)
    requires m >= 1
    ensures Decimal(m)[0] != '0'
  {
    if m >= 10 { DecimalHead(m / 10); }
  }

  /** Length of the longest prefix of `digits` that is the number of a parameter. */
  function LongestPrefix(digits: string, n: nat): (l: nat)
    requires AllDigits(digits)
    ensures l <= |digits|
    decreases |digits|
  {
    if digits == "" || digits[0] == '0' then 0
    else if DigitsValue(digits) <= n then |digits|
    else LongestPrefix(digits[..|digits| - 1], n)
  }

  function PrefixIndex(digits: string, n: nat): nat
    requires AllDigits(digits)
  {
    DigitsValue(digits[..LongestPrefix(digits, n)])
  }

  lemma {:induction false} PrefixIndexFits(digits: string, n: nat)
    requires AllDigits(digits)
    ensures PrefixIndex(digits, n) <= n
    ensures PrefixIndex(digits, n) > 0 ==> Decimal(PrefixIndex(digits, n)) == digits[..LongestPrefix(digits, n)]
    ensures PrefixIndex(digits, n) == 0 <==> LongestPrefix(digits, n) == 0
    decreases |digits|
  {
    var l := LongestPrefix(digits, n);
    if digits == "" || digits[0] == '0' {
      assert digits[..0] == "";
    } else if DigitsValue(digits) <= n {
      assert digits[..l] == digits;
      Canonical(digits);
    } else {
      var front := digits[..|digits| - 1];
      assert front[..l] == digits[..l];
      PrefixIndexFits(front, n);
    }
  }

  /** The largest parameter number that is a prefix of the digits is `PrefixIndex`. */
  lemma {:induction false} PrefixIndexIsLargest(digits: string, m: nat, n: nat)
    requires AllDigits(digits) && 1 <= m <= n && Decimal(m) <= digits
    ensures m <= PrefixIndex(digits, n)
    decreases |digits|
  {
    DecimalHead(m);
    DecimalRoundTrip(m);
    assert digits[0] == Decimal(m)[0];
    assert digits == Decimal(m) + digits[|Decimal(m)|..];
    DigitsGrow(Decimal(m), digits[|Decimal(m)|..]);
    if DigitsValue(digits) <= n {
      assert digits[..|digits|] == digits;
    } else {
      assert Decimal(m) != digits;
      var front := digits[..|digits| - 1];
      PrefixIndexIsLargest(front, m, n);
      assert front[..LongestPrefix(front, n)] == digits[..LongestPrefix(front, n)];
    }
  }

  // ── What repeated replacement does to the pieces ─────────────

  predicate DollarFree(values: seq<string>) { forall i :: 0 <= i < |values| ==> '$' !in values[i] }

  /** The server's result for one piece once `$n`, …, `$m + 1` are replaced. */
  function Bound(p: Piece, values: seq<string>, m: nat): string {
    if p.Lit? then [p.c]
    else
      var k := PrefixIndex(p.digits, |values|);
      PrefixIndexFits(p.digits, |values|);
      if k > m then values[k - 1] + p.digits[LongestPrefix(p.digits, |values|)..] else PieceText(p)
  }

  /** The pieces in that state, and the text behind them. */
  function BoundText(ps: seq<Piece>, values: seq<string>, m: nat, tail: string): string {
    if ps == [] then tail else Bound(ps[0], values, m) + BoundText(ps[1..], values, m, tail)
  }

  /**
   Text behind `$` and the digits `d` that appears when `$e` is replaced comes too late to be taken
   for more digits: the numbers it could complete are already done.
   */
  predicate TooLate(d: string, e: nat)
    requires AllDigits(d)
  {
    if d == "" then e <= 1 else d[0] == '0' || e <= 10 * DigitsValue(d)
  }

  predicate OpensWithText(value: string) { value != "" && !IsDigit(value[0]) }

  /** No placeholder behind a `$`, of those above `low`, can become digits that continue it. */
  predicate Apart(d: string, next: seq<Piece>, values: seq<string>, low: nat)
    requires AllDigits(d)
  {
    next != [] && next[0].Hole? ==>
      var e := PrefixIndex(next[0].digits, |values|);
      PrefixIndexFits(next[0].digits, |values|);
      e <= low || TooLate(d, e) || OpensWithText(values[e - 1])
  }

  predicate OpensDollar(p: Piece) { p.Hole? || p.c == '$' }

  function DigitsOf(p: Piece): (d: string)
    ensures AllDigits(d)
  {
    if p.Hole? then p.digits else ""
  }

  predicate Separated(ps: seq<Piece>, values: seq<string>, low: nat) {
    ps == [] ||
    (Separated(ps[1..], values, low) && (OpensDollar(ps[0]) ==> Apart(DigitsOf(ps[0]), ps[1..], values, low)))
  }

  /** No value with a `$` is inserted before the last replacement, which is that of `$1`. */
  predicate CleanAt(p: Piece, values: seq<string>) {
    p.Hole? ==>
      var k := PrefixIndex(p.digits, |values|);
      PrefixIndexFits(p.digits, |values|);
      k > 1 ==> '$' !in values[k - 1]
  }

  predicate Clean(ps: seq<Piece>, values: seq<string>) {
    ps == [] || (Clean(ps[1..], values) && CleanAt(ps[0], values))
  }

  lemma {:induction false} DollarFreeIsClean(ps: seq<Piece>, values: seq<string>)
    requires DollarFree(values)
    ensures Clean(ps, values)
  {
    if ps != [] {
      DollarFreeIsClean(ps[1..], values);
      if ps[0].Hole? { PrefixIndexFits(ps[0].digits, |values|); }
    }
  }

  predicate NoDigitFirst(s: string) { s == "" || !IsDigit(s[0]) }

  lemma {:induction false} ReplacePasses(v: string, rest: string, pattern: string, value: string)
    requires '$' !in v && pattern != "" && pattern[0] == '$'
    ensures Replace(v + rest, pattern, value) == v + Replace(rest, pattern, value)
  {
    if v == "" {
      assert v + rest == rest;
    } else {
      assert (v + rest)[1..] == v[1..] + rest;
      assert v[0] != '$';
      ReplacePasses(v[1..], rest, pattern, value);
    }
  }

  lemma {:induction false} ContinuedNumber(d: string, m: nat)
    requires m >= 1 && d < Decimal(m)
    ensures AllDigits(d)
    ensures d != "" ==> d[0] != '0' && 10 * DigitsValue(d) <= m
  {
    var x := Decimal(m);
    DecimalHead(m);
    DecimalRoundTrip(m);
    assert x == d + x[|d|..];
    DigitsGrow(d, x[|d|..]);
  }

  lemma {:induction false} FirstOfSum(v: string, left: string, b: string)
    requires b == v + left && v != ""
    ensures b != "" && b[0] == v[0]
  {
  }

  lemma {:induction false} FirstOfHole(d: Numeral, values: seq<string>, m: nat, b: string)
    requires b == Bound(Hole(d), values, m) && (b == "" || IsDigit(b[0]))
    ensures PrefixIndex(d, |values|) > m
    ensures PrefixIndex(d, |values|) <= |values| && !OpensWithText(values[PrefixIndex(d, |values|) - 1])
  {
    BoundHole(d, values, m);
    var k := PrefixIndex(d, |values|);
    if k > m {
      if values[k - 1] != "" { FirstOfSum(values[k - 1], d[LongestPrefix(d, |values|)..], b); }
    } else {
      FirstOfSum("$", d, b);
    }
  }

  /** Digits appear behind a placeholder only when the next one has been replaced by them. */
  lemma {:induction false} FirstOfBoundText(next: seq<Piece>, values: seq<string>, m: nat, tail: string)
    requires !StartsWithDigit(next) && NoDigitFirst(tail) && !NoDigitFirst(BoundText(next, values, m, tail))
    ensures next != [] && next[0].Hole? && PrefixIndex(next[0].digits, |values|) > m
    ensures var e := PrefixIndex(next[0].digits, |values|); e <= |values| && !OpensWithText(values[e - 1])
  {
    if next != [] {
      var first := Bound(next[0], values, m);
      assert first != "" ==> BoundText(next, values, m, tail)[0] == first[0];
      if next[0].Hole? { FirstOfHole(next[0].digits, values, m, first); }
    }
  }

  /** What follows the digits of a placeholder does not extend them to `m`. */
  lemma {:induction false} NoExtension(d: string, next: seq<Piece>, values: seq<string>, m: nat, tail: string)
    requires AllDigits(d) && !StartsWithDigit(next) && Apart(d, next, values, m) && NoDigitFirst(tail)
    requires 1 <= m <= |values| && Decimal(m) <= d + BoundText(next, values, m, tail)
    ensures Decimal(m) <= d
  {
    var x := Decimal(m);
    if |x| > |d| {
      var rest := BoundText(next, values, m, tail);
      assert IsDigit(x[|d|]) && x[|d|] == rest[0];
      FirstOfBoundText(next, values, m, tail);
      assert d < x by { assert d == (d + rest)[..|d|]; }
      ContinuedNumber(d, m);
    }
  }

  lemma {:induction false} BehindDollar(x: string, y: string)
    ensures "$" + x <= "$" + y ==> x <= y
  {
    if "$" + x <= "$" + y {
      assert ("$" + x)[1..] == x && ("$" + y)[1..] == y;
    }
  }

  lemma {:induction false} NoMatch(d: string, next: seq<Piece>, values: seq<string>, m: nat, tail: string, rest: string)
    requires AllDigits(d) && !StartsWithDigit(next) && Apart(d, next, values, m) && NoDigitFirst(tail)
    requires 1 <= m <= |values| && PrefixIndex(d, |values|) < m
    requires rest == BoundText(next, values, m, tail)
    ensures !(Placeholder(m) <= "$" + (d + rest))
  {
    if Placeholder(m) <= "$" + (d + rest) {
      BehindDollar(Decimal(m), d + rest);
      NoExtension(d, next, values, m, tail);
      PrefixIndexIsLargest(d, m, |values|);
    }
  }

  lemma {:induction false} ReplaceHere(whole: string, d: string, l: nat, rest: string, pattern: string, value: string, filled: string)
    requires l <= |d| && pattern == "$" + d[..l] && '$' !in d && whole == "$" + d && filled == value + d[l..]
    ensures Replace(whole + rest, pattern, value) == filled + Replace(rest, pattern, value)
  {
    var s := whole + rest;
    assert s == pattern + (d[l..] + rest);
    assert s[|pattern|..] == d[l..] + rest;
    ReplacePasses(d[l..], rest, pattern, value);
    Associate(value, d[l..], Replace(rest, pattern, value));
  }

  lemma {:induction false} ReplaceNotHere(whole: string, d: string, rest: string, pattern: string, value: string)
    requires pattern != "" && pattern[0] == '$' && '$' !in d && whole == "$" + d && !(pattern <= whole + rest)
    ensures Replace(whole + rest, pattern, value) == whole + Replace(rest, pattern, value)
  {
    assert (whole + rest)[1..] == d + rest;
    ReplacePasses(d, rest, pattern, value);
    Associate("$", d, Replace(rest, pattern, value));
  }

  lemma {:induction false} BoundHole(d: Numeral, values: seq<string>, m: nat)
    ensures PrefixIndex(d, |values|) <= |values| && '$' !in d
    ensures (PrefixIndex(d, |values|) > m ==>
      Bound(Hole(d), values, m) == values[PrefixIndex(d, |values|) - 1] + d[LongestPrefix(d, |values|)..])
    ensures PrefixIndex(d, |values|) > m && '$' !in values[PrefixIndex(d, |values|) - 1] ==> '$' !in Bound(Hole(d), values, m)
    ensures PrefixIndex(d, |values|) <= m ==> Bound(Hole(d), values, m) == "$" + d
  {
    PrefixIndexFits(d, |values|);
    assert forall i :: 0 <= i < |d| ==> IsDigit(d[i]);
  }

  lemma {:induction false} ReplaceDone(d: Numeral, values: seq<string>, m: nat, rest: string)
    requires 1 <= m <= |values| && PrefixIndex(d, |values|) > m && CleanAt(Hole(d), values)
    ensures (Replace(Bound(Hole(d), values, m) + rest, Placeholder(m), values[m - 1]) ==
      Bound(Hole(d), values, m - 1) + Replace(rest, Placeholder(m), values[m - 1]))
  {
    BoundHole(d, values, m);
    BoundHole(d, values, m - 1);
    ReplacePasses(Bound(Hole(d), values, m), rest, Placeholder(m), values[m - 1]);
  }

  lemma {:induction false} ReplaceNow(d: Numeral, values: seq<string>, m: nat, rest: string)
    requires 1 <= m <= |values| && PrefixIndex(d, |values|) == m
    ensures (Replace(Bound(Hole(d), values, m) + rest, Placeholder(m), values[m - 1]) ==
      Bound(Hole(d), values, m - 1) + Replace(rest, Placeholder(m), values[m - 1]))
  {
    BoundHole(d, values, m);
    BoundHole(d, values, m - 1);
    PrefixIndexFits(d, |values|);
    ReplaceHere(Bound(Hole(d), values, m), d, LongestPrefix(d, |values|), rest, Placeholder(m), values[m - 1],
                Bound(Hole(d), values, m - 1));
  }

  lemma {:induction false} ReplaceLater(d: Numeral, next: seq<Piece>, values: seq<string>, m: nat, tail: string, rest: string)
    requires !StartsWithDigit(next) && Apart(d, next, values, m) && NoDigitFirst(tail)
    requires 1 <= m <= |values| && PrefixIndex(d, |values|) < m && rest == BoundText(next, values, m, tail)
    ensures (Replace(Bound(Hole(d), values, m) + rest, Placeholder(m), values[m - 1]) ==
      Bound(Hole(d), values, m - 1) + Replace(rest, Placeholder(m), values[m - 1]))
  {
    BoundHole(d, values, m);
    BoundHole(d, values, m - 1);
    NoMatch(d, next, values, m, tail, rest);
    Associate("$", d, rest);
    ReplaceNotHere(Bound(Hole(d), values, m), d, rest, Placeholder(m), values[m - 1]);
  }

  lemma {:induction false} ReplaceHole(d: Numeral, next: seq<Piece>, values: seq<string>, m: nat, tail: string, rest: string)
    requires !StartsWithDigit(next) && Apart(d, next, values, m) && NoDigitFirst(tail)
    requires 1 <= m <= |values| && CleanAt(Hole(d), values) && rest == BoundText(next, values, m, tail)
    ensures (Replace(Bound(Hole(d), values, m) + rest, Placeholder(m), values[m - 1]) ==
      Bound(Hole(d), values, m - 1) + Replace(rest, Placeholder(m), values[m - 1]))
  {
    if PrefixIndex(d, |values|) > m {
      ReplaceDone(d, values, m, rest);
    } else if PrefixIndex(d, |values|) == m {
      ReplaceNow(d, values, m, rest);
    } else {
      ReplaceLater(d, next, values, m, tail, rest);
    }
  }

  lemma {:induction false} ReplaceLit(c: char, next: seq<Piece>, values: seq<string>, m: nat, tail: string, rest: string)
    requires c == '$' ==> !StartsWithDigit(next) && Apart("", next, values, m)
    requires NoDigitFirst(tail) && 1 <= m <= |values| && rest == BoundText(next, values, m, tail)
    ensures Replace([c] + rest, Placeholder(m), values[m - 1]) == [c] + Replace(rest, Placeholder(m), values[m - 1])
  {
    if c == '$' {
      NoMatch("", next, values, m, tail, rest);
      assert "$" + ("" + rest) == [c] + rest;
      assert ([c] + rest)[1..] == rest;
    } else {
      ReplacePasses([c], rest, Placeholder(m), values[m - 1]);
    }
  }

  /** Replacing `$m` everywhere does to each piece what it does to that piece alone. */
  lemma {:induction false} ReplaceStep(ps: seq<Piece>, values: seq<string>, m: nat, tail: string)
    requires Maximal(ps) && Separated(ps, values, m) && Clean(ps, values) && 1 <= m <= |values| && NoDigitFirst(tail)
    ensures (Replace(BoundText(ps, values, m, tail), Placeholder(m), values[m - 1]) ==
      BoundText(ps, values, m - 1, Replace(tail, Placeholder(m), values[m - 1])))
  {
    if ps != [] {
      var rest := BoundText(ps[1..], values, m, tail);
      ReplaceStep(ps[1..], values, m, tail);
      if ps[0].Hole? {
        ReplaceHole(ps[0].digits, ps[1..], values, m, tail, rest);
      } else {
        ReplaceLit(ps[0].c, ps[1..], values, m, tail, rest);
      }
    }
  }

  lemma {:induction false} SeparatedAbove(ps: seq<Piece>, values: seq<string>, low: nat, m: nat)
    requires Separated(ps, values, low) && low <= m
    ensures Separated(ps, values, m)
  {
    if ps != [] { SeparatedAbove(ps[1..], values, low, m); }
  }

  /** The replacements of `$m`, …, `$low` in turn. */
  lemma {:induction false} BindPieces(ps: seq<Piece>, values: seq<string>, m: nat, low: nat)
    requires Maximal(ps) && Separated(ps, values, low) && Clean(ps, values) && 1 <= low && low - 1 <= m <= |values|
    ensures (Bind(BoundText(ps, values, m, ""), values, m) ==
      Bind(BoundText(ps, values, low - 1, ""), values, low - 1))
  {
    if m >= low {
      SeparatedAbove(ps, values, low, m);
      ReplaceStep(ps, values, m, "");
      BindPieces(ps, values, m - 1, low);
    }
  }

  lemma {:induction false} BoundTextStart(ps: seq<Piece>, values: seq<string>)
    ensures BoundText(ps, values, |values|, "") == TextOf(ps)
  {
    if ps != [] {
      if ps[0].Hole? { PrefixIndexFits(ps[0].digits, |values|); }
      BoundTextStart(ps[1..], values);
    }
  }

  /** The server's result for every template whose placeholders are kept apart. */
  lemma {:induction false} ServerByPieces(template: string, values: seq<string>)
    requires Clean(Pieces(template), values) && Separated(Pieces(template), values, 1)
    ensures Bind(template, values, |values|) == BoundText(Pieces(template), values, 0, "")
  {
    PiecesReadTemplate(template);
    BoundTextStart(Pieces(template), values);
    BindPieces(Pieces(template), values, |values|, 1);
  }

  // ── When the binders agree ───────────────────────────────────

  /** A leading zero hides the number from the server; a number too large shows it a smaller one. */
  predicate GoodNumber(d: Numeral, n: nat) {
    if d[0] == '0' then DigitsValue(d) == 0 || DigitsValue(d) > n
    else DigitsValue(d) <= n || DigitsValue(d[..1]) > n
  }

  predicate Unambiguous(ps: seq<Piece>, n: nat) {
    ps == [] || (Unambiguous(ps[1..], n) && (ps[0].Hole? ==> GoodNumber(ps[0].digits, n)))
  }

  lemma {:induction false} NoPrefix(d: string, n: nat)
    requires AllDigits(d) && d != "" && DigitsValue(d[..1]) > n
    ensures LongestPrefix(d, n) == 0
    decreases |d|
  {
    assert d == d[..1] + d[1..];
    DigitsGrow(d[..1], d[1..]);
    if |d| > 1 {
      assert d[..|d| - 1][..1] == d[..1];
      NoPrefix(d[..|d| - 1], n);
    }
  }

  lemma {:induction false} GoodNumberExact(d: Numeral, n: nat)
    ensures GoodNumber(d, n) <==> PrefixIndex(d, n) == if 1 <= DigitsValue(d) <= n then DigitsValue(d) else 0
    ensures PrefixIndex(d, n) == DigitsValue(d) && 1 <= DigitsValue(d) <= n ==> LongestPrefix(d, n) == |d|
    ensures !GoodNumber(d, n) ==> (PrefixIndex(d, n) == 0 <==> 1 <= DigitsValue(d) <= n)
  {
    var l := LongestPrefix(d, n);
    PrefixIndexFits(d, n);
    assert d[..0] == "" && d[..|d|] == d;
    if d[0] != '0' {
      Canonical(d);
      Canonical(d[..1]);
      if DigitsValue(d[..1]) <= n {
        PrefixIndexIsLargest(d, DigitsValue(d[..1]), n);
      } else {
        NoPrefix(d, n);
      }
    }
  }

  lemma {:induction false} PieceAgrees(p: Piece, values: seq<string>)
    requires p.Hole? ==> GoodNumber(p.digits, |values|)
    ensures Bound(p, values, 0) == Filled(p, values)
  {
    if p.Hole? { GoodNumberExact(p.digits, |values|); }
  }

  lemma {:induction false} PiecesAgree(ps: seq<Piece>, values: seq<string>, tail: string)
    requires Unambiguous(ps, |values|)
    ensures BoundText(ps, values, 0, tail) == Fill(ps, values) + tail
  {
    if ps != [] {
      PieceAgrees(ps[0], values);
      PiecesAgree(ps[1..], values, tail);
      Associate(Filled(ps[0], values), Fill(ps[1..], values), tail);
    } else {
      assert "" + tail == tail;
    }
  }

  /** The two binders give the same text, whatever the values: even empty ones, and ones made of digits. */
  lemma {:induction false} BindersAgree(template: string, values: seq<string>)
    requires Clean(Pieces(template), values)
    requires Separated(Pieces(template), values, 1) && Unambiguous(Pieces(template), |values|)
    ensures Bind(template, values, |values|) == Fill(Pieces(template), values)
  {
    ServerByPieces(template, values);
    PiecesAgree(Pieces(template), values, "");
    assert Fill(Pieces(template), values) + "" == Fill(Pieces(template), values);
  }

  predicate NoneEmpty(values: seq<string>) { forall i :: 0 <= i < |values| ==> values[i] != "" }

  lemma {:induction false} PieceDiffers(d: Numeral, values: seq<string>)
    requires DollarFree(values) && NoneEmpty(values)
    requires !GoodNumber(d, |values|)
    ensures Bound(Hole(d), values, 0) != "" && Filled(Hole(d), values) != ""
    ensures Bound(Hole(d), values, 0)[0] != Filled(Hole(d), values)[0]
  {
    GoodNumberExact(d, |values|);
    PrefixIndexFits(d, |values|);
    var k := PrefixIndex(d, |values|);
    assert k > 0 ==> values[k - 1][0] != '$';
    assert 1 <= DigitsValue(d) <= |values| ==> values[DigitsValue(d) - 1][0] != '$';
  }

  lemma {:induction false} PiecesDiffer(ps: seq<Piece>, values: seq<string>)
    requires DollarFree(values) && NoneEmpty(values)
    requires !Unambiguous(ps, |values|)
    ensures BoundText(ps, values, 0, "") != Fill(ps, values)
  {
    var b, f := BoundText(ps[1..], values, 0, ""), Fill(ps[1..], values);
    if ps[0].Hole? && !GoodNumber(ps[0].digits, |values|) {
      PieceDiffers(ps[0].digits, values);
      assert BoundText(ps, values, 0, "")[0] == Bound(ps[0], values, 0)[0];
      assert Fill(ps, values)[0] == Filled(ps[0], values)[0];
    } else {
      PieceAgrees(ps[0], values);
      PiecesDiffer(ps[1..], values);
      var x := Filled(ps[0], values);
      assert (x + b)[|x|..] == b && (x + f)[|x|..] == f;
    }
  }

  /** With values that are not empty, the condition on the numbers is exact. */
  lemma {:induction false} BindersAgreeExactly(template: string, values: seq<string>)
    requires DollarFree(values) && NoneEmpty(values) && Separated(Pieces(template), values, 1)
    ensures (Bind(template, values, |values|) == Fill(Pieces(template), values) <==>
      Unambiguous(Pieces(template), |values|))
  {
    DollarFreeIsClean(Pieces(template), values);
    ServerByPieces(template, values);
    if Unambiguous(Pieces(template), |values|) {
      BindersAgree(template, values);
    } else {
      PiecesDiffer(Pieces(template), values);
    }
  }

  // ── The templates that are safe for all values ───────────────

  /** No placeholder that follows a `$` directly is replaced while digits could still continue that `$`. */
  predicate NeverMeet(ps: seq<Piece>, n: nat) {
    ps == [] ||
    (&& NeverMeet(ps[1..], n)
     && (OpensDollar(ps[0]) && |ps| > 1 && ps[1].Hole? && PrefixIndex(ps[1].digits, n) > 0 ==>
           TooLate(DigitsOf(ps[0]), PrefixIndex(ps[1].digits, n))))
  }

  lemma {:induction false} NeverMeetSeparates(ps: seq<Piece>, values: seq<string>, low: nat)
    requires NeverMeet(ps, |values|)
    ensures Separated(ps, values, low)
  {
    if ps != [] { NeverMeetSeparates(ps[1..], values, low); }
  }

  lemma {:induction false} TextSeparates(ps: seq<Piece>, values: seq<string>, low: nat)
    requires forall j :: low <= j < |values| ==> OpensWithText(values[j])
    ensures Separated(ps, values, low)
  {
    if ps != [] {
      TextSeparates(ps[1..], values, low);
      if |ps| > 1 && ps[1].Hole? { PrefixIndexFits(ps[1].digits, |values|); }
    }
  }

  /** The first place where a placeholder meets a `$` too early. */
  lemma {:induction false} FirstMeeting(ps: seq<Piece>, n: nat) returns (i: nat)
    requires !NeverMeet(ps, n)
    ensures i + 1 < |ps| && OpensDollar(ps[i]) && ps[i + 1].Hole? && NeverMeet(ps[..i], n)
    ensures PrefixIndex(ps[i + 1].digits, n) > 0 && !TooLate(DigitsOf(ps[i]), PrefixIndex(ps[i + 1].digits, n))
  {
    if (OpensDollar(ps[0]) && |ps| > 1 && ps[1].Hole? && PrefixIndex(ps[1].digits, n) > 0 &&
        !TooLate(DigitsOf(ps[0]), PrefixIndex(ps[1].digits, n))) {
      i := 0;
    } else {
      var j := FirstMeeting(ps[1..], n);
      i := j + 1;
      assert ps[..i][1..] == ps[1..][..j];
      assert |ps[..i]| > 1 ==> ps[..i][1] == ps[1];
    }
  }

  lemma {:induction false} MaximalPrefix(ps: seq<Piece>, i: nat)
    requires Maximal(ps) && i <= |ps|
    ensures Maximal(ps[..i])
  {
    if i > 0 {
      MaximalPrefix(ps[1..], i - 1);
      assert ps[..i][1..] == ps[1..][..i - 1];
      assert StartsWithDigit(ps[1..][..i - 1]) ==> StartsWithDigit(ps[1..]);
    }
  }

  lemma {:induction false} BoundTextConcat(a: seq<Piece>, b: seq<Piece>, values: seq<string>, m: nat, tail: string)
    ensures BoundText(a + b, values, m, tail) == BoundText(a, values, m, BoundText(b, values, m, tail))
  {
    if a == [] {
      assert a + b == b;
    } else {
      assert (a + b)[1..] == a[1..] + b;
      BoundTextConcat(a[1..], b, values, m, tail);
    }
  }

  lemma {:induction false} FillConcat(a: seq<Piece>, b: seq<Piece>, values: seq<string>)
    ensures Fill(a + b, values) == Fill(a, values) + Fill(b, values)
  {
    if a == [] {
      assert a + b == b && "" + Fill(b, values) == Fill(b, values);
    } else {
      assert (a + b)[1..] == a[1..] + b;
      FillConcat(a[1..], b, values);
      Associate(Filled(a[0], values), Fill(a[1..], values), Fill(b, values));
    }
  }

  lemma {:induction false} UnambiguousPrefix(ps: seq<Piece>, i: nat, n: nat)
    requires Unambiguous(ps, n) && i <= |ps|
    ensures Unambiguous(ps[..i], n)
  {
    if i > 0 {
      UnambiguousPrefix(ps[1..], i - 1, n);
      assert ps[..i][1..] == ps[1..][..i - 1];
    }
  }

  /** One replacement in a text that starts with `$t`: it is taken, or it stays. */
  lemma {:induction false} TailStep(y: string, t: nat, m: nat, value: string)
    requires Placeholder(t) <= y && t >= 1 && m >= 1
    ensures Placeholder(m) <= y ==> value <= Replace(y, Placeholder(m), value)
    ensures !(Placeholder(m) <= y) ==> Placeholder(t) <= Replace(y, Placeholder(m), value)
  {
    if !(Placeholder(m) <= y) {
      var d, rest := Decimal(t), y[|Placeholder(t)|..];
      assert y == "$" + d + rest;
      assert '$' !in d by { assert forall i :: 0 <= i < |d| ==> IsDigit(d[i]); }
      ReplaceNotHere("$" + d, d, rest, Placeholder(m), value);
    }
  }

  lemma {:induction false} TailStays(y: string, m: nat, value: string)
    requires y != "" && y[0] != '$'
    ensures Replace(y, Placeholder(m), value) != "" && Replace(y, Placeholder(m), value)[0] == y[0]
  {
  }

  /** What a replacement makes of the tail. */
  lemma {:induction false} TailTurn(y: string, t: nat, m: nat, value: string) returns (next: string)
    requires y != "" && t >= 1 && m >= 1 && (y[0] == 'a' || (t <= m && Placeholder(t) <= y && value == "a"))
    ensures next == Replace(y, Placeholder(m), value) && next != "" && NoDigitFirst(y)
    ensures next[0] == 'a' || (t <= m - 1 && Placeholder(t) <= next)
  {
    next := Replace(y, Placeholder(m), value);
    if y[0] == 'a' {
      TailStays(y, m, value);
    } else {
      TailStep(y, t, m, value);
      assert Placeholder(t)[0] == y[0];
    }
  }

  /** A tail that opens with `$t` ends up opening with the value of some parameter from `t` to `m`. */
  lemma {:induction false} TailBinds(pre: seq<Piece>, values: seq<string>, m: nat, y: string, t: nat) returns (r: string)
    requires Maximal(pre) && NeverMeet(pre, |values|) && DollarFree(values) && m <= |values| && t >= 1
    requires y != "" && (y[0] == 'a' || (t <= m && Placeholder(t) <= y))
    requires forall j :: t - 1 <= j < m ==> values[j] == "a"
    ensures Bind(BoundText(pre, values, m, y), values, m) == BoundText(pre, values, 0, r) && r != "" && r[0] == 'a'
  {
    if m == 0 {
      r := y;
    } else {
      var next := TailTurn(y, t, m, values[m - 1]);
      NeverMeetSeparates(pre, values, m);
      DollarFreeIsClean(pre, values);
      ReplaceStep(pre, values, m, y);
      r := TailBinds(pre, values, m - 1, next, t);
    }
  }

  /**
   Values that make a meeting visible: the digit that continues the number `d`, a mark for the number
   itself, and some other text.
   */
  predicate Telling(values: seq<string>, d: string, e: nat)
    requires AllDigits(d)
  {
    && 1 <= e <= |values|
    && values[e - 1] == (if d == "" then "1" else "0")
    && forall j :: 0 <= j < |values| && j != e - 1 ==>
         values[j] == if d != "" && j + 1 == DigitsValue(d) then "b" else "a"
  }

  lemma {:induction false} MeetingValues(d: string, e: nat, n: nat) returns (values: seq<string>)
    requires AllDigits(d) && 1 <= e <= n
    ensures |values| == n && Telling(values, d, e)
  {
    values := seq(n, k requires 0 <= k < n =>
      if k + 1 == e then (if d == "" then "1" else "0")
      else if d != "" && k + 1 == DigitsValue(d) then "b"
      else "a");
  }

  lemma {:induction false} TellingText(values: seq<string>, d: string, e: nat)
    requires AllDigits(d) && Telling(values, d, e)
    ensures DollarFree(values) && forall j :: e <= j < |values| ==> OpensWithText(values[j])
  {
    forall j | 0 <= j < |values| ensures values[j] in ["0", "1", "a", "b"] { }
  }

  /** The number that the inserted digit completes. */
  lemma {:induction false} Completed(values: seq<string>, d: string, e: nat) returns (t: nat)
    requires AllDigits(d) && Telling(values, d, e) && !TooLate(d, e)
    ensures 1 <= t < e && d + values[e - 1] == Decimal(t)
    ensures forall j :: t - 1 <= j < e - 1 ==> values[j] == "a"
    ensures PrefixIndex(d, |values|) < e
    ensures d != "" ==> 1 <= DigitsValue(d) < e
  {
    if d == "" {
      t := 1;
      assert "" + "1" == Decimal(1) && PrefixIndex(d, |values|) == 0;
    } else {
      t := 10 * DigitsValue(d);
      Canonical(d);
      DecimalSnoc(DigitsValue(d), 0);
      assert d[..|d|] == d;
    }
  }

  /** At the meeting place the engine's text goes on with a `$` or with the mark. */
  lemma {:induction false} EngineAtMeeting(ps: seq<Piece>, values: seq<string>, d: string, e: nat)
    requires ps != [] && OpensDollar(ps[0]) && d == DigitsOf(ps[0]) && Telling(values, d, e) && !TooLate(d, e)
    ensures Fill(ps, values) != "" && Fill(ps, values)[0] != 'a'
  {
    var t := Completed(values, d, e);
    assert d != "" ==> values[DigitsValue(d) - 1] == "b";
    assert Fill(ps, values)[0] == Filled(ps[0], values)[0];
  }

  lemma {:induction false} BoundOpen(p: Piece, values: seq<string>, m: nat)
    requires OpensDollar(p) && PrefixIndex(DigitsOf(p), |values|) <= m
    ensures Bound(p, values, m) == "$" + DigitsOf(p)
  {
    if p.Hole? { BoundHole(p.digits, values, m); }
  }

  lemma {:induction false} OpensWith(whole: string, d: string, v: string, left: string, rest: string)
    requires whole == ("$" + d) + ((v + left) + rest)
    ensures "$" + (d + v) <= whole
  {
    assert whole == ("$" + (d + v)) + (left + rest);
  }

  /** The text from the meeting place on, once `$e` is replaced: it opens with a number that is still to come. */
  lemma {:induction false} TextAtMeeting(ps: seq<Piece>, values: seq<string>, d: string, e: nat, t: nat)
    requires |ps| > 1 && OpensDollar(ps[0]) && d == DigitsOf(ps[0]) && ps[1].Hole?
    requires 1 <= e <= |values| && e == PrefixIndex(ps[1].digits, |values|) && PrefixIndex(d, |values|) < e
    requires d + values[e - 1] == Decimal(t)
    ensures Placeholder(t) <= BoundText(ps, values, e - 1, "")
  {
    var q, rest := ps[1].digits, BoundText(ps[1..][1..], values, e - 1, "");
    BoundOpen(ps[0], values, e - 1);
    BoundHole(q, values, e - 1);
    var left := q[LongestPrefix(q, |values|)..];
    assert BoundText(ps[1..], values, e - 1, "") == (values[e - 1] + left) + rest;
    assert BoundText(ps, values, e - 1, "") == ("$" + d) + ((values[e - 1] + left) + rest);
    OpensWith(BoundText(ps, values, e - 1, ""), d, values[e - 1], left, rest);
  }

  /** Down to the replacement of `$e` the server treats each placeholder alone. */
  lemma {:induction false} DownToMeeting(ps: seq<Piece>, pre: seq<Piece>, post: seq<Piece>, values: seq<string>, d: string, e: nat)
    requires ps == pre + post && Maximal(ps) && AllDigits(d) && Telling(values, d, e)
    ensures (Bind(TextOf(ps), values, |values|) ==
      Bind(BoundText(pre, values, e - 1, BoundText(post, values, e - 1, "")), values, e - 1))
  {
    DollarFreeIsClean(ps, values);
    TellingText(values, d, e);
    TextSeparates(ps, values, e);
    BoundTextStart(ps, values);
    BindPieces(ps, values, |values|, e);
    BoundTextConcat(pre, post, values, e - 1, "");
  }

  /** What is left of the template at the meeting place opens with a number whose turn is still to come. */
  lemma {:induction false} MeetingTail(post: seq<Piece>, values: seq<string>, d: string, e: nat, y: string) returns (t: nat)
    requires |post| > 1 && OpensDollar(post[0]) && d == DigitsOf(post[0]) && post[1].Hole?
    requires Telling(values, d, e) && e == PrefixIndex(post[1].digits, |values|) && !TooLate(d, e)
    requires y == BoundText(post, values, e - 1, "")
    ensures 1 <= t <= e - 1 && y != "" && Placeholder(t) <= y
    ensures forall j :: t - 1 <= j < e - 1 ==> values[j] == "a"
  {
    t := Completed(values, d, e);
    TextAtMeeting(post, values, d, e, t);
    assert |Placeholder(t)| > 0;
  }

  /** The server's text opens with a parameter's value at the meeting place. */
  lemma {:induction false} ServerAtMeeting(ps: seq<Piece>, pre: seq<Piece>, post: seq<Piece>, values: seq<string>, d: string, e: nat)
    returns (r: string)
    requires ps == pre + post && Maximal(ps) && Maximal(pre) && NeverMeet(pre, |values|)
    requires |post| > 1 && OpensDollar(post[0]) && d == DigitsOf(post[0]) && post[1].Hole?
    requires Telling(values, d, e) && e == PrefixIndex(post[1].digits, |values|) && !TooLate(d, e)
    ensures Bind(TextOf(ps), values, |values|) == BoundText(pre, values, 0, r) && r != "" && r[0] == 'a'
  {
    var y := BoundText(post, values, e - 1, "");
    var t := MeetingTail(post, values, d, e, y);
    TellingText(values, d, e);
    r := TailBinds(pre, values, e - 1, y, t);
    DownToMeeting(ps, pre, post, values, d, e);
  }

  lemma {:induction false} DifferAtMeeting(ps: seq<Piece>, pre: seq<Piece>, post: seq<Piece>, values: seq<string>, d: string, e: nat)
    requires ps == pre + post && Maximal(ps) && Maximal(pre) && NeverMeet(pre, |values|) && Unambiguous(pre, |values|)
    requires |post| > 1 && OpensDollar(post[0]) && d == DigitsOf(post[0]) && post[1].Hole?
    requires Telling(values, d, e) && e == PrefixIndex(post[1].digits, |values|) && !TooLate(d, e)
    ensures Bind(TextOf(ps), values, |values|) != Fill(ps, values)
  {
    var r := ServerAtMeeting(ps, pre, post, values, d, e);
    PiecesAgree(pre, values, r);
    EngineAtMeeting(post, values, d, e);
    FillConcat(pre, post, values);
    Diverge(Fill(pre, values), r, Fill(post, values));
  }

  /** The template cut at its first meeting place. */
  lemma {:induction false} CutAtMeeting(ps: seq<Piece>, n: nat) returns (pre: seq<Piece>, post: seq<Piece>, d: string, e: nat)
    requires Maximal(ps) && Unambiguous(ps, n) && !NeverMeet(ps, n)
    ensures ps == pre + post && Maximal(pre) && NeverMeet(pre, n) && Unambiguous(pre, n)
    ensures |post| > 1 && OpensDollar(post[0]) && d == DigitsOf(post[0]) && post[1].Hole?
    ensures e == PrefixIndex(post[1].digits, n) && 1 <= e <= n && !TooLate(d, e)
  {
    var i := FirstMeeting(ps, n);
    pre, post := ps[..i], ps[i..];
    d, e := DigitsOf(ps[i]), PrefixIndex(ps[i + 1].digits, n);
    PrefixIndexFits(ps[i + 1].digits, n);
    MaximalPrefix(ps, i);
    UnambiguousPrefix(ps, i, n);
  }

  /** Where a placeholder meets a `$` too early, there are values for which the binders differ. */
  lemma {:induction false} MeetingDiffers(template: string, n: nat) returns (values: seq<string>)
    requires Unambiguous(Pieces(template), n) && !NeverMeet(Pieces(template), n)
    ensures |values| == n && DollarFree(values) && Bind(template, values, n) != Fill(Pieces(template), values)
  {
    PiecesReadTemplate(template);
    var pre, post, d, e := CutAtMeeting(Pieces(template), n);
    values := MeetingValues(d, e, n);
    TellingText(values, d, e);
    DifferAtMeeting(Pieces(template), pre, post, values, d, e);
  }

  lemma {:induction false} Diverge(x: string, y: string, z: string)
    requires y != "" && z != "" && y[0] != z[0]
    ensures x + y != x + z
  {
    assert (x + y)[|x|] == y[0] && (x + z)[|x|] == z[0];
  }

  /** Where a number is ambiguous, so does any text in place of the values. */
  lemma {:induction false} AmbiguityDiffers(template: string, n: nat) returns (values: seq<string>)
    requires !Unambiguous(Pieces(template), n)
    ensures |values| == n && DollarFree(values) && Bind(template, values, n) != Fill(Pieces(template), values)
  {
    values := seq(n, _ => "a");
    TextSeparates(Pieces(template), values, 1);
    BindersAgreeExactly(template, values);
  }

  /**
   The binders agree on a template for all `$`-free values if and only if its numbers are unambiguous
   and no placeholder meets a `$` too early.
   */
  lemma {:induction false} TemplateSafeExactly(template: string, n: nat)
    ensures ((forall values: seq<string> :: |values| == n && DollarFree(values) ==>
               Bind(template, values, |values|) == Fill(Pieces(template), values)) <==>
      Unambiguous(Pieces(template), n) && NeverMeet(Pieces(template), n))
  {
    if Unambiguous(Pieces(template), n) && NeverMeet(Pieces(template), n) {
      forall values: seq<string> | |values| == n && DollarFree(values)
        ensures Bind(template, values, |values|) == Fill(Pieces(template), values)
      {
        NeverMeetSeparates(Pieces(template), values, 1);
        DollarFreeIsClean(Pieces(template), values);
        BindersAgree(template, values);
      }
    } else if Unambiguous(Pieces(template), n) {
      var values := MeetingDiffers(template, n);
    } else {
      var values := AmbiguityDiffers(template, n);
    }
  }

  // ── And those that are safe whatever the values hold ─────────

  /** `$1` is the only parameter that the template asks for. */
  predicate OnlyFirst(ps: seq<Piece>, n: nat) {
    ps == [] || (OnlyFirst(ps[1..], n) && (ps[0].Hole? ==> !(2 <= DigitsValue(ps[0].digits) <= n)))
  }

  lemma {:induction false} OnlyFirstIsClean(ps: seq<Piece>, values: seq<string>)
    requires OnlyFirst(ps, |values|) && Unambiguous(ps, |values|)
    ensures Clean(ps, values)
  {
    if ps != [] {
      OnlyFirstIsClean(ps[1..], values);
      if ps[0].Hole? {
        GoodNumberExact(ps[0].digits, |values|);
        PrefixIndexFits(ps[0].digits, |values|);
      }
    }
  }

  predicate Occurs(pattern: string, s: string) { pattern <= s || (s != "" && Occurs(pattern, s[1..])) }

  lemma {:induction false} OccursBehind(pattern: string, a: string, b: string)
    requires Occurs(pattern, b)
    ensures Occurs(pattern, a + b)
  {
    if a == "" {
      assert a + b == b;
    } else {
      assert (a + b)[1..] == a[1..] + b;
      OccursBehind(pattern, a[1..], b);
    }
  }

  const FIRST := "$1"

  /** Replacing `$1` by a letter leaves no `$1`. */
  lemma {:induction false} ReplacedIsGone(s: string)
    ensures var r := Replace(s, FIRST, "a");
      !Occurs(FIRST, r) && (r == "" <==> s == "") && (r != "" ==> r[0] == if FIRST <= s then 'a' else s[0])
  {
    if s != "" {
      var r := Replace(s, FIRST, "a");
      if FIRST <= s {
        var rest := Replace(s[2..], FIRST, "a");
        ReplacedIsGone(s[2..]);
        assert r == "a" + rest && r[1..] == rest;
        assert r[0] == 'a' && !(FIRST <= r) by { assert FIRST[0] == '$'; }
      } else {
        var rest := Replace(s[1..], FIRST, "a");
        ReplacedIsGone(s[1..]);
        assert r == [s[0]] + rest && r[1..] == rest;
        assert !(FIRST <= r);
      }
    }
  }

  /** The last replacement is that of `$1`. */
  lemma {:induction false} BindLast(sql: string, values: seq<string>, k: nat) returns (x: string)
    requires 1 <= k <= |values|
    ensures Bind(sql, values, k) == Replace(x, Placeholder(1), values[0])
    decreases k
  {
    var next := Replace(sql, Placeholder(k), values[k - 1]);
    if k == 1 {
      x := sql;
      assert Bind(next, values, 0) == next;
    } else {
      x := BindLast(next, values, k - 1);
    }
  }

  /** The engine leaves the value of a parameter as it is. */
  lemma {:induction false} FilledStays(ps: seq<Piece>, n: nat) returns (j: nat)
    requires !OnlyFirst(ps, n)
    ensures 2 <= j <= n
    ensures forall values: seq<string> :: |values| == n && values[j - 1] == FIRST ==> Occurs(FIRST, Fill(ps, values))
  {
    if ps[0].Hole? && 2 <= DigitsValue(ps[0].digits) <= n {
      j := DigitsValue(ps[0].digits);
      forall values: seq<string> | |values| == n && values[j - 1] == FIRST ensures Occurs(FIRST, Fill(ps, values)) {
        assert Fill(ps, values) == FIRST + Fill(ps[1..], values);
      }
    } else {
      j := FilledStays(ps[1..], n);
      forall values: seq<string> | |values| == n && values[j - 1] == FIRST ensures Occurs(FIRST, Fill(ps, values)) {
        OccursBehind(FIRST, Filled(ps[0], values), Fill(ps[1..], values));
      }
    }
  }

  /** A template that asks for another parameter: values for which the server reads one of them again. */
  lemma {:induction false} LaterParameterDiffers(template: string, n: nat) returns (values: seq<string>)
    requires !OnlyFirst(Pieces(template), n)
    ensures |values| == n && Bind(template, values, n) != Fill(Pieces(template), values)
  {
    var j := FilledStays(Pieces(template), n);
    values := seq(n, k requires 0 <= k < n => if k == j - 1 then FIRST else "a");
    var x := BindLast(template, values, n);
    assert Placeholder(1) == FIRST && values[0] == "a";
    ReplacedIsGone(x);
  }

  /**
   The binders agree on a template for all values, those with a `$` included, if and only if they
   agree for all others and the template asks for no parameter but `$1`.
   */
  lemma {:induction false} TemplateSafeForAllValues(template: string, n: nat)
    ensures ((forall values: seq<string> :: |values| == n ==>
               Bind(template, values, |values|) == Fill(Pieces(template), values)) <==>
      Unambiguous(Pieces(template), n) && NeverMeet(Pieces(template), n) && OnlyFirst(Pieces(template), n))
  {
    var ps := Pieces(template);
    TemplateSafeExactly(template, n);
    if Unambiguous(ps, n) && NeverMeet(ps, n) && OnlyFirst(ps, n) {
      forall values: seq<string> | |values| == n ensures Bind(template, values, |values|) == Fill(ps, values) {
        OnlyFirstIsClean(ps, values);
        NeverMeetSeparates(ps, values, 1);
        BindersAgree(template, values);
      }
    } else if !OnlyFirst(ps, n) {
      var values := LaterParameterDiffers(template, n);
    }
  }

  /** Every `$` starts a placeholder in range without leading zero, and no `$` follows it directly. */
  predicate Plain(ps: seq<Piece>, n: nat) {
    ps == [] ||
    (&& Plain(ps[1..], n)
     && ps[0] != Lit('$')
     && (ps[0].Hole? ==>
           && ps[0].digits[0] != '0'
           && DigitsValue(ps[0].digits) <= n
           && (|ps| > 1 ==> ps[1].Lit?)))
  }

  lemma {:induction false} PlainIsSafe(ps: seq<Piece>, n: nat)
    requires Plain(ps, n)
    ensures NeverMeet(ps, n) && Unambiguous(ps, n)
  {
    if ps != [] { PlainIsSafe(ps[1..], n); }
  }

  lemma {:induction false} PlainTemplatesAgree(template: string, values: seq<string>)
    requires Plain(Pieces(template), |values|) && DollarFree(values)
    ensures Bind(template, values, |values|) == Fill(Pieces(template), values)
  {
    PlainIsSafe(Pieces(template), |values|);
    TemplateSafeExactly(template, |values|);
  }

  // ── Where they differ ────────────────────────────────────────

  lemma {:induction false} PiecesOfTwo()
    ensures Pieces("$2") == [Hole("2")] && DigitsValue("2") == 2
  {
    assert "2"[1..] == "" && "2"[..0] == "";
    assert DigitRun("2") == 1 && DigitsValue("2") == 2;
    assert "$2"[1..] == "2" && "$2"[1..2] == "2" && "$2"[2..] == "";
    assert Head("$2") == (Hole("2"), 2);
  }

  lemma {:induction false} ReplaceWhole(s: string, value: string)
    requires s != ""
    ensures Replace(s, s, value) == value
  {
    assert s[|s|..] == "" && value + "" == value;
  }

  /** A value with a `$` is scanned again by the server. */
  lemma {:induction false} DollarInValue()
    ensures Fill(Pieces("$2"), ["a", "$1"]) == "$1" && Bind("$2", ["a", "$1"], 2) == "a"
  {
    var values := ["a", "$1"];
    PiecesOfTwo();
    assert Fill([Hole("2")], values) == "$1" + Fill([], values);
    assert Placeholder(2) == "$2" && Placeholder(1) == "$1";
    ReplaceWhole("$2", "$1");
    ReplaceWhole("$1", "a");
    assert Bind("$2", values, 2) == Bind("$1", values, 1) == Bind("a", values, 0);
  }

  /** So are digits that land behind a `$` of the template. */
  lemma {:induction false} DigitsBehindDollar()
    ensures Fill(Pieces("$$2"), ["a", "1"]) == "$1" && Bind("$$2", ["a", "1"], 2) == "a"
  {
    var values := ["a", "1"];
    PiecesOfTwo();
    assert "$$2"[1..] == "$2" && DigitRun("$2") == 0;
    assert Pieces("$$2") == [Lit('$')] + Pieces("$2");
    assert Fill([Hole("2")], values) == "1" + Fill([], values);
    assert Placeholder(2) == "$2" && Placeholder(1) == "$1";
    ReplaceWhole("$2", "1");
    assert Replace("$$2", "$2", "1") == "$" + "1";
    ReplaceWhole("$1", "a");
    assert Bind("$$2", values, 2) == Bind("$1", values, 1) == Bind("a", values, 0);
  }
}
