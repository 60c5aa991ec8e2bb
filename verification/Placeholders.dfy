/** The engine's parameter binder: one pass over the template. Values are given as printed. */
module Placeholders {
  import opened Text

  // ── Templates ────────────────────────────────────────────────

  type Numeral = s: string | s != "" && AllDigits(s) witness "1"

  /** A character, or `$` with the maximal run of digits behind it. */
  datatype Piece = Lit(c: char) | Hole(digits: Numeral)

  function DigitRun(s: string): (n: nat)
    ensures n <= |s|
    ensures forall i :: 0 <= i < n ==> IsDigit(s[i])
    ensures n < |s| ==> !IsDigit(s[n])
  {
    if s == "" || !IsDigit(s[0]) then 0 else 1 + DigitRun(s[1..])
  }

  /** The first piece of a template and its length. */
  function Head(template: string): (r: (Piece, nat))
    requires template != ""
    ensures 0 < r.1 <= |template|
    ensures r.0.Hole? ==> template[0] == '$' && r.1 == 1 + DigitRun(template[1..]) && r.0.digits == template[1..r.1]
    ensures r.0.Lit? ==> r.0.c == template[0] && r.1 == 1
    ensures r.0.Lit? && r.0.c == '$' ==> DigitRun(template[1..]) == 0
  {
    var n := if template[0] == '$' then DigitRun(template[1..]) else 0;
    assert forall i :: 0 <= i < n ==> template[1..][i] == template[1..1 + n][i];
    if n > 0 then (Hole(template[1..1 + n]), 1 + n) else (Lit(template[0]), 1)
  }

  function Pieces(template: string): seq<Piece> {
    if template == "" then []
    else [Head(template).0] + Pieces(template[Head(template).1..])
  }

  function PieceText(p: Piece): string { if p.Lit? then [p.c] else "$" + p.digits }

  function TextOf(ps: seq<Piece>): string {
    if ps == [] then "" else PieceText(ps[0]) + TextOf(ps[1..])
  }

  predicate StartsWithDigit(ps: seq<Piece>) { ps != [] && ps[0].Lit? && IsDigit(ps[0].c) }

  /** Runs of digits are maximal. */
  predicate Maximal(ps: seq<Piece>) {
    ps == [] || (Maximal(ps[1..]) && (ps[0].Hole? || ps[0].c == '$' ==> !StartsWithDigit(ps[1..])))
  }

  lemma {:induction false} HeadText(template: string, p: Piece, n: nat)
    requires template != "" && (p, n) == Head(template)
    ensures PieceText(p) == template[..n]
    ensures p.Hole? || p == Lit('$') ==> n == |template| || !IsDigit(template[n])
  {
    assert template[..n] == [template[0]] + template[1..n];
    assert n < |template| ==> template[1..][n - 1] == template[n];
  }

  lemma {:induction false} FirstPiece(s: string)
    requires StartsWithDigit(Pieces(s))
    ensures s != "" && IsDigit(s[0])
  {
  }

  lemma {:induction false} TextCons(p: Piece, ps: seq<Piece>)
    ensures TextOf([p] + ps) == PieceText(p) + TextOf(ps)
  {
    assert ([p] + ps)[1..] == ps;
  }

  lemma {:induction false} Rejoin(text: string, template: string, n: nat, rest: string)
    requires n <= |template| && rest == template[n..] && text == template[..n] + rest
    ensures text == template
  {
  }

  /** The pieces are a reading of the template, made without looking at any value. */
  lemma {:induction false} PiecesReadTemplate(template: string)
    ensures TextOf(Pieces(template)) == template
    ensures Maximal(Pieces(template))
  {
    if template != "" {
      var (p, n) := Head(template);
      var rest := template[n..];
      PiecesReadTemplate(rest);
      HeadText(template, p, n);
      if StartsWithDigit(Pieces(rest)) { FirstPiece(rest); }
      assert Pieces(template)[1..] == Pieces(rest);
      TextCons(p, Pieces(rest));
      Rejoin(TextOf(Pieces(template)), template, n, TextOf(Pieces(rest)));
    }
  }

  // ── The engine: one pass ─────────────────────────────────────

  function Filled(p: Piece, values: seq<string>): string {
    if p.Hole? && 1 <= DigitsValue(p.digits) <= |values| then values[DigitsValue(p.digits) - 1] else PieceText(p)
  }

  /** Each placeholder in range becomes its value; inserted text is not looked at again. */
  function Fill(ps: seq<Piece>, values: seq<string>): string {
    if ps == [] then "" else Filled(ps[0], values) + Fill(ps[1..], values)
  }

  lemma {:induction false} FillWithoutValues(ps: seq<Piece>)
    ensures Fill(ps, []) == TextOf(ps)
  {
    if ps != [] { FillWithoutValues(ps[1..]); }
  }

  // ── The engine's loop ────────────────────────────────────────

  function Lits(s: string): seq<Piece> { if s == "" then [] else [Lit(s[0])] + Lits(s[1..]) }

  lemma {:induction false} LitsText(s: string, ps: seq<Piece>)
    ensures TextOf(Lits(s) + ps) == s + TextOf(ps)
  {
    if s == "" {
      assert Lits(s) + ps == ps && "" + TextOf(ps) == TextOf(ps);
    } else {
      var tail := Lits(s[1..]) + ps;
      LitsText(s[1..], ps);
      assert Lits(s) + ps == [Lit(s[0])] + tail && ([Lit(s[0])] + tail)[1..] == tail;
      Join(s, TextOf(ps));
    }
  }

  /** Text that is no placeholder is copied. */
  lemma {:induction false} LitsCopied(s: string, ps: seq<Piece>, values: seq<string>)
    ensures Fill(Lits(s) + ps, values) == s + Fill(ps, values)
  {
    if s == "" {
      assert Lits(s) + ps == ps && "" + Fill(ps, values) == Fill(ps, values);
    } else {
      var tail := Lits(s[1..]) + ps;
      LitsCopied(s[1..], ps, values);
      assert Lits(s) + ps == [Lit(s[0])] + tail && ([Lit(s[0])] + tail)[1..] == tail;
      Join(s, Fill(ps, values));
    }
  }

  lemma {:induction false} Join(s: string, t: string)
    requires s != ""
    ensures [s[0]] + (s[1..] + t) == s + t
  {
  }

  lemma {:induction false} LitsMaximal(d: string, ps: seq<Piece>)
    requires AllDigits(d) && Maximal(ps)
    ensures Maximal(Lits(d) + ps)
  {
    if d == "" {
      assert Lits(d) + ps == ps;
    } else {
      assert IsDigit(d[0]);
      LitsMaximal(d[1..], ps);
      var tail := Lits(d[1..]) + ps;
      assert Lits(d) + ps == [Lit(d[0])] + tail && ([Lit(d[0])] + tail)[1..] == tail;
    }
  }

  lemma {:induction false} FirstChar(ps: seq<Piece>)
    requires !StartsWithDigit(ps)
    ensures TextOf(ps) == "" || !IsDigit(TextOf(ps)[0])
  {
  }

  lemma {:induction false} RunLength(s: string, d: string, rest: string)
    requires s == d + rest && AllDigits(d) && (rest == "" || !IsDigit(rest[0]))
    ensures DigitRun(s) == |d|
  {
    if d != "" {
      assert IsDigit(d[0]) && s[0] == d[0] && s[1..] == d[1..] + rest;
      RunLength(s[1..], d[1..], rest);
    } else {
      assert s == rest;
    }
  }

  /** End of the digits from `start` on. */
  method ScanDigits(template: string, start: nat) returns (end: nat)
    requires start <= |template|
    ensures end == start + DigitRun(template[start..])
  {
    end := start;
    while end < |template| && IsDigit(template[end])
      invariant start <= end <= |template|
      invariant end + DigitRun(template[end..]) == start + DigitRun(template[start..])
    {
      assert template[end..][1..] == template[end + 1..];
      end := end + 1;
    }
  }

  /** The digits of a placeholder that may start at the head of `t`. */
  function Digits(t: string): (d: string)
    requires t != ""
    ensures |d| < |t| && AllDigits(d)
  {
    if t[0] == '$' then t[1..][..DigitRun(t[1..])] else ""
  }

  lemma {:induction false} LitTurn(t: string, ps: seq<Piece>, values: seq<string>)
    requires ps != [] && t == TextOf(ps) && Maximal(ps) && ps[0].Lit?
    ensures t != "" && Digits(t) == "" && t[1..] == TextOf(ps[1..]) && Fill(ps, values) == [t[0]] + Fill(ps[1..], values)
  {
    var rest := TextOf(ps[1..]);
    assert t == [ps[0].c] + rest && t[1..] == rest;
    if t[0] == '$' {
      FirstChar(ps[1..]);
      RunLength(rest, "", rest);
    }
  }

  lemma {:induction false} HoleSlices(t: string, d: string, rest: string)
    requires t == "$" + d + rest
    ensures t[0] == '$' && t[1..] == d + rest && t[1..][..|d|] == d && t[1 + |d|..] == rest
  {
  }

  lemma {:induction false} HoleDigits(t: string, ps: seq<Piece>)
    requires ps != [] && t == TextOf(ps) && Maximal(ps) && ps[0].Hole?
    ensures t != "" && t[0] == '$' && Digits(t) == ps[0].digits
    ensures t[1..] == ps[0].digits + TextOf(ps[1..]) && t[1 + |Digits(t)|..] == TextOf(ps[1..])
  {
    HoleSlices(t, ps[0].digits, TextOf(ps[1..]));
    FirstChar(ps[1..]);
    RunLength(t[1..], ps[0].digits, TextOf(ps[1..]));
  }

  lemma {:induction false} HoleKept(t: string, ps: seq<Piece>, values: seq<string>, next: seq<Piece>)
    requires ps != [] && t == TextOf(ps) && Maximal(ps) && ps[0].Hole?
    requires !(1 <= DigitsValue(ps[0].digits) <= |values|) && next == Lits(ps[0].digits) + ps[1..]
    ensures Maximal(next) && t != "" && t[1..] == TextOf(next) && Fill(ps, values) == [t[0]] + Fill(next, values)
  {
    var d := ps[0].digits;
    HoleDigits(t, ps);
    LitsText(d, ps[1..]);
    LitsCopied(d, ps[1..], values);
    LitsMaximal(d, ps[1..]);
    Dollar(Fill(ps, values), ps[0], Fill(ps[1..], values));
  }

  lemma {:induction false} Dollar(whole: string, p: Piece, rest: string)
    requires p.Hole? && whole == PieceText(p) + rest
    ensures whole == "$" + (p.digits + rest)
  {
  }

  /** Whether a turn of the loop at the head of `t` replaces a placeholder. */
  predicate Hits(digits: string, n: nat)
    requires AllDigits(digits)
  {
    digits != "" && 1 <= DigitsValue(digits) <= n
  }

  lemma {:induction false} FilledHit(p: Piece, d: string, values: seq<string>)
    requires p.Hole? && p.digits == d && Hits(d, |values|)
    ensures Filled(p, values) == values[DigitsValue(d) - 1]
  {
  }

  lemma {:induction false} FillCons(ps: seq<Piece>, values: seq<string>, head: string)
    requires ps != [] && head == Filled(ps[0], values)
    ensures Fill(ps, values) == head + Fill(ps[1..], values)
  {
  }

  lemma {:induction false} Associate(a: string, b: string, c: string)
    ensures a + b + c == a + (b + c)
  {
  }

  /** A placeholder in range is replaced. */
  lemma {:induction false} TurnHit(done: string, ps: seq<Piece>, values: seq<string>, d: string, piece: string)
    requires ps != [] && ps[0].Hole? && d == ps[0].digits && Hits(d, |values|) && piece == values[DigitsValue(d) - 1]
    ensures (done + piece) + Fill(ps[1..], values) == done + Fill(ps, values)
  {
    FilledHit(ps[0], d, values);
    FillCons(ps, values, piece);
    Associate(done, piece, Fill(ps[1..], values));
  }

  /** One character of any other text is copied. */
  lemma {:induction false} TurnMiss(done: string, t: string, ps: seq<Piece>, values: seq<string>, d: string) returns (next: seq<Piece>)
    requires ps != [] && t == TextOf(ps) && Maximal(ps) && t != "" && d == Digits(t) && !Hits(d, |values|)
    ensures Maximal(next) && t[1..] == TextOf(next)
    ensures (done + [t[0]]) + Fill(next, values) == done + Fill(ps, values)
  {
    if ps[0].Lit? {
      next := ps[1..];
      LitTurn(t, ps, values);
    } else {
      HoleDigits(t, ps);
      next := Lits(d) + ps[1..];
      HoleKept(t, ps, values, next);
    }
    Associate(done, [t[0]], Fill(next, values));
  }

  lemma {:induction false} HitIsHole(t: string, ps: seq<Piece>, values: seq<string>, d: string)
    requires ps != [] && t == TextOf(ps) && Maximal(ps) && t != "" && d == Digits(t) && Hits(d, |values|)
    ensures ps[0].Hole? && ps[0].digits == d && t[1 + |d|..] == TextOf(ps[1..])
  {
    if ps[0].Lit? { LitTurn(t, ps, values); } else { HoleDigits(t, ps); }
  }

  method ReadDigits(template: string, i: nat) returns (digits: string, end: nat)
    requires i < |template|
    ensures digits == Digits(template[i..]) && end == i + 1 + |digits| <= |template|
    ensures template[i..][1..] == template[i + 1..] && template[i..][1 + |digits|..] == template[end..]
  {
    assert template[i..][1..] == template[i + 1..];
    end := i + 1;
    if template[i] == '$' { end := ScanDigits(template, i + 1); }
    digits := template[i + 1..end];
    assert digits == template[i + 1..][..end - i - 1];
  }

  /** One turn of the loop, from position `i`: the text it appends and the next position. */
  method TakeTurn(template: string, i: nat, values: seq<string>, ghost done: string, ghost ps: seq<Piece>)
    returns (piece: string, next: nat, ghost left: seq<Piece>)
    requires i < |template| && template[i..] == TextOf(ps) && Maximal(ps)
    ensures i < next <= |template| && template[next..] == TextOf(left) && Maximal(left)
    ensures (done + piece) + Fill(left, values) == done + Fill(ps, values)
  {
    var digits, end := ReadDigits(template, i);
    if Hits(digits, |values|) {
      piece := values[DigitsValue(digits) - 1];
      HitIsHole(template[i..], ps, values, digits);
      TurnHit(done, ps, values, digits, piece);
      return piece, end, ps[1..];
    }
    left := TurnMiss(done, template[i..], ps, values, digits);
    piece, next := [template[i]], i + 1;
  }

  method ReplaceInOrder(template: string, values: seq<string>) returns (result: string)
    ensures result == Fill(Pieces(template), values)
  {
    ghost var ps := Pieces(template);
    ghost var goal := Fill(ps, values);
    PiecesReadTemplate(template);
    result := "";
    var i := 0;
    assert template[0..] == template && "" + goal == goal;
    while i < |template|
      invariant i <= |template| && template[i..] == TextOf(ps) && Maximal(ps)
      invariant result + Fill(ps, values) == goal
    {
      var piece;
      piece, i, ps := TakeTurn(template, i, values, result, ps);
      result := result + piece;
    }
    NothingLeft(result, ps, values);
  }

  method SubstituteParameters(template: string, values: seq<string>) returns (result: string)
    ensures result == Fill(Pieces(template), values)
  {
    if values == [] {
      PiecesReadTemplate(template);
      FillWithoutValues(Pieces(template));
      return template;
    }
    result := ReplaceInOrder(template, values);
  }

  lemma {:induction false} NothingLeft(done: string, ps: seq<Piece>, values: seq<string>)
    requires TextOf(ps) == ""
    ensures done + Fill(ps, values) == done
  {
  }
}
