/**
 Sequences: bounded 64-bit counters, and the expansion of `nextval('…')` calls in the text of a
 statement. Text is ASCII.
 */
module Sequences {
  import opened Text
  import opened Values

  const MIN64: int := -0x8000_0000_0000_0000
  const MAX64: int := 0x7fff_ffff_ffff_ffff

  type I64 = x: int | MIN64 <= x <= MAX64 witness 0

  datatype Sequence = Sequence(current: I64, increment: I64, min: Option<I64>, max: Option<I64>)

  function SaturatingAdd(a: I64, b: I64): I64 {
    if a + b > MAX64 then MAX64 else if a + b < MIN64 then MIN64 else a + b
  }

  function Advance(s: Sequence): Option<Sequence> {
    var advanced := SaturatingAdd(s.current, s.increment);
    if s.min.Some? && advanced < s.min.value then None
    else if s.max.Some? && advanced > s.max.value then None
    else Some(s.(current := advanced))
  }

  /** The state after `n` calls; a call that fails leaves it as it is. */
  function Calls(s: Sequence, n: nat): Sequence {
    if n == 0 then s
    else
      var t := Calls(s, n - 1);
      if Advance(t).Some? then Advance(t).value else t
  }

  /** What call number `k`, from zero, answers: the value before it, unless it fails. */
  function Answer(s: Sequence, k: nat): Option<I64> {
    var t := Calls(s, k);
    if Advance(t).Some? then Some(t.current) else None
  }

  // ── Arithmetic ───────────────────────────────────────────────

  /** How often an ascending sequence answers. The maximum bounds the value after the answer. */
  function Capacity(s: Sequence): nat
    requires s.increment > 0 && s.max.Some? && s.current <= s.max.value
  {
    if s.min.Some? && s.current + s.increment < s.min.value then 0
    else (s.max.value - s.current) / s.increment
  }

  lemma {:induction false} Quotient(a: int, d: int, k: nat)
    requires d > 0 && a >= 0
    ensures k < a / d <==> (k + 1) * d <= a
  {
    var q := a / d;
    assert q * d <= a < (q + 1) * d;
    if k < q {
      assert (k + 1) * d <= q * d;
    } else {
      assert (q + 1) * d <= (k + 1) * d;
    }
  }

  predicate Ascending(s: Sequence) {
    s.increment > 0 && s.max.Some? && s.current <= s.max.value < MAX64
  }

  /** The state `m` steps on. */
  function Moved(s: Sequence, m: nat): Sequence
    requires MIN64 <= s.current + m * s.increment <= MAX64
  {
    s.(current := s.current + m * s.increment)
  }

  lemma {:induction false} MovedAdvances(s: Sequence, m: nat)
    requires Ascending(s) && m <= Capacity(s)
    ensures MIN64 <= s.current + m * s.increment <= s.max.value
    ensures m < Capacity(s) ==> s.current + m * s.increment < s.max.value
    ensures Advance(Moved(s, m)).Some? <==> m < Capacity(s)
    ensures m < Capacity(s) ==> Advance(Moved(s, m)) == Some(Moved(s, m + 1))
  {
    var d, top := s.increment, s.max.value - s.current;
    assert (m + 1) * d == m * d + d;
    assert m * d >= 0;
    Quotient(top, d, m);
    if m > 0 { Quotient(top, d, m - 1); }
  }

  lemma {:induction false} AscendingState(s: Sequence, n: nat)
    requires Ascending(s)
    ensures var m := if n < Capacity(s) then n else Capacity(s);
      MIN64 <= s.current + m * s.increment <= s.max.value && Calls(s, n) == Moved(s, m)
  {
    var m := if n < Capacity(s) then n else Capacity(s);
    MovedAdvances(s, m);
    if n == 0 {
      assert 0 * s.increment == 0;
    } else {
      AscendingState(s, n - 1);
      MovedAdvances(s, if n - 1 < Capacity(s) then n - 1 else Capacity(s));
    }
  }

  /**
   An ascending sequence answers exactly `Capacity` times, with equal steps, and never again. With
   start, step and maximum alone that is the rounded-down quotient, so the maximum itself is not among
   the answers.
   */
  lemma {:induction false} AscendingAnswers(s: Sequence, k: nat)
    requires Ascending(s)
    ensures Answer(s, k).Some? <==> k < Capacity(s)
    ensures k < Capacity(s) ==> Answer(s, k).value == s.current + k * s.increment < s.max.value
    ensures k >= Capacity(s) ==> Calls(s, k) == Calls(s, Capacity(s))
  {
    AscendingState(s, k);
    AscendingState(s, Capacity(s));
    MovedAdvances(s, if k < Capacity(s) then k else Capacity(s));
  }

  /** No answer is given twice. */
  lemma {:induction false} AnswersIncrease(s: Sequence, i: nat, j: nat)
    requires Ascending(s)
    requires i < j && Answer(s, i).Some? && Answer(s, j).Some?
    ensures Answer(s, i).value < Answer(s, j).value
  {
    AscendingAnswers(s, i);
    AscendingAnswers(s, j);
    assert (j - i) * s.increment > 0;
    assert j * s.increment == i * s.increment + (j - i) * s.increment;
  }

  function Capped(v: int): int { if v <= MAX64 then v else MAX64 }

  lemma {:induction false} CappedAdvance(t: Sequence, base: int, d: int, k: nat)
    requires d > 0 && MIN64 <= base <= MAX64 && t.increment == d && t.current == Capped(base + k * d)
    ensures SaturatingAdd(t.current, d) == Capped(base + (k + 1) * d)
    ensures SaturatingAdd(base, d) <= SaturatingAdd(t.current, d)
  {
    assert (k + 1) * d == k * d + d;
    assert k * d >= 0;
  }

  /** Without a maximum, or with the largest one, it never fails: at the top of the range it repeats itself. */
  lemma {:induction false} UnboundedAnswers(s: Sequence, k: nat)
    requires s.increment > 0 && (s.max == None || s.max == Some(MAX64))
    requires s.min.Some? ==> s.min.value <= SaturatingAdd(s.current, s.increment)
    ensures Answer(s, k).Some? && Answer(s, k).value == Capped(s.current + k * s.increment)
    ensures Calls(s, k) == s.(current := Answer(s, k).value)
  {
    if k == 0 {
      assert 0 * s.increment == 0;
    } else {
      UnboundedAnswers(s, k - 1);
      CappedAdvance(Calls(s, k - 1), s.current, s.increment, k - 1);
    }
    CappedAdvance(Calls(s, k), s.current, s.increment, k);
  }

  // ── nextval ──────────────────────────────────────────────────

  const CALL := "nextval('"

  function Lower(c: char): char { if 'A' <= c <= 'Z' then (c as int + 32) as char else c }

  function LowerCase(s: string): (r: string)
    ensures |r| == |s|
  {
    seq(|s|, i requires 0 <= i < |s| => Lower(s[i]))
  }

  /** `str::find` */
  function Find(s: string, needle: string): (r: Option<nat>)
    ensures r.Some? ==> r.value + |needle| <= |s|
  {
    if needle <= s then Some(0)
    else if s == "" then None
    else
      match Find(s[1..], needle)
      case None => None
      case Some(k) => Some(k + 1)
  }

  /** A character outside calls, or a call with its text. */
  datatype Piece = Plain(c: char) | Call(name: string, text: string)

  predicate OpensCall(s: string) { CALL <= LowerCase(s) && Find(s[|CALL|..], "')").Some? }

  function CallAt(s: string): Piece
    requires OpensCall(s)
  {
    var n := Find(s[|CALL|..], "')").value;
    Call(s[|CALL|..|CALL| + n], s[..|CALL| + n + 2])
  }

  /** The calls of a text, read without drawing any value. */
  function Pieces(s: string): seq<Piece> {
    if s == "" then []
    else if OpensCall(s) then [CallAt(s)] + Pieces(s[|CallAt(s).text|..])
    else [Plain(s[0])] + Pieces(s[1..])
  }

  function TextOf(ps: seq<Piece>): string {
    if ps == [] then "" else (if ps[0].Plain? then [ps[0].c] else ps[0].text) + TextOf(ps[1..])
  }

  function Names(ps: seq<Piece>): seq<string> {
    if ps == [] then [] else (if ps[0].Call? then [ps[0].name] else []) + Names(ps[1..])
  }

  /** The text with the calls replaced by the values, in order. */
  function Filled(ps: seq<Piece>, values: seq<I64>): string
    requires |values| == |Names(ps)|
  {
    if ps == [] then ""
    else if ps[0].Plain? then [ps[0].c] + Filled(ps[1..], values)
    else IntText(values[0]) + Filled(ps[1..], values[1..])
  }

  lemma {:induction false} PiecesReadText(s: string)
    ensures TextOf(Pieces(s)) == s
  {
    if s != "" {
      var n := if OpensCall(s) then |CallAt(s).text| else 1;
      PiecesReadText(s[n..]);
      assert Pieces(s)[1..] == Pieces(s[n..]);
      assert s == s[..n] + s[n..];
    }
  }

  /** The letter `d`, small or capital; any other character is itself. */
  predicate SameLetter(c: char, d: char) { c == d || ('a' <= d <= 'z' && (c as int) + 32 == d as int) }

  /** The text begins with `nextval('` in whatever case. */
  predicate BeginsCall(s: string) {
    |s| >= 9 && forall i :: 0 <= i < 9 ==> SameLetter(s[i], "nextval('"[i])
  }

  predicate ClosesAt(s: string, n: nat) { n + 1 < |s| && s[n] == '\'' && s[n + 1] == ')' }

  lemma {:induction false} LowerIsSameLetter(c: char, d: char)
    requires d in "nextval('"
    ensures Lower(c) == d <==> SameLetter(c, d)
  {
  }

  lemma {:induction false} FindClose(s: string)
    ensures match Find(s, "')")
      case Some(n) => ClosesAt(s, n) && forall i :: 0 <= i < n ==> !ClosesAt(s, i)
      case None => forall i: nat :: !ClosesAt(s, i)
  {
    if !("')" <= s) && s != "" {
      FindClose(s[1..]);
      assert !ClosesAt(s, 0);
      forall i: nat | i > 0 ensures ClosesAt(s, i) <==> ClosesAt(s[1..], i - 1) {}
    }
  }

  lemma {:induction false} BeginsExact(s: string)
    ensures CALL <= LowerCase(s) <==> BeginsCall(s)
  {
    if |s| >= 9 {
      forall i | 0 <= i < 9 ensures LowerCase(s)[i] == CALL[i] <==> SameLetter(s[i], "nextval('"[i]) {
        LowerIsSameLetter(s[i], "nextval('"[i]);
      }
      if BeginsCall(s) { assert LowerCase(s)[..9] == CALL; }
    }
  }

  /** A call begins where the text reads `nextval('`, whatever the case, and `')` follows. */
  lemma {:induction false} OpensExact(s: string)
    ensures OpensCall(s) <==> BeginsCall(s) && exists n: nat :: n >= 9 && ClosesAt(s, n)
  {
    BeginsExact(s);
    if BeginsCall(s) {
      FindClose(s[9..]);
      forall n: nat | n >= 9 ensures ClosesAt(s, n) <==> ClosesAt(s[9..], n - 9) {}
      if n: nat :| ClosesAt(s[9..], n) { assert ClosesAt(s, n + 9); }
    }
  }

  lemma {:induction false} CloseFound(name: string, rest: string)
    requires forall i :: !ClosesAt(name, i)
    ensures Find(name + ("')" + rest), "')") == Some(|name|)
  {
    var tail := name + ("')" + rest);
    FindClose(tail);
    assert ClosesAt(tail, |name|);
    forall i: nat | i < |name| ensures !ClosesAt(tail, i) { assert !ClosesAt(name, i); }
  }

  lemma {:induction false} CallParts(call: string, name: string, rest: string, s: string)
    requires |call| == 9 && s == call + (name + ("')" + rest))
    ensures s[..9] == call && s[9..] == name + ("')" + rest) && s[9..9 + |name|] == name
    ensures s[..9 + |name| + 2] == call + name + "')" && s[9 + |name| + 2..] == rest
  {
  }

  /** It is read up to the first `')`, and the reading goes on behind it. */
  lemma {:induction false} CallIsRead(call: string, name: string, rest: string)
    requires |call| == 9 && BeginsCall(call) && forall i :: !ClosesAt(name, i)
    ensures Pieces(call + (name + ("')" + rest))) == [Call(name, call + name + "')")] + Pieces(rest)
  {
    var s := call + (name + ("')" + rest));
    CallParts(call, name, rest, s);
    assert BeginsCall(s);
    BeginsExact(s);
    CloseFound(name, rest);
    assert OpensCall(s) && CallAt(s) == Call(name, call + name + "')");
    assert s[|CallAt(s).text|..] == rest;
  }

  type Catalog = map<string, Sequence>

  datatype Drawn = Drawn(values: seq<I64>, catalog: Catalog, failed: bool)

  /** Draws from the named sequences in turn; a failed draw stops, and the draws before it stand. */
  function Draw(catalog: Catalog, names: seq<string>): (r: Drawn)
    ensures !r.failed ==> |r.values| == |names|
    decreases |names|
  {
    if names == [] then Drawn([], catalog, false)
    else if names[0] !in catalog || Advance(catalog[names[0]]).None? then Drawn([], catalog, true)
    else
      var s := catalog[names[0]];
      var rest := Draw(catalog[names[0] := Advance(s).value], names[1..]);
      rest.(values := [s.current] + rest.values)
  }

  function Count(names: seq<string>, name: string): nat {
    if names == [] then 0 else (if names[0] == name then 1 else 0) + Count(names[1..], name)
  }

  lemma {:induction false} CallsFrom(s: Sequence, n: nat)
    requires Advance(s).Some?
    ensures Calls(Advance(s).value, n) == Calls(s, n + 1)
  {
    if n > 0 { CallsFrom(s, n - 1); }
  }

  /** Each call draws once: the value a sequence gives it is the next one not given to a call on its left. */
  lemma {:induction false} DrawsLeftToRight(catalog: Catalog, names: seq<string>, i: nat)
    requires !Draw(catalog, names).failed && i < |names|
    ensures names[i] in catalog
    ensures Answer(catalog[names[i]], Count(names[..i], names[i])) == Some(Draw(catalog, names).values[i])
    decreases |names|
  {
    if i > 0 {
      var s := catalog[names[0]];
      var next := catalog[names[0] := Advance(s).value];
      DrawsLeftToRight(next, names[1..], i - 1);
      assert names[..i][1..] == names[1..][..i - 1];
      if names[i] == names[0] { CallsFrom(s, Count(names[1..][..i - 1], names[i])); }
    }
  }

  lemma {:induction false} DrawLeaves(catalog: Catalog, names: seq<string>, name: string)
    requires !Draw(catalog, names).failed && name in catalog
    ensures Draw(catalog, names).catalog.Keys == catalog.Keys
    ensures Draw(catalog, names).catalog[name] == Calls(catalog[name], Count(names, name))
    decreases |names|
  {
    if names != [] {
      var s := catalog[names[0]];
      DrawLeaves(catalog[names[0] := Advance(s).value], names[1..], name);
      if name == names[0] { CallsFrom(s, Count(names[1..], name)); }
    }
  }

  // ── The text before the first call ───────────────────────────

  function Plains(s: string): (r: seq<Piece>)
    ensures |r| == |s|
  {
    seq(|s|, i requires 0 <= i < |s| => Plain(s[i]))
  }

  lemma {:induction false} FindNone(s: string, i: nat)
    requires i <= |s| && Find(LowerCase(s), CALL) == None
    ensures !OpensCall(s[i..])
  {
    assert CALL != "";
    if i == 0 {
      assert s[0..] == s;
    } else {
      assert LowerCase(s)[1..] == LowerCase(s[1..]);
      FindNone(s[1..], i - 1);
      assert s[1..][i - 1..] == s[i..];
    }
  }

  lemma {:induction false} NoCalls(s: string)
    requires forall i :: 0 <= i <= |s| ==> !OpensCall(s[i..])
    ensures Pieces(s) == Plains(s)
  {
    if s != "" {
      assert !OpensCall(s[0..]) && s[0..] == s;
      forall i | 0 <= i <= |s[1..]| ensures !OpensCall(s[1..][i..]) { assert s[1..][i..] == s[i + 1..]; }
      NoCalls(s[1..]);
      assert Plains(s) == [Plain(s[0])] + Plains(s[1..]);
    }
  }

  lemma {:induction false} CallLater(s: string, k: nat)
    requires Find(LowerCase(s), CALL) == Some(k) && k > 0
    ensures s != "" && !OpensCall(s) && k <= |s| && s[1..][k - 1..] == s[k..]
    ensures Find(LowerCase(s[1..]), CALL) == Some(k - 1) && Plains(s[..k]) == [Plain(s[0])] + Plains(s[1..][..k - 1])
  {
    assert LowerCase(s)[1..] == LowerCase(s[1..]);
  }

  lemma {:induction false} Prepend<T>(whole: seq<T>, x: seq<T>, tail: seq<T>, a: seq<T>, b: seq<T>)
    requires whole == x + tail && tail == a + b
    ensures whole == (x + a) + b
  {
  }

  lemma {:induction false} FirstCall(s: string, k: nat, p: Piece, rest: string)
    requires Find(LowerCase(s), CALL) == Some(k) && OpensCall(s[k..])
    requires p == CallAt(s[k..]) && rest == s[k..][|p.text|..]
    ensures Pieces(s) == Plains(s[..k]) + ([p] + Pieces(rest))
  {
    var more := [p] + Pieces(rest);
    if k == 0 {
      assert s[0..] == s;
      assert Pieces(s) == more;
      assert Plains(s[..0]) + more == more;
    } else {
      CallLater(s, k);
      FirstCall(s[1..], k - 1, p, rest);
      Prepend(Pieces(s), [Plain(s[0])], Pieces(s[1..]), Plains(s[1..][..k - 1]), more);
    }
  }

  lemma {:induction false} FindSuffix(s: string, i: nat, needle: string)
    requires i <= |s| && Find(s, needle) == None
    ensures Find(s[i..], needle) == None
  {
    if i == 0 {
      assert s[0..] == s;
    } else {
      FindSuffix(s[1..], i - 1, needle);
      assert s[1..][i - 1..] == s[i..];
    }
  }

  lemma {:induction false} BeforeFirst(s: string, needle: string, k: nat, i: nat)
    requires needle != "" && Find(s, needle) == Some(k) && i < k
    ensures !(needle <= s[i..])
  {
    if i == 0 {
      assert s[0..] == s;
    } else {
      BeforeFirst(s[1..], needle, k - 1, i - 1);
      assert s[1..][i - 1..] == s[i..];
    }
  }

  /** When the first call is not closed, none is. */
  lemma {:induction false} UnclosedCall(s: string, k: nat, i: nat)
    requires Find(LowerCase(s), CALL) == Some(k) && Find(s[k + |CALL|..], "')") == None && i <= |s|
    ensures !OpensCall(s[i..])
  {
    assert LowerCase(s[i..]) == LowerCase(s)[i..];
    if i < k {
      BeforeFirst(LowerCase(s), CALL, k, i);
    } else if i + |CALL| <= |s| {
      FindSuffix(s[k + |CALL|..], i - k, "')");
      assert s[k + |CALL|..][i - k..] == s[i..][|CALL|..];
    }
  }

  // ── Filling and drawing piece by piece ───────────────────────

  lemma {:induction false} NamesConcat(a: seq<Piece>, b: seq<Piece>)
    ensures Names(a + b) == Names(a) + Names(b)
  {
    if a == [] {
      assert a + b == b;
    } else {
      assert (a + b)[1..] == a[1..] + b;
      NamesConcat(a[1..], b);
    }
  }

  lemma {:induction false} FilledConcat(a: seq<Piece>, b: seq<Piece>, va: seq<I64>, vb: seq<I64>)
    requires |va| == |Names(a)| && |vb| == |Names(b)|
    ensures |va + vb| == |Names(a + b)| && Filled(a + b, va + vb) == Filled(a, va) + Filled(b, vb)
  {
    NamesConcat(a, b);
    if a == [] {
      assert a + b == b && va + vb == vb;
    } else {
      var x := if a[0].Plain? then [a[0].c] else IntText(va[0]);
      var rest := if a[0].Plain? then va else va[1..];
      assert (a + b)[1..] == a[1..] + b;
      NamesConcat(a[1..], b);
      assert a[0].Call? ==> (va + vb)[1..] == rest + vb;
      FilledConcat(a[1..], b, rest, vb);
      Prepend(Filled(a + b, va + vb), x, Filled(a[1..] + b, rest + vb), Filled(a[1..], rest), Filled(b, vb));
    }
  }

  lemma {:induction false} FilledPlains(s: string)
    ensures Names(Plains(s)) == [] && Filled(Plains(s), []) == s
  {
    if s != "" {
      assert Plains(s)[1..] == Plains(s[1..]);
      FilledPlains(s[1..]);
    }
  }

  lemma {:induction false} CallFirst(p: Piece, next: seq<Piece>, v: I64, more: seq<I64>)
    requires p.Call? && |more| == |Names(next)|
    ensures Names([p] + next) == [p.name] + Names(next)
    ensures Filled([p] + next, [v] + more) == IntText(v) + Filled(next, more)
  {
    assert ([p] + next)[1..] == next && ([v] + more)[1..] == more;
  }

  /** The first call of a text takes the first value. */
  lemma {:induction false} FilledCall(all: seq<Piece>, front: string, p: Piece, next: seq<Piece>, v: I64, more: seq<I64>)
    requires all == Plains(front) + ([p] + next) && p.Call? && |more| == |Names(next)|
    ensures Names(all) == [p.name] + Names(next)
    ensures Filled(all, [v] + more) == front + (IntText(v) + Filled(next, more))
  {
    CallFirst(p, next, v, more);
    FilledPlains(front);
    FilledConcat(Plains(front), [p] + next, [], [v] + more);
    NamesConcat(Plains(front), [p] + next);
    assert [] + ([v] + more) == [v] + more;
    assert [] + ([p.name] + Names(next)) == [p.name] + Names(next);
  }

  /** The result of the loop when `done` is finished text and `rest` is still to be searched. */
  function Continue(done: string, rest: string, catalog: Catalog): (Option<string>, Catalog) {
    var d := Draw(catalog, Names(Pieces(rest)));
    (if d.failed then None else Some(done + Filled(Pieces(rest), d.values)), d.catalog)
  }

  lemma {:induction false} Regroup(a: string, b: string, c: string, d: string)
    ensures a + (b + (c + d)) == (a + b + c) + d
  {
  }

  lemma {:induction false} ContinueCall(done: string, rest: string, catalog: Catalog, front: string, p: Piece, next: string)
    requires Pieces(rest) == Plains(front) + ([p] + Pieces(next)) && p.Call?
    ensures var d := Draw(catalog, [p.name]);
      Continue(done, rest, catalog) ==
        if d.failed then (None, catalog) else Continue(done + front + IntText(d.values[0]), next, d.catalog)
  {
    var names := Names(Pieces(next));
    var zeros: seq<I64> := seq(|names|, i => 0);
    FilledCall(Pieces(rest), front, p, Pieces(next), 0, zeros);
    assert ([p.name] + names)[1..] == names && [p.name][1..] == [];
    if p.name in catalog && Advance(catalog[p.name]).Some? {
      var s := catalog[p.name];
      var now := catalog[p.name := Advance(s).value];
      var d := Draw(now, names);
      if !d.failed {
        FilledCall(Pieces(rest), front, p, Pieces(next), s.current, d.values);
        Regroup(done, front, IntText(s.current), Filled(Pieces(next), d.values));
      }
    }
  }

  lemma {:induction false} ContinueEnd(done: string, rest: string, catalog: Catalog)
    requires Pieces(rest) == Plains(rest)
    ensures Continue(done, rest, catalog) == (Some(done + rest), catalog)
  {
    FilledPlains(rest);
  }

  // ── The loop ─────────────────────────────────────────────────

  /** Where a call and its name lie in the buffer. */
  datatype Span = Span(start: nat, nameStart: nat, nameEnd: nat)

  function CallIn(out: string, at: Span): Piece
    requires at.start <= at.nameStart <= at.nameEnd && at.nameEnd + 2 <= |out|
  {
    Call(out[at.nameStart..at.nameEnd], out[at.start..at.nameEnd + 2])
  }

  lemma {:induction false} CallSlices(out: string, from: nat, k: nat, n: nat, at: Span)
    requires from <= |out| && from + k + |CALL| + n + 2 <= |out|
    requires at == Span(from + k, from + k + |CALL|, from + k + |CALL| + n)
    ensures var rest := out[from..];
      var t := rest[k..];
      && t[|CALL|..] == rest[k + |CALL|..] && rest[..k] == out[from..at.start]
      && t[|CALL|..|CALL| + n] == out[at.nameStart..at.nameEnd]
      && t[..|CALL| + n + 2] == out[at.start..at.nameEnd + 2]
      && t[|CALL| + n + 2..] == out[at.nameEnd + 2..]
  {
  }

  lemma {:induction false} CallFound(out: string, from: nat, k: nat, n: nat, at: Span, rest: string, next: string)
    requires from <= |out| && rest == out[from..] && Find(LowerCase(rest), CALL) == Some(k)
    requires Find(rest[k + |CALL|..], "')") == Some(n)
    requires at == Span(from + k, from + k + |CALL|, from + k + |CALL| + n) && next == out[at.nameEnd + 2..]
    ensures Pieces(rest) == Plains(out[from..at.start]) + ([CallIn(out, at)] + Pieces(next))
  {
    var t := rest[k..];
    FindHere(LowerCase(rest), CALL, k);
    assert LowerCase(t) == LowerCase(rest)[k..];
    CallSlices(out, from, k, n, at);
    var p := CallAt(t);
    assert p == CallIn(out, at);
    FirstCall(rest, k, p, next);
  }

  predicate Within(out: string, from: nat, at: Span) {
    from <= at.start <= at.nameStart <= at.nameEnd && at.nameEnd + 2 <= |out|
  }

  /** The text up to a call, the call, and what follows it. */
  function Around(out: string, from: nat, at: Span): seq<Piece>
    requires Within(out, from, at)
  {
    Plains(out[from..at.start]) + ([CallIn(out, at)] + Pieces(out[at.nameEnd + 2..]))
  }

  lemma {:induction false} CallFoundIn(out: string, from: nat, k: nat, n: nat, at: Span)
    requires from <= |out| && Find(LowerCase(out[from..]), CALL) == Some(k)
    requires Find(out[from + k + |CALL|..], "')") == Some(n)
    requires at == Span(from + k, from + k + |CALL|, from + k + |CALL| + n)
    ensures Within(out, from, at) && Pieces(out[from..]) == Around(out, from, at)
  {
    TailOf(out, from, k + |CALL|);
    CallFound(out, from, k, n, at, out[from..], out[at.nameEnd + 2..]);
  }

  lemma {:induction false} NoneClosedIn(out: string, from: nat, k: nat)
    requires from <= |out| && Find(LowerCase(out[from..]), CALL) == Some(k)
    requires Find(out[from + k + |CALL|..], "')") == None
    ensures Pieces(out[from..]) == Plains(out[from..])
  {
    TailOf(out, from, k + |CALL|);
    NoneClosed(out[from..], k);
  }

  lemma {:induction false} NoneFound(s: string)
    requires Find(LowerCase(s), CALL) == None
    ensures Pieces(s) == Plains(s)
  {
    forall i | 0 <= i <= |s| ensures !OpensCall(s[i..]) { FindNone(s, i); }
    NoCalls(s);
  }

  lemma {:induction false} NoneClosed(s: string, k: nat)
    requires Find(LowerCase(s), CALL) == Some(k) && Find(s[k + |CALL|..], "')") == None
    ensures Pieces(s) == Plains(s)
  {
    forall i | 0 <= i <= |s| ensures !OpensCall(s[i..]) { UnclosedCall(s, k, i); }
    NoCalls(s);
  }

  lemma {:induction false} TailOf(out: string, from: nat, n: nat)
    requires from + n <= |out|
    ensures out[from..][n..] == out[from + n..]
  {
  }

  method NextCall(out: string, from: nat) returns (r: Option<Span>)
    requires from <= |out|
    ensures r.None? ==> Pieces(out[from..]) == Plains(out[from..])
    ensures r.Some? ==> Within(out, from, r.value) && Pieces(out[from..]) == Around(out, from, r.value)
  {
    var found := Find(LowerCase(out[from..]), CALL);
    if found.None? {
      NoneFound(out[from..]);
      return None;
    }
    var nameStart := from + found.value + |CALL|;
    var nameLen := Find(out[nameStart..], "')");
    if nameLen.None? {
      NoneClosedIn(out, from, found.value);
      return None;
    }
    var at := Span(from + found.value, nameStart, nameStart + nameLen.value);
    CallFoundIn(out, from, found.value, nameLen.value, at);
    return Some(at);
  }

  lemma {:induction false} Replaced(out: string, from: nat, start: nat, end: nat, text: string)
    requires from <= start <= end <= |out|
    ensures var changed := out[..start] + text + out[end..];
      changed[..start + |text|] == out[..from] + out[from..start] + text && changed[start + |text|..] == out[end..]
  {
  }

  lemma {:induction false} FindHere(s: string, needle: string, k: nat)
    requires Find(s, needle) == Some(k)
    ensures needle <= s[k..]
  {
    if k == 0 {
      assert s[0..] == s;
    } else {
      FindHere(s[1..], needle, k - 1);
      assert s[1..][k - 1..] == s[k..];
    }
  }

  class CatalogState {
    var sequences: Catalog

    constructor ()
      ensures sequences == map[]
    {
      sequences := map[];
    }

    method NextSequenceValue(name: string) returns (r: Result<I64>)
      modifies this
      ensures var d := Draw(old(sequences), [name]);
        sequences == d.catalog && r.Err? == d.failed && (r.Ok? ==> r.value == d.values[0])
    {
      if name !in sequences { return Err("sequence does not exist"); }
      var s := sequences[name];
      var advanced := SaturatingAdd(s.current, s.increment);
      if s.min.Some? && advanced < s.min.value { return Err("reached minimum value"); }
      if s.max.Some? && advanced > s.max.value { return Err("reached maximum value"); }
      sequences := sequences[name := s.(current := advanced)];
      return Ok(s.current);
    }

    /**
     Each call is replaced by its own draw, from left to right, and the rest of the text is unchanged;
     when a draw fails the draws before it stand.
     */
    method ExpandNextvalCalls(sql: string) returns (r: Result<string>)
      modifies this
      ensures var d := Draw(old(sequences), Names(Pieces(sql)));
        && sequences == d.catalog
        && r.Err? == d.failed
        && (r.Ok? ==> r.value == Filled(Pieces(sql), d.values))
    {
      var out := sql;
      var from: nat := 0;
      ghost var whole := Continue("", sql, sequences);
      assert sql[..0] == "" && sql[0..] == sql;
      while true
        invariant from <= |out|
        invariant Continue(out[..from], out[from..], sequences) == whole
        decreases |out| - from
      {
        var call := NextCall(out, from);
        if call.None? { break; }
        var at := call.value;
        ContinueCall(out[..from], out[from..], sequences, out[from..at.start], CallIn(out, at), out[at.nameEnd + 2..]);
        var drawn := NextSequenceValue(out[at.nameStart..at.nameEnd]);
        if drawn.Err? { return Err(drawn.error); }
        var replacement := IntText(drawn.value);
        Replaced(out, from, at.start, at.nameEnd + 2, replacement);
        out := out[..at.start] + replacement + out[at.nameEnd + 2..];
        from := at.start + |replacement|;
      }
      ContinueEnd(out[..from], out[from..], sequences);
      assert out == out[..from] + out[from..];
      return Ok(out);
    }
  }
}
