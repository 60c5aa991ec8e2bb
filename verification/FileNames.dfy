/**
 Names of Arrow WAL files: `{:06}.arrow`, how a directory scan reads the number back, and the
 byte-wise order in which recovery sorts them.
 */
module FileNames {
  import opened Text
  import opened Values

  function Pow10(k: nat): (p: nat)
    ensures p >= 1
  {
    if k == 0 then 1 else 10 * Pow10(k - 1)
  }

  /** The last `w` decimal digits of `n`, most significant first. */
  function PadTo(n: nat, w: nat): (s: string)
    ensures |s| == w
    ensures AllDigits(s)
  {
    if w == 0 then "" else PadTo(n / 10, w - 1) + [DigitChar(n % 10)]
  }

  /** The least width, from `w` on, that holds all digits of `n`. */
  function WidthFrom(n: nat, w: nat): (r: nat)
    ensures w <= r && n < Pow10(r)
    decreases if n < Pow10(w) then 0 else n + 1 - Pow10(w)
  {
    if n < Pow10(w) then w else WidthFrom(n, w + 1)
  }

  const MIN_WIDTH: nat := 6

  function Width(n: nat): nat { WidthFrom(n, MIN_WIDTH) }

  const EXTENSION := "arrow"

  /** `format!("{:06}.arrow", n)` */
  function FileName(n: nat): string { PadTo(n, Width(n)) + "." + EXTENSION }

  function LastDot(s: string): (i: int)
    ensures -1 <= i < |s|
  {
    if s == "" then -1
    else if s[|s| - 1] == '.' then |s| - 1
    else LastDot(s[..|s| - 1])
  }

  /** `Path::file_stem`: the name without its last extension; a leading dot starts no extension. */
  function Stem(name: string): string {
    var i := LastDot(name);
    if i <= 0 then name else name[..i]
  }

  /** `path.extension() == "arrow"` */
  predicate HasWalExtension(name: string) {
    var i := LastDot(name);
    i > 0 && name[i + 1..] == EXTENSION
  }

  /** `str::parse` to an unsigned number: an optional plus sign and at least one digit. */
  function ParseUnsigned(s: string): Option<nat> {
    var digits := if s != "" && s[0] == '+' then s[1..] else s;
    if digits != "" && AllDigits(digits)
    then Some(DigitsValue(digits))
    else None
  }

  /** The sequence number a directory scan reads from a file name. */
  function ParseSeq(name: string): Option<nat> { ParseUnsigned(Stem(name)) }

  /** Byte-wise order of names. */
  predicate NameLess(a: string, b: string) {
    if b == "" then false
    else if a == "" then true
    else if a[0] != b[0] then a[0] < b[0]
    else NameLess(a[1..], b[1..])
  }

  lemma {:induction false} NameLessPrefix(p: string, x: string, y: string)
    ensures NameLess(p + x, p + y) == NameLess(x, y)
  {
    if p == "" {
      assert p + x == x && p + y == y;
    } else {
      assert (p + x)[1..] == p[1..] + x && (p + y)[1..] == p[1..] + y;
      NameLessPrefix(p[1..], x, y);
    }
  }

  lemma {:induction false} NameLessTotal(a: string, b: string)
    ensures a == b || NameLess(a, b) || NameLess(b, a)
    ensures !(NameLess(a, b) && NameLess(b, a)) && !NameLess(a, a)
  {
    if a != "" {
      if b != "" && a[0] == b[0] {
        NameLessTotal(a[1..], b[1..]);
        assert a == [a[0]] + a[1..] && b == [b[0]] + b[1..];
      }
      NameLessTotal(a[1..], a[1..]);
    }
  }

  lemma {:induction false} NameLessTransitive(a: string, b: string, c: string)
    requires NameLess(a, b) && NameLess(b, c)
    ensures NameLess(a, c)
  {
    if a != "" && b != "" && a[0] == b[0] && b[0] == c[0] {
      NameLessTransitive(a[1..], b[1..], c[1..]);
    }
  }

  lemma {:induction false} LastDotAppend(p: string, x: string)
    requires '.' !in x
    ensures LastDot(p + "." + x) == |p|
  {
    var s := p + "." + x;
    if x != "" {
      assert s[|s| - 1] == x[|x| - 1];
      assert s[..|s| - 1] == p + "." + x[..|x| - 1];
      LastDotAppend(p, x[..|x| - 1]);
    }
  }

  lemma {:induction false} DigitsValueOfPad(n: nat, w: nat)
    requires n < Pow10(w)
    ensures DigitsValue(PadTo(n, w)) == n
  {
    if w > 0 {
      DigitsValueOfPad(n / 10, w - 1);
      assert PadTo(n, w)[..w - 1] == PadTo(n / 10, w - 1);
    }
  }

  /** A scan of the directory reads back exactly the number a file was created under. */
  lemma {:induction false} FileNameRoundTrip(n: nat)
    ensures ParseSeq(FileName(n)) == Some(n)
    ensures HasWalExtension(FileName(n))
  {
    var p := PadTo(n, Width(n));
    LastDotAppend(p, EXTENSION);
    assert FileName(n)[..|p|] == p;
    assert FileName(n)[|p| + 1..] == EXTENSION;
    DigitsValueOfPad(n, Width(n));
    assert IsDigit(p[0]);
  }

  /** Two numbers of the same printed width sort as numbers, whatever follows. */
  lemma {:induction false} SameWidthOrder(a: nat, b: nat, w: nat, x: string, y: string)
    requires a < b < Pow10(w)
    ensures NameLess(PadTo(a, w) + x, PadTo(b, w) + y)
  {
    var da, db := [DigitChar(a % 10)], [DigitChar(b % 10)];
    var pa, pb := PadTo(a / 10, w - 1), PadTo(b / 10, w - 1);
    assert PadTo(a, w) + x == pa + (da + x) && PadTo(b, w) + y == pb + (db + y);
    if a / 10 < b / 10 {
      SameWidthOrder(a / 10, b / 10, w - 1, da + x, db + y);
    } else {
      assert a / 10 == b / 10;
      NameLessPrefix(pa, da + x, db + y);
    }
  }

  /** The number printed by the leading digits that remain after dropping the last `k`. */
  function Leading(b: nat, k: nat): nat { if k == 0 then b else Leading(b, k - 1) / 10 }

  lemma {:induction false} LeadingAtLeast(a: nat, b: nat, k: nat)
    ensures a <= Leading(b, k) <==> a * Pow10(k) <= b
    decreases k
  {
    if k > 0 {
      LeadingAtLeast(10 * a, b, k - 1);
      assert a * Pow10(k) == 10 * a * Pow10(k - 1);
    }
  }

  lemma {:induction false} PadSplit(b: nat, w: nat, k: nat)
    requires k <= w
    ensures PadTo(b, w) == PadTo(Leading(b, k), w - k) + PadTo(b, w)[w - k..]
  {
    if k > 0 {
      PadSplit(b, w, k - 1);
      var h := Leading(b, k - 1);
      assert PadTo(h, w - k + 1)[..w - k] == PadTo(h / 10, w - k);
      assert PadTo(b, w)[..w - k + 1] == PadTo(h, w - k + 1);
      assert PadTo(b, w)[..w - k] == PadTo(h, w - k + 1)[..w - k];
    }
  }

  lemma {:induction false} LeadingBound(b: nat, w: nat, k: nat)
    requires k <= w && b < Pow10(w)
    ensures Leading(b, k) < Pow10(w - k)
  {
    if k > 0 {
      LeadingBound(b, w, k - 1);
    }
  }

  lemma {:induction false} WidthMonotone(a: nat, b: nat, w: nat)
    requires a <= b
    ensures WidthFrom(a, w) <= WidthFrom(b, w)
    decreases WidthFrom(b, w) - w
  {
    if Pow10(w) <= a {
      WidthMonotone(a, b, w + 1);
    }
  }

  /**
   Exactly when two numbers sort in numeric order by file name: the smaller, padded with
   zeros on the right to the width of the larger, must not exceed it. Always so while both have six digits or fewer.
   */
  predicate NumericOrderHolds(a: nat, b: nat) {
    Width(a) <= Width(b) && a * Pow10(Width(b) - Width(a)) <= b
  }

  lemma {:induction false} CompareAtWidth(a: nat, h: nat, w: nat, x: string, y: string)
    requires a < Pow10(w) && h < Pow10(w) && NameLess(x, y)
    ensures NameLess(PadTo(a, w) + x, PadTo(h, w) + y) <==> a <= h
  {
    if a < h {
      SameWidthOrder(a, h, w, x, y);
    } else if a > h {
      SameWidthOrder(h, a, w, y, x);
      NameLessTotal(PadTo(a, w) + x, PadTo(h, w) + y);
    } else {
      NameLessPrefix(PadTo(a, w), x, y);
    }
  }

  /** A file name from its leading digits on; behind them comes a dot or a digit. */
  lemma {:induction false} SplitName(b: nat, k: nat) returns (tail: string)
    requires k <= Width(b)
    ensures FileName(b) == PadTo(Leading(b, k), Width(b) - k) + tail
    ensures tail != "" && (k == 0 ==> tail == "." + EXTENSION) && (k > 0 ==> IsDigit(tail[0]))
  {
    var w := Width(b);
    PadSplit(b, w, k);
    tail := PadTo(b, w)[w - k..] + ("." + EXTENSION);
    assert FileName(b) == PadTo(b, w) + ("." + EXTENSION);
  }

  /** Names of different length: the shorter is compared with the leading digits of the longer. */
  lemma {:induction false} LongerNameOrder(a: nat, b: nat, k: nat, wa: nat, h: nat)
    requires k > 0 && wa == Width(a) && Width(b) == wa + k && h == Leading(b, k)
    ensures NameLess(FileName(a), FileName(b)) <==> a <= h
  {
    var x := SplitName(a, 0);
    var y := SplitName(b, k);
    LeadingBound(b, wa + k, k);
    CompareAtWidth(a, h, wa, x, y);
  }

  /** Names of the same length sort as their numbers. */
  lemma {:induction false} SameLengthOrder(a: nat, b: nat, w: nat)
    requires a < b && w == Width(a) == Width(b)
    ensures NameLess(FileName(a), FileName(b))
  {
    var x := SplitName(a, 0);
    var y := SplitName(b, 0);
    SameWidthOrder(a, b, w, x, y);
  }

  lemma {:induction false} NameOrderExact(a: nat, b: nat)
    requires a < b
    ensures NameLess(FileName(a), FileName(b)) <==> NumericOrderHolds(a, b)
  {
    WidthMonotone(a, b, MIN_WIDTH);
    var k := Width(b) - Width(a);
    if k == 0 {
      SameLengthOrder(a, b, Width(a));
      assert NumericOrderHolds(a, b) by { assert Pow10(0) == 1; }
    } else {
      LeadingAtLeast(a, b, k);
      LongerNameOrder(a, b, k, Width(a), Leading(b, k));
    }
  }

  /** Six digits are enough: below one million the sort by name is the sort by number. */
  lemma {:induction false} SixDigitOrder(a: nat, b: nat)
    requires a < b <= 999999
    ensures NumericOrderHolds(a, b) && NameLess(FileName(a), FileName(b))
  {
    assert Pow10(6) == 1000000 by {
      assert Pow10(1) == 10 && Pow10(2) == 100 && Pow10(3) == 1000;
      assert Pow10(4) == 10000 && Pow10(5) == 100000;
    }
    assert Width(a) == 6 && Width(b) == 6;
    NameOrderExact(a, b);
  }

  /** The millionth file sorts before its predecessor. */
  lemma {:induction false} MillionthFileSortsFirst()
    ensures NameLess(FileName(1000000), FileName(999999))
    ensures !NumericOrderHolds(999999, 1000000)
  {
    assert Pow10(6) == 1000000 by {
      assert Pow10(1) == 10 && Pow10(2) == 100 && Pow10(3) == 1000;
      assert Pow10(4) == 10000 && Pow10(5) == 100000;
    }
    assert Pow10(7) == 10000000;
    assert Width(999999) == 6 && Width(1000000) == 7;
    NameOrderExact(999999, 1000000);
    NameLessTotal(FileName(1000000), FileName(999999));
    FileNameRoundTrip(1000000);
    FileNameRoundTrip(999999);
  }
}
