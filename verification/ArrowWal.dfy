/**
 The Arrow write-ahead log: one directory per table, one numbered file per append. The class does
 what `ArrowWal` does, step by step; each method is tied to a function on `WalState`, and the
 theorems are about every sequence of those functions.
 */
module ArrowWalLog {
  import opened Values
  import opened FileNames

  /** File name to the batches written in that file. */
  type Files = map<string, seq<Batch>>

  /** Table directory to its files. */
  type Directory = map<string, Files>

  datatype WalState = WalState(seqNo: nat, known: set<string>, dir: Directory)

  // ── What each operation computes ─────────────────────────────

  function SeqNumbers(dir: Directory): set<nat> {
    set t, f | t in dir && f in dir[t] && ParseSeq(f).Some? :: ParseSeq(f).value
  }

  ghost function MaxOf(s: set<nat>): (m: nat)
    ensures forall x :: x in s ==> x <= m
    ensures m == 0 || m in s
  {
    if s == {} then 0 else
      var x :| x in s;
      var rest := MaxOf(s - {x});
      assert s == {x} + (s - {x});
      if x > rest then x else rest
  }

  ghost function OpenState(dir: Directory): WalState { WalState(MaxOf(SeqNumbers(dir)), {}, dir) }

  function MakeDir(dir: Directory, table: string): Directory {
    if table in dir then dir else dir[table := map[]]
  }

  /** The state after an append, and whether the file could be created. */
  function AppendState(s: WalState, table: string, batches: seq<Batch>): (WalState, bool) {
    if batches == [] then (s, true) else
      var dir := if table in s.known then s.dir else MakeDir(s.dir, table);
      var known := s.known + {table};
      if table !in dir then (WalState(s.seqNo + 1, known, dir), false) else
        var files := dir[table][FileName(s.seqNo + 1) := batches];
        (WalState(s.seqNo + 1, known, dir[table := files]), true)
  }

  function CheckpointTableState(s: WalState, table: string): WalState {
    WalState(s.seqNo, s.known - {table}, s.dir - {table})
  }

  function CheckpointAllState(s: WalState): WalState { WalState(s.seqNo, {}, map[]) }

  predicate SortedByName(l: seq<string>) {
    forall i, j :: 0 <= i < j < |l| ==> NameLess(l[i], l[j])
  }

  function InsertByName(l: seq<string>, n: string): seq<string> {
    if l == [] then [n]
    else if NameLess(n, l[0]) then [n] + l
    else [l[0]] + InsertByName(l[1..], n)
  }

  ghost function SortNames(names: set<string>): seq<string> {
    if names == {} then [] else
      var n :| n in names;
      InsertByName(SortNames(names - {n}), n)
  }

  function WalFileNames(files: Files): set<string> {
    set f | f in files && HasWalExtension(f)
  }

  function ReadAll(files: Files, names: seq<string>): seq<Batch>
    requires forall n :: n in names ==> n in files
  {
    if names == [] then [] else
      ReadAll(files, names[..|names| - 1]) + files[names[|names| - 1]]
  }

  ghost function RecoverFiles(files: Files): seq<Batch> {
    SortNamesSorts(WalFileNames(files));
    ReadAll(files, SortNames(WalFileNames(files)))
  }

  /** What start-up reads back: per table directory, all batches in file-name order. */
  ghost function Recovered(dir: Directory): map<string, seq<Batch>> {
    map t | t in dir :: RecoverFiles(dir[t])
  }

  // ── Sorting names ────────────────────────────────────────────

  lemma {:induction false} InsertSorts(l: seq<string>, n: string)
    requires SortedByName(l) && n !in l
    ensures SortedByName(InsertByName(l, n))
    ensures forall x :: x in InsertByName(l, n) <==> x in l || x == n
  {
    if l != [] {
      var r := InsertByName(l, n);
      if NameLess(n, l[0]) {
        forall i | 0 <= i < |l| ensures NameLess(n, l[i]) {
          if i > 0 { NameLessTransitive(n, l[0], l[i]); }
        }
        assert forall x :: x in r <==> x in l || x == n;
      } else {
        NameLessTotal(n, l[0]);
        InsertSorts(l[1..], n);
        var t := InsertByName(l[1..], n);
        assert l == [l[0]] + l[1..];
        forall i | 0 <= i < |t| ensures NameLess(l[0], t[i]) {
          assert t[i] in t;
          if t[i] != n {
            var j :| 0 <= j < |l[1..]| && l[1..][j] == t[i];
            assert NameLess(l[0], l[j + 1]);
          }
        }
      }
    }
  }

  lemma {:induction false} SortNamesSorts(names: set<string>)
    ensures SortedByName(SortNames(names))
    ensures forall x :: x in SortNames(names) <==> x in names
  {
    if names != {} {
      var n :| n in names && SortNames(names) == InsertByName(SortNames(names - {n}), n);
      SortNamesSorts(names - {n});
      InsertSorts(SortNames(names - {n}), n);
    }
  }

  lemma {:induction false} SortedUnique(a: seq<string>, b: seq<string>)
    requires SortedByName(a) && SortedByName(b)
    requires forall x :: x in a <==> x in b
    ensures a == b
  {
    if b != [] { assert b[0] in a; }
    if a == [] {
      assert b == [];
    } else {
      assert a[0] in b;
      if a[0] != b[0] {
        var i :| 0 <= i < |b| && b[i] == a[0];
        var j :| 0 <= j < |a| && a[j] == b[0];
        NameLessTotal(a[0], b[0]);
        assert false;
      }
      forall x | x in a[1..] ensures x in b[1..] { TailMember(a, b, x); }
      forall x | x in b[1..] ensures x in a[1..] { TailMember(b, a, x); }
      SortedUnique(a[1..], b[1..]);
      assert a == [a[0]] + a[1..] && b == [b[0]] + b[1..];
    }
  }

  lemma {:induction false} TailMember(a: seq<string>, b: seq<string>, x: string)
    requires SortedByName(a) && a != [] && b != [] && a[0] == b[0]
    requires x in a[1..] && x in b
    ensures x in b[1..]
  {
    var i :| 0 <= i < |a[1..]| && a[1..][i] == x;
    assert NameLess(a[0], a[i + 1]);
    NameLessTotal(x, x);
    var k :| 0 <= k < |b| && b[k] == x;
    assert k > 0;
    assert b[1..][k - 1] == x;
  }

  // ── The append history that a directory stands for ───────────

  /** One append: the number of its file and the batches in it. */
  datatype Entry = Entry(no: nat, batches: seq<Batch>)

  predicate Increasing(es: seq<Entry>) {
    forall i, j :: 0 <= i < j < |es| ==> es[i].no < es[j].no
  }

  function NamesOf(es: seq<Entry>): seq<string> {
    seq(|es|, i requires 0 <= i < |es| => FileName(es[i].no))
  }

  function FilesOf(es: seq<Entry>): Files {
    if es == [] then map[] else
      FilesOf(es[..|es| - 1])[FileName(es[|es| - 1].no) := es[|es| - 1].batches]
  }

  /** All batches of a list of appends, in append order. */
  function Concat(appends: seq<seq<Batch>>): seq<Batch> {
    if appends == [] then [] else Concat(appends[..|appends| - 1]) + appends[|appends| - 1]
  }

  function AppendsOf(es: seq<Entry>): seq<seq<Batch>> {
    seq(|es|, i requires 0 <= i < |es| => es[i].batches)
  }

  predicate IsFileOf(es: seq<Entry>, f: string) { exists i :: 0 <= i < |es| && f == FileName(es[i].no) }

  lemma {:induction false} IsFileOfLast(es: seq<Entry>, f: string)
    requires es != []
    ensures IsFileOf(es, f) <==> IsFileOf(es[..|es| - 1], f) || f == FileName(es[|es| - 1].no)
  {
    var n := |es| - 1;
    if IsFileOf(es, f) {
      var i :| 0 <= i < |es| && f == FileName(es[i].no);
      if i < n { assert f == FileName(es[..n][i].no); }
    }
    if IsFileOf(es[..n], f) {
      var i :| 0 <= i < n && f == FileName(es[..n][i].no);
      assert f == FileName(es[i].no);
    }
  }

  lemma {:induction false} FileOfKey(es: seq<Entry>, f: string)
    ensures f in FilesOf(es) <==> IsFileOf(es, f)
  {
    if es != [] {
      FileOfKey(es[..|es| - 1], f);
      IsFileOfLast(es, f);
    }
  }

  lemma {:induction false} FilesOfKeys(es: seq<Entry>)
    ensures forall f :: f in FilesOf(es) <==> exists i :: 0 <= i < |es| && f == FileName(es[i].no)
  {
    forall f ensures f in FilesOf(es) <==> exists i :: 0 <= i < |es| && f == FileName(es[i].no) {
      FileOfKey(es, f);
    }
  }

  lemma {:induction false} FilesOfContent(es: seq<Entry>, i: nat)
    requires Increasing(es) && i < |es|
    ensures FileName(es[i].no) in FilesOf(es)
    ensures FilesOf(es)[FileName(es[i].no)] == es[i].batches
  {
    var n := |es| - 1;
    if i < n {
      FilesOfContent(es[..n], i);
      FileNameRoundTrip(es[i].no);
      FileNameRoundTrip(es[n].no);
    }
  }

  /** Numeric order and name order agree on each adjacent pair of files. */
  predicate AdjacentInOrder(es: seq<Entry>) {
    forall i :: 0 <= i < |es| - 1 ==> NumericOrderHolds(es[i].no, es[i + 1].no)
  }

  lemma {:induction false} AdjacentSorts(es: seq<Entry>, i: nat, j: nat)
    requires Increasing(es) && AdjacentInOrder(es) && i < j < |es|
    ensures NameLess(FileName(es[i].no), FileName(es[j].no))
  {
    NameOrderExact(es[j - 1].no, es[j].no);
    if i < j - 1 {
      AdjacentSorts(es, i, j - 1);
      NameLessTransitive(FileName(es[i].no), FileName(es[j - 1].no), FileName(es[j].no));
    }
  }

  lemma {:induction false} WalNamesOfHistory(es: seq<Entry>)
    ensures forall x :: x in WalFileNames(FilesOf(es)) <==> x in NamesOf(es)
  {
    FilesOfKeys(es);
    forall x | x in NamesOf(es) ensures x in WalFileNames(FilesOf(es)) {
      var i :| 0 <= i < |es| && NamesOf(es)[i] == x;
      FileNameRoundTrip(es[i].no);
    }
    forall x | x in WalFileNames(FilesOf(es)) ensures x in NamesOf(es) {
      var i :| 0 <= i < |es| && x == FileName(es[i].no);
      assert NamesOf(es)[i] == x;
    }
  }

  /**
   The order in which recovery reads the files is the append order exactly when each file number,
   padded on the right to the width of its successor, does not exceed it.
   */
  lemma {:induction false} RecoveryOrderExact(es: seq<Entry>)
    requires Increasing(es)
    ensures SortNames(WalFileNames(FilesOf(es))) == NamesOf(es) <==> AdjacentInOrder(es)
  {
    var names := WalFileNames(FilesOf(es));
    SortNamesSorts(names);
    WalNamesOfHistory(es);
    var l := NamesOf(es);
    if AdjacentInOrder(es) {
      forall i, j | 0 <= i < j < |l| ensures NameLess(l[i], l[j]) {
        AdjacentSorts(es, i, j);
      }
      SortedUnique(SortNames(names), l);
    }
    if SortNames(names) == l {
      forall i | 0 <= i < |es| - 1 ensures NumericOrderHolds(es[i].no, es[i + 1].no) {
        assert NameLess(l[i], l[i + 1]);
        NameOrderExact(es[i].no, es[i + 1].no);
      }
    }
  }

  lemma {:induction false} ReadAllHistory(es: seq<Entry>, k: nat)
    requires Increasing(es) && k <= |es|
    requires forall n :: n in NamesOf(es)[..k] ==> n in FilesOf(es)
    ensures ReadAll(FilesOf(es), NamesOf(es)[..k]) == Concat(AppendsOf(es)[..k])
  {
    if k > 0 {
      assert NamesOf(es)[..k][..k - 1] == NamesOf(es)[..k - 1];
      assert AppendsOf(es)[..k][..k - 1] == AppendsOf(es)[..k - 1];
      ReadAllHistory(es, k - 1);
      FilesOfContent(es, k - 1);
    }
  }

  lemma {:induction false} RecoverHistory(es: seq<Entry>)
    requires Increasing(es) && AdjacentInOrder(es)
    ensures RecoverFiles(FilesOf(es)) == Concat(AppendsOf(es))
  {
    RecoveryOrderExact(es);
    SortNamesSorts(WalFileNames(FilesOf(es)));
    assert NamesOf(es)[..|es|] == NamesOf(es) && AppendsOf(es)[..|es|] == AppendsOf(es);
    ReadAllHistory(es, |es|);
  }

  lemma {:induction false} ReadAllConcat(files: Files, a: seq<string>, b: seq<string>)
    requires forall n :: n in a + b ==> n in files
    ensures forall n :: n in a ==> n in files
    ensures forall n :: n in b ==> n in files
    ensures ReadAll(files, a + b) == ReadAll(files, a) + ReadAll(files, b)
  {
    assert forall n :: n in a ==> n in a + b;
    assert forall n :: n in b ==> n in a + b;
    if b == [] {
      assert a + b == a;
    } else {
      assert (a + b)[..|a + b| - 1] == a + b[..|b| - 1];
      ReadAllConcat(files, a, b[..|b| - 1]);
    }
  }

  lemma {:induction false} ReadAllInsert(files: Files, l: seq<string>, n: string)
    requires n in files && forall x :: x in l ==> x in files
    ensures forall x :: x in InsertByName(l, n) ==> x in files
    ensures multiset(ReadAll(files, InsertByName(l, n))) == multiset(ReadAll(files, l)) + multiset(files[n])
  {
    assert ReadAll(files, [n]) == files[n];
    if l != [] {
      var head, tail := [l[0]], l[1..];
      assert l == head + tail;
      ReadAllConcat(files, head, tail);
      if NameLess(n, l[0]) {
        ReadAllConcat(files, [n], l);
      } else {
        ReadAllInsert(files, tail, n);
        ReadAllConcat(files, head, InsertByName(tail, n));
      }
    }
  }

  lemma {:induction false} ReadAllAgree(a: Files, b: Files, names: seq<string>)
    requires forall n :: n in names ==> n in a && n in b && a[n] == b[n]
    ensures ReadAll(a, names) == ReadAll(b, names)
  {
    if names != [] {
      assert names[|names| - 1] in names;
      ReadAllAgree(a, b, names[..|names| - 1]);
    }
  }

  lemma {:induction false} LastNameIsNew(es: seq<Entry>)
    requires Increasing(es) && es != []
    ensures NamesOf(es)[|es| - 1] !in NamesOf(es[..|es| - 1])
    ensures NamesOf(es) == NamesOf(es[..|es| - 1]) + [NamesOf(es)[|es| - 1]]
  {
    var n := |es| - 1;
    forall i | 0 <= i < n ensures FileName(es[i].no) != FileName(es[n].no) {
      FileNameRoundTrip(es[i].no);
      FileNameRoundTrip(es[n].no);
    }
  }

  lemma {:induction false} LastNameInserted(es: seq<Entry>)
    requires Increasing(es) && es != []
    ensures var n := |es| - 1;
      SortNames(WalFileNames(FilesOf(es)))
      == InsertByName(SortNames(WalFileNames(FilesOf(es[..n]))), FileName(es[n].no))
  {
    var n := |es| - 1;
    WalNamesOfHistory(es);
    WalNamesOfHistory(es[..n]);
    LastNameIsNew(es);
    var before, all := WalFileNames(FilesOf(es[..n])), WalFileNames(FilesOf(es));
    SortNamesSorts(before);
    SortNamesSorts(all);
    InsertSorts(SortNames(before), FileName(es[n].no));
    SortedUnique(SortNames(all), InsertByName(SortNames(before), FileName(es[n].no)));
  }

  lemma {:induction false} EarlierFilesKept(es: seq<Entry>, names: seq<string>)
    requires Increasing(es) && es != []
    requires forall x :: x in names ==> x in FilesOf(es[..|es| - 1])
    ensures forall x :: x in names ==> x in FilesOf(es)
    ensures ReadAll(FilesOf(es), names) == ReadAll(FilesOf(es[..|es| - 1]), names)
  {
    var n := |es| - 1;
    WalNamesOfHistory(es[..n]);
    LastNameIsNew(es);
    FilesOfKeys(es[..n]);
    forall x | x in names
      ensures x in FilesOf(es) && FilesOf(es)[x] == FilesOf(es[..n])[x]
    {
      var i :| 0 <= i < n && x == FileName(es[..n][i].no);
      FileNameRoundTrip(es[i].no);
      FileNameRoundTrip(es[n].no);
    }
    ReadAllAgree(FilesOf(es[..n]), FilesOf(es), names);
  }

  /** Whatever the numbers, recovery reads every appended batch, each as often as it was appended. */
  lemma {:induction false} RecoverHistoryMultiset(es: seq<Entry>)
    requires Increasing(es)
    ensures multiset(RecoverFiles(FilesOf(es))) == multiset(Concat(AppendsOf(es)))
  {
    if es == [] {
      assert WalFileNames(FilesOf(es)) == {};
    } else {
      var n := |es| - 1;
      var before := SortNames(WalFileNames(FilesOf(es[..n])));
      RecoverHistoryMultiset(es[..n]);
      SortNamesSorts(WalFileNames(FilesOf(es[..n])));
      LastNameInserted(es);
      FilesOfContent(es, n);
      EarlierFilesKept(es, before);
      ReadAllInsert(FilesOf(es), before, FileName(es[n].no));
      SortNamesSorts(WalFileNames(FilesOf(es)));
      assert AppendsOf(es)[..n] == AppendsOf(es[..n]);
    }
  }

  // ── Runs ─────────────────────────────────────────────────────

  datatype WalOp =
    | Append(table: string, batches: seq<Batch>)
    | CheckpointTable(table: string)
    | CheckpointAll
    | Reopen

  ghost function Step(s: WalState, op: WalOp): (WalState, bool) {
    match op
    case Append(t, b) => AppendState(s, t, b)
    case CheckpointTable(t) => (CheckpointTableState(s, t), true)
    case CheckpointAll => (CheckpointAllState(s), true)
    case Reopen => (OpenState(s.dir), true)
  }

  /** The log after a run that starts in an empty directory; `ok` says that every append succeeded. */
  ghost function Run(ops: seq<WalOp>): (WalState, bool) {
    if ops == [] then (OpenState(map[]), true) else
      var before := Run(ops[..|ops| - 1]);
      var after := Step(before.0, ops[|ops| - 1]);
      (after.0, before.1 && after.1)
  }

  /** Reference: the non-empty appends to a table since its last checkpoint, in order. */
  function SinceCheckpoint(ops: seq<WalOp>, table: string): seq<seq<Batch>> {
    if ops == [] then [] else
      var before := SinceCheckpoint(ops[..|ops| - 1], table);
      match ops[|ops| - 1]
      case Append(t, b) => if t == table && b != [] then before + [b] else before
      case CheckpointTable(t) => if t == table then [] else before
      case CheckpointAll => []
      case Reopen => before
  }

  type History = map<string, seq<Entry>>

  ghost predicate TableStandsFor(files: Files, es: seq<Entry>, bound: nat) {
    && es != []
    && Increasing(es)
    && files == FilesOf(es)
    && forall i :: 0 <= i < |es| ==> es[i].no <= bound
  }

  /** The state stands for the history `h`: files are the appends of `h`, numbered upwards. */
  ghost predicate StandsFor(s: WalState, h: History) {
    && s.known <= s.dir.Keys
    && h.Keys == s.dir.Keys
    && (forall t :: t in h ==> TableStandsFor(s.dir[t], h[t], s.seqNo))
  }

  lemma {:induction false} FreshName(es: seq<Entry>, bound: nat, no: nat)
    requires forall i :: 0 <= i < |es| ==> es[i].no <= bound
    requires bound < no
    ensures FileName(no) !in FilesOf(es)
  {
    FilesOfKeys(es);
    FileNameRoundTrip(no);
    forall i | 0 <= i < |es| ensures FileName(es[i].no) != FileName(no) {
      FileNameRoundTrip(es[i].no);
    }
  }

  lemma {:induction false} AppendTable(earlier: seq<Entry>, e: Entry, bound: nat, name: string, files: Files, es: seq<Entry>)
    requires earlier == [] || TableStandsFor(FilesOf(earlier), earlier, bound)
    requires e.no == bound + 1 && name == FileName(e.no)
    requires es == earlier + [e] && files == FilesOf(earlier)[name := e.batches]
    ensures name !in FilesOf(earlier) && TableStandsFor(files, es, bound + 1)
  {
    FreshName(earlier, bound, bound + 1);
    assert es[..|es| - 1] == earlier;
  }

  function FilesAt(dir: Directory, t: string): Files { if t in dir then dir[t] else map[] }

  /** With every known directory in place, the file is created. */
  lemma {:induction false} AppendSucceeds(s: WalState, t: string, b: seq<Batch>)
    requires s.known <= s.dir.Keys && b != []
    ensures AppendState(s, t, b)
         == (LoggedState(s, t, b), true)
  {
    var dir := if t in s.known then s.dir else MakeDir(s.dir, t);
    assert t in dir && dir[t] == FilesAt(s.dir, t);
    var files := FilesAt(s.dir, t)[FileName(s.seqNo + 1) := b];
    assert dir[t := files] == s.dir[t := files];
  }

  function EntriesOf(h: History, t: string): seq<Entry> { if t in h then h[t] else [] }

  function LoggedState(s: WalState, t: string, b: seq<Batch>): WalState {
    WalState(s.seqNo + 1, s.known + {t}, s.dir[t := FilesAt(s.dir, t)[FileName(s.seqNo + 1) := b]])
  }

  lemma {:induction false} ReplaceTable(s: WalState, h: History, t: string, files: Files, es: seq<Entry>)
    requires StandsFor(s, h) && TableStandsFor(files, es, s.seqNo + 1)
    ensures StandsFor(WalState(s.seqNo + 1, s.known + {t}, s.dir[t := files]), h[t := es])
  {
    var dir, h' := s.dir[t := files], h[t := es];
    forall u | u in h' ensures TableStandsFor(dir[u], h'[u], s.seqNo + 1) {
      if u != t {
        assert TableStandsFor(s.dir[u], h[u], s.seqNo);
      }
    }
  }

  lemma {:induction false} CurrentTable(s: WalState, h: History, t: string)
    requires StandsFor(s, h)
    ensures var es := EntriesOf(h, t);
      FilesAt(s.dir, t) == FilesOf(es) && (es == [] || TableStandsFor(FilesOf(es), es, s.seqNo))
  {
    if t in h {
      assert TableStandsFor(s.dir[t], h[t], s.seqNo);
    }
  }

  lemma {:induction false} NextNameIsFree(s: WalState, h: History, t: string)
    requires StandsFor(s, h)
    ensures FileName(s.seqNo + 1) !in FilesAt(s.dir, t)
  {
    CurrentTable(s, h, t);
    FreshName(EntriesOf(h, t), s.seqNo, s.seqNo + 1);
  }

  /** An append adds one entry to the history of its table. */
  lemma {:induction false} AppendKeeps(s: WalState, h: History, t: string, b: seq<Batch>, s': WalState, h': History)
    requires StandsFor(s, h)
    requires s' == LoggedState(s, t, b) && h' == h[t := EntriesOf(h, t) + [Entry(s.seqNo + 1, b)]]
    ensures StandsFor(s', h')
  {
    var earlier := EntriesOf(h, t);
    CurrentTable(s, h, t);
    var e := Entry(s.seqNo + 1, b);
    var name := FileName(e.no);
    var es := earlier + [e];
    var files := FilesOf(earlier)[name := b];
    AppendTable(earlier, e, s.seqNo, name, files, es);
    assert s' == WalState(s.seqNo + 1, s.known + {t}, s.dir[t := files]) && h' == h[t := es];
    ReplaceTable(s, h, t, files, es);
  }

  lemma {:induction false} NumbersOfHistory(s: WalState, h: History, t: string, i: nat)
    requires StandsFor(s, h) && t in h && i < |h[t]|
    ensures h[t][i].no in SeqNumbers(s.dir)
  {
    FilesOfContent(h[t], i);
    FileNameRoundTrip(h[t][i].no);
    assert FileName(h[t][i].no) in s.dir[t];
  }

  lemma {:induction false} ReopenKeeps(s: WalState, h: History)
    requires StandsFor(s, h)
    ensures StandsFor(OpenState(s.dir), h)
  {
    forall t, i | t in h && 0 <= i < |h[t]| ensures h[t][i].no <= OpenState(s.dir).seqNo {
      NumbersOfHistory(s, h, t, i);
    }
  }

  ghost function StepHistory(h: History, s: WalState, op: WalOp): History {
    match op
    case Append(t, b) => if b == [] then h else h[t := EntriesOf(h, t) + [Entry(s.seqNo + 1, b)]]
    case CheckpointTable(t) => h - {t}
    case CheckpointAll => map[]
    case Reopen => h
  }

  ghost function HistoryOf(ops: seq<WalOp>): History {
    if ops == [] then map[] else
      var before := ops[..|ops| - 1];
      StepHistory(HistoryOf(before), Run(before).0, ops[|ops| - 1])
  }

  lemma {:induction false} CheckpointTableKeeps(s: WalState, h: History, t: string)
    requires StandsFor(s, h)
    ensures StandsFor(CheckpointTableState(s, t), h - {t})
  {
    var s', h' := CheckpointTableState(s, t), h - {t};
    forall u | u in h' ensures TableStandsFor(s'.dir[u], h'[u], s'.seqNo) {
      assert TableStandsFor(s.dir[u], h[u], s.seqNo);
    }
  }

  lemma {:induction false} StepKeeps(s: WalState, h: History, op: WalOp)
    requires StandsFor(s, h)
    ensures StandsFor(Step(s, op).0, StepHistory(h, s, op)) && Step(s, op).1
  {
    match op
    case Append(t, b) =>
      if b != [] {
        AppendSucceeds(s, t, b);
        var s', h' := Step(s, op).0, StepHistory(h, s, op);
        assert s' == LoggedState(s, t, b) && h' == h[t := EntriesOf(h, t) + [Entry(s.seqNo + 1, b)]];
        AppendKeeps(s, h, t, b, s', h');
      }
    case CheckpointTable(t) => CheckpointTableKeeps(s, h, t);
    case CheckpointAll =>
    case Reopen => ReopenKeeps(s, h);
  }

  lemma {:induction false} RunStandsFor(ops: seq<WalOp>)
    ensures StandsFor(Run(ops).0, HistoryOf(ops)) && Run(ops).1
  {
    if ops != [] {
      var before := ops[..|ops| - 1];
      RunStandsFor(before);
      StepKeeps(Run(before).0, HistoryOf(before), ops[|ops| - 1]);
    }
  }

  lemma {:induction false} HistoryMatches(ops: seq<WalOp>, t: string)
    ensures AppendsOf(EntriesOf(HistoryOf(ops), t)) == SinceCheckpoint(ops, t)
  {
    if ops != [] {
      HistoryMatches(ops[..|ops| - 1], t);
    }
  }

  lemma {:induction false} HistoryInOrder(es: seq<Entry>, bound: nat)
    requires Increasing(es) && bound <= 999999
    requires forall i :: 0 <= i < |es| ==> es[i].no <= bound
    ensures AdjacentInOrder(es)
  {
    forall i | 0 <= i < |es| - 1 ensures NumericOrderHolds(es[i].no, es[i + 1].no) {
      SixDigitOrder(es[i].no, es[i + 1].no);
    }
  }

  /**
   Refinement: after any run, every append has succeeded, and recovery finds a table exactly when
   something was appended to it since its last checkpoint. It reads exactly those batches, in
   append order while the counter is at most 999999 and as a multiset always.
   */
  lemma {:induction false} WalRefinement(ops: seq<WalOp>, table: string)
    ensures Run(ops).1
    ensures var r := Recovered(Run(ops).0.dir);
      && (table in r <==> SinceCheckpoint(ops, table) != [])
      && (table in r ==> multiset(r[table]) == multiset(Concat(SinceCheckpoint(ops, table))))
      && (table in r && Run(ops).0.seqNo <= 999999 ==> r[table] == Concat(SinceCheckpoint(ops, table)))
  {
    var h, s := HistoryOf(ops), Run(ops).0;
    RunStandsFor(ops);
    HistoryMatches(ops, table);
    if table in h {
      RecoverHistoryMultiset(h[table]);
      if s.seqNo <= 999999 {
        HistoryInOrder(h[table], s.seqNo);
        RecoverHistory(h[table]);
      }
    }
  }

  /** An append after any run creates a new file in an existing directory and changes no other. */
  lemma {:induction false} AppendAfterRun(ops: seq<WalOp>, t: string, b: seq<Batch>)
    requires b != []
    ensures var s, after := Run(ops).0, AppendState(Run(ops).0, t, b);
      && after.1
      && FileName(s.seqNo + 1) !in FilesAt(s.dir, t)
      && after.0 == LoggedState(s, t, b)
  {
    RunStandsFor(ops);
    NextNameIsFree(Run(ops).0, HistoryOf(ops), t);
    AppendSucceeds(Run(ops).0, t, b);
  }

  // ── The log as the program keeps it ──────────────────────────

  /** The directory tree under the WAL path; it outlives the process. */
  class WalDirectory {
    var tables: Directory

    constructor ()
      ensures tables == map[]
    {
      tables := map[];
    }
  }

  method SortedListing(names: set<string>) returns (l: seq<string>)
    ensures l == SortNames(names)
  {
    l := [];
    var rest := names;
    while rest != {}
      invariant rest <= names
      invariant SortedByName(l)
      invariant forall x :: x in l <==> x in names - rest
      decreases rest
    {
      var n :| n in rest;
      InsertSorts(l, n);
      l := InsertByName(l, n);
      rest := rest - {n};
    }
    SortNamesSorts(names);
    SortedUnique(l, SortNames(names));
  }

  method MaxExistingSeq(dir: WalDirectory) returns (m: Option<nat>)
    ensures m.None? <==> SeqNumbers(dir.tables) == {}
    ensures m.Some? ==> m.value == MaxOf(SeqNumbers(dir.tables))
  {
    m := None;
    ghost var seen: set<nat> := {};
    var entries := dir.tables.Keys;
    while entries != {}
      invariant entries <= dir.tables.Keys
      invariant forall t, f :: t in dir.tables && t !in entries && f in dir.tables[t] && ParseSeq(f).Some?
                           ==> ParseSeq(f).value in seen
      invariant seen <= SeqNumbers(dir.tables)
      invariant m.None? <==> seen == {}
      invariant m.Some? ==> m.value in seen && forall x :: x in seen ==> x <= m.value
      decreases entries
    {
      var entry :| entry in entries;
      var subs := dir.tables[entry].Keys;
      while subs != {}
        invariant subs <= dir.tables[entry].Keys
        invariant forall t, f :: t in dir.tables && t !in entries && f in dir.tables[t] && ParseSeq(f).Some?
                             ==> ParseSeq(f).value in seen
        invariant forall f :: f in dir.tables[entry] && f !in subs && ParseSeq(f).Some?
                          ==> ParseSeq(f).value in seen
        invariant seen <= SeqNumbers(dir.tables)
        invariant m.None? <==> seen == {}
        invariant m.Some? ==> m.value in seen && forall x :: x in seen ==> x <= m.value
        decreases subs
      {
        var sub :| sub in subs;
        match ParseSeq(sub) {
          case Some(n) =>
            m := if m.None? || m.value < n then Some(n) else m;
            seen := seen + {n};
          case None =>
        }
        subs := subs - {sub};
      }
      entries := entries - {entry};
    }
    assert seen == SeqNumbers(dir.tables);
  }

  class ArrowWal {
    const dir: WalDirectory
    var seqNo: nat
    var knownDirs: set<string>

    ghost function State(): WalState
      reads this, dir
    {
      WalState(seqNo, knownDirs, dir.tables)
    }

    constructor Open(d: WalDirectory)
      ensures dir == d && State() == OpenState(d.tables)
    {
      dir := d;
      knownDirs := {};
      var m := MaxExistingSeq(d);
      seqNo := if m.Some? then m.value else 0;
    }

    method Append(table: string, batches: seq<Batch>) returns (ok: bool)
      modifies this, dir
      ensures (State(), ok) == AppendState(old(State()), table, batches)
    {
      if batches == [] {
        return true;
      }
      if table !in knownDirs {
        knownDirs := knownDirs + {table};
        if table !in dir.tables {
          dir.tables := dir.tables[table := map[]];
        }
      } else {
        assert knownDirs + {table} == knownDirs;
      }
      seqNo := seqNo + 1;
      var name := FileName(seqNo);
      if table !in dir.tables {
        return false;
      }
      dir.tables := dir.tables[table := dir.tables[table][name := batches]];
      return true;
    }

    method CheckpointTable(table: string)
      modifies this, dir
      ensures State() == CheckpointTableState(old(State()), table)
    {
      if table in dir.tables {
        dir.tables := dir.tables - {table};
      } else {
        assert dir.tables - {table} == dir.tables;
      }
      knownDirs := knownDirs - {table};
    }

    method CheckpointAll()
      modifies this, dir
      ensures State() == CheckpointAllState(old(State()))
    {
      var entries := dir.tables.Keys;
      while entries != {}
        modifies dir
        invariant entries == dir.tables.Keys
        decreases entries
      {
        var entry :| entry in entries;
        dir.tables := dir.tables - {entry};
        entries := entries - {entry};
      }
      knownDirs := {};
      assert State().dir == map[];
    }
  }

  method ReadTable(files: Files) returns (batches: seq<Batch>)
    ensures batches == RecoverFiles(files)
  {
    var arrowFiles := SortedListing(WalFileNames(files));
    SortNamesSorts(WalFileNames(files));
    batches := [];
    for j := 0 to |arrowFiles|
      invariant forall n :: n in arrowFiles ==> n in files
      invariant batches == ReadAll(files, arrowFiles[..j])
    {
      assert arrowFiles[..j + 1][..j] == arrowFiles[..j];
      batches := batches + files[arrowFiles[j]];
    }
    assert arrowFiles[..|arrowFiles|] == arrowFiles;
  }

  method Recover(dir: WalDirectory) returns (result: map<string, seq<Batch>>)
    ensures result == Recovered(dir.tables)
  {
    result := map[];
    var tableDirs := SortedListing(dir.tables.Keys);
    SortNamesSorts(dir.tables.Keys);
    for i := 0 to |tableDirs|
      invariant forall t :: t in result <==> t in tableDirs[..i]
      invariant forall t :: t in result ==> t in dir.tables
      invariant forall t :: t in result ==> result[t] == RecoverFiles(dir.tables[t])
    {
      var table := tableDirs[i];
      assert table in dir.tables.Keys;
      var batches := ReadTable(dir.tables[table]);
      result := result[table := batches];
    }
  }
}
