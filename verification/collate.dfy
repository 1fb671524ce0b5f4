/** The aggregator of bin/collate.py: `update_counts` adds the rows of one
    word-count CSV file into a cumulative Counter, and the loop of `main`
    feeds it one file after the other, skipping files it cannot use.

    Files are not opened here: each file is given as its name and what
    opening it would produce (an error, or the rows `csv.reader` yields). */
module Collate {
  import opened Common
  import Decimal

  /** The cumulative Counter: word to total count. A missing word counts 0. */
  type Table = map<string, int>

  /** One row as `csv.reader` yields it: its list of fields. */
  type Row = seq<string>

  function Get(t: Table, w: string): int
  {
    if w in t then t[w] else 0
  }

  datatype Pair = Pair(word: string, count: int)

  /** `for word, count in ...: int(count)`: a row is usable when it has
      exactly two fields and the second is an integer; otherwise the
      unpacking or `int` raises (`None`). */
  function ParseRow(row: Row): (r: Option<Pair>)
    ensures r.Some? <==> |row| == 2 && Decimal.ParseInt(row[1]).Some?
    ensures r.Some? ==> r.value.word == row[0] && Decimal.ParseInt(row[1]) == Some(r.value.count)
  {
    if |row| != 2 then None
    else match Decimal.ParseInt(row[1])
      case None => None
      case Some(n) => Some(Pair(row[0], n))
  }

  predicate WellFormed(rows: seq<Row>)
  {
    forall i :: 0 <= i < |rows| ==> ParseRow(rows[i]).Some?
  }

  /** The row is a usable row for word w. */
  predicate Names(row: Row, w: string)
  {
    ParseRow(row).Some? && ParseRow(row).value.word == w
  }

  /** Some usable row among rows is for word w. */
  predicate Mentions(rows: seq<Row>, w: string)
  {
    exists i :: 0 <= i < |rows| && Names(rows[i], w)
  }

  /** What a row adds to word w: its count if it is a usable row for w. */
  function Amount(w: string): Row -> int
  {
    row => if Names(row, w) then ParseRow(row).value.count else 0
  }

  /** Index of the first unusable row, or the number of rows if all are usable. */
  function FirstBad(rows: seq<Row>): (k: nat)
    ensures k <= |rows|
    ensures WellFormed(rows[..k])
    ensures k < |rows| ==> ParseRow(rows[k]).None?
  {
    if |rows| == 0 then 0
    else if ParseRow(rows[0]).None? then 0
    else
      var k := FirstBad(rows[1..]);
      PrefixCons(rows, k);
      1 + k
  }

  /** Outcome of `update_counts`: all rows added, or the exception raised
      at row `at`, after the rows before it were added. */
  datatype Update = Finished(table: Table) | Stopped(table: Table, at: nat)

  /** How many rows of the file the update added. */
  function Added(u: Update, n: nat): nat
  {
    if u.Stopped? && u.at <= n then u.at else n
  }

  function Shift(u: Update): Update
  {
    match u
    case Finished(t) => Finished(t)
    case Stopped(t, k) => Stopped(t, k + 1)
  }

  lemma PrefixCons(rows: seq<Row>, n: nat)
    requires n < |rows|
    ensures rows[..n + 1] == [rows[0]] + rows[1..][..n]
  {
  }

  lemma ConsFacts(x: Row, s: seq<Row>)
    ensures forall w :: Mentions([x] + s, w) <==> Names(x, w) || Mentions(s, w)
    ensures forall w :: Sum([x] + s, Amount(w)) == Amount(w)(x) + Sum(s, Amount(w))
  {
    var xs := [x] + s;
    assert xs[1..] == s;
    assert xs[0] == x;
    forall w
      ensures Mentions(xs, w) <==> Names(x, w) || Mentions(s, w)
    {
      if Mentions(s, w) {
        var i :| 0 <= i < |s| && Names(s[i], w);
        assert xs[i + 1] == s[i];
      }
      if Mentions(xs, w) {
        var i :| 0 <= i < |xs| && Names(xs[i], w);
        if i > 0 {
          assert xs[i] == s[i - 1];
        }
      }
    }
  }

  /** The contract of UpdateCounts for an update r of table acc by rows. */
  ghost predicate UpdateMeaning(acc: Table, rows: seq<Row>, r: Update)
  {
    && (r.Stopped? ==> r.at == FirstBad(rows) && r.at < |rows|)
    && (r.Finished? ==> WellFormed(rows))
    && (forall w :: w in r.table <==> w in acc || Mentions(rows[..Added(r, |rows|)], w))
    && (forall w :: w in r.table ==> r.table[w] == Get(acc, w) + Sum(rows[..Added(r, |rows|)], Amount(w)))
  }

  /** `word_counts[word] += count` for one usable row: the word becomes a
      key (a missing word counts as 0 first), its value grows by the count,
      and every other word keeps its value or its absence. */
  function Next(acc: Table, p: Pair): (r: Table)
    ensures forall w :: w in r <==> w in acc || w == p.word
    ensures forall w :: Get(r, w) == Get(acc, w) + (if w == p.word then p.count else 0)
  {
    acc[p.word := Get(acc, p.word) + p.count]
  }

  /** The inductive step of UpdateCounts: adding the first (usable) row
      and then updating with the rest means updating with all rows. */
  lemma UpdateStep(acc: Table, rows: seq<Row>, r: Update)
    requires |rows| > 0 && ParseRow(rows[0]).Some?
    requires UpdateMeaning(Next(acc, ParseRow(rows[0]).value), rows[1..], r)
    ensures UpdateMeaning(acc, rows, Shift(r))
  {
    UpdateStepStatus(rows, r);
    UpdateStepKeys(acc, rows, r);
    UpdateStepValues(acc, rows, r);
  }

  lemma UpdateStepStatus(rows: seq<Row>, r: Update)
    requires |rows| > 0 && ParseRow(rows[0]).Some?
    requires r.Stopped? ==> r.at == FirstBad(rows[1..]) && r.at < |rows| - 1
    requires r.Finished? ==> WellFormed(rows[1..])
    ensures Shift(r).Stopped? ==> Shift(r).at == FirstBad(rows) && Shift(r).at < |rows|
    ensures Shift(r).Finished? ==> WellFormed(rows)
  {
    if r.Finished? {
      assert forall i :: 0 < i < |rows| ==> rows[i] == rows[1..][i - 1];
    }
  }

  lemma UpdateStepKeys(acc: Table, rows: seq<Row>, r: Update)
    requires |rows| > 0 && ParseRow(rows[0]).Some?
    requires UpdateMeaning(Next(acc, ParseRow(rows[0]).value), rows[1..], r)
    ensures forall w :: w in Shift(r).table <==> w in acc || Mentions(rows[..Added(Shift(r), |rows|)], w)
  {
    var next := Next(acc, ParseRow(rows[0]).value);
    var m := Added(r, |rows| - 1);
    assert Added(Shift(r), |rows|) == m + 1;
    PrefixCons(rows, m);
    ConsFacts(rows[0], rows[1..][..m]);
    assert forall w :: w in next <==> w in acc || Names(rows[0], w);
  }

  lemma UpdateStepValues(acc: Table, rows: seq<Row>, r: Update)
    requires |rows| > 0 && ParseRow(rows[0]).Some?
    requires UpdateMeaning(Next(acc, ParseRow(rows[0]).value), rows[1..], r)
    ensures forall w :: w in Shift(r).table ==>
      Shift(r).table[w] == Get(acc, w) + Sum(rows[..Added(Shift(r), |rows|)], Amount(w))
  {
    var next := Next(acc, ParseRow(rows[0]).value);
    var m := Added(r, |rows| - 1);
    assert Added(Shift(r), |rows|) == m + 1;
    PrefixCons(rows, m);
    ConsFacts(rows[0], rows[1..][..m]);
    assert forall w :: Get(next, w) == Get(acc, w) + Amount(w)(rows[0]);
  }

  /** `update_counts(reader, word_counts)`: add each row's count to its
      word, in order, until a row cannot be used; that row's exception
      ends the update. The accumulator is changed in place, so the rows
      added before the bad row stay added. The update finishes exactly when
      every row is usable, and otherwise stops at the first row that is
      not. */
  function UpdateCounts(acc: Table, rows: seq<Row>): (r: Update)
    ensures r.Finished? <==> FirstBad(rows) == |rows|
    ensures r.Stopped? ==> r.at == FirstBad(rows)
    decreases |rows|
  {
    if |rows| == 0 then Finished(acc)
    else match ParseRow(rows[0])
      case None => Stopped(acc, 0)
      case Some(p) => Shift(UpdateCounts(Next(acc, p), rows[1..]))
  }

  /** What `update_counts` computes: it stops exactly at the first bad
      row, if any; the keys afterwards are the old keys plus the words of
      the rows added (even when their counts sum to zero or less); and
      each value is the old value plus the counts of the rows added for
      that word -- the rows before the first bad one, with no rollback. */
  lemma UpdateCountsMeaning(acc: Table, rows: seq<Row>)
    ensures var r := UpdateCounts(acc, rows);
      && (r.Stopped? ==> r.at == FirstBad(rows) && r.at < |rows|)
      && (r.Finished? ==> WellFormed(rows))
      && (forall w :: w in r.table <==> w in acc || Mentions(rows[..Added(r, |rows|)], w))
      && (forall w :: w in r.table ==> r.table[w] == Get(acc, w) + Sum(rows[..Added(r, |rows|)], Amount(w)))
  {
    UpdateCountsMeets(acc, rows);
  }

  lemma {:induction false} UpdateCountsMeets(acc: Table, rows: seq<Row>)
    ensures UpdateMeaning(acc, rows, UpdateCounts(acc, rows))
    decreases |rows|
  {
    if |rows| > 0 {
      match ParseRow(rows[0])
      case None =>
        assert rows[..0] == [];
      case Some(p) =>
        var next := Next(acc, p);
        UpdateCountsMeets(next, rows[1..]);
        UpdateStep(acc, rows, UpdateCounts(next, rows[1..]));
    }
  }

  function Offset(u: Update, d: nat): Update
  {
    match u
    case Finished(t) => Finished(t)
    case Stopped(t, k) => Stopped(t, k + d)
  }

  /** Updating with r1 and then with r2 is updating with r1 + r2: if r1
      stops at a bad row, r2 is never read; otherwise r2 continues from the
      table r1 left, and its row numbers are shifted by |r1|. */
  lemma {:induction false} UpdateConcat(acc: Table, r1: seq<Row>, r2: seq<Row>)
    ensures UpdateCounts(acc, r1).Stopped? ==> UpdateCounts(acc, r1 + r2) == UpdateCounts(acc, r1)
    ensures UpdateCounts(acc, r1).Finished? ==>
      UpdateCounts(acc, r1 + r2) == Offset(UpdateCounts(UpdateCounts(acc, r1).table, r2), |r1|)
    decreases |r1|
  {
    var rows := r1 + r2;
    if |r1| == 0 {
      assert rows == r2;
      var u := UpdateCounts(acc, r2);
      assert Offset(u, 0) == u by {
        match u
        case Finished(t) =>
        case Stopped(t, k) =>
      }
    } else {
      assert rows[0] == r1[0];
      assert rows[1..] == r1[1..] + r2;
      match ParseRow(r1[0])
      case None =>
        assert UpdateCounts(acc, rows) == Stopped(acc, 0);
      case Some(p) =>
        var next := Next(acc, p);
        var tail := UpdateCounts(next, r1[1..]);
        var whole := UpdateCounts(next, r1[1..] + r2);
        assert UpdateCounts(acc, r1) == Shift(tail);
        assert UpdateCounts(acc, rows) == Shift(whole);
        UpdateConcat(next, r1[1..], r2);
        if tail.Finished? {
          var u := UpdateCounts(tail.table, r2);
          assert whole == Offset(u, |r1| - 1);
          assert Shift(Offset(u, |r1| - 1)) == Offset(u, |r1|) by {
            match u
            case Finished(t) =>
            case Stopped(t, k) =>
          }
        }
    }
  }

  /** Rows that never name w add nothing to it. */
  lemma NoMentionNoAmount(rows: seq<Row>, w: string)
    requires !Mentions(rows, w)
    ensures Sum(rows, Amount(w)) == 0
  {
    forall i | 0 <= i < |rows|
      ensures Amount(w)(rows[i]) == 0
    {
      assert !Names(rows[i], w);
    }
    SumOfZeros(rows, Amount(w));
  }

  /** A word that no usable row names keeps its value (or its absence). */
  lemma UntouchedWordKeepsValue(acc: Table, rows: seq<Row>, w: string)
    requires !Mentions(rows, w)
    ensures w in UpdateCounts(acc, rows).table <==> w in acc
    ensures Get(UpdateCounts(acc, rows).table, w) == Get(acc, w)
  {
    UpdateCountsMeaning(acc, rows);
    var r := UpdateCounts(acc, rows);
    var done := rows[..Added(r, |rows|)];
    assert !Mentions(done, w);
    NoMentionNoAmount(done, w);
  }

  /** Reading the same well-formed file twice adds its counts twice. */
  lemma ReadTwiceDoubles(acc: Table, rows: seq<Row>)
    requires WellFormed(rows)
    ensures UpdateCounts(UpdateCounts(acc, rows).table, rows).Finished?
    ensures forall w :: w in UpdateCounts(UpdateCounts(acc, rows).table, rows).table ==>
      UpdateCounts(UpdateCounts(acc, rows).table, rows).table[w] == Get(acc, w) + 2 * Sum(rows, Amount(w))
  {
    var once := UpdateCounts(acc, rows);
    var twice := UpdateCounts(once.table, rows);
    UpdateCountsMeaning(acc, rows);
    UpdateCountsMeaning(once.table, rows);
    assert rows[..|rows|] == rows;
    forall w | w in twice.table
      ensures twice.table[w] == Get(acc, w) + 2 * Sum(rows, Amount(w))
    {
      assert w in once.table;
    }
  }

  /** No rollback: when a file stops at its first bad row k, the table
      is exactly what reading only its first k rows gives. */
  lemma NoRollback(acc: Table, rows: seq<Row>)
    requires FirstBad(rows) < |rows|
    ensures var k := FirstBad(rows);
      && UpdateCounts(acc, rows[..k]).Finished?
      && UpdateCounts(acc, rows) == Stopped(UpdateCounts(acc, rows[..k]).table, k)
  {
    var k := FirstBad(rows);
    UpdateCountsMeaning(acc, rows[..k]);
    assert rows == rows[..k] + rows[k..];
    UpdateConcat(acc, rows[..k], rows[k..]);
    assert rows[k..][0] == rows[k];
    var t := UpdateCounts(acc, rows[..k]).table;
    assert UpdateCounts(t, rows[k..]) == Stopped(t, 0);
  }

  /** Example: a negative count passes through and creates its entry. */
  lemma NegativeCountExample()
    ensures UpdateCounts(map[], [["the", "-3"]]) == Finished(map["the" := -3])
  {
    Decimal.ParseExamples();
    var rows: seq<Row> := [["the", "-3"]];
    assert ParseRow(rows[0]) == Some(Pair("the", -3));
    assert rows[1..] == [];
  }

  /** Example: a zero count creates its entry. */
  lemma ZeroCountExample()
    ensures UpdateCounts(map[], [["a", "0"]]) == Finished(map["a" := 0])
  {
    assert Decimal.ParseInt("0") == Some(0) by {
      assert "0"[..0] == "";
    }
    var rows: seq<Row> := [["a", "0"]];
    assert ParseRow(rows[0]) == Some(Pair("a", 0));
    assert rows[1..] == [];
  }

  /** Example: a file whose second row is malformed keeps its first row
      and never reaches its third. */
  lemma PartialFileExample()
    ensures UpdateCounts(map["a" := 5], [["a", "1"], ["b"], ["c", "2"]]) == Stopped(map["a" := 6], 1)
  {
    assert Decimal.ParseInt("1") == Some(1) by {
      assert "1"[..0] == "";
    }
    var rows: seq<Row> := [["a", "1"], ["b"], ["c", "2"]];
    assert ParseRow(rows[0]) == Some(Pair("a", 1));
    assert ParseRow(rows[1]) == None;
    assert rows[1..][0] == ["b"];
    var next := map["a" := 5]["a" := 6];
    assert next == map["a" := 6];
    assert UpdateCounts(next, rows[1..]) == Stopped(next, 0);
  }

  // ---------------------------------------------------------------------
  // The per-file loop of main

  /** What `open(fname)` does for a file: raise one of the errors the loop
      tells apart, or give the rows `csv.reader` yields. */
  datatype Opened = Missing | Denied | Unopenable | Contents(rows: seq<Row>)

  datatype Source = Source(name: string, state: Opened)

  /** What the loop reports for one file. */
  datatype Status =
    | Merged           // all rows added
    | NotCsv           // name rejected before opening
    | NotFound         // FileNotFoundError
    | NoPermission     // PermissionError
    | OpenFailed       // any other error on opening
    | Abandoned(row: nat)  // error at this row; the rows before it stay added

  /** Python's `fname[-4:]`: the last four characters, or the whole name
      when it is shorter. */
  function LastFour(name: string): (r: string)
    ensures |r| == if |name| < 4 then |name| else 4
    ensures r == name[|name| - |r|..]
  {
    if |name| >= 4 then name[|name| - 4..] else name
  }

  /** `fname[-4:] != '.csv'` is the rejection test. */
  predicate HasCsvSuffix(name: string)
  {
    LastFour(name) == ".csv"
  }

  /** The suffix test accepts exactly the names ending in ".csv". */
  lemma CsvSuffixMeaning(name: string)
    ensures HasCsvSuffix(name) <==> |name| >= 4 && name[|name| - 4..] == ".csv"
  {
  }

  /** Examples: the bare name ".csv" passes, the test is case-sensitive,
      and a name like "data.txt" is refused whatever the file holds. */
  lemma CsvSuffixExamples()
    ensures HasCsvSuffix("counts.csv") && HasCsvSuffix(".csv")
    ensures !HasCsvSuffix("data.txt") && !HasCsvSuffix("csv") && !HasCsvSuffix("a.CSV")
  {
    assert LastFour("counts.csv") == "counts.csv"[6..] == ".csv";
    assert LastFour("data.txt") == "data.txt"[4..];
    assert "data.txt"[4..][1] == 't';
    assert LastFour("a.CSV") == "a.CSV"[1..];
    assert "a.CSV"[1..][1] == 'C';
    assert LastFour("csv") == "csv";
  }

  /** The status of a file does not depend on the accumulator. */
  function Verdict(src: Source): Status
  {
    if !HasCsvSuffix(src.name) then NotCsv
    else match src.state
      case Missing => NotFound
      case Denied => NoPermission
      case Unopenable => OpenFailed
      case Contents(rows) =>
        var k := FirstBad(rows);
        if k == |rows| then Merged else Abandoned(k)
  }

  /** The file is skipped before any of its rows is read. */
  predicate Rejected(src: Source)
  {
    !HasCsvSuffix(src.name) || !src.state.Contents?
  }

  /** The rows of a file that end up added: none for a rejected file,
      otherwise every row before the first bad one. */
  function Effective(src: Source): seq<Row>
  {
    if Rejected(src) then [] else src.state.rows[..FirstBad(src.state.rows)]
  }

  /** What a file adds to word w. */
  function Contribution(w: string): Source -> int
  {
    src => Sum(Effective(src), Amount(w))
  }

  /** The file has an added row for w, so w becomes a key. */
  predicate Contributes(src: Source, w: string)
  {
    Mentions(Effective(src), w)
  }

  /** Some file among srcs has an added row for w. */
  predicate AnyContributes(srcs: seq<Source>, w: string)
  {
    exists s :: s in srcs && Contributes(s, w)
  }

  /** One iteration of the loop: the `try` body for one file name and the
      handler that catches its error. The status is the file's verdict,
      and a file skipped before reading leaves the table as it was. */
  function Visit(acc: Table, src: Source): (r: (Table, Status))
    ensures r.1 == Verdict(src)
    ensures Rejected(src) ==> r.0 == acc
  {
    if !HasCsvSuffix(src.name) then (acc, NotCsv)
    else match src.state
      case Missing => (acc, NotFound)
      case Denied => (acc, NoPermission)
      case Unopenable => (acc, OpenFailed)
      case Contents(rows) =>
        match UpdateCounts(acc, rows)
        case Finished(t) => (t, Merged)
        case Stopped(t, k) => (t, Abandoned(k))
  }

  /** Whatever happens to a file, the table afterwards is the accumulator
      plus the file's added rows: a word becomes a key exactly when it was
      one or the file added a row for it, and its value grows by what the
      file added for it. */
  lemma VisitMeaning(acc: Table, src: Source)
    ensures forall w :: w in Visit(acc, src).0 <==> w in acc || Contributes(src, w)
    ensures forall w :: Get(Visit(acc, src).0, w) == Get(acc, w) + Contribution(w)(src)
  {
    if Rejected(src) {
      assert Effective(src) == [];
    } else {
      VisitAdds(acc, src);
    }
  }

  lemma VisitAdds(acc: Table, src: Source)
    requires !Rejected(src)
    ensures forall w :: w in Visit(acc, src).0 <==> w in acc || Contributes(src, w)
    ensures forall w :: Get(Visit(acc, src).0, w) == Get(acc, w) + Contribution(w)(src)
  {
    var rows := src.state.rows;
    var u := UpdateCounts(acc, rows);
    UpdateCountsMeets(acc, rows);
    assert Visit(acc, src).0 == u.table;
    assert Effective(src) == rows[..Added(u, |rows|)];
    forall w | !Contributes(src, w)
      ensures Contribution(w)(src) == 0
    {
      NoMentionNoAmount(Effective(src), w);
    }
  }

  /** Result of the loop: the cumulative table and one status per file. */
  datatype Report = Report(table: Table, log: seq<Status>)

  ghost predicate CollateMeaning(acc: Table, srcs: seq<Source>, r: Report)
  {
    && |r.log| == |srcs|
    && (forall i :: 0 <= i < |srcs| ==> r.log[i] == Verdict(srcs[i]))
    && (forall w :: w in r.table <==> w in acc || AnyContributes(srcs, w))
    && (forall w :: w in r.table ==> r.table[w] == Get(acc, w) + Sum(srcs, Contribution(w)))
  }

  lemma {:induction false} CollateStep(acc: Table, srcs: seq<Source>, rest: Report)
    requires |srcs| > 0
    requires CollateMeaning(Visit(acc, srcs[0]).0, srcs[1..], rest)
    ensures CollateMeaning(acc, srcs, Report(rest.table, [Verdict(srcs[0])] + rest.log))
  {
    CollateStepLog(srcs, rest.log, Verdict);
    CollateStepKeys(acc, srcs, rest);
    CollateStepValues(acc, srcs, rest);
  }

  lemma CollateStepLog(srcs: seq<Source>, log: seq<Status>, f: Source -> Status)
    requires |srcs| > 0 && |log| == |srcs| - 1
    requires forall i :: 0 <= i < |log| ==> log[i] == f(srcs[1..][i])
    ensures forall i :: 0 <= i < |srcs| ==> ([f(srcs[0])] + log)[i] == f(srcs[i])
  {
    forall i | 0 < i < |srcs|
      ensures ([f(srcs[0])] + log)[i] == f(srcs[i])
    {
      assert srcs[i] == srcs[1..][i - 1];
    }
  }

  lemma SomeSourceCons(srcs: seq<Source>, w: string)
    requires |srcs| > 0
    ensures AnyContributes(srcs, w)
      <==> Contributes(srcs[0], w) || AnyContributes(srcs[1..], w)
  {
    assert forall s :: s in srcs <==> s == srcs[0] || s in srcs[1..] by {
      assert srcs == [srcs[0]] + srcs[1..];
    }
  }

  lemma {:induction false} CollateStepKeys(acc: Table, srcs: seq<Source>, rest: Report)
    requires |srcs| > 0
    requires CollateMeaning(Visit(acc, srcs[0]).0, srcs[1..], rest)
    ensures forall w :: w in rest.table <==> w in acc || AnyContributes(srcs, w)
  {
    VisitMeaning(acc, srcs[0]);
    forall w
      ensures w in rest.table <==> w in acc || AnyContributes(srcs, w)
    {
      SomeSourceCons(srcs, w);
    }
  }

  lemma {:induction false} CollateStepValues(acc: Table, srcs: seq<Source>, rest: Report)
    requires |srcs| > 0
    requires CollateMeaning(Visit(acc, srcs[0]).0, srcs[1..], rest)
    ensures forall w :: w in rest.table ==> rest.table[w] == Get(acc, w) + Sum(srcs, Contribution(w))
  {
    var v := Visit(acc, srcs[0]);
    VisitMeaning(acc, srcs[0]);
    forall w | w in rest.table
      ensures rest.table[w] == Get(acc, w) + Sum(srcs, Contribution(w))
    {
      assert rest.table[w] == Get(v.0, w) + Sum(srcs[1..], Contribution(w));
      assert Get(v.0, w) == Get(acc, w) + Contribution(w)(srcs[0]);
    }
  }

  /** The loop of `main`, from a given accumulator: every file is tried
      in order, and a file that fails never stops the later ones. */
  function CollateFrom(acc: Table, srcs: seq<Source>): (r: Report)
    ensures |r.log| == |srcs|
    decreases |srcs|
  {
    if |srcs| == 0 then Report(acc, [])
    else
      var v := Visit(acc, srcs[0]);
      var rest := CollateFrom(v.0, srcs[1..]);
      Report(rest.table, [v.1] + rest.log)
  }

  lemma {:induction false} CollateFromMeets(acc: Table, srcs: seq<Source>)
    ensures CollateMeaning(acc, srcs, CollateFrom(acc, srcs))
    decreases |srcs|
  {
    if |srcs| > 0 {
      var v := Visit(acc, srcs[0]);
      CollateFromMeets(v.0, srcs[1..]);
      CollateStep(acc, srcs, CollateFrom(v.0, srcs[1..]));
    }
  }

  /** What the loop computes from a given accumulator: every file's status
      is logged in order; the keys are the old keys plus the words of rows
      added by any file; each value is the old value plus the sum over the
      files of what each added. */
  lemma {:induction false} CollateFromMeaning(acc: Table, srcs: seq<Source>)
    ensures var r := CollateFrom(acc, srcs);
      && |r.log| == |srcs|
      && (forall i :: 0 <= i < |srcs| ==> r.log[i] == Verdict(srcs[i]))
      && (forall w :: w in r.table <==> w in acc || AnyContributes(srcs, w))
      && (forall w :: w in r.table ==> r.table[w] == Get(acc, w) + Sum(srcs, Contribution(w)))
  {
    CollateFromMeets(acc, srcs);
  }

  /** `main` of bin/collate.py without its logging and output: the loop
      started from an empty Counter. */
  function Collate(srcs: seq<Source>): (r: Report)
    ensures |r.log| == |srcs|
    ensures forall i :: 0 <= i < |srcs| ==> r.log[i] == Verdict(srcs[i])
    ensures forall w :: w in r.table <==> AnyContributes(srcs, w)
    ensures forall w :: w in r.table ==> r.table[w] == Sum(srcs, Contribution(w))
  {
    var empty: Table := map[];
    CollateFromMeets(empty, srcs);
    assert forall w :: Get(empty, w) == 0;
    CollateFrom(empty, srcs)
  }

  /** One step of the loop: the first file, then the rest from the table
      it left. */
  lemma CollateFromCons(acc: Table, srcs: seq<Source>)
    requires |srcs| > 0
    ensures var v := Visit(acc, srcs[0]); var rest := CollateFrom(v.0, srcs[1..]);
      CollateFrom(acc, srcs) == Report(rest.table, [v.1] + rest.log)
  {
  }

  /** The loop over a + b is the loop over a, then the loop over b
      starting from the table a left; the logs are concatenated. */
  lemma {:induction false} CollateConcat(acc: Table, a: seq<Source>, b: seq<Source>)
    ensures var ra := CollateFrom(acc, a); var rb := CollateFrom(ra.table, b);
      CollateFrom(acc, a + b) == Report(rb.table, ra.log + rb.log)
    decreases |a|
  {
    if |a| == 0 {
      CollateConcatNil(acc, a, b);
    } else {
      var t, x := CollateConcatStep(acc, a, b);
      CollateConcat(t, a[1..], b);
      ReportsCombine(x, CollateFrom(t, a[1..] + b), CollateFrom(acc, a + b), CollateFrom(acc, a),
        CollateFrom(t, a[1..]), CollateFrom(CollateFrom(t, a[1..]).table, b));
    }
  }

  /** The first file of a, seen from a and from a + b alike: the table and
      status it leaves. */
  lemma CollateConcatStep(acc: Table, a: seq<Source>, b: seq<Source>) returns (t: Table, x: Status)
    requires |a| > 0
    ensures var rest := CollateFrom(t, a[1..]); CollateFrom(acc, a) == Report(rest.table, [x] + rest.log)
    ensures var rest := CollateFrom(t, a[1..] + b); CollateFrom(acc, a + b) == Report(rest.table, [x] + rest.log)
  {
    t, x := Visit(acc, a[0]).0, Visit(acc, a[0]).1;
    CollateFromCons(acc, a);
    SplitHead(a, b);
    CollateFromCons(acc, a + b);
  }

  lemma SplitHead(a: seq<Source>, b: seq<Source>)
    requires |a| > 0
    ensures (a + b)[0] == a[0] && (a + b)[1..] == a[1..] + b
  {
  }

  lemma CollateConcatNil(acc: Table, a: seq<Source>, b: seq<Source>)
    requires |a| == 0
    ensures var ra := CollateFrom(acc, a); var rb := CollateFrom(ra.table, b);
      CollateFrom(acc, a + b) == Report(rb.table, ra.log + rb.log)
  {
    assert a + b == b;
  }

  /** The bookkeeping step of CollateConcat, on reports alone. */
  lemma ReportsCombine(x: Status, whole: Report, ab: Report, ra: Report, ra': Report, rb: Report)
    requires whole == Report(rb.table, ra'.log + rb.log)
    requires ab == Report(whole.table, [x] + whole.log)
    requires ra == Report(ra'.table, [x] + ra'.log)
    ensures ab == Report(rb.table, ra.log + rb.log)
  {
    LogAssoc(x, ra'.log, rb.log);
  }

  lemma LogAssoc(x: Status, p: seq<Status>, q: seq<Status>)
    ensures [x] + (p + q) == ([x] + p) + q
  {
  }

  /** A file refused by name or by `open` changes nothing, and the files
      after it are processed as if it were not there. */
  lemma {:induction false} SkippedFileIsInert(acc: Table, a: seq<Source>, src: Source, b: seq<Source>)
    requires Rejected(src)
    ensures CollateFrom(acc, a + [src] + b).table == CollateFrom(acc, a + b).table
    ensures CollateFrom(acc, a + [src] + b).log[|a|] == Verdict(src)
  {
    CollateConcat(acc, a + [src], b);
    CollateConcat(acc, a, [src]);
    CollateConcat(acc, a, b);
    var ta := CollateFrom(acc, a).table;
    assert CollateFrom(ta, [src]).table == Visit(ta, src).0 == ta;
    assert (a + [src] + b)[|a|] == src;
  }

  /** The cumulative table does not depend on the order of the files: it
      is determined by which files there are (counted with repetition).
      This holds whatever the files' outcomes, because what a file adds
      never depends on the table it is added to. */
  lemma {:induction false} CollateOrderIrrelevant(acc: Table, ss: seq<Source>, tt: seq<Source>)
    requires multiset(ss) == multiset(tt)
    ensures CollateFrom(acc, ss).table == CollateFrom(acc, tt).table
  {
    CollateFromMeets(acc, ss);
    CollateFromMeets(acc, tt);
    SameMeaningSameTable(acc, ss, tt, CollateFrom(acc, ss), CollateFrom(acc, tt));
  }

  lemma {:induction false} SameMeaningSameTable(acc: Table, ss: seq<Source>, tt: seq<Source>, x: Report, y: Report)
    requires multiset(ss) == multiset(tt)
    requires CollateMeaning(acc, ss, x)
    requires CollateMeaning(acc, tt, y)
    ensures x.table == y.table
  {
    assert forall w :: w in x.table <==> w in y.table by {
      SameFilesSameKeys(ss, tt);
    }
    assert forall w :: w in x.table ==> x.table[w] == y.table[w] by {
      SameFilesSameSums(ss, tt);
    }
    TablesEqual(x.table, y.table);
  }

  lemma TablesEqual(x: Table, y: Table)
    requires forall w :: w in x <==> w in y
    requires forall w :: w in x ==> x[w] == y[w]
    ensures x == y
  {
  }

  lemma SameFilesSameSums(ss: seq<Source>, tt: seq<Source>)
    requires multiset(ss) == multiset(tt)
    ensures forall w :: Sum(ss, Contribution(w)) == Sum(tt, Contribution(w))
  {
    forall w
      ensures Sum(ss, Contribution(w)) == Sum(tt, Contribution(w))
    {
      SumPermutation(ss, tt, Contribution(w));
    }
  }

  lemma SameFilesSameKeys(ss: seq<Source>, tt: seq<Source>)
    requires multiset(ss) == multiset(tt)
    ensures forall w :: AnyContributes(ss, w) <==> AnyContributes(tt, w)
  {
    forall s
      ensures s in ss <==> s in tt
    {
      assert s in ss <==> s in multiset(ss);
      assert s in tt <==> s in multiset(tt);
    }
  }

  /** With no files, or when no file gets a row added (each is refused or
      fails at its first row), the result is the empty table. */
  lemma NothingAddedGivesEmpty(srcs: seq<Source>)
    requires forall i :: 0 <= i < |srcs| ==> Effective(srcs[i]) == []
    ensures Collate(srcs).table == map[]
  {
  }

  /** Naming the same file twice adds its rows twice. */
  lemma SameFileTwiceDoubles(acc: Table, src: Source)
    ensures forall w :: Get(CollateFrom(acc, [src, src]).table, w) == Get(acc, w) + 2 * Contribution(w)(src)
  {
    var v1 := Visit(acc, src);
    var v2 := Visit(v1.0, src);
    VisitMeaning(acc, src);
    VisitMeaning(v1.0, src);
    assert [src, src][0] == src;
    assert [src, src][1..] == [src];
    assert [src][1..] == [];
    var inner := CollateFrom(v1.0, [src]);
    assert inner.table == CollateFrom(v2.0, []).table == v2.0;
    assert CollateFrom(acc, [src, src]).table == inner.table;
  }

  /** A file abandoned at row k leaves the table as if it held only its
      first k rows: nothing it added is rolled back. */
  lemma AbandonedFileKeepsPrefix(acc: Table, src: Source)
    requires Verdict(src).Abandoned?
    ensures var rows := src.state.rows; var k := Verdict(src).row;
      && k < |rows|
      && UpdateCounts(acc, rows[..k]).Finished?
      && Visit(acc, src).0 == UpdateCounts(acc, rows[..k]).table
  {
    NoRollback(acc, src.state.rows);
  }
}
