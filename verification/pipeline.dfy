/** The two programs together: the rows bin/countwords.py writes for a text
    are a word-count file that bin/collate.py accepts in full, and the
    table it builds from that file holds each word's number of occurrences
    in the text. The CSV quoting in between is taken to give back the
    fields it was given. */
module Pipeline {
  import opened Common
  import opened CountWords
  import Collate
  import Decimal

  /** A row as `csv.writer` writes it and `csv.reader` reads it back:
      the word and the decimal form of its count. */
  function CsvRow(e: Entry): Collate.Row
  {
    [e.word, Decimal.FormatInt(e.count)]
  }

  /** The rows written for the items of t: one per item, in order, each
      read back by collate as its item's word and count. */
  function CsvRows(t: Counter): (r: seq<Collate.Row>)
    ensures |r| == |t|
    ensures forall i :: 0 <= i < |t| ==> Collate.ParseRow(r[i]) == Some(Collate.Pair(t[i].word, t[i].count))
  {
    if |t| == 0 then []
    else
      var rest := CsvRows(t[1..]);
      CsvRowParses(t[0]);
      assert forall i :: 0 < i < |t| ==> t[i] == t[1..][i - 1];
      [CsvRow(t[0])] + rest
  }

  /** What an item of a Counter stands for in word w's total. */
  function EntryAmount(w: string): Entry -> int
  {
    (e: Entry) => if e.word == w then e.count else 0
  }

  /** A written row is read back as the item it came from. */
  lemma CsvRowParses(e: Entry)
    ensures Collate.ParseRow(CsvRow(e)) == Some(Collate.Pair(e.word, e.count))
  {
    Decimal.ParseFormat(e.count);
  }

  /** Every written row is usable, and each contributes to a word exactly
      what its item counted for that word. */
  lemma {:induction false} CsvRowsReadBack(t: Counter, w: string)
    ensures |CsvRows(t)| == |t|
    ensures Collate.WellFormed(CsvRows(t))
    ensures Collate.Mentions(CsvRows(t), w) <==> w in Keys(t)
    ensures Sum(CsvRows(t), Collate.Amount(w)) == Sum(t, EntryAmount(w))
    decreases |t|
  {
    if |t| > 0 {
      var rows := CsvRows(t);
      var rest := CsvRows(t[1..]);
      CsvRowsReadBack(t[1..], w);
      CsvRowParses(t[0]);
      assert rows[0] == CsvRow(t[0]);
      assert rows[1..] == rest;
      assert forall i :: 0 < i < |rows| ==> rows[i] == rest[i - 1];
      Collate.ConsFacts(CsvRow(t[0]), rest);
    }
  }

  lemma {:induction false} AbsentWordAddsNothing(t: Counter, w: string)
    requires w !in Keys(t)
    ensures Sum(t, EntryAmount(w)) == 0
    decreases |t|
  {
    if |t| > 0 {
      AbsentWordAddsNothing(t[1..], w);
    }
  }

  /** In a Counter with distinct words, the items' amounts for w add up to
      the count of w. */
  lemma {:induction false} SumIsLookup(t: Counter, w: string)
    requires DistinctWords(t)
    ensures Sum(t, EntryAmount(w)) == Lookup(t, w)
    decreases |t|
  {
    if |t| > 0 {
      if t[0].word == w {
        assert w !in Keys(t[1..]) by {
          KeysIndex(t[1..], w);
          forall i | 0 <= i < |t[1..]|
            ensures t[1..][i].word != w
          {
            assert t[1..][i] == t[i + 1];
          }
        }
        AbsentWordAddsNothing(t[1..], w);
      } else {
        SumIsLookup(t[1..], w);
      }
    }
  }

  /** Reordering a Counter does not change which words it holds. */
  lemma SameItemsSameKeys(s: Counter, t: Counter, w: string)
    requires multiset(s) == multiset(t)
    ensures w in Keys(s) <==> w in Keys(t)
  {
    KeysIndex(s, w);
    KeysIndex(t, w);
    if w in Keys(s) {
      var i :| 0 <= i < |s| && s[i].word == w;
      assert s[i] in multiset(t);
    }
    if w in Keys(t) {
      var i :| 0 <= i < |t| && t[i].word == w;
      assert t[i] in multiset(s);
    }
  }

  /** A file every row of which is usable is merged whole. */
  lemma WellFormedIsMerged(name: string, rows: seq<Collate.Row>)
    requires Collate.HasCsvSuffix(name)
    requires Collate.WellFormed(rows)
    ensures var src := Collate.Source(name, Collate.Contents(rows));
      Collate.Verdict(src) == Collate.Merged && Collate.Effective(src) == rows
  {
    var k := Collate.FirstBad(rows);
    if k < |rows| {
      assert false;
    }
    assert rows[..|rows|] == rows;
  }

  /** Collating one file with a ".csv" name whose rows are all usable
      merges it whole: the keys are the words its rows name and each value
      is the sum of that word's counts. */
  lemma SingleFile(name: string, rows: seq<Collate.Row>)
    requires Collate.HasCsvSuffix(name)
    requires Collate.WellFormed(rows)
    ensures var r := Collate.Collate([Collate.Source(name, Collate.Contents(rows))]);
      && r.log == [Collate.Merged]
      && (forall w :: w in r.table <==> Collate.Mentions(rows, w))
      && (forall w :: w in r.table ==> r.table[w] == Sum(rows, Collate.Amount(w)))
  {
    var src := Collate.Source(name, Collate.Contents(rows));
    var srcs := [src];
    WellFormedIsMerged(name, rows);
    assert srcs[1..] == [];
    assert forall w :: Collate.AnyContributes(srcs, w) <==> Collate.Contributes(src, w);
    assert forall w :: Sum(srcs, Collate.Contribution(w)) == Collate.Contribution(w)(src);
  }

  /** Counting the words of a text, writing every row (no `-n`) to a file
      with a ".csv" name and collating that file alone merges the file
      whole and gives back the Counter: the keys are the words of the
      text and each value is the word's number of occurrences. */
  lemma {:induction false} CollateReadsBackCounts(text: string, name: string)
    requires Collate.HasCsvSuffix(name)
    ensures var rows := CsvRows(TopRows(CountWords.CountWords(text), None));
      var r := Collate.Collate([Collate.Source(name, Collate.Contents(rows))]);
      && r.log == [Collate.Merged]
      && (forall w :: w in r.table <==> w in Words(text))
      && (forall w :: w in r.table ==> r.table[w] == multiset(Words(text))[w])
  {
    var t := CountWords.CountWords(text);
    var written := TopRows(t, None);
    assert written == MostCommon(t);
    var rows := CsvRows(written);
    CsvRowsReadBack(written, "");
    SingleFile(name, rows);
    var r := Collate.Collate([Collate.Source(name, Collate.Contents(rows))]);
    forall w
      ensures w in r.table <==> w in Words(text)
    {
      CsvRowsReadBack(written, w);
      SameItemsSameKeys(written, t, w);
      CountWordsKeys(text, w);
    }
    forall w | w in r.table
      ensures r.table[w] == multiset(Words(text))[w]
    {
      CsvRowsReadBack(written, w);
      SumPermutation(written, t, EntryAmount(w));
      SumIsLookup(t, w);
    }
  }
}
