/** The word counter of bin/countwords.py: `count_words` turns a text into
    a Counter of normalised words, and `collection_to_csv` selects the
    `num` most common rows of it. The Counter is modelled as its sequence
    of items in insertion order (the order `most_common` starts from). */
module CountWords {
  import opened Common
  import opened Text

  /** One item of a Counter: a word and how often it was counted. */
  datatype Entry = Entry(word: string, count: int)

  /** Items of a Counter, in the order their words were first counted. */
  type Counter = seq<Entry>

  /** What every key of `count_words` looks like: non-empty, lower-case,
      without whitespace and without punctuation at either end. */
  predicate Normalized(w: string)
  {
    && |w| > 0
    && IsLowercase(w)
    && NoSpace(w)
    && !IsPunct(w[0])
    && !IsPunct(w[|w| - 1])
  }

  function Kept(c: string): int
  {
    if Strip(c) == [] then 0 else 1
  }

  /** A chunk that survives stripping becomes a normalised word. */
  lemma LowerStripNormalized(c: string)
    requires NoSpace(c)
    requires Strip(c) != []
    ensures Normalized(Lower(Strip(c)))
  {
    var s := Strip(c);
    StripNoSpace(c);
    var l := Lower(s);
    assert l[0] == LowerChar(s[0]);
    assert l[|l| - 1] == LowerChar(s[|s| - 1]);
    assert forall i :: 0 <= i < |l| ==> !IsSpace(l[i]) by {
      forall i | 0 <= i < |l| ensures !IsSpace(l[i]) {
        assert l[i] == LowerChar(s[i]);
      }
    }
  }

  /** What one chunk contributes to the word list: nothing when it is all
      punctuation, otherwise its stripped, lower-cased form. */
  function NormalizeChunk(c: string): seq<string>
  {
    if Strip(c) == [] then [] else [Lower(Strip(c))]
  }

  /** 1 when chunk c normalises to the word w (it survives stripping and
      lower-cases to w), otherwise 0. */
  function NormalizesTo(w: string): string -> int
  {
    c => if Strip(c) != [] && Lower(Strip(c)) == w then 1 else 0
  }

  lemma NormalizeChunkFacts(c: string, w: string)
    requires NoSpace(c)
    ensures |NormalizeChunk(c)| == Kept(c)
    ensures forall i :: 0 <= i < |NormalizeChunk(c)| ==> Normalized(NormalizeChunk(c)[i])
    ensures multiset(NormalizeChunk(c))[w] == NormalizesTo(w)(c)
  {
    if Strip(c) != [] {
      LowerStripNormalized(c);
    }
  }

  /** Strip each chunk, drop the chunks that became empty, lower-case the
      rest (the two list comprehensions of `count_words`). Every word kept
      is normalised, and as many words are kept as chunks survive. */
  function Normalize(chunks: seq<string>): (r: seq<string>)
    requires forall i :: 0 <= i < |chunks| ==> NoSpace(chunks[i])
    ensures forall i :: 0 <= i < |r| ==> Normalized(r[i])
    ensures |r| == Sum(chunks, Kept)
  {
    if |chunks| == 0 then []
    else
      var h := NormalizeChunk(chunks[0]);
      var rest := Normalize(chunks[1..]);
      NormalizeChunkFacts(chunks[0], "");
      NormalizedConcat(h, rest);
      h + rest
  }

  lemma NormalizedConcat(a: seq<string>, b: seq<string>)
    requires forall i :: 0 <= i < |a| ==> Normalized(a[i])
    requires forall i :: 0 <= i < |b| ==> Normalized(b[i])
    ensures forall i :: 0 <= i < |a + b| ==> Normalized((a + b)[i])
  {
    var r := a + b;
    assert forall i :: |a| <= i < |r| ==> r[i] == b[i - |a|];
  }

  /** Each word occurs among the normalised chunks as often as there are
      chunks that normalise to it. */
  lemma {:induction false} NormalizeCounts(chunks: seq<string>, w: string)
    requires forall i :: 0 <= i < |chunks| ==> NoSpace(chunks[i])
    ensures multiset(Normalize(chunks))[w] == Sum(chunks, NormalizesTo(w))
    decreases |chunks|
  {
    if |chunks| > 0 {
      NormalizeCounts(chunks[1..], w);
      NormalizeChunkFacts(chunks[0], w);
    }
  }

  lemma AllNoSpaceConcat(a: seq<string>, b: seq<string>)
    requires forall i :: 0 <= i < |a| ==> NoSpace(a[i])
    requires forall i :: 0 <= i < |b| ==> NoSpace(b[i])
    ensures forall i :: 0 <= i < |a + b| ==> NoSpace((a + b)[i])
  {
    var ab := a + b;
    forall i | 0 <= i < |ab|
      ensures NoSpace(ab[i])
    {
      if i < |a| {
        assert ab[i] == a[i];
      } else {
        assert ab[i] == b[i - |a|];
      }
    }
  }

  /** Normalising works chunk by chunk: a single chunk gives
      NormalizeChunk of it, and the words of a + b are those of a followed
      by those of b. With `Normalize([]) == []` these equations determine
      Normalize. */
  lemma {:induction false} NormalizeConcat(a: seq<string>, b: seq<string>)
    requires forall i :: 0 <= i < |a| ==> NoSpace(a[i])
    requires forall i :: 0 <= i < |b| ==> NoSpace(b[i])
    ensures forall i :: 0 <= i < |a + b| ==> NoSpace((a + b)[i])
    ensures Normalize(a + b) == Normalize(a) + Normalize(b)
    decreases |a|
  {
    AllNoSpaceConcat(a, b);
    var ab := a + b;
    if |a| == 0 {
      assert ab == b;
    } else {
      assert ab[0] == a[0];
      assert ab[1..] == a[1..] + b;
      NormalizeConcat(a[1..], b);
      var h := NormalizeChunk(a[0]);
      assert Normalize(ab) == h + (Normalize(a[1..]) + Normalize(b));
    }
  }

  lemma NormalizeSingle(c: string)
    requires NoSpace(c)
    ensures Normalize([c]) == NormalizeChunk(c)
  {
    assert [c][0] == c && [c][1..] == [];
  }

  /** The list of words `count_words` counts: each is normalised, and each
      occurs as often as there are whitespace chunks of the text that
      normalise to it. */
  function Words(text: string): (r: seq<string>)
    ensures forall i :: 0 <= i < |r| ==> Normalized(r[i])
    ensures |r| == Sum(Split(text), Kept)
    ensures forall w :: multiset(r)[w] == Sum(Split(text), NormalizesTo(w))
  {
    var chunks := Split(text);
    forall w
      ensures multiset(Normalize(chunks))[w] == Sum(chunks, NormalizesTo(w))
    {
      NormalizeCounts(chunks, w);
    }
    Normalize(chunks)
  }

  /** The count recorded for w, or 0 when w is not a key. */
  function Lookup(t: Counter, w: string): int
  {
    if |t| == 0 then 0
    else if t[0].word == w then t[0].count
    else Lookup(t[1..], w)
  }

  function Keys(t: Counter): set<string>
  {
    if |t| == 0 then {} else {t[0].word} + Keys(t[1..])
  }

  function Total(t: Counter): int
  {
    if |t| == 0 then 0 else t[0].count + Total(t[1..])
  }

  predicate DistinctWords(t: Counter)
  {
    forall i, j :: 0 <= i < j < |t| ==> t[i].word != t[j].word
  }

  lemma {:induction false} KeysIndex(t: Counter, w: string)
    ensures w in Keys(t) <==> exists i :: 0 <= i < |t| && t[i].word == w
    decreases |t|
  {
    if |t| > 0 {
      KeysIndex(t[1..], w);
      if w in Keys(t[1..]) {
        var i :| 0 <= i < |t[1..]| && t[1..][i].word == w;
        assert t[i + 1].word == w;
      }
      if exists i :: 0 <= i < |t| && t[i].word == w {
        var i :| 0 <= i < |t| && t[i].word == w;
        if i > 0 {
          assert t[1..][i - 1].word == w;
        }
      }
    }
  }

  /** `counter[w] += 1`: the item of w goes up by one, or a new item
      (w, 1) is appended at the end. The words of the existing items stay
      where they were. */
  function Bump(t: Counter, w: string): (r: Counter)
    requires DistinctWords(t)
    ensures |r| >= |t| && |r| >= 1
    ensures w !in Keys(t) ==> r == t + [Entry(w, 1)]
    ensures w in Keys(t) ==> |r| == |t|
    ensures forall i :: 0 <= i < |t| ==> r[i].word == t[i].word
    ensures forall i :: 0 <= i < |t| && t[i].count >= 1 ==> r[i].count >= 1
  {
    if |t| == 0 then [Entry(w, 1)]
    else if t[0].word == w then
      [Entry(w, t[0].count + 1)] + t[1..]
    else
      var rest := Bump(t[1..], w);
      var r := [t[0]] + rest;
      assert r[1..] == rest;
      assert w !in Keys(t) ==> r == t + [Entry(w, 1)] by {
        if w !in Keys(t) {
          assert t == [t[0]] + t[1..];
        }
      }
      r
  }

  /** Bumping w makes w a key and adds no other key. */
  lemma {:induction false} BumpKeys(t: Counter, w: string)
    requires DistinctWords(t)
    ensures Keys(Bump(t, w)) == Keys(t) + {w}
    decreases |t|
  {
    if |t| > 0 && t[0].word == w {
      var r := Bump(t, w);
      assert r[1..] == t[1..];
    } else if |t| > 0 {
      BumpKeys(t[1..], w);
      var r := Bump(t, w);
      assert r[1..] == Bump(t[1..], w);
    }
  }

  /** Bumping keeps the words of a Counter distinct. */
  lemma {:induction false} BumpDistinct(t: Counter, w: string)
    requires DistinctWords(t)
    ensures DistinctWords(Bump(t, w))
    decreases |t|
  {
    var r := Bump(t, w);
    if |t| > 0 && t[0].word == w {
      assert r[1..] == t[1..];
      assert forall j :: 0 < j < |r| ==> r[j] == t[j];
    } else if |t| > 0 {
      var rest := Bump(t[1..], w);
      assert r[1..] == rest;
      BumpDistinct(t[1..], w);
      BumpKeys(t[1..], w);
      KeysIndex(t[1..], t[0].word);
      KeysIndex(rest, t[0].word);
      assert forall j :: 0 < j < |r| ==> r[j] == rest[j - 1];
    }
  }

  /** Bumping w raises the count of w by one and leaves every other
      count as it was. */
  lemma {:induction false} BumpLookup(t: Counter, w: string)
    requires DistinctWords(t)
    ensures forall x :: Lookup(Bump(t, w), x) == Lookup(t, x) + (if x == w then 1 else 0)
    decreases |t|
  {
    var r := Bump(t, w);
    if |t| > 0 && t[0].word == w {
      assert r[1..] == t[1..];
      assert w !in Keys(t[1..]) by {
        KeysIndex(t[1..], w);
        forall i | 0 <= i < |t[1..]|
          ensures t[1..][i].word != w
        {
          assert t[1..][i] == t[i + 1];
        }
      }
      LookupAbsent(t[1..], w);
    } else if |t| > 0 {
      BumpLookup(t[1..], w);
      assert r[1..] == Bump(t[1..], w);
    }
  }

  /** A word that is not a key is looked up as 0. */
  lemma {:induction false} LookupAbsent(t: Counter, w: string)
    requires w !in Keys(t)
    ensures Lookup(t, w) == 0
    decreases |t|
  {
    if |t| > 0 {
      LookupAbsent(t[1..], w);
    }
  }

  /** Bumping adds one to the total of the counts. */
  lemma {:induction false} BumpTotal(t: Counter, w: string)
    requires DistinctWords(t)
    ensures Total(Bump(t, w)) == Total(t) + 1
    decreases |t|
  {
    var r := Bump(t, w);
    if |t| > 0 && t[0].word == w {
      assert r[1..] == t[1..];
    } else if |t| > 0 {
      BumpTotal(t[1..], w);
      assert r[1..] == Bump(t[1..], w);
    }
  }

  /** `Counter(words)`: one item per distinct word, counting exactly its
      occurrences, every count at least 1, and the counts adding up to the
      number of words. */
  function CounterOf(ws: seq<string>): (r: Counter)
    ensures DistinctWords(r)
    ensures forall w :: w in Keys(r) <==> w in ws
    ensures forall w :: Lookup(r, w) == multiset(ws)[w]
    ensures forall i :: 0 <= i < |r| ==> r[i].count >= 1
    ensures Total(r) == |ws|
  {
    if |ws| == 0 then []
    else
      var init := ws[..|ws| - 1];
      var last := ws[|ws| - 1];
      assert ws == init + [last];
      var t := CounterOf(init);
      assert multiset(ws) == multiset(init) + multiset{last};
      assert forall x :: x in ws <==> x in init || x == last;
      BumpKeys(t, last);
      BumpDistinct(t, last);
      BumpLookup(t, last);
      BumpTotal(t, last);
      Bump(t, last)
  }

  /** `count_words(reader)`: the Counter of the normalised words of the
      text. Keys are normalised, counts are positive and count exactly the
      occurrences (the chunks of the text that normalise to the word), and
      the counts add up to the number of whitespace chunks that are still
      non-empty after stripping. */
  function CountWords(text: string): (r: Counter)
    ensures DistinctWords(r)
    ensures forall i :: 0 <= i < |r| ==> Normalized(r[i].word) && r[i].count >= 1
    ensures forall w :: Lookup(r, w) == multiset(Words(text))[w]
    ensures forall w :: Lookup(r, w) == Sum(Split(text), NormalizesTo(w))
    ensures Total(r) == Sum(Split(text), Kept)
    ensures FirstSeenOrder(r, Words(text))
  {
    var ws := Words(text);
    var r := CounterOf(ws);
    CounterOfOrder(ws);
    assert forall i :: 0 <= i < |r| ==> Normalized(r[i].word) by {
      forall i | 0 <= i < |r|
        ensures Normalized(r[i].word)
      {
        KeysIndex(r, r[i].word);
        assert r[i].word in ws;
      }
    }
    r
  }

  /** A key of the Counter is exactly a word that occurs in the text. */
  lemma CountWordsKeys(text: string, w: string)
    ensures w in Keys(CountWords(text)) <==> w in Words(text)
    ensures w in Keys(CountWords(text)) ==> Normalized(w)
  {
    var ws := Words(text);
    assert CounterOf(ws) == CountWords(text);
    if w in ws {
      var k :| 0 <= k < |ws| && ws[k] == w;
    }
  }

  /** The items of r follow the first occurrences of their words in ws:
      for items i < j, every occurrence of the word of item j is preceded
      by an occurrence of the word of item i. */
  predicate FirstSeenOrder(r: Counter, ws: seq<string>)
  {
    forall i, j, k :: 0 <= i < j < |r| && 0 <= k < |ws| && ws[k] == r[j].word ==> r[i].word in ws[..k]
  }

  /** `Counter(words)` lists its words in the order of their first
      occurrence in words. */
  lemma {:induction false} CounterOfOrder(ws: seq<string>)
    ensures FirstSeenOrder(CounterOf(ws), ws)
    decreases |ws|
  {
    if |ws| > 0 {
      var init := ws[..|ws| - 1];
      var last := ws[|ws| - 1];
      assert ws == init + [last];
      CounterOfOrder(init);
      BumpOrder(CounterOf(init), init, last);
    }
  }

  /** Counting one more word keeps the first-occurrence order. */
  lemma BumpOrder(t: Counter, init: seq<string>, last: string)
    requires DistinctWords(t)
    requires forall x :: x in Keys(t) <==> x in init
    requires FirstSeenOrder(t, init)
    ensures FirstSeenOrder(Bump(t, last), init + [last])
  {
    var ws := init + [last];
    var r := Bump(t, last);
    forall i, j, k | 0 <= i < j < |r| && 0 <= k < |ws| && ws[k] == r[j].word
      ensures r[i].word in ws[..k]
    {
      BumpOrderAt(t, init, last, i, j, k);
    }
  }

  lemma BumpOrderAt(t: Counter, init: seq<string>, last: string, i: nat, j: nat, k: nat)
    requires DistinctWords(t)
    requires forall x :: x in Keys(t) <==> x in init
    requires FirstSeenOrder(t, init)
    requires i < j < |Bump(t, last)| && k <= |init| && (init + [last])[k] == Bump(t, last)[j].word
    ensures Bump(t, last)[i].word in (init + [last])[..k]
  {
    var ws := init + [last];
    var r := Bump(t, last);
    KeysIndex(t, t[i].word);
    assert r[i].word == t[i].word;
    assert t[i].word in init;
    if k < |init| {
      assert ws[..k] == init[..k];
      assert init[k] == ws[k];
      assert init[k] in init;
      assert j < |t|;
      assert r[j].word == t[j].word;
    } else {
      assert ws[..k] == init;
    }
  }

  // ---------------------------------------------------------------------
  // most_common and the [:num] slice of collection_to_csv

  predicate NonIncreasing(t: Counter)
  {
    forall i, j :: 0 <= i < j < |t| ==> t[i].count >= t[j].count
  }

  /** The items of t whose count is c, in the order they appear in t. */
  function WithCount(t: Counter, c: int): Counter
  {
    if |t| == 0 then []
    else (if t[0].count == c then [t[0]] else []) + WithCount(t[1..], c)
  }

  /** Insert e into a non-increasing counter in front of every item
      whose count does not exceed its own. */
  function Insert(e: Entry, t: Counter): (r: Counter)
    requires NonIncreasing(t)
    ensures |r| == |t| + 1
    ensures forall x :: x in r <==> x in t || x == e
    ensures multiset(r) == multiset(t) + multiset{e}
    ensures NonIncreasing(r)
  {
    if |t| == 0 || t[0].count <= e.count then
      ConsNonIncreasing(e, t);
      [e] + t
    else
      var rest := Insert(e, t[1..]);
      assert t == [t[0]] + t[1..];
      assert forall j :: 0 <= j < |rest| ==> t[0].count >= rest[j].count by {
        forall j | 0 <= j < |rest|
          ensures t[0].count >= rest[j].count
        {
          var x := rest[j];
          assert x in rest;
          if x != e {
            var k :| 0 <= k < |t[1..]| && t[1..][k] == x;
            assert t[k + 1] == x;
          }
        }
      }
      ConsNonIncreasing(t[0], rest);
      [t[0]] + rest
  }

  /** An item with a count at least every count of a non-increasing list
      can go in front of it. */
  lemma ConsNonIncreasing(x: Entry, s: Counter)
    requires NonIncreasing(s)
    requires forall j :: 0 <= j < |s| ==> x.count >= s[j].count
    ensures NonIncreasing([x] + s)
  {
    var r := [x] + s;
    assert forall j :: 0 < j < |r| ==> r[j] == s[j - 1];
  }

  /** Insertion is stable: among the items of one count, e comes first and
      the others keep their order. */
  lemma {:induction false} InsertStable(e: Entry, t: Counter, c: int)
    requires NonIncreasing(t)
    ensures WithCount(Insert(e, t), c) == (if e.count == c then [e] else []) + WithCount(t, c)
    decreases |t|
  {
    if |t| == 0 || t[0].count <= e.count {
      WithCountCons(e, t, c);
    } else {
      var rest := Insert(e, t[1..]);
      InsertStable(e, t[1..], c);
      WithCountCons(t[0], rest, c);
      WithCountCons(t[0], t[1..], c);
      assert t == [t[0]] + t[1..];
    }
  }

  lemma WithCountCons(x: Entry, s: Counter, c: int)
    ensures WithCount([x] + s, c) == (if x.count == c then [x] else []) + WithCount(s, c)
  {
    assert ([x] + s)[1..] == s;
  }

  /** `Counter.most_common()`: the items sorted by count, largest first. */
  function MostCommon(t: Counter): (r: Counter)
    ensures |r| == |t|
    ensures multiset(r) == multiset(t)
    ensures NonIncreasing(r)
  {
    if |t| == 0 then []
    else
      var rest := MostCommon(t[1..]);
      assert t == [t[0]] + t[1..];
      Insert(t[0], rest)
  }

  /** `most_common` sorts stably (Python's `sorted(..., reverse=True)`):
      the items of each count appear in the order the Counter holds them. */
  lemma {:induction false} MostCommonStable(t: Counter, c: int)
    ensures WithCount(MostCommon(t), c) == WithCount(t, c)
    decreases |t|
  {
    if |t| > 0 {
      MostCommonStable(t[1..], c);
      InsertStable(t[0], MostCommon(t[1..]), c);
    }
  }

  /** Whether `collection[:num]` keeps the item at index i of n items. The
      stop `num` counts from the front when it is not negative; a negative
      stop counts from the back, where the item at i is the item at i - n.
      `None` stands for `num = len(collection)`, which keeps every item. */
  predicate SliceKeeps(i: int, n: int, num: Option<int>)
  {
    match num
    case None => true
    case Some(m) => if m >= 0 then i < m else i - n < m
  }

  /** How many items `collection[:num]` keeps of n: exactly the items the
      slice keeps, which are the first ones. */
  function SliceEnd(n: nat, num: Option<int>): (k: nat)
    ensures k <= n
    ensures forall i :: 0 <= i < n ==> (i < k <==> SliceKeeps(i, n, num))
    ensures num.None? ==> k == n
  {
    match num
    case None => n
    case Some(m) =>
      if m >= 0 then (if m < n then m else n)
      else (if n + m > 0 then n + m else 0)
  }

  /** The rows `collection_to_csv(collection, num)` writes: the first
      rows of `most_common()`, as many as the slice keeps. They are items
      of the Counter, in non-increasing count order, and no row left out
      has a larger count than a row written. */
  function TopRows(t: Counter, num: Option<int>): (r: Counter)
    ensures |r| == SliceEnd(|t|, num)
    ensures forall i :: 0 <= i < |r| ==> r[i] in t
    ensures NonIncreasing(r)
    ensures forall e :: e in t && e !in r && |r| > 0 ==> e.count <= r[|r| - 1].count
  {
    var sorted := MostCommon(t);
    var k := SliceEnd(|t|, num);
    PrefixItems(t, sorted, k);
    PrefixIsTop(t, sorted, k);
    sorted[..k]
  }

  /** The first k items of a reordering of t are items of t. */
  lemma PrefixItems(t: Counter, sorted: Counter, k: nat)
    requires multiset(sorted) == multiset(t)
    requires k <= |sorted|
    ensures forall i :: 0 <= i < k ==> sorted[..k][i] in t
  {
    forall i | 0 <= i < k
      ensures sorted[..k][i] in t
    {
      assert sorted[..k][i] == sorted[i];
      assert sorted[i] in multiset(sorted);
    }
  }

  /** An item of t outside the first k items of a non-increasing
      reordering of t has no larger count than the k-th item. */
  lemma PrefixIsTop(t: Counter, sorted: Counter, k: nat)
    requires multiset(sorted) == multiset(t)
    requires NonIncreasing(sorted)
    requires k <= |sorted|
    ensures var r := sorted[..k];
      forall e :: e in t && e !in r && |r| > 0 ==> e.count <= r[|r| - 1].count
  {
    var r := sorted[..k];
    assert forall i :: 0 <= i < k ==> sorted[i] == r[i];
    forall e | e in t && e !in r && |r| > 0
      ensures e.count <= r[|r| - 1].count
    {
      assert e in multiset(t);
      assert e in multiset(sorted);
      var j :| 0 <= j < |sorted| && sorted[j] == e;
      assert k <= j;
      assert sorted[k - 1].count >= sorted[j].count;
    }
  }

  lemma {:induction false} WithCountPrefix(s: Counter, k: nat, c: int)
    requires k <= |s|
    ensures WithCount(s[..k], c) <= WithCount(s, c)
    decreases k
  {
    if k > 0 {
      assert s[..k][0] == s[0];
      assert s[..k][1..] == s[1..][..k - 1];
      WithCountPrefix(s[1..], k - 1, c);
      var head: Counter := if s[0].count == c then [s[0]] else [];
      assert WithCount(s[..k], c) == head + WithCount(s[1..][..k - 1], c);
      assert WithCount(s, c) == head + WithCount(s[1..], c);
    }
  }

  /** Ties at the cut are decided by the Counter's order: for every
      count, the written rows with that count are the first items of that
      count in the order their words were first counted. */
  lemma TopRowsTieOrder(t: Counter, num: Option<int>, c: int)
    ensures WithCount(TopRows(t, num), c) <= WithCount(t, c)
  {
    var sorted := MostCommon(t);
    WithCountPrefix(sorted, SliceEnd(|t|, num), c);
    MostCommonStable(t, c);
  }

  /** `main` of bin/countwords.py without the printing: the rows written
      for a text. Each written row is a normalised word with its exact
      number of occurrences in the text. */
  lemma {:induction false} WrittenRowsCountOccurrences(text: string, num: Option<int>)
    ensures forall e :: e in TopRows(CountWords(text), num) ==>
      Normalized(e.word) && e.count == multiset(Words(text))[e.word] && e.count >= 1
  {
    var t := CountWords(text);
    forall e | e in TopRows(t, num)
      ensures Normalized(e.word) && e.count == multiset(Words(text))[e.word] && e.count >= 1
    {
      var i :| 0 <= i < |t| && t[i] == e;
      LookupDistinct(t, i);
    }
  }

  /** In a tally with distinct words, the lookup of an item's word is that
      item's count. */
  lemma {:induction false} LookupDistinct(t: Counter, i: nat)
    requires DistinctWords(t)
    requires i < |t|
    ensures Lookup(t, t[i].word) == t[i].count
    decreases i
  {
    if i > 0 {
      assert t[0].word != t[i].word;
      assert t[1..][i - 1] == t[i];
      LookupDistinct(t[1..], i - 1);
    }
  }
}
