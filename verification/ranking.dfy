/** The ranking rule of bin/plotcounts.py: every word frequency is ranked
    with `rank(ascending=False, method='max')`, so the most frequent word
    gets the smallest rank and a group of equal frequencies shares the
    largest rank the group occupies in descending order. */
module Ranking {
  import opened Common

  /** 1 for a value at least v, otherwise 0. */
  function AtLeastIndicator(v: int): int -> int
  {
    x => if x >= v then 1 else 0
  }

  /** How many entries of s are at least v: the max-tie descending rank
      of the value v among the entries of s. */
  function AtLeast(s: seq<int>, v: int): int
  {
    Sum(s, AtLeastIndicator(v))
  }

  /** `df['word_frequency'].rank(ascending=False, method='max')`: the rank
      column, one rank per entry, in input order, each between 1 and the
      number of entries. */
  function Ranks(s: seq<int>): (r: seq<int>)
    ensures |r| == |s|
    ensures forall i :: 0 <= i < |s| ==> 1 <= r[i] <= |s|
  {
    forall i | 0 <= i < |s|
      ensures 1 <= AtLeast(s, s[i]) <= |s|
    {
      AtLeastBounds(s, s[i]);
      PositiveWhenPresent(s, s[i]);
    }
    seq(|s|, i requires 0 <= i < |s| => AtLeast(s, s[i]))
  }

  lemma {:induction false} AtLeastBounds(s: seq<int>, v: int)
    ensures 0 <= AtLeast(s, v) <= |s|
    decreases |s|
  {
    if |s| > 0 {
      AtLeastBounds(s[1..], v);
    }
  }

  /** Every entry of s is at least v: all of them are counted. */
  lemma {:induction false} AtLeastAll(s: seq<int>, v: int)
    requires forall i :: 0 <= i < |s| ==> s[i] >= v
    ensures AtLeast(s, v) == |s|
    decreases |s|
  {
    if |s| > 0 {
      AtLeastAll(s[1..], v);
    }
  }

  /** No entry of s is at least v: none is counted. */
  lemma {:induction false} AtLeastNone(s: seq<int>, v: int)
    requires forall i :: 0 <= i < |s| ==> s[i] < v
    ensures AtLeast(s, v) == 0
    decreases |s|
  {
    if |s| > 0 {
      AtLeastNone(s[1..], v);
    }
  }

  /** A larger threshold counts no more entries, and strictly fewer when
      the smaller threshold is itself one of the entries. */
  lemma {:induction false} AtLeastMonotone(s: seq<int>, a: int, b: int)
    requires b < a
    ensures AtLeast(s, a) <= AtLeast(s, b)
    ensures b in s ==> AtLeast(s, a) < AtLeast(s, b)
    decreases |s|
  {
    if |s| > 0 {
      AtLeastMonotone(s[1..], a, b);
      if b in s && s[0] != b {
        assert b in s[1..];
      }
    }
  }

  lemma {:induction false} PositiveWhenPresent(s: seq<int>, v: int)
    requires v in s
    ensures AtLeast(s, v) >= 1
    decreases |s|
  {
    AtLeastBounds(s[1..], v);
    if s[0] != v {
      assert v in s[1..];
      PositiveWhenPresent(s[1..], v);
    }
  }

  /** Ranks order the entries the opposite way to their frequencies: equal
      frequencies share a rank, and a strictly larger frequency has a
      strictly smaller rank. */
  lemma RankOrder(s: seq<int>, i: int, j: int)
    requires 0 <= i < |s| && 0 <= j < |s|
    ensures s[i] == s[j] ==> Ranks(s)[i] == Ranks(s)[j]
    ensures s[i] > s[j] ==> Ranks(s)[i] < Ranks(s)[j]
  {
    if s[i] > s[j] {
      AtLeastMonotone(s, s[i], s[j]);
    }
  }

  /** The least frequency gets the largest rank, the number of entries. */
  lemma MinimumRankIsCount(s: seq<int>, i: int)
    requires 0 <= i < |s|
    requires forall j :: 0 <= j < |s| ==> s[i] <= s[j]
    ensures Ranks(s)[i] == |s|
  {
    AtLeastAll(s, s[i]);
  }

  /** A rank depends only on the frequency and the multiset of all
      frequencies: reordering the input moves each rank with its entry. */
  lemma RankPermutation(s: seq<int>, t: seq<int>, i: int, j: int)
    requires multiset(s) == multiset(t)
    requires 0 <= i < |s| && 0 <= j < |t| && s[i] == t[j]
    ensures Ranks(s)[i] == Ranks(t)[j]
  {
    SumPermutation(s, t, AtLeastIndicator(s[i]));
  }

  predicate Descending(d: seq<int>)
  {
    forall i, j :: 0 <= i < j < |d| ==> d[i] >= d[j]
  }

  /** The rule as ranking libraries state it: sort the frequencies in
      descending order, number the positions 1..N, and give every member
      of a tie group the number of the group's last position. If d is a
      descending arrangement of s and the tie group of v ends at position m
      of d, the rank of v in s is m. */
  lemma RankIsEndOfTieGroup(s: seq<int>, d: seq<int>, m: nat)
    requires multiset(d) == multiset(s)
    requires Descending(d)
    requires 0 < m <= |d|
    requires m == |d| || d[m] < d[m - 1]
    ensures AtLeast(s, d[m - 1]) == m
  {
    var v := d[m - 1];
    SumPermutation(d, s, AtLeastIndicator(v));
    assert d == d[..m] + d[m..];
    SumConcat(d[..m], d[m..], AtLeastIndicator(v));
    AtLeastAll(d[..m], v);
    AtLeastNone(d[m..], v);
  }

  /** The worked example: frequencies [5, 5, 3] rank as [2, 2, 3]. */
  lemma RanksExample()
    ensures Ranks([5, 5, 3]) == [2, 2, 3]
  {
    var s := [5, 5, 3];
    assert s[1..] == [5, 3] && s[1..][1..] == [3] && s[1..][1..][1..] == [];
    assert AtLeast(s, 5) == 2;
    assert AtLeast(s, 3) == 3;
  }

  /** Computes the rank column with one counting pass per entry. */
  method ComputeRanks(freqs: seq<int>) returns (ranks: seq<int>)
    ensures |ranks| == |freqs|
    ensures forall i :: 0 <= i < |freqs| ==> ranks[i] == AtLeast(freqs, freqs[i])
    ensures ranks == Ranks(freqs)
  {
    ranks := [];
    var i := 0;
    while i < |freqs|
      invariant 0 <= i <= |freqs|
      invariant |ranks| == i
      invariant forall k :: 0 <= k < i ==> ranks[k] == AtLeast(freqs, freqs[k])
    {
      var count := 0;
      var j := 0;
      while j < |freqs|
        invariant 0 <= j <= |freqs|
        invariant count == AtLeast(freqs[..j], freqs[i])
      {
        assert freqs[..j + 1] == freqs[..j] + [freqs[j]];
        SumConcat(freqs[..j], [freqs[j]], AtLeastIndicator(freqs[i]));
        if freqs[j] >= freqs[i] {
          count := count + 1;
        }
        j := j + 1;
      }
      assert freqs[..j] == freqs;
      ranks := ranks + [count];
      i := i + 1;
    }
  }
}
