/** Shared vocabulary of the word-frequency model: an Option type for
    operations that can fail, and sums over sequences together with the
    facts about them that the other modules rely on. */
module Common {

  /** The conventional Some/None datatype, used where the program raises
      or returns nothing. */
  datatype Option<+T> = None | Some(value: T)

  /** Sum of f over the elements of s, left to right. */
  function Sum<T>(s: seq<T>, f: T -> int): int
  {
    if |s| == 0 then 0 else f(s[0]) + Sum(s[1..], f)
  }

  /** A sum over a concatenation splits into the two partial sums. */
  lemma {:induction false} SumConcat<T>(a: seq<T>, b: seq<T>, f: T -> int)
    ensures Sum(a + b, f) == Sum(a, f) + Sum(b, f)
    decreases |a|
  {
    if |a| == 0 {
      assert a + b == b;
    } else {
      assert (a + b)[1..] == a[1..] + b;
      SumConcat(a[1..], b, f);
    }
  }

  /** A sum depends only on the multiset of the summed elements, so any
      reordering of the input leaves it unchanged. */
  lemma {:induction false} SumPermutation<T>(s: seq<T>, t: seq<T>, f: T -> int)
    requires multiset(s) == multiset(t)
    ensures Sum(s, f) == Sum(t, f)
    decreases |s|
  {
    if |s| == 0 {
      assert |t| == |multiset(t)| == 0;
    } else {
      var x := s[0];
      assert x in multiset(t);
      var j :| 0 <= j < |t| && t[j] == x;
      var rest := t[..j] + t[j + 1..];
      SumRemove(t, j, f);
      MultisetRemove(t, j);
      assert s == [x] + s[1..];
      assert multiset(s[1..]) == multiset(s) - multiset{x};
      SumPermutation(s[1..], rest, f);
    }
  }

  /** Taking out the item at j takes its term out of the sum. */
  lemma SumRemove<T>(t: seq<T>, j: nat, f: T -> int)
    requires j < |t|
    ensures Sum(t, f) == f(t[j]) + Sum(t[..j] + t[j + 1..], f)
  {
    var a := t[..j];
    var b := t[j + 1..];
    var xb := [t[j]] + b;
    assert t == a + xb;
    SumConcat(a, xb, f);
    assert xb[0] == t[j] && xb[1..] == b;
    assert Sum(xb, f) == f(t[j]) + Sum(b, f);
    SumConcat(a, b, f);
  }

  lemma MultisetRemove<T>(t: seq<T>, j: nat)
    requires j < |t|
    ensures multiset(t[..j] + t[j + 1..]) == multiset(t) - multiset{t[j]}
  {
    assert t == t[..j] + [t[j]] + t[j + 1..];
    assert multiset(t) == multiset(t[..j]) + multiset{t[j]} + multiset(t[j + 1..]);
  }

  /** Summing a function that is zero on every element gives zero. */
  lemma {:induction false} SumOfZeros<T>(s: seq<T>, f: T -> int)
    requires forall i :: 0 <= i < |s| ==> f(s[i]) == 0
    ensures Sum(s, f) == 0
    decreases |s|
  {
    if |s| > 0 {
      SumOfZeros(s[1..], f);
    }
  }
}
