/** Character classes and string operations used by the word counter:
    whitespace splitting (Python's `str.split()` with no argument),
    stripping of `string.punctuation` from both ends (`str.strip`) and
    ASCII lower-casing (`str.lower`). Characters are Unicode scalar values;
    only the ASCII behaviour of the program is modelled. */
module Text {

  /** The ASCII characters Python's `str.split()` treats as whitespace:
      tab, line feed, vertical tab, form feed, carriage return (9-13),
      the four information separators (28-31) and space (32). */
  predicate IsSpace(c: char)
  {
    9 <= c as int <= 13 || 28 <= c as int <= 32
  }

  /** The 32 characters of Python's `string.punctuation`, as code-point ranges. */
  predicate IsPunct(c: char)
  {
    || 33 <= c as int <= 47
    || 58 <= c as int <= 64
    || 91 <= c as int <= 96
    || 123 <= c as int <= 126
  }

  const Punctuation: string := "!\"#$%&'()*+,-./:;<=>?@[\\]^_`{|}~"

  /** The range definition of IsPunct is exactly the character set of
      `string.punctuation`. */
  lemma PunctuationIsStringPunctuation(c: char)
    ensures IsPunct(c) <==> c in Punctuation
    ensures |Punctuation| == 32
  {
  }

  predicate IsUpper(c: char)
  {
    'A' <= c <= 'Z'
  }

  predicate NoSpace(s: string)
  {
    forall i :: 0 <= i < |s| ==> !IsSpace(s[i])
  }

  predicate AllPunct(s: string)
  {
    forall i :: 0 <= i < |s| ==> IsPunct(s[i])
  }

  /** No upper-case letter is left: the string is its own lower-case form. */
  predicate IsLowercase(s: string)
  {
    forall i :: 0 <= i < |s| ==> !IsUpper(s[i])
  }

  function LowerChar(c: char): (r: char)
    ensures !IsUpper(r)
    ensures IsUpper(c) ==> r as int == c as int + 32
    ensures !IsUpper(c) ==> r == c
    ensures IsPunct(r) <==> IsPunct(c)
    ensures IsSpace(r) <==> IsSpace(c)
  {
    if IsUpper(c) then (c as int + 32) as char else c
  }

  /** `str.lower()` on the ASCII range. */
  function Lower(s: string): (r: string)
    ensures |r| == |s|
    ensures IsLowercase(r)
    ensures forall i :: 0 <= i < |s| ==> r[i] == LowerChar(s[i])
  {
    seq(|s|, i requires 0 <= i < |s| => LowerChar(s[i]))
  }

  /** Lower-casing an already lower-case string changes nothing. */
  lemma LowerIdempotent(s: string)
    ensures IsLowercase(s) <==> Lower(s) == s
    ensures Lower(Lower(s)) == Lower(s)
  {
    if IsLowercase(s) {
      assert forall i :: 0 <= i < |s| ==> Lower(s)[i] == s[i];
    }
  }

  /** Leading punctuation removed (`str.lstrip(string.punctuation)`). */
  function DropLeading(w: string): (r: string)
    ensures |r| <= |w| && r == w[|w| - |r|..]
    ensures AllPunct(w[..|w| - |r|])
    ensures |r| == 0 || !IsPunct(r[0])
  {
    if |w| > 0 && IsPunct(w[0]) then
      var r := DropLeading(w[1..]);
      var n := |w| - |r|;
      assert w[1..][|w[1..]| - |r|..] == w[n..];
      assert forall i :: 0 < i < n ==> w[..n][i] == w[1..][..n - 1][i - 1];
      r
    else w
  }

  /** Trailing punctuation removed (`str.rstrip(string.punctuation)`). */
  function DropTrailing(w: string): (r: string)
    ensures |r| <= |w| && r == w[..|r|]
    ensures AllPunct(w[|r|..])
    ensures |r| == 0 || !IsPunct(r[|r| - 1])
  {
    if |w| > 0 && IsPunct(w[|w| - 1]) then
      var r := DropTrailing(w[..|w| - 1]);
      assert w[..|w| - 1][..|r|] == w[..|r|];
      assert forall i :: 0 <= i < |w| - 1 - |r| ==> w[|r|..][i] == w[..|w| - 1][|r|..][i];
      r
    else w
  }

  /** `str.strip(string.punctuation)`: the punctuation at both ends goes,
      the interior of the word stays exactly as it was. The result is no
      longer than the word, neither starts nor ends with punctuation, and
      is empty exactly when the word is all punctuation. */
  function Strip(w: string): (r: string)
    ensures |r| <= |w|
    ensures |r| == 0 || (!IsPunct(r[0]) && !IsPunct(r[|r| - 1]))
    ensures r == [] <==> AllPunct(w)
  {
    StripEnds(w);
    DropTrailing(DropLeading(w))
  }

  /** The facts Strip promises, about its two halves. */
  lemma StripEnds(w: string)
    ensures var r := DropTrailing(DropLeading(w));
      && (|r| == 0 || (!IsPunct(r[0]) && !IsPunct(r[|r| - 1])))
      && (r == [] <==> AllPunct(w))
  {
    var l := DropLeading(w);
    var r := DropTrailing(l);
    var i := |w| - |l|;
    assert l == w[i..];
    if |r| > 0 {
      assert r[0] == l[0];
    }
    if r == [] {
      assert l[0..] == l;
      forall k | 0 <= k < |w|
        ensures IsPunct(w[k])
      {
        assert w[k] == w[..i][k];
      }
    }
  }

  /** Strip keeps one contiguous piece of its input, and everything it
      removes is punctuation. With the ends of the piece not being
      punctuation, this determines the result uniquely. */
  lemma StripKeepsInterior(w: string)
    ensures exists i, j ::
              (0 <= i <= j <= |w| && Strip(w) == w[i..j] && AllPunct(w[..i]) && AllPunct(w[j..]))
  {
    var l := DropLeading(w);
    var r := DropTrailing(l);
    var i := |w| - |l|;
    var j := i + |r|;
    assert r == Strip(w);
    assert l == w[i..];
    assert r == w[i..j];
    assert w[j..] == l[|r|..];
    assert AllPunct(w[..i]) && AllPunct(w[j..]);
  }

  /** Stripping cannot add whitespace. */
  lemma StripNoSpace(w: string)
    requires NoSpace(w)
    ensures NoSpace(Strip(w))
  {
    var l := DropLeading(w);
    assert forall k :: 0 <= k < |l| ==> l[k] == w[|w| - |l| + k];
  }

  /** Examples: only the trailing comma of "don't," goes; a word of pure
      punctuation strips to nothing. */
  lemma StripExample()
    ensures Strip("don't,") == "don't"
    ensures Strip("...") == ""
  {
    assert DropLeading("don't,") == "don't,";
    assert "don't,"[..5] == "don't";
    assert DropTrailing("don't") == "don't";
  }

  /** Length of the leading run of non-whitespace characters. */
  function RunLength(t: string): (n: nat)
    ensures n <= |t|
    ensures NoSpace(t[..n])
    ensures n == |t| || IsSpace(t[n])
  {
    if |t| == 0 || IsSpace(t[0]) then 0
    else
      var n := RunLength(t[1..]);
      assert t[..n + 1] == [t[0]] + t[1..][..n];
      1 + n
  }

  /** The characters of t that are not whitespace, in order. */
  function Squeeze(t: string): string
  {
    if |t| == 0 then []
    else if IsSpace(t[0]) then Squeeze(t[1..])
    else [t[0]] + Squeeze(t[1..])
  }

  function Concat(cs: seq<string>): string
  {
    if |cs| == 0 then [] else cs[0] + Concat(cs[1..])
  }

  /** Python's `" ".join(cs)`. */
  function Join(cs: seq<string>): string
  {
    if |cs| == 0 then []
    else if |cs| == 1 then cs[0]
    else cs[0] + " " + Join(cs[1..])
  }

  lemma {:induction false} SqueezeConcat(a: string, b: string)
    ensures Squeeze(a + b) == Squeeze(a) + Squeeze(b)
    decreases |a|
  {
    if |a| == 0 {
      assert a + b == b;
    } else {
      assert (a + b)[0] == a[0];
      assert (a + b)[1..] == a[1..] + b;
      SqueezeConcat(a[1..], b);
    }
  }

  lemma {:induction false} SqueezeNoSpace(a: string)
    requires NoSpace(a)
    ensures Squeeze(a) == a
    decreases |a|
  {
    if |a| > 0 {
      SqueezeNoSpace(a[1..]);
    }
  }

  /** Python's `text.split()`: the maximal runs of non-whitespace
      characters. Every chunk is non-empty and free of whitespace, and
      together the chunks hold every non-whitespace character of the text,
      in order, and nothing else. */
  function Split(t: string): (r: seq<string>)
    ensures forall i :: 0 <= i < |r| ==> |r[i]| > 0 && NoSpace(r[i])
    ensures Concat(r) == Squeeze(t)
    decreases |t|
  {
    if |t| == 0 then []
    else if IsSpace(t[0]) then Split(t[1..])
    else
      var n := RunLength(t);
      var rest := Split(t[n..]);
      assert t == t[..n] + t[n..];
      SqueezeConcat(t[..n], t[n..]);
      SqueezeNoSpace(t[..n]);
      [t[..n]] + rest
  }

  /** A non-empty whitespace-free chunk followed by whitespace (or by
      nothing) is exactly one leading run. */
  lemma {:induction false} RunLengthOfChunk(c: string, s: string)
    requires NoSpace(c)
    requires |s| == 0 || IsSpace(s[0])
    ensures RunLength(c + s) == |c|
    decreases |c|
  {
    if |c| == 0 {
      assert c + s == s;
    } else {
      assert (c + s)[1..] == c[1..] + s;
      RunLengthOfChunk(c[1..], s);
    }
  }

  /** Splitting undoes joining with single spaces, for chunks that are
      what `split()` produces: non-empty and free of whitespace. */
  lemma {:induction false} SplitJoin(cs: seq<string>)
    requires forall i :: 0 <= i < |cs| ==> |cs[i]| > 0 && NoSpace(cs[i])
    ensures Split(Join(cs)) == cs
    decreases |cs|
  {
    if |cs| == 1 {
      var c := cs[0];
      RunLengthOfChunk(c, []);
      assert c + [] == c;
      assert c[|c|..] == [];
    } else if |cs| > 1 {
      var c := cs[0];
      var rest := Join(cs[1..]);
      var t := c + " " + rest;
      assert t == c + (" " + rest);
      RunLengthOfChunk(c, " " + rest);
      assert t[..|c|] == c;
      assert t[|c|..] == " " + rest;
      assert (" " + rest)[1..] == rest;
      SplitJoin(cs[1..]);
      assert cs == [c] + cs[1..];
    }
  }

  /** A leading run that stops before the end of a stops at the same place
      whatever follows a. */
  lemma {:induction false} RunLengthPrefix(a: string, s: string)
    requires RunLength(a) < |a|
    ensures RunLength(a + s) == RunLength(a)
    decreases |a|
  {
    assert (a + s)[0] == a[0];
    if !IsSpace(a[0]) {
      assert (a + s)[1..] == a[1..] + s;
      RunLengthPrefix(a[1..], s);
    }
  }

  /** The three equations that determine `str.split()`: nothing splits to
      nothing, a non-empty whitespace-free text is a single chunk, and a
      whitespace character separates the chunks on its two sides. */
  lemma SplitEquations(c: string)
    ensures Split([]) == []
    ensures |c| > 0 && NoSpace(c) ==> Split(c) == [c]
  {
    if |c| > 0 && NoSpace(c) {
      SplitJoin([c]);
    }
  }

  /** A whitespace character cuts the text in two, and the chunks are those
      of the part before it followed by those of the part after it. */
  lemma {:induction false} SplitAtSpace(a: string, x: char, b: string)
    requires IsSpace(x)
    ensures Split(a + [x] + b) == Split(a) + Split(b)
    decreases |a|
  {
    var t := a + [x] + b;
    if |a| == 0 {
      assert t == [x] + b;
      assert t[1..] == b;
    } else if IsSpace(a[0]) {
      assert t[0] == a[0];
      assert t[1..] == a[1..] + [x] + b;
      SplitAtSpace(a[1..], x, b);
    } else {
      var m := RunLength(a);
      assert t[0] == a[0];
      if m < |a| {
        assert t == a + ([x] + b);
        RunLengthPrefix(a, [x] + b);
        assert t[..m] == a[..m];
        assert t[m..] == a[m..] + [x] + b;
        SplitAtSpace(a[m..], x, b);
      } else {
        assert a[..|a|] == a;
        RunLengthOfChunk(a, [x] + b);
        assert t == a + ([x] + b);
        assert t[..|a|] == a;
        assert t[|a|..] == [x] + b;
        assert ([x] + b)[1..] == b;
        assert a[|a|..] == [];
      }
    }
  }
}
