/** Decimal integers as text: the subset of Python's `int(s)` that the
    count column of a word-count CSV file uses (an optional minus sign
    followed by decimal digits), and the `str(n)` that writes it. */
module Decimal {
  import opened Common

  predicate IsDigit(c: char)
  {
    '0' <= c <= '9'
  }

  predicate AllDigits(s: string)
  {
    forall i :: 0 <= i < |s| ==> IsDigit(s[i])
  }

  function DigitValue(c: char): (d: nat)
    requires IsDigit(c)
    ensures d < 10
  {
    c as int - '0' as int
  }

  function DigitChar(d: nat): (c: char)
    requires d < 10
    ensures IsDigit(c) && DigitValue(c) == d
  {
    ('0' as int + d) as char
  }

  /** The value of a string of decimal digits, most significant first. */
  function DigitsValue(s: string): nat
    requires AllDigits(s)
  {
    if |s| == 0 then 0
    else DigitsValue(s[..|s| - 1]) * 10 + DigitValue(s[|s| - 1])
  }

  /** Python's `int(s)` on its decimal subset: `None` stands for the
      `ValueError` raised on anything that is not an optional minus sign
      followed by at least one digit. */
  function ParseInt(s: string): (r: Option<int>)
    ensures r.Some? <==> (|s| > 0 && AllDigits(s)) || (|s| > 1 && s[0] == '-' && AllDigits(s[1..]))
    ensures r.Some? ==> r.value == if s[0] == '-' then 0 - DigitsValue(s[1..]) as int else DigitsValue(s)
  {
    if |s| > 0 && s[0] == '-' then
      if |s| > 1 && AllDigits(s[1..]) then Some(0 - DigitsValue(s[1..]) as int) else None
    else if |s| > 0 && AllDigits(s) then Some(DigitsValue(s))
    else None
  }

  /** `str(n)` for a natural number: digits without leading zeros. */
  function FormatNat(n: nat): (s: string)
    ensures |s| > 0 && AllDigits(s)
    ensures DigitsValue(s) == n
    ensures s[0] != '0' || n == 0
    ensures s[0] == '0' ==> s == "0"
  {
    if n < 10 then [DigitChar(n)]
    else
      var init := FormatNat(n / 10);
      var s := init + [DigitChar(n % 10)];
      assert s[..|s| - 1] == init;
      s
  }

  /** `str(n)` for any integer: a minus sign for a negative number, then
      the digits of its magnitude. */
  function FormatInt(n: int): (s: string)
    ensures |s| > 0
    ensures n < 0 <==> s[0] == '-'
    ensures s[0] == '-' ==> |s| > 1 && AllDigits(s[1..]) && DigitsValue(s[1..]) == -n && s[1] != '0'
    ensures s[0] != '-' ==> AllDigits(s) && DigitsValue(s) == n
    ensures s[0] != '-' && s[0] == '0' ==> s == "0"
  {
    if n < 0 then "-" + FormatNat(-n) else FormatNat(n)
  }

  /** A leading zero adds nothing to the value of a string of digits. */
  lemma {:induction false} LeadingZero(s: string)
    requires AllDigits(s)
    ensures AllDigits("0" + s) && DigitsValue("0" + s) == DigitsValue(s)
    decreases |s|
  {
    var z := "0" + s;
    assert forall i :: 0 < i < |z| ==> z[i] == s[i - 1];
    if |s| > 0 {
      assert z[..|z| - 1] == "0" + s[..|s| - 1];
      assert z[|z| - 1] == s[|s| - 1];
      LeadingZero(s[..|s| - 1]);
    }
  }

  /** `int` ignores leading zeros: "007" and "7" are the same number, with
      or without a minus sign. */
  lemma ParseLeadingZero(s: string)
    requires |s| > 0 && AllDigits(s)
    ensures ParseInt("0" + s) == ParseInt(s)
    ensures ParseInt("-0" + s) == ParseInt("-" + s)
  {
    LeadingZero(s);
    assert ("-0" + s)[1..] == "0" + s;
    assert ("-" + s)[1..] == s;
  }

  /** Reading back what `str` wrote gives the same integer, negative
      numbers included. */
  lemma ParseFormat(n: int)
    ensures ParseInt(FormatInt(n)) == Some(n)
  {
    if n < 0 {
      var s := FormatInt(n);
      assert s[1..] == FormatNat(-n);
    }
  }

  /** Examples: a negative count parses, and strings that are not plain
      decimal integers are rejected. */
  lemma ParseExamples()
    ensures ParseInt("42") == Some(42)
    ensures ParseInt("-3") == Some(-3)
    ensures ParseInt("007") == Some(7)
    ensures ParseInt("") == None
    ensures ParseInt("-") == None
    ensures ParseInt("4x") == None
  {
    assert DigitsValue("4") == 4;
    assert "42"[..1] == "4";
    assert "-3"[1..] == "3";
    assert "007"[..2] == "00" && "00"[..1] == "0";
    assert !IsDigit("4x"[1]);
  }
}
