/** Python's `str(n)` / `f"{n}"` for an `int`, and the inverse reading used to
    state round trips. */
module Decimal {
  import opened Chars
  import opened Results

  function DigitChar(d: nat): (c: char)
    requires d < 10
    ensures IsDigit(c)
  {
    ('0' as int + d) as char
  }

  function DigitValue(c: char): (d: nat)
    requires IsDigit(c)
    ensures d < 10
    ensures DigitChar(d) == c
  {
    c as int - '0' as int
  }

  predicate AllDigits(s: string) {
    forall p :: 0 <= p < |s| ==> IsDigit(s[p])
  }

  /** The decimal text of a natural number: non-empty, ASCII digits, and
      without a leading zero unless the number is zero. */
  function NatText(n: nat): (s: string)
    ensures |s| > 0 && AllDigits(s)
    ensures s[0] == '0' ==> n == 0 && |s| == 1
    decreases n
  {
    if n < 10 then [DigitChar(n)] else NatText(n / 10) + [DigitChar(n % 10)]
  }

  /** Python's `str(n)` for an `int` `n`. */
  function IntText(n: int): (s: string)
    ensures |s| > 0
    ensures n >= 0 <==> AllDigits(s)
  {
    if n < 0 then
      var s := "-" + NatText(-n);
      assert !IsDigit(s[0]);
      s
    else NatText(n)
  }

  /** The value of a string of digits, most significant first. */
  function DigitsValue(s: string): nat
    requires AllDigits(s)
  {
    if |s| == 0 then 0 else 10 * DigitsValue(s[..|s| - 1]) + DigitValue(s[|s| - 1])
  }

  /** Reads back an optionally negative decimal integer. */
  function ParseInt(s: string): Option<int> {
    if |s| > 0 && s[0] == '-' then
      if |s| > 1 && AllDigits(s[1..]) then Some(0 - DigitsValue(s[1..])) else None
    else if |s| > 0 && AllDigits(s) then Some(DigitsValue(s))
    else None
  }

  lemma {:induction false} NatTextRoundTrip(n: nat)
    ensures DigitsValue(NatText(n)) == n
    decreases n
  {
    var s := NatText(n);
    if n < 10 {
      assert s[..|s| - 1] == [];
    } else {
      NatTextRoundTrip(n / 10);
      assert s[..|s| - 1] == NatText(n / 10);
    }
  }

  /** `str` and the reading back are inverse on every integer. */
  lemma IntTextRoundTrip(n: int)
    ensures ParseInt(IntText(n)) == Some(n)
  {
    if n < 0 {
      NegativeTextRoundTrip(n);
    } else {
      var s := IntText(n);
      assert IsDigit(s[0]);
      NatTextRoundTrip(n);
    }
  }

  lemma NegativeTextRoundTrip(n: int)
    requires n < 0
    ensures ParseInt(IntText(n)) == Some(n)
  {
    var s := IntText(n);
    var digits := NatText(-n);
    assert s[1..] == digits;
    NatTextRoundTrip(-n);
  }
}
