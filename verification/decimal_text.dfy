/** The decimal text of an integer, as `long.ToString()` writes it with the
    invariant culture: an optional '-' and the digits with no leading zero. */
module DecimalText {

  predicate IsDigit(c: char) { '0' <= c <= '9' }

  predicate AllDigits(s: string) { forall i :: 0 <= i < |s| ==> IsDigit(s[i]) }

  function DigitChar(d: nat): (c: char)
    requires d < 10
    ensures IsDigit(c) && c as int - '0' as int == d
  {
    ('0' as int + d) as char
  }

  /** The digits of `n`, most significant first. */
  function Digits(n: nat): (s: string)
    ensures |s| >= 1 && AllDigits(s)
    ensures |s| > 1 ==> s[0] != '0'
    ensures n < 10 <==> |s| == 1
  {
    if n < 10 then [DigitChar(n)] else Digits(n / 10) + [DigitChar(n % 10)]
  }

  function ToDecimal(n: int): (s: string)
    ensures |s| >= 1
    ensures s[0] == '-' <==> n < 0
    ensures n < 0 ==> AllDigits(s[1..]) && |s| >= 2
    ensures n >= 0 ==> AllDigits(s)
  {
    if n < 0 then "-" + Digits(-n) else Digits(n)
  }

  /** The value of a string of decimal digits. */
  function ParseDigits(s: string): nat
    requires AllDigits(s)
  {
    if s == [] then 0 else ParseDigits(s[..|s| - 1]) * 10 + (s[|s| - 1] as int - '0' as int)
  }

  /** The value of a decimal text with an optional leading '-'. */
  function Parse(s: string): int
    requires |s| >= 1
    requires s[0] == '-' ==> AllDigits(s[1..])
    requires s[0] != '-' ==> AllDigits(s)
  {
    if s[0] == '-' then -(ParseDigits(s[1..]) as int) else ParseDigits(s)
  }

  lemma {:induction false} DigitsRoundTrip(n: nat)
    ensures ParseDigits(Digits(n)) == n
  {
    if n >= 10 {
      DigitsRoundTrip(n / 10);
      var s := Digits(n);
      assert s[..|s| - 1] == Digits(n / 10);
    }
  }

  /** Reading the text back gives the number: the text names one number only. */
  lemma ToDecimalRoundTrip(n: int)
    ensures Parse(ToDecimal(n)) == n
  {
    var s := ToDecimal(n);
    if n < 0 {
      var d := Digits(-n);
      assert s == "-" + d;
      assert s[1..] == d;
      DigitsRoundTrip(-n);
      assert Parse(s) == -(ParseDigits(d) as int);
    } else {
      DigitsRoundTrip(n);
      assert Digits(n)[0] != '-';
    }
  }

  lemma ToDecimalInjective(m: int, n: int)
    ensures ToDecimal(m) == ToDecimal(n) ==> m == n
  {
    ToDecimalRoundTrip(m);
    ToDecimalRoundTrip(n);
  }

  lemma ToDecimalExamples()
    ensures ToDecimal(0) == "0"
    ensures ToDecimal(42) == "42"
    ensures ToDecimal(-7) == "-7"
  {
    assert Digits(42) == Digits(4) + [DigitChar(2)];
  }
}
