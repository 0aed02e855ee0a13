/** Decimal text of integers, and its value. */
module Decimal {

  function Digit(n: nat): (c: char)
    requires n < 10
    ensures IsDigit(c)
  {
    '0' + n as char
  }

  predicate IsDigit(c: char) {
    '0' <= c <= '9'
  }

  predicate IsNumeral(s: string) {
    s != "" && forall i :: 0 <= i < |s| ==> IsDigit(s[i])
  }

  function NatText(n: nat): (s: string)
    ensures IsNumeral(s)
  {
    if n < 10 then [Digit(n)] else NatText(n / 10) + [Digit(n % 10)]
  }

  function IntText(n: int): (s: string)
    ensures |s| > 0 && forall c :: c in s ==> c == '-' || IsDigit(c)
  {
    if n < 0 then "-" + NatText(-n) else NatText(n)
  }

  function NatValue(s: string): int {
    if s == "" then 0 else 10 * NatValue(s[..|s| - 1]) + (s[|s| - 1] as int - '0' as int)
  }

  lemma {:induction false} NatTextValue(n: nat)
    ensures NatValue(NatText(n)) == n
  {
    if n >= 10 {
      NatTextValue(n / 10);
      assert NatText(n)[..|NatText(n)| - 1] == NatText(n / 10);
    } else {
      assert NatText(n)[..0] == "";
    }
  }

  lemma Sign(n: int)
    ensures IntText(n)[0] == '-' <==> n < 0
  {
    if n >= 0 { assert NatText(n)[0] in NatText(n); }
  }

  lemma NatTextInjective(a: nat, b: nat)
    requires NatText(a) == NatText(b)
    ensures a == b
  {
    NatTextValue(a);
    NatTextValue(b);
  }

  lemma IntTextInjective(a: int, b: int)
    requires IntText(a) == IntText(b)
    ensures a == b
  {
    Sign(a);
    Sign(b);
    hide NatText;
    if a < 0 {
      assert IntText(a)[1..] == NatText(-a) && IntText(b)[1..] == NatText(-b);
      NatTextInjective(-a, -b);
    } else {
      NatTextInjective(a, b);
    }
  }

  lemma {:induction false} NumeralsOfOneLength(a: string, b: string)
    requires |a| == |b| && NatValue(a) == NatValue(b)
    requires (a != "" ==> IsNumeral(a)) && (b != "" ==> IsNumeral(b))
    ensures a == b
  {
    if a != "" {
      var n := |a| - 1;
      assert IsDigit(a[n]) && IsDigit(b[n]);
      NumeralsOfOneLength(a[..n], b[..n]);
      assert a == a[..n] + [a[n]] && b == b[..n] + [b[n]];
    }
  }

  /** The value of a numeral by its length. */
  lemma NumeralRange(s: string)
    requires IsNumeral(s)
    ensures NatValue(s) >= 0
    ensures |s| == 2 ==> NatValue(s) < 100
    ensures |s| == 4 ==> NatValue(s) < 10_000
  {
    var n := |s| - 1;
    assert IsDigit(s[n]);
    if n > 0 {
      NumeralRange(s[..n]);
      if n == 3 { NumeralRangeThree(s[..n]); }
    }
  }

  lemma NumeralRangeThree(s: string)
    requires IsNumeral(s) && |s| == 3
    ensures NatValue(s) < 1000
  {
    assert IsDigit(s[2]);
    NumeralRange(s[..2]);
  }

  /** The last two decimal digits of n. */
  function Pad2(n: nat): (s: string)
    ensures |s| == 2 && IsNumeral(s)
    ensures n < 100 ==> NatValue(s) == n
  {
    PadValue(n);
    [Digit(n / 10 % 10), Digit(n % 10)]
  }

  lemma PadValue(n: nat)
    ensures n < 100 ==> NatValue([Digit(n / 10 % 10), Digit(n % 10)]) == n
  {
    var s := [Digit(n / 10 % 10), Digit(n % 10)];
    var tens := s[..1];
    assert tens == [Digit(n / 10 % 10)] && tens[..0] == "";
    assert NatValue(tens) == n / 10 % 10;
    assert NatValue(s) == 10 * NatValue(tens) + n % 10;
  }

  lemma FourDigits(n: nat)
    ensures |NatText(n)| == 4 <==> 1000 <= n <= 9999
  {
    assert n >= 10 ==> |NatText(n)| == |NatText(n / 10)| + 1;
    assert n >= 100 ==> |NatText(n / 10)| == |NatText(n / 100)| + 1 by { assert n / 10 / 10 == n / 100; }
    assert n >= 1000 ==> |NatText(n / 100)| == |NatText(n / 1000)| + 1 by { assert n / 100 / 10 == n / 1000; }
  }
}
