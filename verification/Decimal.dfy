/** Decimal numbers as text. */
module Decimals {

  import opened Wrappers

  predicate IsDigit(c: char) { '0' <= c <= '9' }

  predicate AllDigits(s: string) { forall i :: 0 <= i < |s| ==> IsDigit(s[i]) }

  function DigitChar(n: nat): (c: char)
    requires n < 10
    ensures IsDigit(c)
  {
    '0' + n as char
  }

  function DigitValue(c: char): nat
    requires IsDigit(c)
  {
    (c - '0') as nat
  }

  function NatText(n: nat): (s: string)
    ensures s != [] && AllDigits(s)
    ensures n < 10 ==> |s| == 1
    ensures 10 <= n < 100 ==> |s| == 2
  {
    if n < 10 then [DigitChar(n)] else NatText(n / 10) + [DigitChar(n % 10)]
  }

  function DigitsValue(s: string): nat
    requires AllDigits(s)
  {
    if s == [] then 0 else DigitsValue(s[..|s| - 1]) * 10 + DigitValue(s[|s| - 1])
  }

  /** A whole number with an optional sign; nothing else may surround it. */
  function ParseInt(s: string): Option<int> {
    var signed := s != [] && (s[0] == '-' || s[0] == '+');
    var digits := if signed then s[1..] else s;
    if digits == [] || !AllDigits(digits) then None
    else if signed && s[0] == '-' then Some(-(DigitsValue(digits) as int))
    else Some(DigitsValue(digits))
  }

  /** At least two digits, as hours, minutes and seconds are written. */
  function TwoDigits(n: nat): (s: string)
    ensures AllDigits(s) && |s| >= 2
    ensures n < 100 ==> |s| == 2
  {
    (if n < 10 then "0" else "") + NatText(n)
  }

  lemma {:induction false} DigitsRoundTrip(n: nat)
    ensures DigitsValue(NatText(n)) == n
  {
    if n >= 10 {
      DigitsRoundTrip(n / 10);
      var s := NatText(n);
      assert s[..|s| - 1] == NatText(n / 10);
    }
  }

  lemma TwoDigitsRoundTrip(n: nat)
    ensures ParseInt(TwoDigits(n)) == Some(n)
  {
    DigitsRoundTrip(n);
    var s := TwoDigits(n);
    if n < 10 {
      assert s == ['0', DigitChar(n)];
      assert s[..1] == ['0'];
      assert DigitsValue(s[..1]) == 0;
    } else {
      assert s == NatText(n);
    }
  }
}
