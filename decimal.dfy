/**
 * Decimal text of integers: what `out << n` prints for an `int` and what
 * `stoi` reads back, restricted to plain decimal text (an optional minus sign
 * and at least one digit, nothing else).
 */
module Decimal {
  import opened Common

  predicate IsDigit(ch: char)
  {
    '0' <= ch <= '9'
  }

  function DigitChar(d: nat): (ch: char)
    requires d < 10
    ensures IsDigit(ch)
  {
    "0123456789"[d]
  }

  function DigitValue(ch: char): (d: nat)
    requires IsDigit(ch)
    ensures d < 10
  {
    ch as int - '0' as int
  }

  lemma DigitRoundTrip(d: nat)
    requires d < 10
    ensures DigitValue(DigitChar(d)) == d
  {
  }

  /** The digits of `n`, most significant first, with no leading zero. */
  function NatToString(n: nat): (s: string)
    ensures |s| > 0
    ensures forall i :: 0 <= i < |s| ==> IsDigit(s[i])
    decreases n
  {
    if n < 10 then [DigitChar(n)] else NatToString(n / 10) + [DigitChar(n % 10)]
  }

  /** `out << n`: a minus sign for negative numbers, then the digits of the magnitude. */
  function IntToString(n: int): string
  {
    if n < 0 then "-" + NatToString(-n) else NatToString(n)
  }

  /** The value of a non-empty run of digits, or None when some character is not a digit. */
  function ParseDigits(s: string): Option<nat>
    decreases |s|
  {
    if |s| == 0 || !IsDigit(s[|s| - 1]) then None
    else if |s| == 1 then Some(DigitValue(s[0]))
    else
      match ParseDigits(s[..|s| - 1])
      case None => None
      case Some(high) => Some(10 * high + DigitValue(s[|s| - 1]))
  }

  /** `stoi` on plain decimal text: an optional leading '-' and at least one digit. */
  function StoI(s: string): Option<int>
  {
    var negative := |s| > 0 && s[0] == '-';
    var digits := ParseDigits(if negative then s[1..] else s);
    if digits.None? then None
    else if negative then Some(0 - digits.value)
    else Some(digits.value as int)
  }

  lemma {:induction false} ParseNatToString(n: nat)
    ensures ParseDigits(NatToString(n)) == Some(n)
    decreases n
  {
    DigitRoundTrip(n % 10);
    if n >= 10 {
      var s := NatToString(n);
      ParseNatToString(n / 10);
      assert s[..|s| - 1] == NatToString(n / 10);
    }
  }

  /** What `out << n` prints, `stoi` reads back as `n`. */
  lemma StoIRoundTrip(n: int)
    ensures StoI(IntToString(n)) == Some(n)
  {
    var s := IntToString(n);
    if n < 0 {
      var m: nat := -n;
      ParseNatToString(m);
      assert s == "-" + NatToString(m);
      assert s[1..] == NatToString(m);
      assert ParseDigits(s[1..]) == Some(m);
    } else {
      ParseNatToString(n);
      assert IsDigit(s[0]);
    }
  }

  /** Text made of digits after an optional leading '-'. */
  predicate Numeral(s: string)
  {
    forall i :: 0 <= i < |s| ==> IsDigit(s[i]) || (i == 0 && s[i] == '-')
  }

  /** The printed text of an integer is digits after an optional leading '-'. */
  lemma IntToStringChars(n: int)
    ensures Numeral(IntToString(n))
  {
  }
}
