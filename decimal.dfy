/**
  Decimal rendering of integers, as Python's `str(int)` does it when an
  f-string interpolates `response.status_code`, together with the parser that
  undoes it.
*/
module Decimal {
  import opened Wrappers

  predicate IsDigit(c: char) {
    '0' <= c <= '9'
  }

  function DigitValue(c: char): (d: nat)
    requires IsDigit(c)
    ensures d < 10
  {
    (c as int) - ('0' as int)
  }

  function DigitChar(d: nat): (c: char)
    requires d < 10
    ensures IsDigit(c) && DigitValue(c) == d
  {
    (('0' as int) + d) as char
  }

  /** The number a string of decimal digits denotes, most significant digit first. */
  function Value(s: string): nat
    requires forall i :: 0 <= i < |s| ==> IsDigit(s[i])
  {
    if s == [] then 0 else 10 * Value(s[..|s| - 1]) + DigitValue(s[|s| - 1])
  }

  /** The shortest decimal numeral of `n`: digits only, no leading zero, denoting `n`. */
  function NatToString(n: nat): (s: string)
    ensures |s| > 0
    ensures forall i :: 0 <= i < |s| ==> IsDigit(s[i])
    ensures (s[0] == '0') == (n == 0) && (n == 0 ==> s == "0")
    ensures Value(s) == n
  {
    if n < 10 then
      [DigitChar(n)]
    else
      var prefix := NatToString(n / 10);
      var s := prefix + [DigitChar(n % 10)];
      assert s[..|s| - 1] == prefix;
      s
  }

  /** `str(i)` for a Python int: an optional minus sign, then the digits of `|i|`. */
  function IntToString(i: int): (s: string)
    ensures |s| > 0
    ensures (s[0] == '-') == (i < 0)
    ensures forall k :: 0 <= k < |s| ==> IsDigit(s[k]) || (k == 0 && s[k] == '-')
  {
    if i < 0 then "-" + NatToString(-i) else NatToString(i)
  }

  function ParseNat(s: string): Option<nat> {
    if s != [] && forall i | 0 <= i < |s| :: IsDigit(s[i]) then Some(Value(s)) else None
  }

  /** Reads back an optional minus sign followed by at least one digit. */
  function ParseInt(s: string): Option<int> {
    if s != [] && s[0] == '-' then
      match ParseNat(s[1..])
      case Some(v) => Some(0 - v as int)
      case None => None
    else
      match ParseNat(s)
      case Some(v) => Some(v)
      case None => None
  }

  /** Rendering a status code loses nothing: the numeral reads back as the same integer. */
  lemma {:induction false} ParseIntToString(i: int)
    ensures ParseInt(IntToString(i)) == Some(i)
  {
    var s := IntToString(i);
    if i < 0 {
      assert s[1..] == NatToString(-i);
    } else {
      assert s == NatToString(i);
    }
  }

  /** `str` of the status codes the checker's documented cases use. */
  lemma DecimalExamples()
    ensures IntToString(200) == "200"
    ensures IntToString(404) == "404"
    ensures IntToString(500) == "500"
  {
    assert NatToString(2) == "2" && NatToString(4) == "4" && NatToString(5) == "5";
    assert NatToString(20) == "20" && NatToString(40) == "40" && NatToString(50) == "50";
  }
}
