/** Decimal rendering of a non-negative integer, as a JavaScript template string
    `${n}` does for the word count and the index at index.js:22, and its parser. */
module Decimal {
  import opened Common

  predicate IsDigit(c: char)
  {
    '0' <= c <= '9'
  }

  predicate AllDigits(s: string)
  {
    forall i :: 0 <= i < |s| ==> IsDigit(s[i])
  }

  function DigitChar(d: int): (c: char)
    requires 0 <= d < 10
  {
    (('0' as int) + d) as char
  }

  function DigitValue(c: char): (d: int)
    requires IsDigit(c)
  {
    (c as int) - ('0' as int)
  }

  /** `${n}`: the shortest decimal text of n. */
  function NatToDecimal(n: nat): (s: string)
    ensures |s| >= 1 && AllDigits(s)
    ensures |s| > 1 ==> s[0] != '0'
    decreases n
  {
    if n < 10 then [DigitChar(n)]
    else NatToDecimal(n / 10) + [DigitChar(n % 10)]
  }

  /** The value of a string of decimal digits. */
  function DecimalValue(s: string): nat
    requires AllDigits(s)
    decreases |s|
  {
    if s == [] then 0
    else DecimalValue(s[..|s| - 1]) * 10 + DigitValue(s[|s| - 1])
  }

  /** Reads a non-empty string of decimal digits; anything else is refused. */
  function ParseDecimal(s: string): Option<nat>
  {
    if s != [] && AllDigits(s) then Some(DecimalValue(s)) else None
  }

  /** Parsing the rendered text gives the number back. */
  lemma {:induction false} ParseNatToDecimal(n: nat)
    ensures ParseDecimal(NatToDecimal(n)) == Some(n)
    decreases n
  {
    var s := NatToDecimal(n);
    if n < 10 {
      assert DigitValue(s[0]) == n;
      assert s[..0] == [];
      assert DecimalValue(s) == DecimalValue(s[..0]) * 10 + DigitValue(s[0]);
    } else {
      ParseNatToDecimal(n / 10);
      assert s[..|s| - 1] == NatToDecimal(n / 10);
      assert DigitValue(s[|s| - 1]) == n % 10;
    }
  }

  /** Distinct numbers render to distinct texts. */
  lemma NatToDecimalInjective(m: nat, n: nat)
    requires NatToDecimal(m) == NatToDecimal(n)
    ensures m == n
  {
    ParseNatToDecimal(m);
    ParseNatToDecimal(n);
  }
}
