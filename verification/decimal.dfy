/** Decimal rendering of the serial and column numbers (`f'{idx}'`), and its inverse. */
module Decimal {

  predicate IsDigit(c: char) { '0' <= c <= '9' }

  function DigitChar(d: nat): (c: char)
    requires d < 10
    ensures IsDigit(c)
  {
    ('0' as int + d) as char
  }

  function DigitValue(c: char): nat
  {
    if IsDigit(c) then c as int - '0' as int else 0
  }

  /** Python's `str(n)` for a non-negative integer. */
  function DecimalString(n: nat): (r: string)
    ensures r != []
    ensures forall i :: 0 <= i < |r| ==> IsDigit(r[i])
    ensures |r| > 1 ==> r[0] != '0'
  {
    if n < 10 then [DigitChar(n)] else DecimalString(n / 10) + [DigitChar(n % 10)]
  }

  /** The number a string of decimal digits denotes (`int(s)`). */
  function ParseDecimal(s: string): nat
  {
    if s == [] then 0 else ParseDecimal(s[..|s| - 1]) * 10 + DigitValue(s[|s| - 1])
  }

  /** A serial written as text reads back as the same number. */
  lemma {:induction false} ParseDecimalString(n: nat)
    ensures ParseDecimal(DecimalString(n)) == n
  {
    var r := DecimalString(n);
    if n < 10 {
      assert r[..0] == [];
    } else {
      ParseDecimalString(n / 10);
      assert r[..|r| - 1] == DecimalString(n / 10);
    }
  }

  /** Distinct serials are written differently. */
  lemma DecimalStringInjective(m: nat, n: nat)
    requires DecimalString(m) == DecimalString(n)
    ensures m == n
  {
    ParseDecimalString(m);
    ParseDecimalString(n);
  }
}
