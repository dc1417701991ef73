/** Decimal text as Python's `int()` and `str()` read and write it (ASCII digits). */
module PyText {

  predicate IsDigit(c: char) {
    '0' <= c <= '9'
  }

  function DigitValue(c: char): nat
    requires IsDigit(c)
  {
    (c as int) - ('0' as int)
  }

  function DigitChar(d: nat): (c: char)
    requires d < 10
    ensures IsDigit(c) && DigitValue(c) == d
  {
    (('0' as int) + d) as char
  }

  predicate AllDigits(t: string) {
    forall i :: 0 <= i < |t| ==> IsDigit(t[i])
  }

  /** Python's `int(t)` for a non-empty string of decimal digits. */
  function DecimalValue(t: string): nat
    requires AllDigits(t)
  {
    if t == [] then 0 else 10 * DecimalValue(t[..|t| - 1]) + DigitValue(t[|t| - 1])
  }

  /** `str(n)` for a natural number. */
  function NatToString(n: nat): (t: string)
    ensures t != [] && AllDigits(t)
  {
    if n < 10 then [DigitChar(n)] else NatToString(n / 10) + [DigitChar(n % 10)]
  }

  lemma {:induction false} DecimalValueOfNatToString(n: nat)
    ensures DecimalValue(NatToString(n)) == n
  {
    var t := NatToString(n);
    if n >= 10 {
      assert t[..|t| - 1] == NatToString(n / 10);
      DecimalValueOfNatToString(n / 10);
    } else {
      assert t[..0] == [];
    }
  }

  /** `str(i)` for any integer: a minus sign before a negative number. */
  function IntToString(i: int): (t: string)
    ensures t != []
  {
    if i < 0 then "-" + NatToString(-i) else NatToString(i)
  }

  function Pow10(k: nat): (p: nat)
    ensures p >= 1
  {
    if k == 0 then 1 else 10 * Pow10(k - 1)
  }

  /** A k-digit decimal numeral denotes a number below 10^k. */
  lemma {:induction false} DecimalValueBound(t: string)
    requires AllDigits(t)
    ensures DecimalValue(t) < Pow10(|t|)
  {
    if t != [] {
      DecimalValueBound(t[..|t| - 1]);
    }
  }
}
