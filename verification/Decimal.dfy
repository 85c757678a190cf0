/** Decimal numerals: std::to_string and std::from_chars. */
module Decimal {
  import opened Bytes

  predicate IsNumeral(s: bytes) { s != [] && Digits(s) }

  function DigitValue(c: Byte): (v: nat)
    requires IsDigit(c)
    ensures v < 10
  {
    c - 0x30
  }

  function Digit(v: nat): (c: Byte)
    requires v < 10
    ensures IsDigit(c) && DigitValue(c) == v
  {
    0x30 + v
  }

  function ToDecimal(n: nat): (s: bytes)
    ensures IsNumeral(s)
  {
    if n < 10 then [Digit(n)] else ToDecimal(n / 10) + [Digit(n % 10)]
  }

  function FromDecimal(s: bytes): nat
    requires IsNumeral(s)
  {
    if |s| == 1 then DigitValue(s[0]) else 10 * FromDecimal(s[..|s| - 1]) + DigitValue(s[|s| - 1])
  }

  lemma {:induction false} DecimalInverse(n: nat)
    ensures FromDecimal(ToDecimal(n)) == n
  {
    if n >= 10 {
      DecimalInverse(n / 10);
      var s := ToDecimal(n);
      assert s[..|s| - 1] == ToDecimal(n / 10);
    }
  }
}
