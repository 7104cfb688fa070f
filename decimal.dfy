/** Decimal numerals: the `\d+` groups of a resolution line, `int()` applied to them,
    and the `%d` conversion the writer uses for the dimensions. */
module Decimal {
  import opened ByteStream

  /** A character `\d` matches (in a byte-string pattern: ASCII digits only). */
  predicate IsDigit(c: char) {
    '0' <= c <= '9'
  }

  predicate AllDigits(s: Bytes) {
    forall i :: 0 <= i < |s| ==> IsDigit(s[i])
  }

  function DigitValue(c: char): (d: nat)
    requires IsDigit(c)
    ensures d < 10
  {
    c as int - '0' as int
  }

  function DigitChar(d: nat): (c: ByteChar)
    requires d < 10
    ensures IsDigit(c) && DigitValue(c) == d
  {
    ('0' as int + d) as char
  }

  /** `int(s)` for a non-empty run of digits; leading zeros are allowed. */
  function ValueOf(s: Bytes): nat
    requires AllDigits(s)
  {
    if s == [] then 0 else ValueOf(s[..|s| - 1]) * 10 + DigitValue(s[|s| - 1])
  }

  /** A leading zero does not change the value `int()` reads. */
  lemma {:induction false} LeadingZeroIgnored(s: Bytes)
    requires AllDigits(s)
    ensures AllDigits(['0'] + s) && ValueOf(['0'] + s) == ValueOf(s)
  {
    if s != [] {
      var init := s[..|s| - 1];
      assert (['0'] + s)[..|s|] == ['0'] + init;
      LeadingZeroIgnored(init);
    }
  }

  /** `'%d' % n` for a non-negative `n`: the shortest numeral of `n`. */
  function FormatNat(n: nat): (s: Bytes)
    ensures s != [] && AllDigits(s)
    ensures s[0] == '0' <==> n == 0
  {
    if n < 10 then [DigitChar(n)] else FormatNat(n / 10) + [DigitChar(n % 10)]
  }

  /** `'%d' % n` for any integer: a minus sign before the numeral of a negative value.
      `int()` reads the digits back as the magnitude. */
  function FormatInt(n: int): (s: Bytes)
    ensures n >= 0 ==> AllDigits(s) && ValueOf(s) == n
    ensures n < 0 ==> |s| > 1 && s[0] == '-' && AllDigits(s[1..]) && ValueOf(s[1..]) == -n
  {
    if n < 0 then
      ValueOfFormatNat(-n);
      assert ("-" + FormatNat(-n))[1..] == FormatNat(-n);
      "-" + FormatNat(-n)
    else
      ValueOfFormatNat(n);
      FormatNat(n)
  }

  /** Reading back what `%d` writes gives the number written. */
  lemma {:induction false} ValueOfFormatNat(n: nat)
    ensures ValueOf(FormatNat(n)) == n
  {
    if n >= 10 {
      var s := FormatNat(n);
      assert s[..|s| - 1] == FormatNat(n / 10);
      ValueOfFormatNat(n / 10);
    }
  }
}
