/**
 * The decimal rendering of a non-negative index, as Python's f"{i}" writes it,
 * and its inverse. The new file names start with this rendering, so its
 * injectivity is what makes the names distinct.
 */
module Decimal {

  predicate IsDigit(c: char) {
    '0' <= c <= '9'
  }

  function Digit(d: nat): (c: char)
    requires d < 10
    ensures IsDigit(c) && c as int - '0' as int == d
  {
    ('0' as int + d) as char
  }

  function DigitValue(c: char): (d: nat)
    requires IsDigit(c)
    ensures d < 10 && Digit(d) == c
  {
    c as int - '0' as int
  }

  /** The decimal digits of `n`, most significant first, without leading zeros. */
  function DecimalString(n: nat): (s: string)
    ensures |s| > 0
    ensures forall k :: 0 <= k < |s| ==> IsDigit(s[k])
    ensures |s| > 1 ==> s[0] != '0'
    decreases n
  {
    if n < 10 then [Digit(n)] else DecimalString(n / 10) + [Digit(n % 10)]
  }

  /** Reads a string of digits back as a number. */
  function ParseDecimal(s: string): nat
    requires forall k :: 0 <= k < |s| ==> IsDigit(s[k])
  {
    if |s| == 0 then 0
    else ParseDecimal(s[..|s| - 1]) * 10 + DigitValue(s[|s| - 1])
  }

  lemma {:induction false} ParseDecimalOfDecimalString(n: nat)
    ensures ParseDecimal(DecimalString(n)) == n
    decreases n
  {
    var s := DecimalString(n);
    if n >= 10 {
      assert s[..|s| - 1] == DecimalString(n / 10);
      ParseDecimalOfDecimalString(n / 10);
    }
  }

  /** Different indices are rendered differently. */
  lemma DecimalStringInjective(m: nat, n: nat)
    requires DecimalString(m) == DecimalString(n)
    ensures m == n
  {
    ParseDecimalOfDecimalString(m);
    ParseDecimalOfDecimalString(n);
  }

  /**
   * A rendered index followed by text that starts with a non-digit determines
   * the index: no two indices give the same string, whatever follows them.
   */
  lemma PrefixedByDecimalInjective(m: nat, n: nat, x: string, y: string)
    requires |x| > 0 && !IsDigit(x[0])
    requires |y| > 0 && !IsDigit(y[0])
    requires DecimalString(m) + x == DecimalString(n) + y
    ensures m == n && x == y
  {
    var a, b := DecimalString(m), DecimalString(n);
    var s := a + x;
    assert !IsDigit(s[|a|]) && !IsDigit(s[|b|]);
    assert |a| == |b|;
    assert a == s[..|a|] == b;
    DecimalStringInjective(m, n);
    assert x == s[|a|..] == y;
  }
}
