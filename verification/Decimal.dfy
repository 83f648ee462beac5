/** Decimal numerals: printing a number as digits and reading digits back. */
module Decimal {
  predicate IsDigit(c: char) {
    '0' <= c <= '9'
  }

  predicate AllDigits(s: string) {
    forall i :: 0 <= i < |s| ==> IsDigit(s[i])
  }

  function DigitValue(c: char): (d: nat)
    requires IsDigit(c)
  {
    c as int - '0' as int
  }

  function DigitChar(d: nat): char
    requires d < 10
  {
    ('0' as int + d) as char
  }

  function ValueOf(s: string): (n: int)
    requires AllDigits(s)
    ensures n >= 0
  {
    if s == "" then 0 else 10 * ValueOf(s[..|s| - 1]) + DigitValue(s[|s| - 1])
  }

  /** "%d" of a number that is not negative. */
  function Digits(n: nat): (s: string)
    ensures s != ""
  {
    if n < 10 then [DigitChar(n)] else Digits(n / 10) + [DigitChar(n % 10)]
  }

  function Power(k: nat): (p: nat)
    ensures p > 0
  {
    if k == 0 then 1 else 10 * Power(k - 1)
  }

  function ZeroDigits(k: nat): (s: string)
    ensures |s| == k
  {
    seq(k, _ => '0')
  }

  /** "%0wd" of a number that is not negative. */
  function Padded(n: nat, w: nat): string {
    if |Digits(n)| >= w then Digits(n) else ZeroDigits(w - |Digits(n)|) + Digits(n)
  }

  lemma {:induction false} DigitsReadBack(n: nat)
    ensures AllDigits(Digits(n)) && ValueOf(Digits(n)) == n
  {
    if n >= 10 {
      DigitsReadBack(n / 10);
      assert Digits(n)[..|Digits(n)| - 1] == Digits(n / 10);
    }
  }

  lemma {:induction false} DigitsAreFew(n: nat, k: nat)
    requires n < Power(k) && k > 0
    ensures |Digits(n)| <= k
  {
    if n >= 10 {
      DigitsAreFew(n / 10, k - 1);
    }
  }

  lemma {:induction false} LeadingZeros(k: nat, s: string)
    requires AllDigits(s)
    ensures AllDigits(ZeroDigits(k) + s) && ValueOf(ZeroDigits(k) + s) == ValueOf(s)
  {
    var t := ZeroDigits(k) + s;
    if s != "" {
      LeadingZeros(k, s[..|s| - 1]);
      assert t[..|t| - 1] == ZeroDigits(k) + s[..|s| - 1];
    } else if k > 0 {
      LeadingZeros(k - 1, "");
      assert t[..|t| - 1] == ZeroDigits(k - 1) + "";
    }
  }

  /** A number below 10^w padded to w places takes w digits and reads back as itself. */
  lemma PaddedReadsBack(n: nat, w: nat)
    requires n < Power(w) && w > 0
    ensures |Padded(n, w)| == w && AllDigits(Padded(n, w)) && ValueOf(Padded(n, w)) == n
  {
    hide Power, Digits, ValueOf, AllDigits;
    DigitsAreFew(n, w);
    DigitsReadBack(n);
    LeadingZeros(w - |Digits(n)|, Digits(n));
    assert ZeroDigits(0) + Digits(n) == Digits(n);
  }
}
