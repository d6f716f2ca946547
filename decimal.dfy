/**
 * Decimal text of integers, as Go's `%d` verb and `IP.String` print them,
 * and the digit-string reading that `net.ParseCIDR` applies to octets and
 * prefix lengths.
 */
module Decimal {

  predicate IsDigit(c: char) {
    '0' <= c <= '9'
  }

  predicate AllDigits(s: string) {
    forall i :: 0 <= i < |s| ==> IsDigit(s[i])
  }

  /** A digit string without a superfluous leading zero: "0", "7", "255", not "", "07". */
  predicate IsCanonical(s: string) {
    |s| >= 1 && AllDigits(s) && (s[0] == '0' ==> |s| == 1)
  }

  function DigitChar(d: nat): (c: char)
    requires d < 10
    ensures IsDigit(c)
  {
    ('0' as int + d) as char
  }

  function DigitValue(c: char): (d: nat)
    requires IsDigit(c)
    ensures d < 10 && DigitChar(d) == c
  {
    c as int - '0' as int
  }

  /** The value of a digit string, most significant digit first. */
  function Value(s: string): nat
    requires AllDigits(s)
  {
    if s == [] then 0 else Value(s[..|s| - 1]) * 10 + DigitValue(s[|s| - 1])
  }

  /** The shortest decimal text of `n`. */
  function FromNat(n: nat): (s: string)
    ensures IsCanonical(s)
  {
    if n < 10 then [DigitChar(n)] else FromNat(n / 10) + [DigitChar(n % 10)]
  }

  /** Go's `%d` (and `strconv.Itoa`): a minus sign before the digits of a negative number. */
  function FromInt(n: int): (s: string)
    ensures |s| >= 1
    ensures n >= 0 ==> s == FromNat(n)
    ensures n < 0 ==> s[0] == '-' && s[1..] == FromNat(-n)
  {
    if n < 0 then "-" + FromNat(-n) else FromNat(n)
  }

  /** Printing then reading a number gives the number back. */
  lemma {:induction false} ValueFromNat(n: nat)
    ensures Value(FromNat(n)) == n
  {
    if n >= 10 {
      var s := FromNat(n);
      assert s[..|s| - 1] == FromNat(n / 10);
      ValueFromNat(n / 10);
    }
  }

  lemma {:induction false} ValuePositive(s: string)
    requires AllDigits(s) && |s| >= 1 && s[0] != '0'
    ensures Value(s) >= 1
    ensures |s| >= 2 ==> Value(s) >= 10
  {
    if |s| >= 2 {
      ValuePositive(s[..|s| - 1]);
    }
  }

  /** Reading then printing a canonical digit string gives the string back. */
  lemma {:induction false} FromNatValue(s: string)
    requires IsCanonical(s)
    ensures FromNat(Value(s)) == s
  {
    if |s| >= 2 {
      var init := s[..|s| - 1];
      ValuePositive(s);
      ValuePositive(init);
      FromNatValue(init);
      var v, vi, d := Value(s), Value(init), DigitValue(s[|s| - 1]);
      assert v == vi * 10 + d;
      DivModUnique10(v, vi, d);
      assert init + [s[|s| - 1]] == s;
    }
  }

  /** A leading zero does not change the value of a digit string. */
  lemma {:induction false} ValueLeadingZero(s: string)
    requires AllDigits(s)
    ensures AllDigits("0" + s) && Value("0" + s) == Value(s)
  {
    if s != [] {
      var init := s[..|s| - 1];
      ValueLeadingZero(init);
      assert ("0" + s)[..|s|] == "0" + init;
    }
  }

  lemma DivModUnique10(v: int, q: int, r: int)
    requires v == q * 10 + r && 0 <= r < 10
    ensures v / 10 == q && v % 10 == r
  {
  }

  /** Distinct numbers have distinct decimal texts. */
  lemma FromNatInjective(m: nat, n: nat)
    requires FromNat(m) == FromNat(n)
    ensures m == n
  {
    ValueFromNat(m);
    ValueFromNat(n);
  }
}
