/**
 * Decimal rendering of non-negative integers, as Python's `str(n)` and the
 * zero-padded format specification `{n:0Wd}` produce it, together with the
 * value of a digit string, which is the inverse used to state round trips.
 */
module Decimal {

  predicate IsDigit(c: char) {
    '0' <= c <= '9'
  }

  predicate AllDigits(s: string) {
    forall k :: 0 <= k < |s| ==> IsDigit(s[k])
  }

  function DigitChar(d: nat): (c: char)
    requires d < 10
    ensures IsDigit(c) && c as int - '0' as int == d
  {
    ('0' as int + d) as char
  }

  function DigitValue(c: char): (d: nat)
    requires IsDigit(c)
    ensures d < 10
  {
    c as int - '0' as int
  }

  function Pow10(k: nat): (p: nat)
    ensures p >= 1
  {
    if k == 0 then 1 else 10 * Pow10(k - 1)
  }

  /** `str(n)` for `n >= 0`. */
  function Digits(n: nat): string
    decreases n
  {
    if n < 10 then [DigitChar(n)] else Digits(n / 10) + [DigitChar(n % 10)]
  }

  /** `str(n)` is a non-empty string of digits without a leading zero, reading back as `n`. */
  lemma {:induction false} DigitsShape(n: nat)
    ensures var r := Digits(n);
      && |r| >= 1 && AllDigits(r)
      && (r[0] == '0' ==> n == 0)
      && Value(r) == n
    decreases n
  {
    if n >= 10 {
      DigitsShape(n / 10);
      var d := Digits(n);
      assert d[..|d| - 1] == Digits(n / 10);
    }
  }

  /** `str(n)` fits in `w >= 1` characters exactly when `n < 10^w`. */
  lemma {:induction false} DigitsFit(n: nat, w: nat)
    ensures 1 <= w ==> (|Digits(n)| <= w <==> n < Pow10(w))
    decreases n
  {
    if n >= 10 && w >= 1 {
      DigitsFit(n / 10, w - 1);
      if w == 1 {
        assert Pow10(1) == 10;
      }
    }
  }

  /** The number a string of decimal digits denotes (leading zeros allowed); 0 once a non-digit is met. */
  function Value(s: string): nat {
    if s == [] || !IsDigit(s[|s| - 1]) then 0 else Value(s[..|s| - 1]) * 10 + DigitValue(s[|s| - 1])
  }

  function Zeros(k: nat): (z: string)
    ensures |z| == k
    ensures forall j :: 0 <= j < k ==> z[j] == '0'
  {
    seq(k, _ => '0')
  }

  /** `format(n, "0{width}d")` for `n >= 0`. */
  function ZeroPad(n: nat, width: nat): string {
    var d := Digits(n);
    Zeros(if |d| < width then width - |d| else 0) + d
  }

  /**
   * `format(n, "0{width}d")` is `str(n)` left-padded with zeros to `width`:
   * digits only, at least `width` of them, exactly `width` when `n < 10^width`,
   * and reading back as `n`.
   */
  lemma ZeroPadShape(n: nat, width: nat)
    ensures var r := ZeroPad(n, width);
      && |r| == (if |Digits(n)| < width then width else |Digits(n)|)
      && AllDigits(r)
      && Value(r) == n
      && (1 <= width ==> (|r| == width <==> n < Pow10(width)))
  {
    var d := Digits(n);
    DigitsShape(n);
    DigitsFit(n, width);
    var z := Zeros(if |d| < width then width - |d| else 0);
    ValueIgnoresLeadingZeros(z, d);
  }

  lemma {:induction false} ValueIgnoresLeadingZeros(z: string, s: string)
    requires forall j :: 0 <= j < |z| ==> z[j] == '0'
    requires AllDigits(s)
    ensures AllDigits(z + s)
    ensures Value(z + s) == Value(s)
    decreases |s|
  {
    if s == [] {
      assert z + s == z;
      ZerosHaveValueZero(z);
    } else {
      var s' := s[..|s| - 1];
      assert (z + s)[..|z + s| - 1] == z + s';
      ValueIgnoresLeadingZeros(z, s');
    }
  }

  lemma {:induction false} ZerosHaveValueZero(z: string)
    requires forall j :: 0 <= j < |z| ==> z[j] == '0'
    ensures AllDigits(z) && Value(z) == 0
    decreases |z|
  {
    if z != [] {
      ZerosHaveValueZero(z[..|z| - 1]);
    }
  }
}
