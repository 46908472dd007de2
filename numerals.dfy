/** Digit strings and their values: the arithmetic underneath JavaScript's
    `parseInt`, `BigInt(string)`, `Number.prototype.toString` and
    `BigInt.prototype.toString` as the model uses them. */
module Numerals {

  /** The value of `c` as a digit in radix 36 ('0'-'9', then 'a'-'z' or
      'A'-'Z' for 10-35); 36 for a character that is a digit in no radix. */
  function DigitValue(c: char): (d: nat)
    ensures d <= 36
    ensures d < 10 <==> '0' <= c <= '9'
  {
    if '0' <= c <= '9' then c as int - '0' as int
    else if 'a' <= c <= 'z' then c as int - 'a' as int + 10
    else if 'A' <= c <= 'Z' then c as int - 'A' as int + 10
    else 36
  }

  predicate IsRadixDigit(c: char, radix: nat) {
    DigitValue(c) < radix
  }

  predicate AllRadixDigits(s: string, radix: nat) {
    forall i | 0 <= i < |s| :: IsRadixDigit(s[i], radix)
  }

  function Pow(base: nat, k: nat): (p: nat)
    ensures base >= 1 ==> p >= 1
  {
    if k == 0 then 1 else base * Pow(base, k - 1)
  }

  /** `n` copies of `c`. */
  function Repeat(c: char, n: nat): (s: string)
    ensures |s| == n
    ensures forall i | 0 <= i < n :: s[i] == c
  {
    if n == 0 then [] else [c] + Repeat(c, n - 1)
  }

  /** The value of the numeral `s` in radix `radix`, most significant digit
      first; the empty numeral is 0. */
  function DigitsValue(s: string, radix: nat): nat
    requires AllRadixDigits(s, radix)
  {
    if s == [] then 0 else DigitsValue(s[..|s| - 1], radix) * radix + DigitValue(s[|s| - 1])
  }

  /** The character of a decimal digit. */
  function DecimalDigit(d: nat): (c: char)
    requires d < 10
    ensures IsRadixDigit(c, 10) && DigitValue(c) == d
  {
    (d + '0' as int) as char
  }

  /** A decimal numeral as JavaScript prints a non-negative integer: digits
      only, and no leading zero unless the numeral is "0". */
  predicate IsCanonicalNatural(s: string) {
    |s| >= 1 && AllRadixDigits(s, 10) && (s[0] == '0' ==> |s| == 1)
  }

  /** A decimal numeral as JavaScript prints an integer: a canonical natural
      numeral, or '-' followed by a canonical numeral of a nonzero value. */
  predicate IsCanonicalInteger(s: string) {
    IsCanonicalNatural(s) || (|s| >= 2 && s[0] == '-' && IsCanonicalNatural(s[1..]) && s[1] != '0')
  }

  /** The decimal numeral of `n`, as `n.toString()` prints it. */
  function NatToDecimal(n: nat): (s: string)
    ensures IsCanonicalNatural(s)
    ensures s[0] == '0' <==> n == 0
  {
    if n < 10 then [DecimalDigit(n)] else NatToDecimal(n / 10) + [DecimalDigit(n % 10)]
  }

  lemma {:induction false} PowMonotonic(base: nat, j: nat, k: nat)
    requires base >= 1 && j <= k
    ensures Pow(base, j) <= Pow(base, k)
  {
    if j < k {
      PowMonotonic(base, j, k - 1);
    }
  }

  /** A numeral of k digits in radix `radix` denotes a value below radix^k. */
  lemma {:induction false} DigitsValueBelowPow(s: string, radix: nat)
    requires radix >= 1 && AllRadixDigits(s, radix)
    ensures DigitsValue(s, radix) < Pow(radix, |s|)
  {
    if s != [] {
      var p := s[..|s| - 1];
      DigitsValueBelowPow(p, radix);
      var a, d, q := DigitsValue(p, radix), DigitValue(s[|s| - 1]), Pow(radix, |p|);
      assert DigitsValue(s, radix) == a * radix + d;
      assert Pow(radix, |s|) == radix * q;
      BelowPowStep(a, d, q, radix);
    }
  }

  /** The arithmetic step: a < q and d < radix give a*radix + d < radix*q. */
  lemma BelowPowStep(a: nat, d: nat, q: nat, radix: nat)
    requires a < q && d < radix
    ensures a * radix + d < radix * q
  {
    MultiplyMonotonic(a + 1, q, radix);
    assert (a + 1) * radix == a * radix + radix;
    assert q * radix == radix * q;
  }

  lemma MultiplyMonotonic(x: nat, y: nat, m: nat)
    requires x <= y
    ensures x * m <= y * m
  {
    var k := y - x;
    assert y * m == x * m + k * m;
  }

  /** A numeral of k digits whose first digit is not zero denotes at least
      radix^(k-1). */
  lemma {:induction false} LeadingDigitLowerBound(s: string, radix: nat)
    requires radix >= 1 && |s| >= 1 && AllRadixDigits(s, radix) && DigitValue(s[0]) != 0
    ensures DigitsValue(s, radix) >= Pow(radix, |s| - 1)
  {
    if |s| == 1 {
      assert DigitsValue(s, radix) == DigitsValue([], radix) * radix + DigitValue(s[0]);
    } else {
      var p := s[..|s| - 1];
      LeadingDigitLowerBound(p, radix);
      var a, q := DigitsValue(p, radix), Pow(radix, |p| - 1);
      assert DigitsValue(s, radix) >= a * radix;
      MultiplyMonotonic(q, a, radix);
      assert Pow(radix, |s| - 1) == radix * q;
      assert q * radix == radix * q;
    }
  }

  /** Reading back the printed numeral of `n` gives `n`. */
  lemma {:induction false} DecimalRoundTrip(n: nat)
    ensures DigitsValue(NatToDecimal(n), 10) == n
  {
    if n >= 10 {
      DecimalRoundTrip(n / 10);
      var s := NatToDecimal(n);
      assert s[..|s| - 1] == NatToDecimal(n / 10);
    }
  }

  /** Printing the value of a canonical numeral gives the numeral back. */
  lemma {:induction false} CanonicalRoundTrip(s: string)
    requires IsCanonicalNatural(s)
    ensures NatToDecimal(DigitsValue(s, 10)) == s
  {
    var last := s[|s| - 1];
    assert DecimalDigit(DigitValue(last)) == last;
    if |s| > 1 {
      var p := s[..|s| - 1];
      assert IsCanonicalNatural(p);
      LeadingDigitLowerBound(p, 10);
      CanonicalRoundTrip(p);
      var v := DigitsValue(s, 10);
      assert v == DigitsValue(p, 10) * 10 + DigitValue(last);
      assert v / 10 == DigitsValue(p, 10) && v % 10 == DigitValue(last);
      assert s == p + [last];
    }
  }

  /** The printed numeral of `n` has at most k digits exactly when n < 10^k. */
  lemma NatToDecimalLength(n: nat, k: nat)
    requires k >= 1
    ensures |NatToDecimal(n)| <= k <==> n < Pow(10, k)
  {
    var s := NatToDecimal(n);
    DecimalRoundTrip(n);
    if |s| <= k {
      DigitsValueBelowPow(s, 10);
      PowMonotonic(10, |s|, k);
    } else if n != 0 {
      LeadingDigitLowerBound(s, 10);
      PowMonotonic(10, k, |s| - 1);
    }
  }

  /** A leading '0' does not change the value of a numeral. */
  lemma {:induction false} LeadingZeroValue(s: string, radix: nat)
    requires radix >= 1 && AllRadixDigits(s, radix)
    ensures AllRadixDigits("0" + s, radix) && DigitsValue("0" + s, radix) == DigitsValue(s, radix)
  {
    if s != [] {
      var p := s[..|s| - 1];
      LeadingZeroValue(p, radix);
      assert ("0" + s)[..|s|] == "0" + p;
    }
  }
}
