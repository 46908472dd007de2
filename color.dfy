/** Colours (src/models/Color.ts): a string is accepted when parseInt reads
    it in radix 16 as a number from 0 to 0xFFFFFF. Only the longest hex
    prefix is read, so the accepted set is wider than six hex digits. */
module Color {
  import opened Wrappers
  import opened Numerals
  import opened EcmaScript

  const MaxColor: int := 0xFFFFFF

  /** The refinement: `parseInt(s, 16)` is not NaN and lies in 0..16777215. */
  predicate IsColor(s: string) {
    match ParseInt(s, 16)
    case None => false
    case Some(v) => 0 <= v <= MaxColor
  }

  /** The schema: an accepted string is returned unchanged, the brand adds
      no transform. */
  function Parse(s: string): (r: Option<string>)
    ensures r.Some? ==> r.value == s
  {
    if IsColor(s) then Some(s) else None
  }

  // ---------------------------------------------------------------------
  // Properties

  /** A run of hex digits, followed by anything that does not continue it,
      is accepted exactly when the value of the run is at most 0xFFFFFF. */
  lemma HexNumeralAccepted(ds: string, rest: string)
    requires ds != [] && AllRadixDigits(ds, 16)
    requires rest == [] || !IsRadixDigit(rest[0], 16)
    requires !HasHexPrefix(ds + rest)
    ensures Parse(ds + rest).Some? <==> DigitsValue(ds, 16) <= MaxColor
  {
    ParseIntOfNumeral(ds, rest, 16);
  }

  /** In particular every run of one to six hex digits is accepted,
      whatever follows it... */
  lemma ShortHexNumeralAccepted(ds: string, rest: string)
    requires 1 <= |ds| <= 6 && AllRadixDigits(ds, 16)
    requires rest == [] || !IsRadixDigit(rest[0], 16)
    requires !HasHexPrefix(ds + rest)
    ensures Parse(ds + rest) == Some(ds + rest)
  {
    HexNumeralAccepted(ds, rest);
    DigitsValueBelowPow(ds, 16);
    PowMonotonic(16, |ds|, 6);
    assert Pow(16, 6) == MaxColor + 1;
  }

  /** ...and every run of seven or more without a leading zero is
      rejected as out of range. */
  lemma LongHexNumeralRejected(ds: string, rest: string)
    requires |ds| >= 7 && AllRadixDigits(ds, 16) && DigitValue(ds[0]) != 0
    requires rest == [] || !IsRadixDigit(rest[0], 16)
    ensures Parse(ds + rest) == None
  {
    assert (ds + rest)[0] == ds[0];
    HexNumeralAccepted(ds, rest);
    LeadingDigitLowerBound(ds, 16);
    PowMonotonic(16, 6, |ds| - 1);
    assert Pow(16, 6) == MaxColor + 1;
  }

  /** Leading white space is skipped and a sign applies to the value read:
      after '-' only a run of zeros is accepted (its value, minus zero, is
      not below 0), after '+' or no sign the run must be at most 0xFFFFFF. */
  lemma SignedHexNumeralAccepted(ws: string, sign: string, ds: string, rest: string)
    requires forall i | 0 <= i < |ws| :: IsStrWhiteSpace(ws[i])
    requires sign == "" || sign == "+" || sign == "-"
    requires ds != [] && AllRadixDigits(ds, 16)
    requires rest == [] || !IsRadixDigit(rest[0], 16)
    requires !HasHexPrefix(ds + rest)
    ensures Parse(ws + sign + ds + rest).Some? <==>
      if sign == "-" then DigitsValue(ds, 16) == 0 else DigitsValue(ds, 16) <= MaxColor
  {
    ParseIntOfSignedNumeral(ws, sign, ds, rest, 16);
  }

  /** So "-0" is a colour... */
  lemma NegativeZeroAccepted()
    ensures Parse("-0") == Some("-0")
  {
    assert "" + "-" + "0" + "" == "-0";
    assert AllRadixDigits("0", 16) && DigitsValue("0", 16) == 0;
    SignedHexNumeralAccepted("", "-", "0", "");
  }

  /** ...while "-1" is below zero and rejected... */
  lemma NegativeOneRejected()
    ensures Parse("-1") == None
  {
    assert "" + "-" + "1" + "" == "-1";
    assert AllRadixDigits("1", 16) && DigitsValue("1", 16) == 1;
    SignedHexNumeralAccepted("", "-", "1", "");
  }

  /** ...and " FF" and "+FF" read as 0xFF. */
  lemma PaddedAccepted()
    ensures Parse(" FF") == Some(" FF")
  {
    assert " " + "" + "FF" + "" == " FF";
    assert IsStrWhiteSpace(" "[0]);
    FFIsByte();
    SignedHexNumeralAccepted(" ", "", "FF", "");
  }

  lemma PlusAccepted()
    ensures Parse("+FF") == Some("+FF")
  {
    assert "" + "+" + "FF" + "" == "+FF";
    FFIsByte();
    SignedHexNumeralAccepted("", "+", "FF", "");
  }

  lemma FFIsByte()
    ensures AllRadixDigits("FF", 16) && DigitsValue("FF", 16) <= MaxColor
  {
    assert DigitsValue("FF", 16) == 255;
  }

  /** A string that does not start (after white space and a sign) with a
      hex digit is rejected. */
  lemma NoHexDigitRejected(s: string)
    requires s != [] && !IsRadixDigit(s[0], 16) && !IsStrWhiteSpace(s[0])
    requires s[0] != '-' && s[0] != '+'
    ensures Parse(s) == None
  {
    assert TrimStart(s) == s;
    assert DigitPrefixLength(s, 16) == 0;
  }

  /** The cases of the tests: 'FFFFFF' is accepted unchanged... */
  lemma FullWhiteAccepted()
    ensures Parse("FFFFFF") == Some("FFFFFF")
  {
    assert "FFFFFF" + [] == "FFFFFF";
    ShortHexNumeralAccepted("FFFFFF", []);
  }

  /** ...'FFFFFFF' is out of range... */
  lemma SevenDigitsRejected()
    ensures Parse("FFFFFFF") == None
  {
    assert "FFFFFFF" + [] == "FFFFFFF";
    LongHexNumeralRejected("FFFFFFF", []);
  }

  /** ...and 'notacolor' has no hex digit. */
  lemma WordRejected()
    ensures Parse("notacolor") == None
  {
    assert !IsRadixDigit('n', 16);
    NoHexDigitRejected("notacolor");
  }

  /** Characters after an in-range hex prefix are ignored: "FFFFFFzz" is a
      colour. */
  lemma TrailingCharactersIgnored()
    ensures Parse("FFFFFFzz") == Some("FFFFFFzz")
  {
    assert "FFFFFFzz" == "FFFFFF" + "zz";
    assert !IsRadixDigit('z', 16);
    ShortHexNumeralAccepted("FFFFFF", "zz");
  }

  /** parseInt skips a "0x" prefix in radix 16, so "0x" followed by one to
      six hex digits (and anything that does not continue them), such as
      "0xFFFFFF", is a colour too... */
  lemma HexPrefixSkipped(ds: string, rest: string)
    requires 1 <= |ds| <= 6 && AllRadixDigits(ds, 16)
    requires rest == [] || !IsRadixDigit(rest[0], 16)
    ensures Parse("0x" + ds + rest) == Some("0x" + ds + rest)
  {
    ParseIntAfterHexPrefix(ds, rest, 16);
    DigitsValueBelowPow(ds, 16);
    PowMonotonic(16, |ds|, 6);
    assert Pow(16, 6) == MaxColor + 1;
  }

  /** With white space and a sign in front of "0x", the sign applies to
      the hex numeral after the prefix: the string is accepted exactly when
      that value, signed, lies in 0..0xFFFFFF. */
  lemma SignedHexPrefixedAccepted(ws: string, sign: string, ds: string, rest: string)
    requires forall i | 0 <= i < |ws| :: IsStrWhiteSpace(ws[i])
    requires sign == "" || sign == "+" || sign == "-"
    requires ds != [] && AllRadixDigits(ds, 16)
    requires rest == [] || !IsRadixDigit(rest[0], 16)
    ensures Parse(ws + sign + ("0x" + (ds + rest))).Some? <==>
      if sign == "-" then DigitsValue(ds, 16) == 0 else DigitsValue(ds, 16) <= MaxColor
  {
    ParseIntOfSignedHexPrefixed(ws, sign, ds, rest, 16);
  }

  /** So "0x" followed by seven or more hex digits without a leading zero
      is out of range... */
  lemma LongHexPrefixedRejected(ds: string, rest: string)
    requires |ds| >= 7 && AllRadixDigits(ds, 16) && DigitValue(ds[0]) != 0
    requires rest == [] || !IsRadixDigit(rest[0], 16)
    ensures Parse("0x" + (ds + rest)) == None
  {
    assert "" + "" + ("0x" + (ds + rest)) == "0x" + (ds + rest);
    SignedHexPrefixedAccepted("", "", ds, rest);
    LeadingDigitLowerBound(ds, 16);
    PowMonotonic(16, 6, |ds| - 1);
    assert Pow(16, 6) == MaxColor + 1;
  }

  /** ...and "-0x0" is a colour, as "-0" is. */
  lemma NegativeHexZeroAccepted()
    ensures Parse("-0x0") == Some("-0x0")
  {
    assert "" + "-" + ("0x" + ("0" + "")) == "-0x0";
    assert AllRadixDigits("0", 16) && DigitsValue("0", 16) == 0;
    SignedHexPrefixedAccepted("", "-", "0", "");
  }

  /** White space and a sign with no hex digit after them are rejected. */
  lemma NoHexDigitAfterSignRejected(ws: string, sign: string, t: string)
    requires forall i | 0 <= i < |ws| :: IsStrWhiteSpace(ws[i])
    requires sign == "" || sign == "+" || sign == "-"
    requires t == [] || (!IsRadixDigit(t[0], 16) && !IsStrWhiteSpace(t[0]) && t[0] != '-' && t[0] != '+')
    ensures Parse(ws + sign + t) == None
  {
    ParseIntWithoutDigits(ws, sign, t, 16);
  }

  /** So a lone sign is rejected. */
  lemma SignAloneRejected()
    ensures Parse("-") == None
  {
    assert "" + "-" + "" == "-";
    NoHexDigitAfterSignRejected("", "-", "");
  }

  /** ...while "0x" alone leaves no digit to read and is rejected. */
  lemma BareHexPrefixRejected()
    ensures Parse("0x") == None
  {
    assert "0x" + [] == "0x";
    assert ParseInt("0x" + [], 16) == ReadDigits([], 16) by {
      HexPrefixRead([], 16);
    }
  }
}
