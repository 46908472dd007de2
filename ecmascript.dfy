/** The few ECMAScript built-ins the core relies on, on strings of Unicode
    scalar values: `parseInt` (section 19.2.5 of ECMA-262), `BigInt(string)`
    through StringToBigInt (section 7.1.14), `BigInt.prototype.toString`,
    and `String.prototype` `padStart`, `split`, `toLowerCase` and
    `replaceAll` in the forms the source calls them. */
module EcmaScript {
  import opened Wrappers
  import opened Numerals

  /** StrWhiteSpaceChar: a WhiteSpace or LineTerminator code point
      (sections 12.2 and 12.3 of ECMA-262; USP is the Unicode class Zs). */
  predicate IsStrWhiteSpace(c: char) {
    var n := c as int;
    n == 0x09 || n == 0x0A || n == 0x0B || n == 0x0C || n == 0x0D || n == 0x20
    || n == 0xA0 || n == 0x1680 || (0x2000 <= n <= 0x200A) || n == 0x2028
    || n == 0x2029 || n == 0x202F || n == 0x205F || n == 0x3000 || n == 0xFEFF
  }

  /** `s` without its leading white space. */
  function TrimStart(s: string): (t: string)
    ensures |t| <= |s| && t == s[|s| - |t|..]
    ensures t == [] || !IsStrWhiteSpace(t[0])
    ensures forall i | 0 <= i < |s| - |t| :: IsStrWhiteSpace(s[i])
  {
    if s != [] && IsStrWhiteSpace(s[0]) then TrimStart(s[1..]) else s
  }

  /** `s` without its trailing white space. */
  function TrimEnd(s: string): (t: string)
    ensures |t| <= |s| && t == s[..|t|]
    ensures t == [] || !IsStrWhiteSpace(t[|t| - 1])
    ensures forall i | |t| <= i < |s| :: IsStrWhiteSpace(s[i])
  {
    if s != [] && IsStrWhiteSpace(s[|s| - 1]) then TrimEnd(s[..|s| - 1]) else s
  }

  /** `s` without white space at either end. */
  function Trim(s: string): string {
    TrimEnd(TrimStart(s))
  }

  /** The number of radix-`radix` digits `s` begins with. */
  function DigitPrefixLength(s: string, radix: nat): (n: nat)
    ensures n <= |s| && AllRadixDigits(s[..n], radix)
    ensures n < |s| ==> !IsRadixDigit(s[n], radix)
  {
    if s == [] || !IsRadixDigit(s[0], radix) then 0 else 1 + DigitPrefixLength(s[1..], radix)
  }

  predicate HasHexPrefix(s: string) {
    |s| >= 2 && s[0] == '0' && (s[1] == 'x' || s[1] == 'X')
  }

  /** parseInt(s, radix); `radix` is ToInt32 of the argument, 0 when it is
      omitted, and None stands for NaN. A radix other than 0 outside 2..36
      gives NaN; otherwise leading white space is skipped and the rest is
      read as a signed numeral. The magnitude is exact: the rounding of
      large values to a double is not modelled. */
  function ParseInt(s: string, radix: int): Option<int> {
    if radix != 0 && (radix < 2 || 36 < radix) then None
    else ParseSigned(TrimStart(s), radix)
  }

  /** One optional sign, then the unsigned numeral, negated after '-'. */
  function ParseSigned(t: string, radix: int): Option<int>
    requires radix == 0 || 2 <= radix <= 36
  {
    if t != [] && t[0] == '-' then
      (match ParseUnsigned(t[1..], radix) case None => None case Some(v) => Some(-v))
    else if t != [] && t[0] == '+' then ParseUnsigned(t[1..], radix)
    else ParseUnsigned(t, radix)
  }

  /** "0x"/"0X" switches to radix 16 when the radix is omitted or 16;
      otherwise digits are read in the radix, 10 when it is omitted. */
  function ParseUnsigned(u: string, radix: int): Option<int>
    requires radix == 0 || 2 <= radix <= 36
  {
    if (radix == 0 || radix == 16) && HasHexPrefix(u) then ReadDigits(u[2..], 16)
    else ReadDigits(u, ReadBase(radix))
  }

  /** The value of the longest run of digits `u` starts with, NaN when
      there is none. */
  function ReadDigits(u: string, base: nat): Option<int> {
    var end := DigitPrefixLength(u, base);
    if end == 0 then None else Some(DigitsValue(u[..end], base))
  }

  /** The base parseInt reads digits in when no "0x" prefix applies. */
  function ReadBase(radix: int): nat
    requires radix == 0 || 2 <= radix
  {
    if radix == 0 then 10 else radix
  }

  /** The radix a non-decimal BigInt literal prefix letter selects
      ('x', 'o', 'b' in either case), 0 for any other character. */
  function NonDecimalRadix(c: char): nat {
    if c == 'x' || c == 'X' then 16
    else if c == 'o' || c == 'O' then 8
    else if c == 'b' || c == 'B' then 2
    else 0
  }

  /** StringToBigInt(s), which `BigInt(s)` applies to a string; None is
      the SyntaxError BigInt throws. After trimming white space the text
      must be empty (0n), a non-decimal literal such as "0x1f" (no sign),
      or a decimal literal with an optional sign; no numeric separators. */
  function StringToBigInt(s: string): Option<int> {
    StringIntegerLiteralValue(Trim(s))
  }

  /** The value of a trimmed StringIntegerLiteral, None for text that is
      not one. */
  function StringIntegerLiteralValue(t: string): Option<int> {
    if t == [] then Some(0)
    else if |t| >= 2 && t[0] == '0' && NonDecimalRadix(t[1]) != 0 then
      var radix := NonDecimalRadix(t[1]);
      var digits := t[2..];
      if digits != [] && AllRadixDigits(digits, radix) then Some(DigitsValue(digits, radix)) else None
    else
      var negative := t[0] == '-';
      var digits := if t[0] == '-' || t[0] == '+' then t[1..] else t;
      if digits != [] && AllRadixDigits(digits, 10) then
        var magnitude: int := DigitsValue(digits, 10);
        Some(if negative then -magnitude else magnitude)
      else None
  }

  /** BigInt.prototype.toString() in radix 10. Every numeral it prints is
      canonical. */
  function BigIntToString(n: int): (s: string)
    ensures IsCanonicalInteger(s)
  {
    if n < 0 then "-" + NatToDecimal(-n) else NatToDecimal(n)
  }

  /** s.padStart(width, fill) for a one-character fill string: `s` is kept
      as the suffix and filled on the left up to `width` characters. */
  function PadStart(s: string, width: nat, fill: char): (r: string)
    ensures |r| >= width && |r| >= |s| && r[|r| - |s|..] == s
    ensures |s| < width ==> |r| == width
    ensures forall i | 0 <= i < |r| - |s| :: r[i] == fill
  {
    if |s| < width then Repeat(fill, width - |s|) + s else s
  }

  /** s.split(sep) for a one-character separator and no limit. */
  function Split(s: string, sep: char): (parts: seq<string>)
    ensures |parts| >= 1
  {
    if s == [] then [[]]
    else
      var rest := Split(s[1..], sep);
      if s[0] == sep then [[]] + rest else [[s[0]] + rest[0]] + rest[1..]
  }

  /** The parts joined with `sep` between consecutive ones, the inverse of
      Split. */
  function Join(parts: seq<string>, sep: char): string
    requires |parts| >= 1
  {
    if |parts| == 1 then parts[0] else parts[0] + [sep] + Join(parts[1..], sep)
  }

  /** The lower-case form of an ASCII letter; every other character is
      unchanged. */
  function LowerAscii(c: char): (d: char)
    ensures 'A' <= c <= 'Z' ==> 'a' <= d <= 'z'
    ensures !('A' <= c <= 'Z') ==> d == c
  {
    if 'A' <= c <= 'Z' then (c as int - 'A' as int + 'a' as int) as char else c
  }

  /** s.toLowerCase() on strings of ASCII characters. */
  function ToLowerCase(s: string): (r: string)
    ensures |r| == |s| && forall i | 0 <= i < |s| :: r[i] == LowerAscii(s[i])
  {
    if s == [] then [] else [LowerAscii(s[0])] + ToLowerCase(s[1..])
  }

  /** s.replaceAll(c, '') for a one-character pattern: every occurrence of
      `c` removed, everything else kept in order. */
  function RemoveAll(s: string, c: char): (r: string)
    ensures |r| <= |s|
    ensures forall i | 0 <= i < |r| :: r[i] != c
  {
    if s == [] then []
    else if s[0] == c then RemoveAll(s[1..], c)
    else [s[0]] + RemoveAll(s[1..], c)
  }

  // ---------------------------------------------------------------------
  // Properties

  /** White space and digits are disjoint. */
  lemma WhiteSpaceIsNoDigit(c: char)
    requires IsStrWhiteSpace(c)
    ensures DigitValue(c) == 36
  {
  }

  /** A string without white space at either end is its own trim. */
  lemma TrimOfUnpadded(s: string)
    requires s != [] && !IsStrWhiteSpace(s[0]) && !IsStrWhiteSpace(s[|s| - 1])
    ensures Trim(s) == s
  {
  }

  /** The digit run `ds` is read up to the first character `rest` starts
      with that is no digit. */
  lemma {:induction false} DigitPrefixOfNumeral(ds: string, rest: string, radix: nat)
    requires AllRadixDigits(ds, radix)
    requires rest == [] || !IsRadixDigit(rest[0], radix)
    ensures DigitPrefixLength(ds + rest, radix) == |ds|
  {
    if ds == [] {
      assert ds + rest == rest;
    } else {
      assert (ds + rest)[1..] == ds[1..] + rest;
      DigitPrefixOfNumeral(ds[1..], rest, radix);
    }
  }

  /** parseInt reads a leading numeral in its radix (10 when the radix is
      omitted) and ignores whatever follows it from the first non-digit;
      in radix 16 or an omitted radix, the numeral must not start with
      "0x", which selects radix 16 instead. */
  lemma ParseIntOfNumeral(ds: string, rest: string, radix: int)
    requires radix == 0 || 2 <= radix <= 36
    requires ds != [] && AllRadixDigits(ds, ReadBase(radix))
    requires rest == [] || !IsRadixDigit(rest[0], ReadBase(radix))
    requires (radix == 0 || radix == 16) ==> !HasHexPrefix(ds + rest)
    ensures ParseInt(ds + rest, radix) == Some(DigitsValue(ds, ReadBase(radix)))
  {
    var u := ds + rest;
    NumeralStart(ds, rest, radix);
    assert TrimStart(u) == u;
    assert ParseSigned(u, radix) == ParseUnsigned(u, radix);
    ParseUnsignedOfNumeral(ds, rest, radix);
  }

  /** A numeral starts with neither white space nor a sign. */
  lemma NumeralStart(ds: string, rest: string, radix: int)
    requires radix == 0 || 2 <= radix <= 36
    requires ds != [] && AllRadixDigits(ds, ReadBase(radix))
    ensures var u := ds + rest;
      u[0] == ds[0] && !IsStrWhiteSpace(u[0]) && u[0] != '-' && u[0] != '+'
  {
    var u := ds + rest;
    assert u[0] == ds[0] && DigitValue(ds[0]) < 36;
    if IsStrWhiteSpace(u[0]) {
      WhiteSpaceIsNoDigit(u[0]);
    }
    assert DigitValue('-') == 36 && DigitValue('+') == 36;
  }

  /** Without a sign, the numeral is read in the radix. */
  lemma ParseUnsignedOfNumeral(ds: string, rest: string, radix: int)
    requires radix == 0 || 2 <= radix <= 36
    requires ds != [] && AllRadixDigits(ds, ReadBase(radix))
    requires rest == [] || !IsRadixDigit(rest[0], ReadBase(radix))
    requires (radix == 0 || radix == 16) ==> !HasHexPrefix(ds + rest)
    ensures ParseUnsigned(ds + rest, radix) == Some(DigitsValue(ds, ReadBase(radix)))
  {
    ReadDigitsOfNumeral(ds, rest, ReadBase(radix));
  }


  /** A run of digits is read up to the first character that is no digit. */
  lemma ReadDigitsOfNumeral(ds: string, rest: string, base: nat)
    requires ds != [] && AllRadixDigits(ds, base)
    requires rest == [] || !IsRadixDigit(rest[0], base)
    ensures ReadDigits(ds + rest, base) == Some(DigitsValue(ds, base))
  {
    DigitPrefixOfNumeral(ds, rest, base);
    assert (ds + rest)[..|ds|] == ds;
  }

  /** TrimStart removes exactly a run of leading white space. */
  lemma {:induction false} TrimStartOfPadded(ws: string, t: string)
    requires forall i | 0 <= i < |ws| :: IsStrWhiteSpace(ws[i])
    requires t == [] || !IsStrWhiteSpace(t[0])
    ensures TrimStart(ws + t) == t
  {
    if ws == [] {
      assert ws + t == t;
    } else {
      assert (ws + t)[1..] == ws[1..] + t;
      TrimStartOfPadded(ws[1..], t);
    }
  }

  /** parseInt ignores leading white space. */
  lemma ParseIntSkipsWhiteSpace(ws: string, t: string, radix: int)
    requires forall i | 0 <= i < |ws| :: IsStrWhiteSpace(ws[i])
    requires t == [] || !IsStrWhiteSpace(t[0])
    ensures ParseInt(ws + t, radix) == ParseInt(t, radix)
  {
    TrimStartOfPadded(ws, t);
    assert TrimStart(t) == t;
  }

  /** In any radix, parseInt skips leading white space and one sign, then
      reads the run of digits that follows, up to the first character that
      is no digit, and negates it after a '-'. */
  lemma ParseIntOfSignedNumeral(ws: string, sign: string, ds: string, rest: string, radix: int)
    requires forall i | 0 <= i < |ws| :: IsStrWhiteSpace(ws[i])
    requires sign == "" || sign == "+" || sign == "-"
    requires radix == 0 || 2 <= radix <= 36
    requires ds != [] && AllRadixDigits(ds, ReadBase(radix))
    requires rest == [] || !IsRadixDigit(rest[0], ReadBase(radix))
    requires (radix == 0 || radix == 16) ==> !HasHexPrefix(ds + rest)
    ensures ParseInt(ws + sign + ds + rest, radix) == Some(Signed(sign, DigitsValue(ds, ReadBase(radix))))
  {
    var v: int := DigitsValue(ds, ReadBase(radix));
    var t := sign + (ds + rest);
    assert ParseSigned(t, radix) == Some(Signed(sign, v)) by {
      NumeralStart(ds, rest, radix);
      ParseUnsignedOfNumeral(ds, rest, radix);
      ParseSignedOfSign(sign, ds + rest, radix);
    }
    assert t == [] || !IsStrWhiteSpace(t[0]) by {
      NumeralStart(ds, rest, radix);
    }
    assert ParseInt(ws + t, radix) == ParseSigned(t, radix) by {
      TrimStartOfPadded(ws, t);
    }
    Regroup(ws, sign, ds, rest);
  }

  /** The value a sign gives a magnitude. */
  function Signed(sign: string, v: int): (r: int)
    ensures sign == "-" ==> r == -v
    ensures sign != "-" ==> r == v
  {
    if sign == "-" then -v else v
  }

  /** An optional sign in front of an unsigned numeral applies to its value. */
  lemma ParseSignedOfSign(sign: string, u: string, radix: int)
    requires sign == "" || sign == "+" || sign == "-"
    requires radix == 0 || 2 <= radix <= 36
    requires u != [] && u[0] != '-' && u[0] != '+'
    requires ParseUnsigned(u, radix).Some?
    ensures ParseSigned(sign + u, radix) == Some(Signed(sign, ParseUnsigned(u, radix).value))
  {
    if sign == "-" {
      ParseSignedMinus(u, radix);
    } else if sign == "+" {
      ParseSignedPlus(u, radix);
    } else {
      assert sign + u == u;
      ParseSignedUnsigned(u, radix);
    }
  }

  lemma ParseSignedMinus(u: string, radix: int)
    requires radix == 0 || 2 <= radix <= 36
    requires ParseUnsigned(u, radix).Some?
    ensures ParseSigned("-" + u, radix) == Some(-ParseUnsigned(u, radix).value)
  {
    assert ("-" + u)[0] == '-' && ("-" + u)[1..] == u;
  }

  lemma ParseSignedPlus(u: string, radix: int)
    requires radix == 0 || 2 <= radix <= 36
    ensures ParseSigned("+" + u, radix) == ParseUnsigned(u, radix)
  {
    assert ("+" + u)[0] == '+' && ("+" + u)[1..] == u;
  }

  lemma ParseSignedUnsigned(u: string, radix: int)
    requires radix == 0 || 2 <= radix <= 36
    requires u != [] && u[0] != '-' && u[0] != '+'
    ensures ParseSigned(u, radix) == ParseUnsigned(u, radix)
  {
  }

  lemma Associative(a: string, b: string, c: string)
    ensures a + b + c == a + (b + c)
  {
  }

  lemma Regroup(a: string, b: string, c: string, d: string)
    ensures a + b + c + d == a + (b + (c + d))
  {
  }

  /** In radix 16 (or an omitted radix) parseInt skips a "0x" prefix and
      reads the hex numeral after it. */
  lemma ParseIntAfterHexPrefix(ds: string, rest: string, radix: int)
    requires radix == 0 || radix == 16
    requires ds != [] && AllRadixDigits(ds, 16)
    requires rest == [] || !IsRadixDigit(rest[0], 16)
    ensures ParseInt("0x" + ds + rest, radix) == Some(DigitsValue(ds, 16))
  {
    var u := ds + rest;
    assert "0x" + ds + rest == "0x" + u;
    assert ParseInt("0x" + u, radix) == ReadDigits(u, 16) by {
      HexPrefixRead(u, radix);
    }
    ReadDigitsOfNumeral(ds, rest, 16);
  }

  /** After leading white space and one optional sign, a "0x" prefix is
      still skipped in radix 16 (or an omitted radix), and the sign
      applies to the hex numeral after it. */
  lemma ParseIntOfSignedHexPrefixed(ws: string, sign: string, ds: string, rest: string, radix: int)
    requires forall i | 0 <= i < |ws| :: IsStrWhiteSpace(ws[i])
    requires sign == "" || sign == "+" || sign == "-"
    requires radix == 0 || radix == 16
    requires ds != [] && AllRadixDigits(ds, 16)
    requires rest == [] || !IsRadixDigit(rest[0], 16)
    ensures ParseInt(ws + sign + ("0x" + (ds + rest)), radix) == Some(Signed(sign, DigitsValue(ds, 16)))
  {
    var u := "0x" + (ds + rest);
    var t := sign + u;
    assert ParseUnsigned(u, radix) == Some(DigitsValue(ds, 16)) by {
      assert u[0] == '0' && u[1] == 'x' && u[2..] == ds + rest;
      ReadDigitsOfNumeral(ds, rest, 16);
    }
    assert ParseSigned(t, radix) == Some(Signed(sign, DigitsValue(ds, 16))) by {
      ParseSignedOfSign(sign, u, radix);
    }
    assert t[0] == '0' || t[0] == '-' || t[0] == '+';
    assert ParseInt(ws + t, radix) == ParseSigned(t, radix) by {
      TrimStartOfPadded(ws, t);
    }
    Associative(ws, sign, u);
  }

  /** White space and a sign with no digit after them give NaN. */
  lemma ParseIntWithoutDigits(ws: string, sign: string, t: string, radix: int)
    requires forall i | 0 <= i < |ws| :: IsStrWhiteSpace(ws[i])
    requires sign == "" || sign == "+" || sign == "-"
    requires radix == 0 || 2 <= radix <= 36
    requires t == [] || (!IsRadixDigit(t[0], ReadBase(radix)) && !IsStrWhiteSpace(t[0]) && t[0] != '-' && t[0] != '+')
    ensures ParseInt(ws + sign + t, radix) == None
  {
    assert ParseUnsigned(t, radix) == None by {
      assert t == [] || t[0] != '0';
    }
    var v := sign + t;
    assert ParseSigned(v, radix) == None by {
      ParseSignedOfNoDigits(sign, t, radix);
    }
    assert v == [] || v[0] == '-' || v[0] == '+' || v[0] == t[0];
    assert ParseInt(ws + v, radix) == ParseSigned(v, radix) by {
      TrimStartOfPadded(ws, v);
    }
    Associative(ws, sign, t);
  }

  lemma ParseSignedOfNoDigits(sign: string, t: string, radix: int)
    requires sign == "" || sign == "+" || sign == "-"
    requires radix == 0 || 2 <= radix <= 36
    requires t == [] || (t[0] != '-' && t[0] != '+')
    requires ParseUnsigned(t, radix) == None
    ensures ParseSigned(sign + t, radix) == None
  {
    if sign == "-" {
      assert (sign + t)[0] == '-' && (sign + t)[1..] == t;
    } else if sign == "+" {
      ParseSignedPlus(t, radix);
    } else {
      assert sign + t == t;
    }
  }

  lemma HexPrefixRead(u: string, radix: int)
    requires radix == 0 || radix == 16
    ensures ParseInt("0x" + u, radix) == ReadDigits(u, 16)
  {
    var s := "0x" + u;
    assert s[0] == '0' && s[1] == 'x' && s[2..] == u;
    assert TrimStart(s) == s;
    assert ParseSigned(s, radix) == ParseUnsigned(s, radix);
  }

  /** parseInt of a printed natural number gives the number back. */
  lemma ParseIntOfDecimal(n: nat)
    ensures ParseInt(NatToDecimal(n), 0) == Some(n)
  {
    var s := NatToDecimal(n);
    assert s + [] == s;
    DecimalRoundTrip(n);
    ParseIntOfNumeral(s, [], 0);
  }

  /** Split and Join are inverse: joining the parts restores the string. */
  lemma {:induction false} JoinSplit(s: string, sep: char)
    ensures Join(Split(s, sep), sep) == s
  {
    if s != [] {
      JoinSplit(s[1..], sep);
      var rest := Split(s[1..], sep);
      if s[0] != sep && |rest| > 1 {
        assert [s[0]] + rest[0] + [sep] + Join(rest[1..], sep) == [s[0]] + (rest[0] + [sep] + Join(rest[1..], sep));
        assert ([[s[0]] + rest[0]] + rest[1..])[1..] == rest[1..];
      }
    }
  }

  /** No part produced by Split contains the separator. */
  lemma {:induction false} SplitPartsLackSeparator(s: string, sep: char)
    ensures forall i | 0 <= i < |Split(s, sep)| :: sep !in Split(s, sep)[i]
  {
    if s != [] {
      SplitPartsLackSeparator(s[1..], sep);
    }
  }

  /** A string without the separator splits into itself alone. */
  lemma {:induction false} SplitWithoutSeparator(s: string, sep: char)
    requires sep !in s
    ensures Split(s, sep) == [s]
  {
    if s != [] {
      SplitWithoutSeparator(s[1..], sep);
      assert [s[0]] + s[1..] == s;
    }
  }

  /** Splitting at the first separator: the part before it comes first. */
  lemma {:induction false} SplitAtFirst(a: string, b: string, sep: char)
    requires sep !in a
    ensures Split(a + [sep] + b, sep) == [a] + Split(b, sep)
  {
    if a != [] {
      assert (a + [sep] + b)[1..] == a[1..] + [sep] + b;
      SplitAtFirst(a[1..], b, sep);
      assert [a[0]] + a[1..] == a;
    } else {
      assert a + [sep] + b == [sep] + b;
    }
  }
}
