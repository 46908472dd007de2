/** Member birthdays (src/models/Birthday.ts): the record {year, month,
    day}, where a null year means the year is hidden, and the two codecs
    between it and the API's "YYYY-MM-DD" text, in which the year 0004
    stands for a hidden year. */
module Birthday {
  import opened Wrappers
  import opened Numerals
  import opened EcmaScript

  /** The schema's record; the numbers are the integers (fractions are
      not modelled). */
  datatype Birthday = Birthday(year: Option<int>, month: int, day: int)

  /** The year BirthdayToString prints: `input.year ? input.year : 4`, so a
      null year and the falsy year 0 both print as 4. */
  function YearField(year: Option<int>): (y: int)
    ensures year.None? ==> y == 4
    ensures year == Some(0) ==> y == 4
    ensures year.Some? && year.value != 0 ==> y == year.value
  {
    if year.None? || year.value == 0 then 4 else year.value
  }

  /** `n.toString().padStart(width, '0')`. For integers Number's toString
      prints the same numeral as BigInt's (below 10^21). */
  function Field(n: int, width: nat): string {
    PadStart(BigIntToString(n), width, '0')
  }

  /** BirthdayToString: the year, month and day fields zero-padded to 4, 2
      and 2 characters, joined with '-'. */
  function Encode(b: Birthday): string {
    Field(YearField(b.year), 4) + "-" + Field(b.month, 2) + "-" + Field(b.day, 2)
  }

  /** The pattern /^[0-9]{4}-[0-9]{2}-[0-9]{2}$/. */
  predicate MatchesFormat(s: string) {
    |s| == 10 && s[4] == '-' && s[7] == '-'
    && AllRadixDigits(s[..4], 10) && AllRadixDigits(s[5..7], 10) && AllRadixDigits(s[8..], 10)
  }

  /** The birthday decoded from the three field values: year 4 is the
      hidden year. */
  function FromFields(year: int, month: int, day: int): (b: Birthday)
    ensures b.year.None? <==> year == 4
    ensures b.year.Some? ==> b.year.value == year
    ensures b.month == month && b.day == day
  {
    Birthday(if year == 4 then None else Some(year), month, day)
  }

  /** BirthdayFromString: the pattern test, then split('-') and parseInt of
      the first three parts; None is the schema's rejection. */
  function Decode(s: string): (r: Option<Birthday>)
    ensures r.Some? <==> MatchesFormat(s)
    ensures r.Some? ==>
      r.value == FromFields(DigitsValue(s[..4], 10), DigitsValue(s[5..7], 10), DigitsValue(s[8..], 10))
  {
    if !MatchesFormat(s) then None
    else
      var parts := Split(s, '-');
      SplitFormat(s);
      match (ParseInt(parts[0], 0), ParseInt(parts[1], 0), ParseInt(parts[2], 0))
      case (Some(year), Some(month), Some(day)) => Some(FromFields(year, month, day))
      case _ => None
  }

  /** The birthdays that survive a round trip through the text form: the
      year is hidden or in 1..9999 but not 4, and month and day have at
      most two digits. */
  predicate Representable(b: Birthday) {
    (b.year.None? || (1 <= b.year.value <= 9999 && b.year.value != 4))
    && 0 <= b.month <= 99 && 0 <= b.day <= 99
  }

  // ---------------------------------------------------------------------
  // Properties

  /** The encoding is in the pattern exactly when the printed year is in
      0..9999 and month and day in 0..99: a negative number prints a '-' and
      a wider one widens its field. */
  lemma EncodeMatchesFormat(b: Birthday)
    ensures MatchesFormat(Encode(b)) <==>
      0 <= YearField(b.year) <= 9999 && 0 <= b.month <= 99 && 0 <= b.day <= 99
  {
    var y, m, d := Field(YearField(b.year), 4), Field(b.month, 2), Field(b.day, 2);
    FieldFormat(YearField(b.year), 4);
    FieldFormat(b.month, 2);
    FieldFormat(b.day, 2);
    FormatOfFields(y, m, d);
  }

  /** Decoding the encoding gives the birthday back exactly when it is
      representable: year 0 and year 4 come back hidden, and a negative or
      too wide field breaks the pattern. */
  lemma DecodeEncode(b: Birthday)
    ensures Decode(Encode(b)) == Some(b) <==> Representable(b)
  {
    EncodeMatchesFormat(b);
    DecodeOfEncode(b);
    RoundTripOfFields(b, Decode(Encode(b)), MatchesFormat(Encode(b)));
  }

  /** An encoding in the pattern decodes to the birthday rebuilt from its
      printed fields. */
  lemma DecodeOfEncode(b: Birthday)
    ensures Decode(Encode(b)).Some? <==> MatchesFormat(Encode(b))
    ensures MatchesFormat(Encode(b)) ==>
      Decode(Encode(b)) == Some(FromFields(YearField(b.year), b.month, b.day))
  {
    var yf := YearField(b.year);
    var s := Encode(b);
    var y, m, d := Field(yf, 4), Field(b.month, 2), Field(b.day, 2);
    assert s == y + "-" + m + "-" + d;
    if MatchesFormat(s) {
      FieldFormat(yf, 4);
      FieldFormat(b.month, 2);
      FieldFormat(b.day, 2);
      FormatOfFields(y, m, d);
      ZeroPaddedValue(yf, 4);
      ZeroPaddedValue(b.month, 2);
      ZeroPaddedValue(b.day, 2);
    }
  }

  /** The round trip as a consequence of the two facts above, stated of
      the decoded value `r` and the pattern test `matches`. */
  lemma RoundTripOfFields(b: Birthday, r: Option<Birthday>, matches: bool)
    requires r.Some? <==> matches
    requires matches <==> 0 <= YearField(b.year) <= 9999 && 0 <= b.month <= 99 && 0 <= b.day <= 99
    requires matches ==> r == Some(FromFields(YearField(b.year), b.month, b.day))
    ensures r == Some(b) <==> Representable(b)
  {
    HiddenYearRoundTrip(b);
  }

  /** Rebuilding a birthday from its printed year gives it back unless the
      year is 0 or 4, which come back hidden. */
  lemma HiddenYearRoundTrip(b: Birthday)
    ensures FromFields(YearField(b.year), b.month, b.day) == b <==>
      b.year.None? || (b.year.value != 0 && b.year.value != 4)
  {
  }

  /** Encoding the decoded text gives the text back, unless its year field
      is "0000" (see YearZeroShownAsHidden). */
  lemma EncodeDecode(s: string)
    requires MatchesFormat(s) && s[..4] != "0000"
    ensures Encode(Decode(s).value) == s
  {
    var y, m, d := DigitsValue(s[..4], 10), DigitsValue(s[5..7], 10), DigitsValue(s[8..], 10);
    var b := Decode(s).value;
    assert b == FromFields(y, m, d);
    PaddedNumeral(s[..4]);
    if y == 0 {
      FieldOfZero();
      assert false;
    }
    assert YearField(b.year) == y;
    assert Encode(b) == Field(y, 4) + "-" + Field(m, 2) + "-" + Field(d, 2);
    PaddedNumeral(s[5..7]);
    PaddedNumeral(s[8..]);
    JoinFields(s);
  }

  /** The year 0000 decodes to year 0... */
  lemma YearZeroDecoded()
    ensures Decode("0000-01-01") == Some(Birthday(Some(0), 1, 1))
  {
    var s := "0000-01-01";
    assert s[..4] == "0000" && s[5..7] == "01" && s[8..] == "01";
    assert MatchesFormat(s);
    ValueOfFieldExamples();
  }

  /** ...which is falsy, so whatever the month and day it is printed as
      the hidden year 0004, exactly as a null year is. */
  lemma YearZeroShownAsHidden(b: Birthday)
    requires b.year == Some(0)
    ensures Encode(b) == Encode(b.(year := None))
    ensures Encode(b)[..4] == "0004"
  {
    EncodeParts(b);
    EncodeParts(b.(year := None));
    assert YearField(b.year) == YearField(None) == 4;
    FieldOfFour();
  }

  /** The encoding is the year field followed by the rest. */
  lemma EncodeParts(b: Birthday)
    ensures Encode(b) == Field(YearField(b.year), 4) + ("-" + Field(b.month, 2) + "-" + Field(b.day, 2))
    ensures |Field(YearField(b.year), 4)| >= 4
    ensures Encode(b)[..|Field(YearField(b.year), 4)|] == Field(YearField(b.year), 4)
  {
    var y, m, d := Field(YearField(b.year), 4), Field(b.month, 2), Field(b.day, 2);
    JoinedFieldsSplitAfterYear(y, m, d);
  }

  /** Three fields joined with '-' start with the first one. */
  lemma JoinedFieldsSplitAfterYear(y: string, m: string, d: string)
    ensures y + "-" + m + "-" + d == y + ("-" + m + "-" + d)
    ensures (y + "-" + m + "-" + d)[..|y|] == y
  {
  }

  /** The cases of the tests: the birthday 2004-01-01 and one with a
      hidden year are encoded... */
  lemma EncodeExample(b: Birthday)
    requires b.year == Some(2004) && b.month == 1 && b.day == 1
    ensures Encode(b) == "2004-01-01"
  {
    var s := "2004-01-01";
    assert s[..4] == "2004" && s[5..7] == "01" && s[8..] == "01";
    assert MatchesFormat(s);
    ValueOf2004();
    ValueOfFieldExamples();
    assert Decode(s) == Some(b);
    EncodeDecode(s);
  }

  lemma EncodeHiddenYearExample(b: Birthday)
    requires b.year == None && b.month == 1 && b.day == 1
    ensures Encode(b) == "0004-01-01"
  {
    FieldOfFour();
    FieldOfOne();
  }

  /** ...0004-01-01 decodes to a hidden year, and a text in another format
      is rejected. */
  lemma DecodeExamples()
    ensures Decode("0004-01-01") == Some(Birthday(None, 1, 1))
    ensures Decode("00-00-00") == None
  {
    var s := "0004-01-01";
    assert s[..4] == "0004" && s[5..7] == "01" && s[8..] == "01";
    assert MatchesFormat(s);
    ValueOfFieldExamples();
  }

  lemma FieldOfFour()
    ensures Field(4, 4) == "0004"
  {
    assert BigIntToString(4) == "4";
    assert Repeat('0', 3) == "000";
  }

  lemma FieldOfOne()
    ensures Field(1, 2) == "01"
  {
    assert BigIntToString(1) == "1";
    assert Repeat('0', 1) == "0";
  }

  lemma ValueOf2004()
    ensures DigitsValue("2004", 10) == 2004
  {
    assert "2004"[..3] == "200" && "200"[..2] == "20" && "20"[..1] == "2" && "2"[..0] == [];
  }

  lemma FieldOfZero()
    ensures Field(0, 4) == "0000"
  {
    assert BigIntToString(0) == "0";
    assert Repeat('0', 3) == "000";
  }

  lemma ValueOfFieldExamples()
    ensures DigitsValue("0000", 10) == 0 && DigitsValue("0004", 10) == 4
    ensures DigitsValue("01", 10) == 1
  {
    assert DigitsValue("0", 10) == 0 by { assert "0"[..0] == []; }
    assert DigitsValue("4", 10) == 4 by { assert "4"[..0] == []; }
    assert DigitsValue("1", 10) == 1 by { assert "1"[..0] == []; }
    LeadingZeroValue("0", 10);
    LeadingZeroValue("4", 10);
    LeadingZeroValue("1", 10);
    assert "0" + "0" == "00" && "0" + "4" == "04" && "0" + "1" == "01";
    LeadingZeroValue("00", 10);
    LeadingZeroValue("04", 10);
    assert "0" + "00" == "000" && "0" + "04" == "004";
    LeadingZeroValue("000", 10);
    LeadingZeroValue("004", 10);
    assert "0" + "000" == "0000" && "0" + "004" == "0004";
  }

  // ---------------------------------------------------------------------
  // Helpers

  /** A padded field is `width` digits exactly when the number has at most
      `width` digits and is not negative. */
  lemma FieldFormat(n: int, width: nat)
    requires width >= 1
    ensures |Field(n, width)| >= width
    ensures (|Field(n, width)| == width && AllRadixDigits(Field(n, width), 10)) <==> 0 <= n < Pow(10, width)
  {
    if n < 0 {
      NegativeFieldHasSign(n, width);
    } else {
      NatToDecimalLength(n, width);
      if n < Pow(10, width) {
        PaddedDigits(NatToDecimal(n), width);
      }
    }
  }

  /** A negative number keeps its '-' after padding. */
  lemma NegativeFieldHasSign(n: int, width: nat)
    requires n < 0
    ensures !AllRadixDigits(Field(n, width), 10)
  {
    var t := BigIntToString(n);
    var f := Field(n, width);
    assert t[0] == '-';
    assert f[|f| - |t|..] == t;
    assert f[|f| - |t|] == '-';
  }

  /** Padding a digit run with '0' gives a digit run. */
  lemma PaddedDigits(t: string, width: nat)
    requires AllRadixDigits(t, 10)
    ensures AllRadixDigits(PadStart(t, width, '0'), 10)
  {
    var f := PadStart(t, width, '0');
    forall i | 0 <= i < |f|
      ensures IsRadixDigit(f[i], 10)
    {
      if i >= |f| - |t| {
        assert f[i] == f[|f| - |t|..][i - (|f| - |t|)];
      }
    }
  }

  /** The joined fields match the pattern exactly when each has its
      minimal width and is all digits. */
  lemma FormatOfFields(y: string, m: string, d: string)
    requires |y| >= 4 && |m| >= 2 && |d| >= 2
    ensures MatchesFormat(y + "-" + m + "-" + d) <==>
      |y| == 4 && |m| == 2 && |d| == 2
      && AllRadixDigits(y, 10) && AllRadixDigits(m, 10) && AllRadixDigits(d, 10)
    ensures |y| == 4 && |m| == 2 && |d| == 2 ==>
      var s := y + "-" + m + "-" + d;
      s[..4] == y && s[5..7] == m && s[8..] == d
  {
    var s := y + "-" + m + "-" + d;
    if |y| == 4 && |m| == 2 && |d| == 2 {
      assert s[..4] == y && s[5..7] == m && s[8..] == d;
    }
  }

  lemma JoinFields(s: string)
    requires |s| == 10 && s[4] == '-' && s[7] == '-'
    ensures s == s[..4] + "-" + s[5..7] + "-" + s[8..]
  {
  }

  /** The value of a zero-padded field is the number. */
  lemma ZeroPaddedValue(n: int, width: nat)
    requires width >= 1 && 0 <= n < Pow(10, width)
    ensures AllRadixDigits(Field(n, width), 10) && DigitsValue(Field(n, width), 10) == n
  {
    NatToDecimalLength(n, width);
    ZeroPaddedNumeral(n, width);
  }

  lemma {:induction false} ZeroPaddedNumeral(n: int, width: nat)
    requires 0 <= n && |NatToDecimal(n)| <= width
    ensures AllRadixDigits(Field(n, width), 10) && DigitsValue(Field(n, width), 10) == n
    decreases width
  {
    var t := NatToDecimal(n);
    assert BigIntToString(n) == t;
    if |t| == width {
      assert Field(n, width) == t;
      DecimalRoundTrip(n);
      assert DigitsValue(t, 10) == n;
    } else {
      var f := Field(n, width - 1);
      ZeroPaddedNumeral(n, width - 1);
      PadOneMore(t, width);
      assert Field(n, width) == "0" + f;
      LeadingZeroValue(f, 10);
      assert DigitsValue("0" + f, 10) == n;
    }
  }

  /** A numeral of `k` digits is the zero-padded printing of its value. */
  lemma {:induction false} PaddedNumeral(ds: string)
    requires |ds| >= 1 && AllRadixDigits(ds, 10)
    ensures Field(DigitsValue(ds, 10), |ds|) == ds
  {
    if ds[0] == '0' && |ds| > 1 {
      var tail := ds[1..];
      assert ds == "0" + tail;
      LeadingZeroValue(tail, 10);
      var v := DigitsValue(tail, 10);
      PaddedNumeral(tail);
      var t := NatToDecimal(v);
      assert BigIntToString(v) == t;
      assert |t| <= |tail|;
      PadOneMore(t, |ds|);
    } else {
      CanonicalRoundTrip(ds);
    }
  }

  /** Padding one character wider puts one more '0' in front. */
  lemma PadOneMore(t: string, width: nat)
    requires |t| < width
    ensures PadStart(t, width, '0') == "0" + PadStart(t, width - 1, '0')
  {
    assert Repeat('0', width - |t|) == "0" + Repeat('0', width - 1 - |t|);
  }

  /** A text in the pattern splits into its three fields, and parseInt
      reads each as a decimal numeral. */
  lemma SplitFormat(s: string)
    requires MatchesFormat(s)
    ensures Split(s, '-') == [s[..4], s[5..7], s[8..]]
    ensures ParseInt(s[..4], 0) == Some(DigitsValue(s[..4], 10))
    ensures ParseInt(s[5..7], 0) == Some(DigitsValue(s[5..7], 10))
    ensures ParseInt(s[8..], 0) == Some(DigitsValue(s[8..], 10))
  {
    var y, m, d := s[..4], s[5..7], s[8..];
    NoSeparatorInDigits(y);
    NoSeparatorInDigits(m);
    NoSeparatorInDigits(d);
    assert s == y + ['-'] + (m + ['-'] + d);
    SplitAtFirst(y, m + ['-'] + d, '-');
    SplitAtFirst(m, d, '-');
    SplitWithoutSeparator(d, '-');
    DecimalParse(y);
    DecimalParse(m);
    DecimalParse(d);
  }

  lemma NoSeparatorInDigits(ds: string)
    requires AllRadixDigits(ds, 10)
    ensures '-' !in ds
  {
  }

  lemma DecimalParse(ds: string)
    requires |ds| >= 1 && AllRadixDigits(ds, 10)
    ensures ParseInt(ds, 0) == Some(DigitsValue(ds, 10))
  {
    assert ds + [] == ds;
    if |ds| >= 2 {
      assert IsRadixDigit(ds[1], 10);
    }
    ParseIntOfNumeral(ds, [], 0);
  }
}
