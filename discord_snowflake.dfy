/** Discord snowflake identifiers (src/models/DiscordSnowflake.ts): a string
    is accepted when converting it to a BigInt and printing that back gives
    the same string; a conversion that throws means rejection. The guild,
    channel, user and message brands add a compile-time tag only, so they
    are the same set of strings. */
module DiscordSnowflake {
  import opened Wrappers
  import opened Numerals
  import opened EcmaScript

  /** The refinement: `BigInt(s).toString() === s`, false when BigInt throws. */
  predicate IsSnowflake(s: string) {
    match StringToBigInt(s)
    case None => false
    case Some(n) => BigIntToString(n) == s
  }

  type Snowflake = s: string | IsSnowflake(s) witness "0"

  /** The branded aliases accept exactly the strings Snowflake accepts. */
  type GuildSnowflake = Snowflake
  type ChannelSnowflake = Snowflake
  type UserSnowflake = Snowflake
  type MessageSnowflake = Snowflake

  /** The schema: an accepted string is returned unchanged. */
  function Parse(s: string): (r: Option<Snowflake>)
    ensures r.Some? ==> r.value == s
    ensures r.Some? <==> IsCanonicalInteger(s)
  {
    SnowflakeIsCanonicalInteger(s);
    if IsSnowflake(s) then Some(s) else None
  }

  /** The accepted strings are exactly the canonical decimal numerals of
      integers: no white space, no '+', no radix prefix, no leading zero
      unless the numeral is "0", and '-' only before a nonzero value. */
  lemma SnowflakeIsCanonicalInteger(s: string)
    ensures IsSnowflake(s) <==> IsCanonicalInteger(s)
  {
    if IsCanonicalNatural(s) {
      NaturalIsSnowflake(s);
    } else if IsCanonicalInteger(s) {
      NegativeIsSnowflake(s);
    }
  }

  lemma NaturalIsSnowflake(s: string)
    requires IsCanonicalNatural(s)
    ensures IsSnowflake(s)
  {
    ConvertCanonicalNatural(s);
    CanonicalRoundTrip(s);
  }

  lemma NegativeIsSnowflake(s: string)
    requires |s| >= 2 && s[0] == '-' && IsCanonicalNatural(s[1..]) && s[1] != '0'
    ensures IsSnowflake(s)
  {
    NegativeValue(s);
    NegativePrint(s);
  }

  lemma NegativeValue(s: string)
    requires |s| >= 2 && s[0] == '-' && IsCanonicalNatural(s[1..]) && s[1] != '0'
    ensures DigitsValue(s[1..], 10) >= 1
    ensures StringToBigInt(s) == Some(0 - DigitsValue(s[1..], 10))
  {
    var d := s[1..];
    assert d[0] == s[1];
    LeadingDigitLowerBound(d, 10);
    ConvertCanonicalNegative(s);
  }

  lemma NegativePrint(s: string)
    requires |s| >= 2 && s[0] == '-' && IsCanonicalNatural(s[1..]) && s[1] != '0'
    requires DigitsValue(s[1..], 10) >= 1
    ensures BigIntToString(0 - DigitsValue(s[1..], 10)) == s
  {
    var d := s[1..];
    var v: int := DigitsValue(d, 10);
    CanonicalRoundTrip(d);
    assert s == "-" + d;
  }

  /** A canonical numeral has no white space to trim. */
  lemma TrimOfCanonical(s: string)
    requires IsCanonicalInteger(s)
    ensures Trim(s) == s
  {
    var last := s[|s| - 1];
    assert IsRadixDigit(last, 10);
    if IsStrWhiteSpace(s[0]) { WhiteSpaceIsNoDigit(s[0]); }
    if IsStrWhiteSpace(last) { WhiteSpaceIsNoDigit(last); }
    TrimOfUnpadded(s);
  }

  lemma ConvertCanonicalNatural(s: string)
    requires IsCanonicalNatural(s)
    ensures StringToBigInt(s) == Some(DigitsValue(s, 10))
  {
    TrimOfCanonical(s);
    assert StringToBigInt(s) == StringIntegerLiteralValue(s);
    assert IsRadixDigit(s[0], 10);
    assert !(|s| >= 2 && s[0] == '0');
    assert s[0] != '-' && s[0] != '+';
  }

  lemma ConvertCanonicalNegative(s: string)
    requires |s| >= 2 && s[0] == '-' && IsCanonicalNatural(s[1..]) && s[1] != '0'
    ensures StringToBigInt(s) == Some(0 - DigitsValue(s[1..], 10))
  {
    TrimOfCanonical(s);
  }

  /** BigInt accepts more than the schema: the empty string (0n), white
      space around the numeral, a '+', leading zeros (and so a "0x" prefix)
      and "-0" all convert but print differently, so they are rejected. */
  lemma NonCanonicalNumeralsRejected(s: string)
    requires s == []
      || IsStrWhiteSpace(s[0]) || IsStrWhiteSpace(s[|s| - 1]) || s[0] == '+'
      || (|s| >= 2 && s[0] == '0')
      || (|s| >= 2 && s[0] == '-' && s[1] == '0')
    ensures !IsSnowflake(s)
  {
    SnowflakeIsCanonicalInteger(s);
    if s != [] {
      if IsStrWhiteSpace(s[0]) {
        WhiteSpaceIsNoDigit(s[0]);
      }
      if IsStrWhiteSpace(s[|s| - 1]) {
        WhiteSpaceIsNoDigit(s[|s| - 1]);
        if |s| >= 2 {
          assert s[1..][|s| - 2] == s[|s| - 1];
        }
      }
    }
  }

  /** Strings BigInt cannot convert are rejected, not thrown through: a
      decimal fraction... */
  lemma FractionRejected()
    ensures StringToBigInt("1.5") == None && Parse("1.5") == None
  {
    assert StringIntegerLiteralValue("1.5") == None by {
      assert !IsRadixDigit("1.5"[1], 10);
    }
    assert StringToBigInt("1.5") == None by {
      TrimOfUnpadded("1.5");
    }
    assert !IsCanonicalInteger("1.5") by {
      assert !IsRadixDigit("1.5"[1], 10);
    }
  }

  /** ...and a word. */
  lemma WordRejected()
    ensures StringToBigInt("abc") == None && Parse("abc") == None
  {
    assert StringIntegerLiteralValue("abc") == None by {
      assert !IsRadixDigit("abc"[0], 10);
    }
    assert StringToBigInt("abc") == None by {
      TrimOfUnpadded("abc");
    }
    assert !IsCanonicalInteger("abc") by {
      assert !IsRadixDigit("abc"[0], 10);
    }
  }

  /** "0", "1", "-5" and a typical 18-digit snowflake are accepted
      unchanged. */
  lemma AcceptedExamples()
    ensures Parse("0") == Some("0") && Parse("1") == Some("1")
    ensures Parse("466378653216014359") == Some("466378653216014359")
    ensures Parse("-5") == Some("-5")
  {
    assert IsCanonicalInteger("0") && IsCanonicalInteger("1");
    assert IsCanonicalInteger("466378653216014359");
    assert IsCanonicalInteger("-5") by { assert "-5"[1..] == "5"; }
  }
}
