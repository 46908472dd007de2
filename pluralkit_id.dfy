/** PluralKit's five- or six-letter identifiers (src/models/PluralKitID.ts):
    the canonical form, and the lenient parser that accepts any letter case
    and the "xxx-xxx" display form and normalises them. */
module PluralKitID {
  import opened Wrappers
  import opened EcmaScript

  predicate IsLowerLetter(c: char) {
    'a' <= c <= 'z'
  }

  predicate IsLetter(c: char) {
    'a' <= c <= 'z' || 'A' <= c <= 'Z'
  }

  predicate AllLetters(s: string) {
    forall i | 0 <= i < |s| :: IsLetter(s[i])
  }

  /** The canonical identifier, /^[a-z]{5,6}$/. */
  predicate IsPluralKitID(s: string) {
    (|s| == 5 || |s| == 6) && forall i | 0 <= i < |s| :: IsLowerLetter(s[i])
  }

  /** The identifier schema itself: a canonical identifier is returned
      unchanged, anything else is rejected. */
  function Parse(s: string): (r: Option<string>)
    ensures r.Some? ==> r.value == s
    ensures r.Some? <==> (|s| == 5 || |s| == 6) && forall i | 0 <= i < |s| :: 'a' <= s[i] <= 'z'
  {
    if IsPluralKitID(s) then Some(s) else None
  }

  /** The lenient form, /^([a-zA-Z]{3}-[a-zA-Z]{3}|[a-zA-Z]{5,6})$/. */
  predicate IsLenientForm(s: string) {
    (|s| == 7 && s[3] == '-' && AllLetters(s[..3]) && AllLetters(s[4..]))
    || ((|s| == 5 || |s| == 6) && AllLetters(s))
  }

  /** The normalisation the lenient parser applies after the pattern test:
      lower-case, then every '-' removed. */
  function Normalize(s: string): string {
    RemoveAll(ToLowerCase(s), '-')
  }

  /** PluralKitIDFromString: test the lenient pattern, normalise, then
      check the result against the canonical schema. */
  function FromString(s: string): (r: Option<string>)
    ensures r.Some? <==> IsLenientForm(s)
    ensures r.Some? ==> IsPluralKitID(r.value) && r.value == Normalize(s)
  {
    if !IsLenientForm(s) then None
    else
      var t := Normalize(s);
      NormalizeLenientForm(s);
      if IsPluralKitID(t) then Some(t) else None
  }

  /** Every string the lenient pattern lets through normalises to a
      canonical identifier, so the final schema check never fails. */
  lemma NormalizeLenientForm(s: string)
    requires IsLenientForm(s)
    ensures IsPluralKitID(Normalize(s))
  {
    if |s| == 7 {
      NormalizeDisplayForm(s);
      LowerLetters(s[..3]);
      LowerLetters(s[4..]);
    } else {
      LowerLetters(s);
      RemoveWithout(ToLowerCase(s), '-');
    }
  }

  /** The display form normalises to its two halves lower-cased. */
  lemma NormalizeDisplayForm(s: string)
    requires |s| == 7 && s[3] == '-' && AllLetters(s[..3]) && AllLetters(s[4..])
    ensures Normalize(s) == ToLowerCase(s[..3]) + ToLowerCase(s[4..])
  {
    var la, lb := ToLowerCase(s[..3]), ToLowerCase(s[4..]);
    assert ToLowerCase(s) == la + (['-'] + lb);
    LowerLetters(s[..3]);
    LowerLetters(s[4..]);
    RemoveWithout(la, '-');
    RemoveWithout(lb, '-');
    RemoveAllAppend(la, ['-'] + lb, '-');
    assert (['-'] + lb)[1..] == lb;
  }

  /** Lower-casing letters gives lower-case letters, none of them '-'. */
  lemma LowerLetters(s: string)
    requires AllLetters(s)
    ensures forall i | 0 <= i < |s| :: IsLowerLetter(ToLowerCase(s)[i]) && ToLowerCase(s)[i] != '-'
  {
  }

  lemma {:induction false} RemoveWithout(s: string, c: char)
    requires forall i | 0 <= i < |s| :: s[i] != c
    ensures RemoveAll(s, c) == s
  {
    if s != [] {
      RemoveWithout(s[1..], c);
      assert [s[0]] + s[1..] == s;
    }
  }

  lemma {:induction false} RemoveAllAppend(a: string, b: string, c: char)
    ensures RemoveAll(a + b, c) == RemoveAll(a, c) + RemoveAll(b, c)
  {
    if a != [] {
      assert (a + b)[1..] == a[1..] + b;
      RemoveAllAppend(a[1..], b, c);
    } else {
      assert a + b == b;
    }
  }

  /** A canonical identifier is a fixed point of the lenient parser. */
  lemma FromStringOfCanonical(s: string)
    requires IsPluralKitID(s)
    ensures FromString(s) == Some(s)
  {
    var l := ToLowerCase(s);
    assert l == s;
    assert forall i | 0 <= i < |s| :: s[i] != '-';
    RemoveWithout(s, '-');
  }

  /** Parsing is idempotent: parsing the normalised identifier again gives
      it back unchanged. */
  lemma FromStringIdempotent(s: string)
    requires FromString(s).Some?
    ensures FromString(FromString(s).value) == FromString(s)
  {
    FromStringOfCanonical(FromString(s).value);
  }

  /** The display form: three letters, a hyphen and three letters, in any
      case, parse to the six letters lower-cased. */
  lemma FromStringDisplayForm(a: string, b: string)
    requires |a| == 3 && |b| == 3 && AllLetters(a) && AllLetters(b)
    ensures FromString(a + "-" + b) == Some(ToLowerCase(a) + ToLowerCase(b))
  {
    var s := a + "-" + b;
    assert s[..3] == a && s[4..] == b && s[3] == '-';
    NormalizeDisplayForm(s);
  }

  /** The display form of the tests: 'AbC-DeF' parses to 'abcdef'. */
  lemma FromStringDisplayFormExample()
    ensures FromString("AbC-DeF") == Some("abcdef")
  {
    assert FromString("AbC-DeF") == Some(ToLowerCase("AbC") + ToLowerCase("DeF")) by {
      assert "AbC-DeF" == "AbC" + "-" + "DeF";
      FromStringDisplayForm("AbC", "DeF");
    }
    assert ToLowerCase("AbC") + ToLowerCase("DeF") == "abcdef" by {
      assert ToLowerCase("AbC") == "abc" && ToLowerCase("DeF") == "def";
      assert "abc" + "def" == "abcdef";
    }
  }

  /** Five or six letters in any case parse to themselves lower-cased. */
  lemma FromStringOfLetters(s: string)
    requires (|s| == 5 || |s| == 6) && AllLetters(s)
    ensures FromString(s) == Some(ToLowerCase(s))
  {
    RemoveWithout(ToLowerCase(s), '-');
  }

  /** Capitals are lowered: 'ABCDE' parses to 'abcde'. */
  lemma FromStringUpperCaseExample()
    ensures FromString("ABCDE") == Some("abcde")
  {
    var s := "ABCDE";
    assert FromString(s) == Some(ToLowerCase(s)) by {
      assert s[0] == 'A' && s[1] == 'B' && s[2] == 'C' && s[3] == 'D' && s[4] == 'E';
      assert AllLetters(s);
      FromStringOfLetters(s);
    }
    assert ToLowerCase(s) == "abcde";
  }

  /** Mixed case is lowered: 'AbCdEF' parses to 'abcdef'. */
  lemma FromStringMixedCaseExample()
    ensures FromString("AbCdEF") == Some("abcdef")
  {
    var s := "AbCdEF";
    assert FromString(s) == Some(ToLowerCase(s)) by {
      assert s[0] == 'A' && s[1] == 'b' && s[2] == 'C' && s[3] == 'd' && s[4] == 'E' && s[5] == 'F';
      assert AllLetters(s);
      FromStringOfLetters(s);
    }
    assert ToLowerCase(s) == "abcdef";
  }

  /** The rejected inputs of the tests. */
  lemma FromStringRejectedExamples()
    ensures FromString("ab-cde") == None
    ensures FromString("abc-de") == None
    ensures FromString("asdfasasdf") == None
    ensures FromString("sdfasdf-sdfsafd") == None
  {
    assert !IsLenientForm("ab-cde") by { assert !IsLetter("ab-cde"[2]); }
    assert !IsLenientForm("abc-de") by { assert !IsLetter("abc-de"[3]); }
    assert !IsLenientForm("asdfasasdf");
    assert !IsLenientForm("sdfasdf-sdfsafd");
  }
}
