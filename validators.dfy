/**
 * The two field validators of `SecurityUtils`: `isValidEmail` and
 * `isValidPhone`. Each regular expression is restated as an explicit
 * predicate on code units, and the email one is proved equal to the
 * concatenation the pattern describes.
 */
module Validators {
  import opened JsString
  import Sanitizer

  const AT: CodeUnit := '@' as int
  const DOT: CodeUnit := '.' as int
  const MAX_EMAIL_LENGTH: nat := 100

  // ---------------------------------------------------------------------
  // isValidEmail

  /** `s` holds no white space. */
  predicate NoSpace(s: JsString) {
    forall i :: 0 <= i < |s| ==> !IsSpace(s[i])
  }

  /** `s` holds no code unit `c`. */
  predicate Lacks(s: JsString, c: CodeUnit) {
    forall i :: 0 <= i < |s| ==> s[i] != c
  }

  /** The first position of the code unit `c` in `s`, or -1: where the pattern's `@` must stand. */
  function IndexOf(s: JsString, c: CodeUnit): (r: int)
    ensures -1 <= r < |s|
    ensures r == -1 <==> Lacks(s, c)
    ensures r >= 0 ==> s[r] == c && Lacks(s[..r], c)
  {
    if s == [] then -1
    else if s[0] == c then 0
    else
      var r := IndexOf(s[1..], c);
      assert Lacks(s, c) <==> Lacks(s[1..], c) by {
        if Lacks(s[1..], c) {
          forall i | 1 <= i < |s| ensures s[i] != c { assert s[i] == s[1..][i - 1]; }
        }
      }
      if r == -1 then -1
      else
        assert Lacks(s[..r + 1], c) by {
          forall i | 1 <= i < r + 1 ensures s[i] != c { assert s[i] == s[1..][..r][i - 1]; }
        }
        r + 1
  }

  /** A `.` that is neither the first nor the last code unit of `d`. */
  predicate HasInnerDot(d: JsString) {
    exists k | 0 < k < |d| - 1 :: d[k] == DOT
  }

  /**
   * `isValidEmail`: no white space, a non-empty part before the first `@`,
   * no second `@`, an inner `.` after the `@`, and at most 100 code units.
   */
  predicate IsValidEmail(s: JsString) {
    && |s| <= MAX_EMAIL_LENGTH
    && NoSpace(s)
    && var a := IndexOf(s, AT);
      && 0 < a
      && Lacks(s[a + 1..], AT)
      && HasInnerDot(s[a + 1..])
  }

  /** `[^\s@]+`: a non-empty run of code units that are neither white space nor `@`. */
  predicate IsAtom(s: JsString) {
    s != [] && NoSpace(s) && Lacks(s, AT)
  }

  /** `s` is `local@host.tld` with all three parts atoms. */
  predicate EmailParts(s: JsString, local: JsString, host: JsString, tld: JsString) {
    IsAtom(local) && IsAtom(host) && IsAtom(tld) && s == local + [AT] + host + [DOT] + tld
  }

  /** What `/^[^\s@]+@[^\s@]+\.[^\s@]+$/` matches, read as a concatenation. */
  ghost predicate MatchesEmailPattern(s: JsString) {
    exists local, host, tld :: EmailParts(s, local, host, tld)
  }

  /** The explicit predicate accepts exactly the strings the regular expression accepts, up to the length bound. */
  lemma EmailIsPattern(s: JsString)
    ensures IsValidEmail(s) <==> MatchesEmailPattern(s) && |s| <= MAX_EMAIL_LENGTH
  {
    if IsValidEmail(s) {
      ValidHasParts(s);
    }
    if MatchesEmailPattern(s) && |s| <= MAX_EMAIL_LENGTH {
      var local, host, tld :| EmailParts(s, local, host, tld);
      PatternIsValid(s, local, host, tld);
    }
  }

  /** A valid address splits at its first `@` and at an inner `.` after it. */
  lemma ValidHasParts(s: JsString)
    requires IsValidEmail(s)
    ensures MatchesEmailPattern(s)
  {
    var a := IndexOf(s, AT);
    var d := s[a + 1..];
    var k :| 0 < k < |d| - 1 && d[k] == DOT;
    assert s[a + 1 + k] == DOT;
    SplitAtAtAndDot(s, a, k);
  }

  lemma SplitAtAtAndDot(s: JsString, a: nat, k: nat)
    requires 0 < a < |s| && s[a] == AT && Lacks(s[..a], AT) && Lacks(s[a + 1..], AT) && NoSpace(s)
    requires 0 < k < |s| - a - 2 && s[a + 1 + k] == DOT
    ensures EmailParts(s, s[..a], s[a + 1..][..k], s[a + 1..][k + 1..])
  {
    var d := s[a + 1..];
    var local, host, tld := s[..a], d[..k], d[k + 1..];
    assert s == local + [AT] + host + [DOT] + tld by {
      assert d == host + [DOT] + tld;
      assert s == s[..a] + [s[a]] + d;
    }
    assert NoSpace(local) && NoSpace(host) && NoSpace(tld) by {
      forall i | 0 <= i < |local| ensures !IsSpace(local[i]) { assert local[i] == s[i]; }
      forall i | 0 <= i < |host| ensures !IsSpace(host[i]) { assert host[i] == s[a + 1 + i]; }
      forall i | 0 <= i < |tld| ensures !IsSpace(tld[i]) { assert tld[i] == s[a + 1 + k + 1 + i]; }
    }
    assert Lacks(host, AT) && Lacks(tld, AT) by {
      forall i | 0 <= i < |host| ensures host[i] != AT { assert host[i] == d[i]; }
      forall i | 0 <= i < |tld| ensures tld[i] != AT { assert tld[i] == d[k + 1 + i]; }
    }
  }

  lemma PatternIsValid(s: JsString, local: JsString, host: JsString, tld: JsString)
    requires EmailParts(s, local, host, tld) && |s| <= MAX_EMAIL_LENGTH
    ensures IsValidEmail(s)
  {
    var a := |local|;
    var d := host + [DOT] + tld;
    assert s == local + [AT] + d;
    assert s[..a] == local;
    assert s[a] == AT;
    IndexOfAfterPrefix(s, local, AT);
    assert s[a + 1..] == d;
    assert Lacks(d, AT) by {
      forall i | 0 <= i < |d| ensures d[i] != AT {
        if i < |host| { assert d[i] == host[i]; }
        else if i > |host| { assert d[i] == tld[i - |host| - 1]; }
      }
    }
    assert d[|host|] == DOT;
    assert NoSpace(s) by {
      forall i | 0 <= i < |s| ensures !IsSpace(s[i]) {
        if i < a { assert s[i] == local[i]; }
        else if i > a { assert s[i] == d[i - a - 1];
          if i - a - 1 < |host| { assert d[i - a - 1] == host[i - a - 1]; }
          else if i - a - 1 > |host| { assert d[i - a - 1] == tld[i - a - 1 - |host| - 1]; }
        }
      }
    }
  }

  /** The first `c` follows a prefix without `c`. */
  lemma IndexOfAfterPrefix(s: JsString, p: JsString, c: CodeUnit)
    requires |p| < |s| && s[..|p|] == p && Lacks(p, c) && s[|p|] == c
    ensures IndexOf(s, c) == |p|
  {
  }

  /** `"a@b.co"` is a valid address. */
  lemma ShortEmailValid(s: JsString)
    requires s == BmpUnits("a@b.co")
    ensures IsValidEmail(s)
  {
    assert s == ['a' as int, AT, 'b' as int, DOT, 'c' as int, 'o' as int];
    assert EmailParts(s, s[..1], s[2..3], s[4..]);
    PatternIsValid(s, s[..1], s[2..3], s[4..]);
  }

  /** `"not-an-email"` has no `@` and is rejected. */
  lemma NoAtInvalid(s: JsString)
    requires s == BmpUnits("not-an-email")
    ensures !IsValidEmail(s)
  {
    NoAtLiteral(s);
  }

  lemma NoAtLiteral(s: JsString)
    requires s == BmpUnits("not-an-email")
    ensures Lacks(s, AT)
  {
    forall i | 0 <= i < |s| ensures s[i] != AT {
      assert s[i] == "not-an-email"[i] as int;
    }
  }

  /** `"a".repeat(101) + "@b.co"` matches the pattern but is too long. */
  lemma LongEmailInvalid(local: JsString, s: JsString)
    requires |local| == 101 && forall i :: 0 <= i < |local| ==> local[i] == 'a' as int
    requires s == local + BmpUnits("@b.co")
    ensures MatchesEmailPattern(s) && !IsValidEmail(s)
  {
    var rest := BmpUnits("@b.co");
    assert rest == [AT, 'b' as int, DOT, 'c' as int, 'o' as int];
    assert EmailParts(s, local, rest[1..2], rest[3..]) by {
      assert s == local + [AT] + rest[1..2] + [DOT] + rest[3..];
    }
  }

  /**
   * A valid address without `& < > " ' : =` is a value `sanitizeInput`
   * leaves unchanged, so the field keeps what the validator accepted.
   */
  lemma EmailSurvivesSanitizing(s: JsString)
    requires IsValidEmail(s)
    requires forall i :: 0 <= i < |s| ==> !Sanitizer.IsHtmlSpecial(s[i]) && s[i] != ':' as int && s[i] != '=' as int
    ensures Sanitizer.SanitizeInput(s) == s
  {
    UnchangedBySanitizing(s);
  }

  // ---------------------------------------------------------------------
  // isValidPhone

  /** The class `[0-9\s\-\+\(\)]`. */
  predicate IsPhoneChar(c: CodeUnit) {
    || ('0' as int <= c <= '9' as int)
    || IsSpace(c)
    || c == '-' as int || c == '+' as int || c == '(' as int || c == ')' as int
  }

  /** `isValidPhone`: 8 to 15 code units, each from the phone class. */
  predicate IsValidPhone(s: JsString) {
    8 <= |s| <= 15 && forall i :: 0 <= i < |s| ==> IsPhoneChar(s[i])
  }

  /** No digit is required: eight hyphens pass. */
  lemma HyphensAreAPhone(s: JsString)
    requires |s| == 8 && forall i :: 0 <= i < |s| ==> s[i] == '-' as int
    ensures IsValidPhone(s)
    ensures forall i :: 0 <= i < |s| ==> !('0' as int <= s[i] <= '9' as int)
  {
  }

  /** A single letter anywhere makes a phone invalid, whatever its length. */
  lemma PhoneRejectsLetter(s: JsString, i: int)
    requires 0 <= i < |s| && IsWordChar(s[i]) && !('0' as int <= s[i] <= '9' as int)
    ensures !IsValidPhone(s)
  {
  }

  /**
   * A valid phone number without leading or trailing white space is left
   * unchanged by `sanitizeInput`.
   */
  lemma PhoneSurvivesSanitizing(s: JsString)
    requires IsValidPhone(s) && !IsSpace(s[0]) && !IsSpace(s[|s| - 1])
    ensures Sanitizer.SanitizeInput(s) == s
  {
    UnchangedBySanitizing(s);
  }

  /** The common step: a short trimmed string without specials, `:` or `=` is already clean. */
  lemma UnchangedBySanitizing(s: JsString)
    requires s != [] && |s| <= Sanitizer.MAX_LENGTH && !IsSpace(s[0]) && !IsSpace(s[|s| - 1])
    requires forall i :: 0 <= i < |s| ==> !Sanitizer.IsHtmlSpecial(s[i]) && s[i] != ':' as int && s[i] != '=' as int
    ensures Sanitizer.SanitizeInput(s) == s
  {
    Sanitizer.NoColonNoEqualsNoMatch(s, Sanitizer.JAVASCRIPT);
    Sanitizer.NoColonNoEqualsNoMatch(s, Sanitizer.EVENT_HANDLER);
    Sanitizer.NoColonNoEqualsNoMatch(s, Sanitizer.DATA_URI);
    Sanitizer.NoColonNoEqualsNoMatch(s, Sanitizer.VBSCRIPT);
    Sanitizer.SanitizeKeepsClean(s);
  }
}
