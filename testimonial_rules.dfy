/**
 * `SecurityUtils.validateTestimonial`: four independent rules over the name,
 * the message and the rating, every violated one reported, in a fixed
 * order, with its own Portuguese message.
 */
module TestimonialRules {
  import opened JsString

  /** The four rules, one constructor each. */
  datatype Rule = NameLength | MessageLength | RatingRange | ForbiddenContent

  /** The position at which the validator checks a rule. */
  function Rank(r: Rule): (k: nat)
    ensures k < 4
  {
    match r
    case NameLength => 0
    case MessageLength => 1
    case RatingRange => 2
    case ForbiddenContent => 3
  }

  /** The error text pushed for a rule (shown to the user, never inspected). */
  function Message(r: Rule): string {
    match r
    case NameLength => "Nome deve ter entre 2 e 50 caracteres"
    case MessageLength => "Mensagem deve ter entre 10 e 500 caracteres"
    case RatingRange => "Avaliação deve ser entre 1 e 5 estrelas"
    case ForbiddenContent => "Conteúdo não permitido detectado"
  }

  /** `forbiddenWords`: `spam`, `fake`, `bot`, `test`. */
  const BANNED: seq<JsString> := [
    ['s' as int, 'p' as int, 'a' as int, 'm' as int],
    ['f' as int, 'a' as int, 'k' as int, 'e' as int],
    ['b' as int, 'o' as int, 't' as int],
    ['t' as int, 'e' as int, 's' as int, 't' as int]
  ]

  const KELVIN_SIGN: CodeUnit := 0x212A

  /**
   * What `toLowerCase` does to one code unit, as far as containment of the
   * ASCII banned words can tell: ASCII capitals become small letters, and
   * the KELVIN SIGN becomes `k`. The only other non-ASCII code unit whose
   * lower case holds an ASCII letter is U+0130, which lowers to `i`
   * followed by U+0307; no banned word contains `i`, so neither unit can
   * take part in a match, and it is left as it is here. Every
   * other code unit lowers to something outside ASCII or stays as it is,
   * and so cannot take part in a match.
   */
  function FoldForBanCheck(c: CodeUnit): CodeUnit {
    if c == KELVIN_SIGN then 'k' as int else AsciiLower(c)
  }

  /** `message.toLowerCase()`, under the folding above. */
  function Lowered(s: JsString): (r: JsString)
    ensures |r| == |s|
    ensures forall i :: 0 <= i < |s| ==> r[i] == FoldForBanCheck(s[i])
  {
    seq(|s|, i requires 0 <= i < |s| => FoldForBanCheck(s[i]))
  }

  /** `forbiddenWords.some(word => lowerMessage.includes(word))`. */
  predicate HasBannedWord(message: JsString) {
    exists j | 0 <= j < |BANNED| :: Includes(Lowered(message), BANNED[j])
  }

  /** Whether a rule fails for the given fields. */
  predicate Violated(r: Rule, name: JsString, message: JsString, rating: int) {
    match r
    case NameLength => |name| < 2 || |name| > 50
    case MessageLength => |message| < 10 || |message| > 500
    case RatingRange => rating < 1 || rating > 5
    case ForbiddenContent => HasBannedWord(message)
  }

  /** The violated rules, each once, in the order the validator checks them. */
  function Violations(name: JsString, message: JsString, rating: int): (v: seq<Rule>)
    ensures |v| <= 4
  {
    (if Violated(NameLength, name, message, rating) then [NameLength] else [])
    + (if Violated(MessageLength, name, message, rating) then [MessageLength] else [])
    + (if Violated(RatingRange, name, message, rating) then [RatingRange] else [])
    + (if Violated(ForbiddenContent, name, message, rating) then [ForbiddenContent] else [])
  }

  /** A rule is listed exactly when it is violated, and the rules follow the order of the checks. */
  lemma ViolationsSpec(name: JsString, message: JsString, rating: int)
    ensures var v := Violations(name, message, rating);
      && (forall r :: r in v <==> Violated(r, name, message, rating))
      && (forall i, j :: 0 <= i < j < |v| ==> Rank(v[i]) < Rank(v[j]))
  {
  }

  /** The error list for a list of violated rules. */
  function Messages(v: seq<Rule>): (m: seq<string>)
    ensures |m| == |v|
    ensures forall i :: 0 <= i < |v| ==> m[i] == Message(v[i])
  {
    seq(|v|, i requires 0 <= i < |v| => Message(v[i]))
  }

  /**
   * `validateTestimonial`: pushes one message per violated rule, in rule
   * order, and reports `valid` exactly when nothing was pushed.
   */
  method ValidateTestimonial(name: JsString, message: JsString, rating: int) returns (valid: bool, errors: seq<string>)
    ensures errors == Messages(Violations(name, message, rating))
    ensures valid <==> errors == []
  {
    errors := [];
    if |name| < 2 || |name| > 50 {
      errors := errors + [Message(NameLength)];
    }
    if |message| < 10 || |message| > 500 {
      errors := errors + [Message(MessageLength)];
    }
    if rating < 1 || rating > 5 {
      errors := errors + [Message(RatingRange)];
    }
    if HasBannedWord(message) {
      errors := errors + [Message(ForbiddenContent)];
    }
    valid := |errors| == 0;
  }

  // ---------------------------------------------------------------------
  // Properties

  /** The four messages differ, so an error text names its rule. */
  lemma MessagesDistinct(r1: Rule, r2: Rule)
    ensures Message(r1) == Message(r2) <==> r1 == r2
  {
    if r1 != r2 {
      MessageHead(r1);
      MessageHead(r2);
    }
  }

  /** The first letter of each message: `N`, `M`, `A`, `C`. */
  lemma MessageHead(r: Rule)
    ensures |Message(r)| > 0
    ensures Message(r)[0] == ['N', 'M', 'A', 'C'][Rank(r)]
  {
  }

  /** A rule's message is in the error list exactly when the rule is violated. */
  lemma ErrorReportedIffViolated(name: JsString, message: JsString, rating: int, r: Rule)
    ensures Message(r) in Messages(Violations(name, message, rating)) <==> Violated(r, name, message, rating)
  {
    var v := Violations(name, message, rating);
    var m := Messages(v);
    ViolationsSpec(name, message, rating);
    if Message(r) in m {
      var i :| 0 <= i < |m| && m[i] == Message(r);
      MessagesDistinct(r, v[i]);
    }
    if Violated(r, name, message, rating) {
      var i :| 0 <= i < |v| && v[i] == r;
      assert m[i] == Message(r);
    }
  }

  /** There are at most four errors, one per rule. */
  lemma AtMostFourErrors(name: JsString, message: JsString, rating: int)
    ensures |Messages(Violations(name, message, rating))| <= 4
  {
  }

  /** The submission is valid exactly when every rule holds. */
  lemma ValidIffAllRulesHold(name: JsString, message: JsString, rating: int)
    ensures Violations(name, message, rating) == [] <==>
      && 2 <= |name| <= 50
      && 10 <= |message| <= 500
      && 1 <= rating <= 5
      && !HasBannedWord(message)
  {
    var v := Violations(name, message, rating);
    if v != [] {
      assert Violated(v[0], name, message, rating);
    }
  }

  /** A one-character name is reported with the name-length message first. */
  lemma ShortNameRejected(name: JsString, message: JsString, rating: int)
    requires |name| == 1
    ensures Messages(Violations(name, message, rating))[0] == Message(NameLength)
  {
  }

  /** A rating of 0 or 6 is reported with the rating message. */
  lemma RatingOutOfRangeRejected(name: JsString, message: JsString, rating: int)
    requires rating == 0 || rating == 6
    ensures Message(RatingRange) in Messages(Violations(name, message, rating))
  {
    ErrorReportedIffViolated(name, message, rating, RatingRange);
  }

  /**
   * A banned word written in any mix of cases (or with the KELVIN SIGN for
   * `k`) anywhere in the message is reported.
   */
  lemma BannedWordAnyCaseRejected(name: JsString, message: JsString, rating: int, j: nat, at: nat)
    requires j < |BANNED| && at + |BANNED[j]| <= |message|
    requires Lowered(message[at..at + |BANNED[j]|]) == BANNED[j]
    ensures Message(ForbiddenContent) in Messages(Violations(name, message, rating))
  {
    var w := BANNED[j];
    var low := Lowered(message);
    assert low[at..at + |w|] == w by {
      forall k | 0 <= k < |w| ensures low[at..at + |w|][k] == w[k] {
        assert message[at..at + |w|][k] == message[at + k];
      }
    }
    assert SliceAt(w, low, at);
    ErrorReportedIffViolated(name, message, rating, ForbiddenContent);
  }

  /** The word `spam`, as typed, is found. */
  lemma SpamRejected(name: JsString, message: JsString, rating: int, at: nat)
    requires at + 4 <= |message| && message[at..at + 4] == BmpUnits("spam")
    ensures Message(ForbiddenContent) in Messages(Violations(name, message, rating))
  {
    var w := message[at..at + 4];
    assert w == ['s' as int, 'p' as int, 'a' as int, 'm' as int];
    assert Lowered(w) == BANNED[0];
    BannedWordAnyCaseRejected(name, message, rating, 0, at);
  }

  /**
   * A message in which `s`, `f` and `b` occur in neither case contains no
   * banned word, since every banned word holds one of them.
   */
  lemma NoBannedLetterNoBannedWord(message: JsString)
    requires forall i :: 0 <= i < |message| ==> AsciiLower(message[i]) !in {'s' as int, 'f' as int, 'b' as int}
    ensures !HasBannedWord(message)
  {
    var low := Lowered(message);
    forall j, i | 0 <= j < |BANNED| && 0 <= i <= |low| - |BANNED[j]| ensures !SliceAt(BANNED[j], low, i) {
      var p := if j == 3 then 2 else 0;
      var w := BANNED[j];
      assert w[p] == 's' as int || w[p] == 'f' as int || w[p] == 'b' as int by {
        if j == 0 { assert w[0] == 's' as int; }
        else if j == 1 { assert w[0] == 'f' as int; }
        else if j == 2 { assert w[0] == 'b' as int; }
        else { assert w[2] == 's' as int; }
      }
      assert low[i + p] != w[p];
    }
  }

  /**
   * The accepted example: name `Ana`, message `Ótimo atendimento,
   * recomendo`, five stars (the texts are passed as `n` and `t`).
   */
  lemma AnaAccepted(n: string, t: string, name: JsString, message: JsString)
    requires n == "Ana" && t == "Ótimo atendimento, recomendo"
    requires name == BmpUnits(n) && message == BmpUnits(t)
    ensures Violations(name, message, 5) == []
  {
    AnaMessageShape(t, message);
    NoBannedLetterNoBannedWord(message);
  }

  lemma AnaMessageShape(t: string, message: JsString)
    requires t == "Ótimo atendimento, recomendo" && message == BmpUnits(t)
    ensures forall i :: 0 <= i < |message| ==> AsciiLower(message[i]) !in {'s' as int, 'f' as int, 'b' as int}
  {
    AnaLacks(t);
    forall i | 0 <= i < |message| ensures AsciiLower(message[i]) !in {'s' as int, 'f' as int, 'b' as int} {
      assert t[i] !in "sSfFbB";
    }
  }

  /** The message has no `s`, `f` or `b` in either case. */
  lemma AnaLacks(t: string)
    requires t == "Ótimo atendimento, recomendo"
    ensures forall i :: 0 <= i < |t| ==> t[i] !in "sSfFbB"
  {
  }
}
