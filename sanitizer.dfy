/**
 * `SecurityUtils.sanitizeInput` (src/utils/security.ts): HTML-escape the five
 * characters `& < > " '`, strip four script-injection patterns one global
 * pass each, trim, and keep at most 500 code units.
 */
module Sanitizer {
  import opened JsString

  const AMP: CodeUnit := '&' as int
  const LT: CodeUnit := '<' as int
  const GT: CodeUnit := '>' as int
  const QUOT: CodeUnit := '"' as int
  const APOS: CodeUnit := '\'' as int

  /** `substring(0, 500)`. */
  const MAX_LENGTH: nat := 500

  /** The characters of the class `[&<>"']`. */
  predicate IsHtmlSpecial(c: CodeUnit) {
    c == AMP || c == LT || c == GT || c == QUOT || c == APOS
  }

  /** The four characters no sanitized string contains (`&` survives inside entities). */
  predicate IsMarkup(c: CodeUnit) {
    c == LT || c == GT || c == QUOT || c == APOS
  }

  predicate FreeOfMarkup(s: JsString) {
    forall i :: 0 <= i < |s| ==> !IsMarkup(s[i])
  }

  /** The entity the first `.replace` writes for one special character. */
  function Entity(c: CodeUnit): (r: JsString)
    requires IsHtmlSpecial(c)
    ensures |r| >= 4 && r[0] == AMP
    ensures FreeOfMarkup(r)
  {
    if c == AMP then [AMP, 'a' as int, 'm' as int, 'p' as int, ';' as int]              // &amp;
    else if c == LT then [AMP, 'l' as int, 't' as int, ';' as int]                      // &lt;
    else if c == GT then [AMP, 'g' as int, 't' as int, ';' as int]                      // &gt;
    else if c == QUOT then [AMP, 'q' as int, 'u' as int, 'o' as int, 't' as int, ';' as int]  // &quot;
    else [AMP, '#' as int, 'x' as int, '2' as int, '7' as int, ';' as int]              // &#x27;
  }

  /** `.replace(/[&<>"']/g, entity)`. */
  function EscapeHtml(s: JsString): (r: JsString)
    ensures |s| <= |r|
    ensures FreeOfMarkup(r)
    ensures (forall i :: 0 <= i < |s| ==> !IsHtmlSpecial(s[i])) ==> r == s
  {
    if s == [] then []
    else
      var head := if IsHtmlSpecial(s[0]) then Entity(s[0]) else [s[0]];
      var tail := EscapeHtml(s[1..]);
      assert (forall i :: 0 <= i < |s| ==> !IsHtmlSpecial(s[i])) ==> forall i :: 0 <= i < |s[1..]| ==> !IsHtmlSpecial(s[1..][i]) by {
        forall i | 0 <= i < |s[1..]| ensures s[1..][i] == s[i + 1] { }
      }
      head + tail
  }

  /** Escaping works code unit by code unit: it distributes over concatenation. */
  lemma {:induction false} EscapeHtmlAppend(a: JsString, b: JsString)
    ensures EscapeHtml(a + b) == EscapeHtml(a) + EscapeHtml(b)
    decreases |a|
  {
    if a == [] {
      assert a + b == b;
    } else {
      assert (a + b)[0] == a[0] && (a + b)[1..] == a[1..] + b;
      EscapeHtmlAppend(a[1..], b);
    }
  }

  /** One code unit: a special character becomes its entity, and any other is kept. */
  lemma EscapeHtmlUnit(c: CodeUnit)
    ensures EscapeHtml([c]) == if IsHtmlSpecial(c) then Entity(c) else [c]
  {
    assert [c][1..] == [];
  }

  /**
   * The patterns removed by the four `.replace(..., '')` calls, all with the
   * flags `gi`: a lower-case ASCII literal, or `on\w+=`.
   */
  datatype Pattern = Literal(text: string) | EventHandler

  const JAVASCRIPT: Pattern := Literal("javascript:")
  const EVENT_HANDLER: Pattern := EventHandler
  const DATA_URI: Pattern := Literal("data:")
  const VBSCRIPT: Pattern := Literal("vbscript:")

  /**
   * `s` starts with `text`, ignoring ASCII case. Without the `u` flag the
   * `i` flag never identifies a non-ASCII code unit with an ASCII letter, so
   * ASCII lower-casing is exactly the regular expression's case folding.
   */
  predicate LiteralAt(s: JsString, text: string) {
    |text| <= |s| && forall k :: 0 <= k < |text| ==> AsciiLower(s[k]) == text[k] as int
  }

  /** The length of the longest prefix of `s` made of `\w` characters. */
  function WordRun(s: JsString): (n: nat)
    ensures n <= |s|
    ensures forall k :: 0 <= k < n ==> IsWordChar(s[k])
    ensures n < |s| ==> !IsWordChar(s[n])
  {
    if s != [] && IsWordChar(s[0]) then 1 + WordRun(s[1..]) else 0
  }

  /**
   * The length of the match of `/on\w+=/i` at the start of `s`, 0 when there
   * is none. `\w+` is greedy and `=` is not a word character, so backtracking
   * can never find a shorter match: the run must be followed by `=`.
   */
  function HandlerMatch(s: JsString): (n: nat)
    ensures n <= |s|
    ensures n != 0 ==> n >= 4 && s[n - 1] == '=' as int
  {
    if 2 <= |s| && AsciiLower(s[0]) == 'o' as int && AsciiLower(s[1]) == 'n' as int then
      var w := WordRun(s[2..]);
      if 1 <= w && 2 + w < |s| && s[2 + w] == '=' as int then 3 + w else 0
    else 0
  }

  /**
   * `/on\w+=/i` matches the start of `s` with `k` word characters between
   * `on` and `=`.
   */
  predicate HandlerShape(s: JsString, k: int) {
    && 1 <= k && 2 + k < |s|
    && AsciiLower(s[0]) == 'o' as int && AsciiLower(s[1]) == 'n' as int
    && (forall j :: 2 <= j < 2 + k ==> IsWordChar(s[j]))
    && s[2 + k] == '=' as int
  }

  /**
   * `HandlerMatch` is the regular expression: it finds a match exactly when
   * `s` starts with `on`, a run of word characters and `=`, and the match
   * it returns is that whole text.
   */
  lemma HandlerMatchIsRegex(s: JsString)
    ensures HandlerMatch(s) != 0 <==> exists k :: HandlerShape(s, k)
    ensures forall k :: HandlerShape(s, k) ==> HandlerMatch(s) == k + 3
  {
    if HandlerMatch(s) != 0 {
      var w := WordRun(s[2..]);
      forall j | 2 <= j < 2 + w ensures IsWordChar(s[j]) {
        assert s[j] == s[2..][j - 2];
      }
      assert HandlerShape(s, w);
    }
    forall k | HandlerShape(s, k) ensures HandlerMatch(s) == k + 3 {
      var w := WordRun(s[2..]);
      assert !IsWordChar(s[2..][k]);
    }
  }

  /** The length of the match of `p` at the start of `s`, 0 when there is none. */
  function MatchLength(s: JsString, p: Pattern): (n: nat)
    ensures n <= |s|
  {
    match p
    case Literal(text) => if text != [] && LiteralAt(s, text) then |text| else 0
    case EventHandler => HandlerMatch(s)
  }

  /**
   * One global replace with `''`: scan left to right; where `p` matches,
   * drop the match and continue after it; otherwise keep one code unit.
   */
  function Strip(s: JsString, p: Pattern): (r: JsString)
    ensures |r| <= |s|
    ensures FreeOfMarkup(s) ==> FreeOfMarkup(r)
    decreases |s|
  {
    if s == [] then []
    else
      var n := MatchLength(s, p);
      if n > 0 then
        Strip(s[n..], p)
      else
        var r := Strip(s[1..], p);
        assert FreeOfMarkup(s) ==> FreeOfMarkup(s[1..]) by {
          forall i | 0 <= i < |s[1..]| ensures s[1..][i] == s[i + 1] { }
        }
        [s[0]] + r
  }

  /** The four stripping passes, in the order of the source. */
  function StripScripts(s: JsString): (r: JsString)
    ensures |r| <= |s|
    ensures FreeOfMarkup(s) ==> FreeOfMarkup(r)
  {
    Strip(Strip(Strip(Strip(s, JAVASCRIPT), EVENT_HANDLER), DATA_URI), VBSCRIPT)
  }

  /** `SecurityUtils.sanitizeInput(input)`. */
  function SanitizeInput(input: JsString): (r: JsString)
    ensures input == [] ==> r == []
    ensures |r| <= MAX_LENGTH
    ensures r != [] ==> !IsSpace(r[0])
    ensures FreeOfMarkup(r)
  {
    if input == [] then []
    else
      var escaped := EscapeHtml(input);
      var stripped := StripScripts(escaped);
      var trimmed := Trim(stripped);
      assert FreeOfMarkup(trimmed) by {
        var a :| TrimmedAt(trimmed, stripped, a);
        forall i | 0 <= i < |trimmed| ensures !IsMarkup(trimmed[i]) { assert trimmed[i] == stripped[a + i]; }
      }
      Prefix(trimmed, MAX_LENGTH)
  }

  /** A value `sanitizeInput` can return: at most 500 code units, no leading white space, no markup character. */
  predicate Sanitized(s: JsString) {
    |s| <= MAX_LENGTH && (s != [] ==> !IsSpace(s[0])) && FreeOfMarkup(s)
  }

  // ---------------------------------------------------------------------
  // What sanitizing leaves unchanged, and what it does not

  predicate IsScriptPattern(p: Pattern) {
    p == JAVASCRIPT || p == EVENT_HANDLER || p == DATA_URI || p == VBSCRIPT
  }

  /** `p` matches nowhere in `s`. */
  predicate NoMatch(s: JsString, p: Pattern) {
    forall i :: 0 <= i < |s| ==> MatchLength(s[i..], p) == 0
  }

  /** A global replace that finds no match returns its input. */
  lemma {:induction false} StripWithoutMatch(s: JsString, p: Pattern)
    requires NoMatch(s, p)
    ensures Strip(s, p) == s
    decreases |s|
  {
    if s != [] {
      assert s[0..] == s;
      assert NoMatch(s[1..], p) by {
        forall i | 0 <= i < |s[1..]| ensures MatchLength(s[1..][i..], p) == 0 {
          assert s[1..][i..] == s[i + 1..];
        }
      }
      StripWithoutMatch(s[1..], p);
    }
  }

  /**
   * Every match of the four patterns ends in `:` or `=`, so a string with
   * neither character is left alone by all of them.
   */
  lemma NoColonNoEqualsNoMatch(s: JsString, p: Pattern)
    requires forall i :: 0 <= i < |s| ==> s[i] != ':' as int && s[i] != '=' as int
    requires IsScriptPattern(p)
    ensures NoMatch(s, p)
  {
    forall i | 0 <= i < |s| ensures MatchLength(s[i..], p) == 0 {
      var t := s[i..];
      assert forall j :: 0 <= j < |t| ==> t[j] != ':' as int && t[j] != '=' as int by {
        forall j | 0 <= j < |t| ensures t[j] == s[i + j] { }
      }
      if p.Literal? {
        var k := |p.text| - 1;
        assert p.text[k] == ':';
        if k < |t| { assert AsciiLower(t[k]) != ':' as int; }
      }
    }
  }

  /**
   * The strings `sanitizeInput` returns unchanged: trimmed, at most 500 code
   * units, free of `& < > " '` and of the four stripped patterns.
   */
  predicate AlreadyClean(s: JsString) {
    && |s| <= MAX_LENGTH
    && (s == [] || (!IsSpace(s[0]) && !IsSpace(s[|s| - 1])))
    && (forall i :: 0 <= i < |s| ==> !IsHtmlSpecial(s[i]))
    && ScriptFree(s)
  }

  /** None of the four patterns matches anywhere in `s`. */
  predicate ScriptFree(s: JsString) {
    NoMatch(s, JAVASCRIPT) && NoMatch(s, EVENT_HANDLER) && NoMatch(s, DATA_URI) && NoMatch(s, VBSCRIPT)
  }

  /** The four passes leave a string in which nothing matches unchanged. */
  lemma StripScriptsWithoutMatch(s: JsString)
    requires ScriptFree(s)
    ensures StripScripts(s) == s
  {
    StripWithoutMatch(s, JAVASCRIPT);
    StripWithoutMatch(s, EVENT_HANDLER);
    StripWithoutMatch(s, DATA_URI);
    StripWithoutMatch(s, VBSCRIPT);
  }

  /** Sanitizing is the identity on a clean string. */
  lemma SanitizeKeepsClean(s: JsString)
    requires AlreadyClean(s)
    ensures SanitizeInput(s) == s
  {
    if s != [] {
      assert EscapeHtml(s) == s;
      StripScriptsWithoutMatch(s);
    }
  }

  /**
   * When escaping yields a trimmed string of at most 500 code units without
   * `:` or `=`, the escaped string is the result.
   */
  lemma SanitizeIsEscapeAlone(s: JsString)
    requires s != []
    requires var e := EscapeHtml(s);
      && |e| <= MAX_LENGTH && !IsSpace(e[0]) && !IsSpace(e[|e| - 1])
      && forall i :: 0 <= i < |e| ==> e[i] != ':' as int && e[i] != '=' as int
    ensures SanitizeInput(s) == EscapeHtml(s)
  {
    var e := EscapeHtml(s);
    NoColonNoEqualsNoMatch(e, JAVASCRIPT);
    NoColonNoEqualsNoMatch(e, EVENT_HANDLER);
    NoColonNoEqualsNoMatch(e, DATA_URI);
    NoColonNoEqualsNoMatch(e, VBSCRIPT);
    StripScriptsWithoutMatch(e);
    assert Trim(e) == e;
  }

  /** Sanitizing is not idempotent: `"&"` gives `"&amp;"`, which gives `"&amp;amp;"`. */
  lemma SanitizeNotIdempotent()
    ensures SanitizeInput(BmpUnits("&")) == BmpUnits("&amp;")
    ensures SanitizeInput(BmpUnits("&amp;")) == BmpUnits("&amp;amp;")
  {
    var once := Entity(AMP);
    assert BmpUnits("&") == [AMP];
    assert BmpUnits("&amp;") == once;
    assert BmpUnits("&amp;amp;") == once + once[1..];
    SanitizeAmpOnce(BmpUnits("&"));
    SanitizeAmpTwice(BmpUnits("&amp;"));
  }

  lemma SanitizeAmpOnce(s: JsString)
    requires s == [AMP]
    ensures SanitizeInput(s) == Entity(AMP)
  {
    assert EscapeHtml(s) == Entity(AMP);
    NoColonNoEqualsEscaped(s);
  }

  lemma SanitizeAmpTwice(s: JsString)
    requires s == Entity(AMP)
    ensures SanitizeInput(s) == s + s[1..]
  {
    var twice := s + s[1..];
    assert EscapeHtml(s) == twice by {
      assert s == [AMP] + s[1..];
      assert EscapeHtml(s[1..]) == s[1..];
    }
    assert forall i :: 0 <= i < |twice| ==> twice[i] in {AMP, 'a' as int, 'm' as int, 'p' as int, ';' as int};
    NoColonNoEqualsEscaped(s);
  }

  /** The `SanitizeIsEscapeAlone` case for short strings without `:`, `=` or white space. */
  lemma NoColonNoEqualsEscaped(s: JsString)
    requires s != [] && |EscapeHtml(s)| <= MAX_LENGTH
    requires forall i :: 0 <= i < |EscapeHtml(s)| ==> var c := EscapeHtml(s)[i]; c != ':' as int && c != '=' as int && !IsSpace(c)
    ensures SanitizeInput(s) == EscapeHtml(s)
  {
    SanitizeIsEscapeAlone(s);
  }

  /** `on\w+=` removes from the first `on` up to the `=`: `"monkey="` becomes `"m"`. */
  lemma StripHandlerExample()
    ensures Strip(BmpUnits("monkey="), EVENT_HANDLER) == BmpUnits("m")
  {
    StripMonkey(BmpUnits("monkey="));
  }

  lemma StripMonkey(s: JsString)
    requires s == BmpUnits("monkey=")
    ensures Strip(s, EVENT_HANDLER) == BmpUnits("m")
  {
    assert HandlerMatch(s) == 0;
    var t := s[1..];
    assert WordRun(t[2..]) == 3 by {
      var k := t[2..];
      assert k[3] == '=' as int;
      assert WordRun(k[3..]) == 0;
      assert k[2..][1..] == k[3..];
      assert WordRun(k[2..]) == 1;
      assert k[1..][1..] == k[2..];
      assert WordRun(k[1..]) == 2;
    }
    assert HandlerMatch(t) == 6;
    assert t[6..] == [];
  }

  /**
   * One pass can assemble a new match: `"java" + "javascript:" + "script:"`
   * becomes `"javascript:"`.
   */
  lemma StripReassemblesExample(head: JsString, word: JsString, rest: JsString)
    requires head == BmpUnits("java") && word == BmpUnits("javascript:") && rest == BmpUnits("script:")
    ensures Strip(head + word + rest, JAVASCRIPT) == word
  {
    JavaLiteral(head);
    JavascriptLiteral(word);
    ScriptLiteral(rest);
    WordSplitsAtJava(head, word, rest);
    StripJavajava(head, word, rest);
  }

  lemma JavaLiteral(head: JsString)
    requires head == BmpUnits("java")
    ensures head == ['j' as int, 'a' as int, 'v' as int, 'a' as int]
  {
  }

  lemma JavascriptLiteral(word: JsString)
    requires word == BmpUnits("javascript:")
    ensures |word| == 11 && LiteralAt(word, "javascript:")
  {
  }

  lemma ScriptLiteral(rest: JsString)
    requires rest == BmpUnits("script:")
    ensures |rest| == 7
  {
  }

  lemma WordSplitsAtJava(head: JsString, word: JsString, rest: JsString)
    requires head == BmpUnits("java") && word == BmpUnits("javascript:") && rest == BmpUnits("script:")
    ensures head + rest == word
  {
  }

  lemma StripJavajava(head: JsString, word: JsString, rest: JsString)
    requires head == ['j' as int, 'a' as int, 'v' as int, 'a' as int]
    requires |word| == 11 && LiteralAt(word, "javascript:") && |rest| < 11
    ensures Strip(head + word + rest, JAVASCRIPT) == head + rest
  {
    var t := word + rest;
    assert head + word + rest == head + t;
    assert t[0] == word[0];
    JavaHeadNoMatch(head, t);
    StripKeepsPrefix(head, t, JAVASCRIPT);
    assert LiteralAt(t, "javascript:") by {
      forall k | 0 <= k < 11 ensures t[k] == word[k] { }
    }
    assert t[11..] == rest;
    StripRestUnchanged(rest);
  }

  /** No match of `javascript:` starts inside `"java"` when `"javascript:"` follows it. */
  lemma JavaHeadNoMatch(head: JsString, t: JsString)
    requires head == ['j' as int, 'a' as int, 'v' as int, 'a' as int]
    requires |t| >= 11 && AsciiLower(t[0]) == 'j' as int
    ensures NoMatchIn(head, t, JAVASCRIPT)
  {
    assert NoMatchIn(head[4..], t, JAVASCRIPT);
    assert NoMatchIn(head[3..], t, JAVASCRIPT) by {
      assert (head[3..] + t)[0] == 'a' as int;
      assert head[3..][1..] == head[4..];
    }
    assert NoMatchIn(head[2..], t, JAVASCRIPT) by {
      assert (head[2..] + t)[0] == 'v' as int;
      assert head[2..][1..] == head[3..];
    }
    assert NoMatchIn(head[1..], t, JAVASCRIPT) by {
      assert (head[1..] + t)[0] == 'a' as int;
      assert head[1..][1..] == head[2..];
    }
    assert MatchLength(head + t, JAVASCRIPT) == 0 by {
      assert (head + t)[4] == t[0];
    }
  }

  /** `p` starts a match at no position of `h` in the text `h + t`. */
  predicate NoMatchIn(h: JsString, t: JsString, p: Pattern)
    decreases |h|
  {
    h == [] || (MatchLength(h + t, p) == 0 && NoMatchIn(h[1..], t, p))
  }

  /** A code unit where nothing matches is copied, and the scan goes on after it. */
  lemma StripStepNoMatch(s: JsString, p: Pattern)
    requires s != [] && MatchLength(s, p) == 0
    ensures Strip(s, p) == [s[0]] + Strip(s[1..], p)
  {
  }

  /** A prefix in which nothing starts a match is copied unchanged. */
  lemma {:induction false} StripKeepsPrefix(h: JsString, t: JsString, p: Pattern)
    requires NoMatchIn(h, t, p)
    ensures Strip(h + t, p) == h + Strip(t, p)
    decreases |h|
  {
    if h != [] {
      StripKeepsPrefix(h[1..], t, p);
      StripCons(h, t, p);
      ConsConcat(h, Strip(t, p));
    } else {
      assert h + t == t;
    }
  }

  lemma ConsConcat(h: JsString, r: JsString)
    requires h != []
    ensures [h[0]] + (h[1..] + r) == h + r
  {
    assert [h[0]] + h[1..] == h;
  }

  /** `StripStepNoMatch` for a text split into a non-empty head and a tail. */
  lemma StripCons(h: JsString, t: JsString, p: Pattern)
    requires h != [] && MatchLength(h + t, p) == 0
    ensures Strip(h + t, p) == [h[0]] + Strip(h[1..] + t, p)
  {
    var s := h + t;
    assert s[1..] == h[1..] + t;
    StripStepNoMatch(s, p);
  }

  lemma StripRestUnchanged(rest: JsString)
    requires |rest| < 11
    ensures Strip(rest, JAVASCRIPT) == rest
  {
    StripWithoutMatch(rest, JAVASCRIPT);
  }

  /**
   * A white-space character typed after a clean field value is dropped by
   * the next sanitizing: the stored value does not change.
   */
  lemma SanitizeDropsTypedTrailingSpace(s: JsString, c: CodeUnit)
    requires AlreadyClean(s) && IsSpace(c)
    ensures SanitizeInput(s + [c]) == s
  {
    var t := s + [c];
    assert EscapeHtml(t) == t by {
      forall i | 0 <= i < |t| ensures !IsHtmlSpecial(t[i]) {
        if i < |s| { assert t[i] == s[i]; }
      }
    }
    ScriptFreeAfterAppendedSpace(s, c);
    StripScriptsWithoutMatch(t);
    if s == [] {
      assert TrimStart(t) == [];
    } else {
      assert TrimStart(t) == t;
      assert TrimEnd(t) == s by {
        assert t[..|t| - 1] == s;
      }
    }
  }

  lemma ScriptFreeAfterAppendedSpace(s: JsString, c: CodeUnit)
    requires ScriptFree(s) && IsSpace(c)
    ensures ScriptFree(s + [c])
  {
    var t := s + [c];
    forall p | IsScriptPattern(p) ensures NoMatch(t, p) {
      assert NoMatch(s, p);
      forall i | 0 <= i < |t| ensures MatchLength(t[i..], p) == 0 {
        if i < |s| {
          assert t[i..] == s[i..] + [c];
          MatchLengthIgnoresAppendedSpace(s[i..], c, p);
        } else {
          assert t[i..] == [] + [c];
          MatchLengthIgnoresAppendedSpace([], c, p);
        }
      }
    }
  }

  /** No match depends on a white-space character appended after it. */
  lemma MatchLengthIgnoresAppendedSpace(x: JsString, c: CodeUnit, p: Pattern)
    requires IsSpace(c)
    requires IsScriptPattern(p)
    ensures MatchLength(x + [c], p) == MatchLength(x, p)
  {
    var t := x + [c];
    match p
    case Literal(text) =>
      if |text| == |t| {
        assert text[|text| - 1] == ':';
        assert AsciiLower(t[|x|]) != ':' as int;
      }
      if |text| <= |x| {
        assert LiteralAt(t, text) == LiteralAt(x, text) by {
          forall k | 0 <= k < |text| ensures t[k] == x[k] { }
        }
      }
    case EventHandler =>
      if 2 <= |x| {
        assert t[2..] == x[2..] + [c];
        WordRunIgnoresAppendedSpace(x[2..], c);
      }
  }

  lemma {:induction false} WordRunIgnoresAppendedSpace(x: JsString, c: CodeUnit)
    requires IsSpace(c)
    ensures WordRun(x + [c]) == WordRun(x)
  {
    if x != [] {
      assert (x + [c])[1..] == x[1..] + [c];
      WordRunIgnoresAppendedSpace(x[1..], c);
    }
  }
}
