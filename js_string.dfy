/**
 * JavaScript strings as the browser sees them: sequences of UTF-16 code
 * units. `length`, `charCodeAt`, `substring` and `includes` all work on code
 * units, so every string of the model is a `JsString`.
 */
module JsString {

  /** One UTF-16 code unit, the value `charCodeAt` returns. */
  type CodeUnit = x: int | 0 <= x < 0x1_0000

  type JsString = seq<CodeUnit>

  /** Every character of `s` lies in the Basic Multilingual Plane (one code unit each). */
  predicate IsBmp(s: string) {
    forall i :: 0 <= i < |s| ==> s[i] as int < 0x1_0000
  }

  /**
   * The UTF-16 encoding of a string of Unicode scalar values: the code
   * units a JavaScript string literal with that text consists of.
   */
  function Utf16(s: string): JsString
  {
    if s == [] then [] else CharUnits(s[0]) + Utf16(s[1..])
  }

  /**
   * The code units of one character: itself below U+10000, otherwise a
   * high and a low surrogate.
   */
  function CharUnits(c: char): (r: JsString)
    ensures c as int < 0x1_0000 ==> r == [c as int]
    ensures c as int >= 0x1_0000 ==> |r| == 2 && 0xD800 <= r[0] < 0xDC00 && 0xDC00 <= r[1] < 0xE000
  {
    var v := c as int;
    if v < 0x1_0000 then [v]
    else [0xD800 + (v - 0x1_0000) / 0x400, 0xDC00 + (v - 0x1_0000) % 0x400]
  }

  /** Text of the Basic Multilingual Plane is one code unit per character. */
  lemma {:induction false} Utf16OfBmp(s: string)
    requires IsBmp(s)
    ensures |Utf16(s)| == |s|
    ensures forall i :: 0 <= i < |s| ==> Utf16(s)[i] == s[i] as int
  {
    if s != [] {
      assert IsBmp(s[1..]) by {
        forall i | 0 <= i < |s[1..]| ensures s[1..][i] as int < 0x1_0000 { assert s[1..][i] == s[i + 1]; }
      }
      Utf16OfBmp(s[1..]);
    }
  }

  /**
   * The code units of a text, one per character; for text of the Basic
   * Multilingual Plane this is its UTF-16 encoding (`BmpUnitsIsUtf16`).
   */
  function BmpUnits(s: string): (r: JsString)
    ensures |r| == |s|
  {
    seq(|s|, i requires 0 <= i < |s| => if s[i] as int < 0x1_0000 then s[i] as int else 0xFFFD)
  }

  lemma BmpUnitsIsUtf16(s: string)
    requires IsBmp(s)
    ensures BmpUnits(s) == Utf16(s)
  {
    Utf16OfBmp(s);
  }

  /**
   * The white space that `String.prototype.trim` removes and that the
   * regular-expression class `\s` matches: WhiteSpace and LineTerminator of
   * ECMAScript, with the space separators (category Zs) of Unicode 15.
   */
  predicate IsSpace(c: CodeUnit) {
    || c == 0x09 || c == 0x0A || c == 0x0B || c == 0x0C || c == 0x0D
    || c == 0x20 || c == 0xA0 || c == 0x1680
    || (0x2000 <= c <= 0x200A)
    || c == 0x2028 || c == 0x2029 || c == 0x202F || c == 0x205F
    || c == 0x3000 || c == 0xFEFF
  }

  /** ASCII lower-casing: `A`..`Z` to `a`..`z`, every other code unit unchanged. */
  function AsciiLower(c: CodeUnit): (r: CodeUnit)
    ensures 'A' as int <= c <= 'Z' as int ==> r == c + 32
    ensures !('A' as int <= c <= 'Z' as int) ==> r == c
  {
    if 'A' as int <= c <= 'Z' as int then c + 32 else c
  }

  /** The class `\w`: `[A-Za-z0-9_]`. */
  predicate IsWordChar(c: CodeUnit) {
    || ('a' as int <= c <= 'z' as int)
    || ('A' as int <= c <= 'Z' as int)
    || ('0' as int <= c <= '9' as int)
    || c == '_' as int
  }

  /** `s` with its leading white space removed. */
  function TrimStart(s: JsString): (r: JsString)
    ensures |r| <= |s| && r == s[|s| - |r|..]
    ensures r != [] ==> !IsSpace(r[0])
    ensures forall i :: 0 <= i < |s| - |r| ==> IsSpace(s[i])
    decreases |s|
  {
    if s != [] && IsSpace(s[0]) then TrimStart(s[1..]) else s
  }

  /** `s` with its trailing white space removed. */
  function TrimEnd(s: JsString): (r: JsString)
    ensures |r| <= |s| && r == s[..|r|]
    ensures r != [] ==> !IsSpace(r[|r| - 1])
    ensures forall i :: |r| <= i < |s| ==> IsSpace(s[i])
    decreases |s|
  {
    if s != [] && IsSpace(s[|s| - 1]) then TrimEnd(s[..|s| - 1]) else s
  }

  /**
   * `String.prototype.trim`: the longest infix of `s` that neither starts
   * nor ends with white space, everything cut off being white space.
   */
  function Trim(s: JsString): (r: JsString)
    ensures exists a :: TrimmedAt(r, s, a)
    ensures r != [] ==> !IsSpace(r[0]) && !IsSpace(r[|r| - 1])
    ensures (s == [] || (!IsSpace(s[0]) && !IsSpace(s[|s| - 1]))) ==> r == s
  {
    var r := TrimEnd(TrimStart(s));
    TrimCutsSpace(s);
    r
  }

  /** What `TrimStart` and then `TrimEnd` cut off is white space, on either side of the kept infix. */
  lemma TrimCutsSpace(s: JsString)
    ensures TrimmedAt(TrimEnd(TrimStart(s)), s, |s| - |TrimStart(s)|)
  {
    var t := TrimStart(s);
    var r := TrimEnd(t);
    var a := |s| - |t|;
    assert SliceAt(r, s, a);
    forall i | a + |r| <= i < |s| ensures IsSpace(s[i]) {
      assert |r| <= i - a < |t|;
      assert s[i] == t[i - a];
    }
  }

  /** `r` stands at index `a` of `s`, and everything of `s` before and after it is white space. */
  predicate TrimmedAt(r: JsString, s: JsString, a: int) {
    && SliceAt(r, s, a)
    && (forall i :: 0 <= i < a ==> IsSpace(s[i]))
    && (forall i :: a + |r| <= i < |s| ==> IsSpace(s[i]))
  }

  /** `s.substring(0, n)` for `n >= 0`: the first `n` code units, or all of `s`. */
  function Prefix(s: JsString, n: nat): (r: JsString)
    ensures |r| == if |s| <= n then |s| else n
    ensures r == s[..|r|]
  {
    if |s| <= n then s else s[..n]
  }

  /** `part` occurs in `whole` starting at index `a`. */
  predicate SliceAt(part: JsString, whole: JsString, a: int) {
    0 <= a && a + |part| <= |whole| && whole[a..a + |part|] == part
  }

  /** `hay.includes(needle)`. */
  predicate Includes(hay: JsString, needle: JsString) {
    exists i | 0 <= i <= |hay| - |needle| :: SliceAt(needle, hay, i)
  }
}
