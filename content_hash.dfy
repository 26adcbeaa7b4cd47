/**
 * `SecurityUtils.generateHash`: a rolling hash over the code units of a
 * message, kept in 32-bit two's complement, printed as the base-36 digits
 * of its absolute value. The testimonial form uses it to spot a message it
 * has already accepted.
 */
module ContentHash {
  import opened JsString

  /** A value of JavaScript's signed 32-bit range. */
  predicate IsInt32(x: int) {
    -0x8000_0000 <= x < 0x8000_0000
  }

  /**
   * ToInt32 of section 7.1.6 of ECMA-262 on an integral number: reduce
   * modulo 2^32 and read the result as two's complement.
   */
  function ToInt32(x: int): (r: int)
    ensures IsInt32(r)
    ensures (x - r) % 0x1_0000_0000 == 0
  {
    var m := x % 0x1_0000_0000;
    assert x == (x / 0x1_0000_0000) * 0x1_0000_0000 + m;
    if m >= 0x8000_0000 then m - 0x1_0000_0000 else m
  }

  /** The ensures of `ToInt32` determine it: two numbers congruent modulo 2^32 convert alike. */
  lemma ToInt32Congruent(x: int, y: int)
    requires Congruent(x, y)
    ensures ToInt32(x) == ToInt32(y)
  {
    var rx, ry := ToInt32(x), ToInt32(y);
    var kx := CongruentWitness(x, rx);
    var ky := CongruentWitness(y, ry);
    var k := CongruentWitness(x, y);
    assert rx - ry == (k - kx + ky) * 0x1_0000_0000;
  }

  /** `ToInt32` leaves a 32-bit value as it is. */
  lemma ToInt32OfInt32(x: int)
    requires IsInt32(x)
    ensures ToInt32(x) == x
  {
  }

  /** `hash << 5`: the left operand goes through ToInt32, and the product is read back as 32 bits. */
  function ShiftLeft5(h: int): int {
    ToInt32(ToInt32(h) * 32)
  }

  /**
   * One turn of the loop: `hash = ((hash << 5) - hash) + char` in double
   * arithmetic (exact, as every value stays far below 2^53), then
   * `hash = hash & hash`, which is ToInt32 of the value.
   */
  function Step(h: int, c: CodeUnit): int {
    ToInt32((ShiftLeft5(h) - h) + c)
  }

  /** The hash after the whole string, built by the loop from `hash = 0`. */
  function RollingHash(s: JsString): (h: int)
    ensures IsInt32(h)
    decreases |s|
  {
    if s == [] then 0 else Step(RollingHash(s[..|s| - 1]), s[|s| - 1])
  }

  /** The polynomial the hash computes, without any wrap-around: `31·p + c` per code unit. */
  function Polynomial(s: JsString): int
    decreases |s|
  {
    if s == [] then 0 else 31 * Polynomial(s[..|s| - 1]) + s[|s| - 1]
  }

  /** `x` and `y` differ by a multiple of 2^32. */
  predicate Congruent(x: int, y: int) {
    (x - y) % 0x1_0000_0000 == 0
  }

  lemma CongruentWitness(x: int, y: int) returns (k: int)
    requires Congruent(x, y)
    ensures x - y == k * 0x1_0000_0000
  {
    k := (x - y) / 0x1_0000_0000;
  }

  lemma CongruentFromWitness(x: int, y: int, k: int)
    requires x - y == k * 0x1_0000_0000
    ensures Congruent(x, y)
  {
  }

  /** One step is `31·h + c` reduced to 32 bits. */
  lemma StepIsTimes31(h: int, c: CodeUnit)
    requires IsInt32(h)
    ensures Step(h, c) == ToInt32(31 * h + c)
  {
    ToInt32OfInt32(h);
    var t := ToInt32(h * 32);
    var k := CongruentWitness(h * 32, t);
    CongruentFromWitness(t - h + c, 31 * h + c, -k);
    ToInt32Congruent(t - h + c, 31 * h + c);
  }

  /** The rolling hash is the base-31 polynomial of the code units, reduced by ToInt32. */
  lemma {:induction false} RollingHashIsPolynomial(s: JsString)
    ensures RollingHash(s) == ToInt32(Polynomial(s))
    decreases |s|
  {
    if s != [] {
      var p, c := s[..|s| - 1], s[|s| - 1];
      RollingHashIsPolynomial(p);
      var h := RollingHash(p);
      StepIsTimes31(h, c);
      var k := CongruentWitness(Polynomial(p), h);
      assert (31 * Polynomial(p) + c) - (31 * h + c) == (31 * k) * 0x1_0000_0000;
      CongruentFromWitness(31 * Polynomial(p) + c, 31 * h + c, 31 * k);
      ToInt32Congruent(31 * Polynomial(p) + c, 31 * h + c);
    }
  }

  /** Appending the same text to two strings with one hash gives one hash again. */
  lemma {:induction false} SameHashExtends(a: JsString, b: JsString, y: JsString)
    requires RollingHash(a) == RollingHash(b)
    ensures RollingHash(a + y) == RollingHash(b + y)
    decreases |y|
  {
    if y == [] {
      assert a + y == a && b + y == b;
    } else {
      var y' := y[..|y| - 1];
      SameHashExtends(a, b, y');
      LastSplit(a, y);
      LastSplit(b, y);
    }
  }

  /** The hash of `x + y` is one step from the hash of `x` and all of `y` but its last unit. */
  lemma LastSplit(x: JsString, y: JsString)
    requires y != []
    ensures RollingHash(x + y) == Step(RollingHash(x + y[..|y| - 1]), y[|y| - 1])
  {
    var s := x + y;
    assert s[..|s| - 1] == x + y[..|y| - 1];
    assert s[|s| - 1] == y[|y| - 1];
  }

  // ---------------------------------------------------------------------
  // Number.prototype.toString(36)

  /** The digit `0`-`9`, `a`-`z` for a value below 36. */
  function Digit(d: nat): (c: CodeUnit)
    requires d < 36
    ensures IsBase36Digit(c) && DigitValue(c) == d
  {
    if d < 10 then '0' as int + d else 'a' as int + (d - 10)
  }

  predicate IsBase36Digit(c: CodeUnit) {
    ('0' as int <= c <= '9' as int) || ('a' as int <= c <= 'z' as int)
  }

  /** The value of a base-36 digit. */
  function DigitValue(c: CodeUnit): nat
    requires IsBase36Digit(c)
  {
    if c <= '9' as int then c - '0' as int else c - 'a' as int + 10
  }

  /** The lower-case base-36 numeral of `n`, without leading zeros. */
  function Base36(n: nat): (r: JsString)
    ensures 1 <= |r|
    ensures forall i :: 0 <= i < |r| ==> IsBase36Digit(r[i])
    ensures r[0] == '0' as int ==> n == 0
  {
    if n < 36 then [Digit(n)] else Base36(n / 36) + [Digit(n % 36)]
  }

  /** The number a numeral of base-36 digits denotes. */
  function Base36Value(r: JsString): nat
    requires forall i :: 0 <= i < |r| ==> IsBase36Digit(r[i])
    decreases |r|
  {
    if r == [] then 0 else 36 * Base36Value(r[..|r| - 1]) + DigitValue(r[|r| - 1])
  }

  /** Reading the numeral back gives the number. */
  lemma {:induction false} Base36RoundTrip(n: nat)
    ensures Base36Value(Base36(n)) == n
    decreases n
  {
    if n >= 36 {
      Base36RoundTrip(n / 36);
      var r := Base36(n);
      assert r[..|r| - 1] == Base36(n / 36);
    }
  }

  /** A number below `36^k` needs at most `k` digits. */
  lemma {:induction false} Base36Length(n: nat, k: nat)
    requires 1 <= k && n < Pow36(k)
    ensures |Base36(n)| <= k
    decreases k
  {
    if n >= 36 {
      assert k >= 2 by { assert Pow36(1) == 36; }
      assert n / 36 < Pow36(k - 1);
      Base36Length(n / 36, k - 1);
    }
  }

  function Pow36(k: nat): (p: nat)
    ensures p >= 1
  {
    if k == 0 then 1 else 36 * Pow36(k - 1)
  }

  // ---------------------------------------------------------------------
  // generateHash

  function Abs(h: int): nat {
    if h < 0 then -h else h
  }

  /** `Math.abs(hash).toString(36)` for the final hash of `s`. */
  function HashToken(s: JsString): JsString {
    Base36(Abs(RollingHash(s)))
  }

  /** `generateHash`: the loop over `charCodeAt`, then the base-36 form of the absolute value. */
  method GenerateHash(content: JsString) returns (token: JsString)
    ensures token == HashToken(content)
  {
    var hash := 0;
    var i := 0;
    while i < |content|
      invariant 0 <= i <= |content|
      invariant hash == RollingHash(content[..i])
    {
      var ch := content[i];
      hash := (ShiftLeft5(hash) - hash) + ch;
      hash := ToInt32(hash);
      RollingHashSnoc(content, i);
      i := i + 1;
    }
    assert content[..i] == content;
    token := Base36(Abs(hash));
  }

  /** The hash of one more code unit is one more step. */
  lemma RollingHashSnoc(s: JsString, i: nat)
    requires i < |s|
    ensures RollingHash(s[..i + 1]) == Step(RollingHash(s[..i]), s[i])
  {
    assert s[..i + 1][..i] == s[..i];
  }

  // ---------------------------------------------------------------------
  // Properties of the token

  /** A token is one to six characters of `[0-9a-z]`, since `2^31 < 36^6`. */
  lemma TokenShape(s: JsString)
    ensures 1 <= |HashToken(s)| <= 6
    ensures forall i :: 0 <= i < |HashToken(s)| ==> IsBase36Digit(HashToken(s)[i])
  {
    assert Pow36(6) == 2176782336;
    Base36Length(Abs(RollingHash(s)), 6);
  }

  /** The empty message hashes to `"0"`. */
  lemma EmptyTokenIsZero()
    ensures HashToken([]) == ['0' as int]
  {
  }

  /** Two tokens are equal exactly when the final hashes have the same absolute value. */
  lemma TokensEqualIff(a: JsString, b: JsString)
    ensures HashToken(a) == HashToken(b) <==> Abs(RollingHash(a)) == Abs(RollingHash(b))
  {
    if HashToken(a) == HashToken(b) {
      Base36RoundTrip(Abs(RollingHash(a)));
      Base36RoundTrip(Abs(RollingHash(b)));
    }
  }

  /** Hashes `h` and `-h` print alike: the sign is lost. */
  lemma OppositeHashesCollide(a: JsString, b: JsString)
    requires RollingHash(a) == -RollingHash(b)
    ensures HashToken(a) == HashToken(b)
  {
  }

  /** `"Aa"` and `"BB"` hash alike: `65·31 + 97 == 66·31 + 66`. */
  lemma AaBbCollide(a: JsString, b: JsString)
    requires a == ['A' as int, 'a' as int] && b == ['B' as int, 'B' as int]
    ensures a != b && RollingHash(a) == RollingHash(b) == 2112
  {
    HashOfPair(a);
    HashOfPair(b);
    ToInt32OfInt32(2112);
  }

  /** The hash of a two-unit text: `31·c0 + c1`, reduced. */
  lemma HashOfPair(s: JsString)
    requires |s| == 2
    ensures RollingHash(s) == ToInt32(31 * (s[0] as int) + (s[1] as int))
  {
    var p := s[..1];
    assert p[..0] == [] && p[0] == s[0] && p[|p| - 1] == s[0];
    assert s[..|s| - 1] == p && s[|s| - 1] == s[1];
    StepIsTimes31(0, s[0]);
    ToInt32OfInt32(s[0]);
    assert RollingHash(p) == s[0];
    StepIsTimes31(s[0], s[1]);
  }

  /** Any two different texts that start with `"Aa"` and `"BB"` and go on alike share a token. */
  lemma DistinctMessagesShareToken(y: JsString)
    ensures ['A' as int, 'a' as int] + y != ['B' as int, 'B' as int] + y
    ensures HashToken(['A' as int, 'a' as int] + y) == HashToken(['B' as int, 'B' as int] + y)
  {
    var a, b := ['A' as int, 'a' as int], ['B' as int, 'B' as int];
    AaBbCollide(a, b);
    SameHashExtends(a, b, y);
    assert (a + y)[0] != (b + y)[0];
  }
}
