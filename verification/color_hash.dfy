/**
 * `getColorHash` from the render loop: a label string is hashed with
 * `hash = c + ((hash << 5) - hash)`, which agrees with the polynomial hash
 * `31 * hash + c` modulo 2^32, reduced to a hue with JavaScript's truncating
 * `%` and `Math.abs`, and formatted as a CSS `hsl(...)` colour.
 *
 * The string is a sequence of UTF-16 code units (what `charCodeAt`
 * returns). `hash` lives in a JavaScript Number; after the first iteration
 * it is no longer confined to 32 bits, because only the shifted operand is
 * wrapped, so it is kept as an unbounded integer here.
 */
module ColorHash {
  import opened Wrappers
  import opened JsNumbers

  /** A UTF-16 code unit. */
  type CodeUnit = u: int | 0 <= u < 0x1_0000

  const MAX_UNIT: int := 0xFFFF

  /** 2^53: every integer up to this magnitude is held exactly by a Number. */
  const MAX_EXACT: int := 0x20_0000_0000_0000

  /**
   * One iteration of the hashing loop. It agrees with `31 * hash + unit`
   * modulo 2^32, and it grows |hash| by at most 2^31 + 0xFFFF.
   */
  function Step(hash: int, unit: CodeUnit): (r: int)
    ensures Congruent(r, 31 * hash + unit, TWO_32)
    ensures Abs(r) <= Abs(hash) + TWO_31 + MAX_UNIT
  {
    var shifted := ShiftLeft5(hash);
    var r := unit + (shifted - hash);
    assert Congruent(r, 31 * hash + unit, TWO_32) by {
      var q := (32 * hash - shifted) / TWO_32;
      MultipleIsDivisible(r - (31 * hash + unit), TWO_32, -q);
    }
    r
  }

  /** The value of `hash` once the loop has consumed every unit of `s`. */
  function Hash(s: seq<CodeUnit>): int
    decreases |s|
  {
    if |s| == 0 then 0 else Step(Hash(s[..|s| - 1]), s[|s| - 1])
  }

  /** Reference definition: the polynomial hash `sum of s[i] * 31^(n-1-i)`, unreduced. */
  function PolyHash(s: seq<CodeUnit>): int
    decreases |s|
  {
    if |s| == 0 then 0 else 31 * PolyHash(s[..|s| - 1]) + s[|s| - 1]
  }

  /** Scaling by 31 and adding the same unit keeps two values congruent. */
  lemma CongruentStep(a: int, b: int, unit: int)
    requires Congruent(a, b, TWO_32)
    ensures Congruent(31 * a + unit, 31 * b + unit, TWO_32)
  {
    var q := (a - b) / TWO_32;
    MultipleIsDivisible((31 * a + unit) - (31 * b + unit), TWO_32, 31 * q);
  }

  /** The loop's hash agrees with the polynomial hash modulo 2^32. */
  lemma {:induction false} HashMatchesPolyHash(s: seq<CodeUnit>)
    ensures Congruent(Hash(s), PolyHash(s), TWO_32)
    decreases |s|
  {
    if |s| > 0 {
      var init := s[..|s| - 1];
      var u := s[|s| - 1];
      HashMatchesPolyHash(init);
      CongruentStep(Hash(init), PolyHash(init), u);
      CongruentTrans(Hash(s), 31 * Hash(init) + u, PolyHash(s), TWO_32);
    }
  }

  /** Extending the consumed prefix by one unit runs one more loop iteration. */
  lemma HashPrefixStep(s: seq<CodeUnit>, i: nat)
    requires i < |s|
    ensures Hash(s[..i + 1]) == Step(Hash(s[..i]), s[i])
  {
    assert s[..i + 1][..i] == s[..i];
  }

  /** The hash of a string is bounded by its length times 2^31 + 0xFFFF. */
  lemma {:induction false} HashMagnitude(s: seq<CodeUnit>)
    ensures Abs(Hash(s)) <= |s| * (TWO_31 + MAX_UNIT)
    decreases |s|
  {
    if |s| > 0 {
      HashMagnitude(s[..|s| - 1]);
    }
  }

  /**
   * Arithmetic core of the exactness bound: a hash reached after `i` units
   * is within 2^53, and so is its difference with any 32-bit value when
   * one more iteration fits under 2^21 units.
   */
  lemma ExactBounds(h: int, shifted: int, i: int)
    requires 0 <= i <= 0x20_0000
    requires Abs(h) <= i * (TWO_31 + MAX_UNIT)
    requires IsInt32(shifted)
    ensures Abs(h) <= MAX_EXACT
    ensures i < 0x20_0000 ==> Abs(shifted - h) <= MAX_EXACT
  {
    var k := TWO_31 + MAX_UNIT;
    assert (0x20_0000 - i) * k >= 0;
    if i < 0x20_0000 {
      assert (0x20_0000 - 1 - i) * k >= 0;
    }
  }

  /**
   * For strings of up to 2^21 code units every value the loop computes as
   * a double stays within 2^53. The hash of such a string is within 2^53;
   * every prefix the loop passes through is itself such a string, and for
   * a prefix shorter than 2^21 the next iteration's intermediate
   * `(hash << 5) - hash` is within 2^53 too, because `hash << 5` is a
   * 32-bit value (the contract of `ShiftLeft5`). So the unbounded-integer
   * model agrees with the double arithmetic.
   */
  lemma HashIsExactDouble(s: seq<CodeUnit>)
    requires |s| <= 0x20_0000
    ensures Abs(Hash(s)) <= MAX_EXACT
    ensures |s| < 0x20_0000 ==> forall shifted :: IsInt32(shifted) ==> Abs(shifted - Hash(s)) <= MAX_EXACT
  {
    var h := Hash(s);
    HashMagnitude(s);
    ExactBounds(h, 0, |s|);
    forall shifted | IsInt32(shifted)
      ensures |s| < 0x20_0000 ==> Abs(shifted - h) <= MAX_EXACT
    {
      ExactBounds(h, shifted, |s|);
    }
  }

  /** `Math.abs(hash % 360)`: the hue of a label. */
  function Hue(s: seq<CodeUnit>): (hue: int)
    ensures 0 <= hue < 360
    ensures |s| == 0 ==> hue == 0
  {
    Abs(JsRem(Hash(s), 360))
  }

  /**
   * Reference definition of the hue: the Euclidean remainder of |hash|
   * modulo 360.
   */
  lemma HueIsRemainderOfMagnitude(s: seq<CodeUnit>)
    ensures Hue(s) == Abs(Hash(s)) % 360
  {
    AbsJsRem(Hash(s), 360);
  }

  // Decimal rendering of the hue inside the template literal.

  predicate IsDigit(c: char) {
    '0' <= c <= '9'
  }

  predicate AllDigits(s: string) {
    forall i :: 0 <= i < |s| ==> IsDigit(s[i])
  }

  function DigitChar(d: int): (c: char)
    requires 0 <= d < 10
    ensures IsDigit(c)
  {
    ('0' as int + d) as char
  }

  /** Number-to-string conversion of a non-negative integer. */
  function Decimal(n: nat): (s: string)
    ensures |s| > 0
    ensures AllDigits(s)
    decreases n
  {
    if n < 10 then [DigitChar(n)] else Decimal(n / 10) + [DigitChar(n % 10)]
  }

  /** Reads a string of decimal digits back as a number. */
  function ParseDecimal(s: string): nat
    requires AllDigits(s)
    decreases |s|
  {
    if |s| == 0 then 0
    else 10 * ParseDecimal(s[..|s| - 1]) + (s[|s| - 1] as int - '0' as int)
  }

  lemma {:induction false} DecimalRoundTrip(n: nat)
    ensures ParseDecimal(Decimal(n)) == n
    decreases n
  {
    if n >= 10 {
      DecimalRoundTrip(n / 10);
      var s := Decimal(n);
      assert s[..|s| - 1] == Decimal(n / 10);
    }
  }

  const HSL_PREFIX: string := "hsl("
  const HSL_SUFFIX: string := ", 100%, 50%)"

  /** Recovers the hue from a colour string of the shape `hsl(<digits>, 100%, 50%)`. */
  function ParseHsl(color: string): Option<nat> {
    if |color| > |HSL_PREFIX| + |HSL_SUFFIX|
       && color[..|HSL_PREFIX|] == HSL_PREFIX
       && color[|color| - |HSL_SUFFIX|..] == HSL_SUFFIX
       && AllDigits(color[|HSL_PREFIX|..|color| - |HSL_SUFFIX|])
    then Some(ParseDecimal(color[|HSL_PREFIX|..|color| - |HSL_SUFFIX|]))
    else None
  }

  /**
   * The CSS colour string `hsl(<hue>, 100%, 50%)`; the hue can be read
   * back from it.
   */
  function Hsl(hue: nat): (color: string)
    ensures ParseHsl(color) == Some(hue)
  {
    var d := Decimal(hue);
    var color := HSL_PREFIX + d + HSL_SUFFIX;
    assert color[..|HSL_PREFIX|] == HSL_PREFIX;
    assert color[|color| - |HSL_SUFFIX|..] == HSL_SUFFIX;
    assert color[|HSL_PREFIX|..|color| - |HSL_SUFFIX|] == d;
    DecimalRoundTrip(hue);
    color
  }

  /** Distinct hues give distinct colours. */
  lemma HslInjective(h1: nat, h2: nat)
    requires Hsl(h1) == Hsl(h2)
    ensures h1 == h2
  {
    assert ParseHsl(Hsl(h1)) == Some(h1);
  }

  /** The colour of a label: `getColorHash`. */
  function ColorOf(name: seq<CodeUnit>): string {
    Hsl(Hue(name))
  }

  /** The hashing loop of `getColorHash`, one code unit per iteration. */
  method HashLoop(str: seq<CodeUnit>) returns (hash: int)
    ensures hash == Hash(str)
    ensures Congruent(hash, PolyHash(str), TWO_32)
    ensures Abs(hash) <= |str| * (TWO_31 + MAX_UNIT)
  {
    hash := 0;
    var i := 0;
    while i < |str|
      invariant 0 <= i <= |str|
      invariant hash == Hash(str[..i])
    {
      HashPrefixStep(str, i);
      hash := Step(hash, str[i]);
      i := i + 1;
    }
    assert str[..i] == str;
    HashMatchesPolyHash(str);
    HashMagnitude(str);
  }

  /**
   * `getColorHash` as written: the hashing loop, then the truncating
   * remainder, absolute value and formatting. The hue can be read back
   * from the colour and lies in 0..359.
   */
  method GetColorHash(str: seq<CodeUnit>) returns (color: string)
    ensures color == ColorOf(str)
    ensures ParseHsl(color) == Some(Hue(str))
    ensures ParseHsl(color).value < 360
  {
    var hash := HashLoop(str);
    var hue := Abs(JsRem(hash, 360));
    color := Hsl(hue);
  }
}
