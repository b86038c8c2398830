/**
 * Note colours: `hexToRgb` and the `darkColorMatcher` regular expression
 * (src/utils/pdf.ts:8-23, duplicated at src/backup.ts:7-22).
 */
module Colour {

  /** A JavaScript number as `parseInt` can produce it here: a non-negative integer or NaN. */
  datatype Number = Int(value: nat) | NaN

  datatype Rgb = Rgb(r: Number, g: Number, b: Number)

  const Black := Rgb(Int(0), Int(0), Int(0))
  const White := Rgb(Int(255), Int(255), Int(255))

  predicate IsHexDigit(c: char) {
    '0' <= c <= '9' || 'a' <= c <= 'f' || 'A' <= c <= 'F'
  }

  function HexValue(c: char): (v: nat)
    requires IsHexDigit(c)
    ensures v < 16
  {
    if '0' <= c <= '9' then (c as int) - ('0' as int)
    else if 'a' <= c <= 'f' then (c as int) - ('a' as int) + 10
    else (c as int) - ('A' as int) + 10
  }

  /**
   * `parseInt("0x" + hi + lo)`: after the "0x" prefix, the longest run of hex digits is read;
   * none at all gives NaN.
   */
  function ParseHexPair(hi: char, lo: char): (n: Number)
    ensures n.Int? <==> IsHexDigit(hi)
    ensures n.Int? ==> n.value < 256
    ensures IsHexDigit(hi) && IsHexDigit(lo) ==> n == Int(16 * HexValue(hi) + HexValue(lo))
    ensures IsHexDigit(hi) && !IsHexDigit(lo) ==> n == Int(HexValue(hi))
  {
    if !IsHexDigit(hi) then NaN
    else if !IsHexDigit(lo) then Int(HexValue(hi))
    else Int(16 * HexValue(hi) + HexValue(lo))
  }

  /**
   * `hexToRgb`: a 4-character string is read as `#rgb` (each digit doubled), a 7-character one
   * as `#rrggbb`; every other length gives black. The leading character is not inspected.
   */
  function HexToRgb(h: string): (c: Rgb)
    ensures |h| != 4 && |h| != 7 ==> c == Black
  {
    if |h| == 4 then
      Rgb(ParseHexPair(h[1], h[1]), ParseHexPair(h[2], h[2]), ParseHexPair(h[3], h[3]))
    else if |h| == 7 then
      Rgb(ParseHexPair(h[1], h[2]), ParseHexPair(h[3], h[4]), ParseHexPair(h[5], h[6]))
    else
      Black
  }

  /** A well-formed note colour: `#` followed by three or six hex digits. */
  predicate IsHexColour(h: string) {
    (|h| == 4 || |h| == 7) && h[0] == '#' && forall i :: 1 <= i < |h| ==> IsHexDigit(h[i])
  }

  predicate InByteRange(n: Number) {
    n.Int? && n.value <= 255
  }

  /** On a well-formed colour every channel is a number in [0, 255]. */
  lemma WellFormedChannels(h: string)
    requires IsHexColour(h)
    ensures InByteRange(HexToRgb(h).r) && InByteRange(HexToRgb(h).g) && InByteRange(HexToRgb(h).b)
  {
  }

  /** The short form `#rgb` means the same colour as `#rrggbb` with each digit doubled. */
  lemma ShortFormDoubles(h: string)
    requires |h| == 4
    ensures HexToRgb(h) == HexToRgb([h[0], h[1], h[1], h[2], h[2], h[3], h[3]])
  {
  }

  /** The hex digit for a value below 16 (lower case, as a browser's colour picker writes it). */
  function HexChar(d: nat): (c: char)
    requires d < 16
    ensures IsHexDigit(c) && HexValue(c) == d
  {
    if d < 10 then (('0' as int) + d) as char else (('a' as int) + d - 10) as char
  }

  /** `#rrggbb` for three channel values. */
  function ToHex(r: nat, g: nat, b: nat): (h: string)
    requires r < 256 && g < 256 && b < 256
    ensures IsHexColour(h) && |h| == 7
  {
    ['#', HexChar(r / 16), HexChar(r % 16), HexChar(g / 16), HexChar(g % 16), HexChar(b / 16), HexChar(b % 16)]
  }

  /** Decoding inverts encoding: hexToRgb reads back exactly the channels that were written. */
  lemma DecodeEncoded(r: nat, g: nat, b: nat)
    requires r < 256 && g < 256 && b < 256
    ensures HexToRgb(ToHex(r, g, b)) == Rgb(Int(r), Int(g), Int(b))
  {
    var h := ToHex(r, g, b);
    assert h[1] == HexChar(r / 16) && h[2] == HexChar(r % 16);
    assert h[3] == HexChar(g / 16) && h[4] == HexChar(g % 16);
    assert h[5] == HexChar(b / 16) && h[6] == HexChar(b % 16);
  }

  /** The decoded values of the repository's test colours. */
  lemma TestColours()
    ensures HexToRgb("#ffffff") == White
    ensures HexToRgb("#000") == Black
    ensures HexToRgb("#45bd33") == Rgb(Int(69), Int(189), Int(51))
  {
  }

  predicate IsLowDigit(c: char) {
    '0' <= c <= '7'
  }

  /**
   * `darkColorMatcher`, the regular expression `^#([0-7][0-9a-fA-F]){3}`: a `#` and three
   * digit pairs whose first digit is 0-7. It is anchored at the start only, so anything may follow.
   */
  predicate IsDark(h: string) {
    |h| >= 7 && h[0] == '#'
    && IsLowDigit(h[1]) && IsHexDigit(h[2])
    && IsLowDigit(h[3]) && IsHexDigit(h[4])
    && IsLowDigit(h[5]) && IsHexDigit(h[6])
  }

  /** A short `#rgb` colour never matches, however dark it is. */
  lemma ShortColourNeverDark(h: string)
    requires |h| < 7
    ensures !IsDark(h)
  {
  }

  /** The expression has no end anchor: extending a matching string keeps it matching. */
  lemma DarkIgnoresTail(h: string, tail: string)
    requires IsDark(h)
    ensures IsDark(h + tail)
  {
  }

  predicate IsUnder128(n: Number) {
    n.Int? && n.value < 128
  }

  lemma LowDigitBelow128(hi: char, lo: char)
    requires IsHexDigit(hi) && IsHexDigit(lo)
    ensures IsUnder128(ParseHexPair(hi, lo)) <==> IsLowDigit(hi)
  {
  }

  /**
   * On a well-formed `#rrggbb` colour the expression matches exactly when every decoded
   * channel is below 128: the regular expression is the "dark" rule stated on channel values.
   */
  lemma DarkIffChannelsLow(h: string)
    requires IsHexColour(h) && |h| == 7
    ensures IsDark(h) <==> (IsUnder128(HexToRgb(h).r) && IsUnder128(HexToRgb(h).g) && IsUnder128(HexToRgb(h).b))
  {
    LowDigitBelow128(h[1], h[2]);
    LowDigitBelow128(h[3], h[4]);
    LowDigitBelow128(h[5], h[6]);
  }

  /** Darkness judged on the decoded colour: every channel below 128. */
  predicate IsDarkRgb(c: Rgb) {
    IsUnder128(c.r) && IsUnder128(c.g) && IsUnder128(c.b)
  }

  /**
   * The dark test the expression stands for, applied to the decoded colour, so that the short
   * form is covered as well.
   */
  predicate IsDarkColour(h: string) {
    IsDarkRgb(HexToRgb(h))
  }

  /** On `#rrggbb` the decoded test agrees with the regular expression. */
  lemma DarkColourAgrees(h: string)
    requires IsHexColour(h) && |h| == 7
    ensures IsDarkColour(h) <==> IsDark(h)
  {
    DarkIffChannelsLow(h);
  }

  /** On `#rgb` the decoded test gives the answer of the doubled `#rrggbb`, which the expression reads. */
  lemma ShortFormDark(h: string)
    requires IsHexColour(h) && |h| == 4
    ensures IsDarkColour(h) <==> IsDark([h[0], h[1], h[1], h[2], h[2], h[3], h[3]])
  {
    var long := [h[0], h[1], h[1], h[2], h[2], h[3], h[3]];
    ShortFormDoubles(h);
    DarkColourAgrees(long);
  }

  /** `#000` is dark by the decoded test, though the expression does not match it. */
  lemma ShortBlackIsDark(h: string)
    requires h == "#000"
    ensures IsDarkColour(h) && !IsDark(h)
  {
    assert HexToRgb(h) == Black;
  }
}
