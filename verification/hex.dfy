/** `hexToRgb`: a parser for `#RRGGBB` colour strings. */
module Hex {
  import opened Wrappers
  import opened Color

  /** A character of the class `[a-f\d]` under the case-insensitive flag. */
  predicate IsHexDigit(ch: char) {
    '0' <= ch <= '9' || 'a' <= ch <= 'f' || 'A' <= ch <= 'F'
  }

  predicate AllHexDigits(s: string) {
    forall i :: 0 <= i < |s| ==> IsHexDigit(s[i])
  }

  /** The value `parseInt` gives one hexadecimal digit. */
  function DigitValue(ch: char): (v: nat)
    requires IsHexDigit(ch)
    ensures v < 16
  {
    if '0' <= ch <= '9' then ch as int - '0' as int
    else if 'a' <= ch <= 'f' then ch as int - 'a' as int + 10
    else ch as int - 'A' as int + 10
  }

  /** `parseInt(group, 16)` of a two-digit capture group. */
  function PairValue(hi: char, lo: char): (v: nat)
    requires IsHexDigit(hi) && IsHexDigit(lo)
    ensures v <= 255
    ensures v / 16 == DigitValue(hi) && v % 16 == DigitValue(lo)
  {
    16 * DigitValue(hi) + DigitValue(lo)
  }

  /** The strings the regular expression `^#?([a-f\d]{2})([a-f\d]{2})([a-f\d]{2})$`
      with flag `i` matches: six hex digits, with or without a leading '#'. */
  predicate MatchesHexColor(s: string) {
    (|s| == 6 && AllHexDigits(s)) || (|s| == 7 && s[0] == '#' && AllHexDigits(s[1..]))
  }

  /** `hexToRgb`. Since '#' is not a hex digit, the optional '#' of the pattern matches
      exactly when the string starts with one, so stripping it first is the same match. */
  function HexToRgb(hex: string): (r: Option<RGB>)
    ensures r.Some? ==> InRange(r.value)
  {
    var digits := if |hex| > 0 && hex[0] == '#' then hex[1..] else hex;
    if |digits| == 6 && AllHexDigits(digits) then
      Some(RGB(PairValue(digits[0], digits[1]),
               PairValue(digits[2], digits[3]),
               PairValue(digits[4], digits[5])))
    else
      None
  }

  /** A value comes back exactly for the strings the pattern matches. */
  lemma HexToRgbDefinedIff(hex: string)
    ensures HexToRgb(hex).Some? <==> MatchesHexColor(hex)
  {
    if |hex| > 0 && hex[0] == '#' {
      assert !IsHexDigit(hex[0]);
    }
  }

  /** The fixed target of the classifier parses to white, so the "internal error"
      branch after `hexToRgb('#FFFFFF')` is never taken. */
  lemma WhiteHexParses()
    ensures HexToRgb("#FFFFFF") == Some(RGB(255, 255, 255))
  {
    var digits := "#FFFFFF"[1..];
    assert digits == "FFFFFF";
    assert AllHexDigits(digits);
  }

  /** The upper-case hexadecimal digit of a value below 16. */
  function HexDigit(d: nat): (ch: char)
    requires d < 16
    ensures IsHexDigit(ch) && DigitValue(ch) == d
  {
    if d < 10 then ('0' as int + d) as char else ('A' as int + d - 10) as char
  }

  /** The `#RRGGBB` spelling of an 8-bit colour: the inverse of `HexToRgb`. */
  function FormatHex(c: RGB): (s: string)
    requires InRange(c)
  {
    ['#', HexDigit(c.r / 16), HexDigit(c.r % 16),
          HexDigit(c.g / 16), HexDigit(c.g % 16),
          HexDigit(c.b / 16), HexDigit(c.b % 16)]
  }

  /** Parsing recovers every 8-bit colour from its spelling, with or without the '#'. */
  lemma HexRoundTrip(c: RGB)
    requires InRange(c)
    ensures HexToRgb(FormatHex(c)) == Some(c)
    ensures HexToRgb(FormatHex(c)[1..]) == Some(c)
  {
    var s := FormatHex(c);
    assert AllHexDigits(s[1..]);
    assert !IsHexDigit('#');
    assert s[1..][0] != '#';
  }

  /** ASCII lower-casing, one character at a time. */
  function LowerChar(ch: char): char {
    if 'A' <= ch <= 'Z' then (ch as int + 32) as char else ch
  }

  function ToLower(s: string): (t: string)
    ensures |t| == |s|
  {
    seq(|s|, i requires 0 <= i < |s| => LowerChar(s[i]))
  }

  /** Lower-casing keeps hex digits hex digits with the same value, and keeps '#'. */
  lemma LowerCharKeepsDigits(ch: char)
    ensures IsHexDigit(LowerChar(ch)) <==> IsHexDigit(ch)
    ensures IsHexDigit(ch) ==> DigitValue(LowerChar(ch)) == DigitValue(ch)
    ensures LowerChar(ch) == '#' <==> ch == '#'
  {
  }

  /** Six characters that are hex digits stay so after lower-casing, with the same value. */
  lemma LowerDigitsSameValues(d: string)
    ensures AllHexDigits(ToLower(d)) <==> AllHexDigits(d)
    ensures AllHexDigits(d) ==> forall i :: 0 <= i < |d| ==> DigitValue(ToLower(d)[i]) == DigitValue(d[i])
  {
    var e := ToLower(d);
    forall i | 0 <= i < |d|
      ensures IsHexDigit(e[i]) <==> IsHexDigit(d[i])
      ensures IsHexDigit(d[i]) ==> DigitValue(e[i]) == DigitValue(d[i])
    {
      LowerCharKeepsDigits(d[i]);
    }
  }

  /** The `i` flag: letter case does not change what the parser returns. */
  lemma HexToRgbIgnoresCase(hex: string)
    ensures HexToRgb(ToLower(hex)) == HexToRgb(hex)
  {
    var low := ToLower(hex);
    if |hex| > 0 {
      LowerCharKeepsDigits(hex[0]);
    }
    var d := if |hex| > 0 && hex[0] == '#' then hex[1..] else hex;
    var e := if |low| > 0 && low[0] == '#' then low[1..] else low;
    assert e == ToLower(d);
    LowerDigitsSameValues(d);
  }
}
