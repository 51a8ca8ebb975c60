/**
 * The colour parser `hex_to_rgb`: strip every leading '#', then read the
 * slices [0:2], [2:4] and [4:6] of what remains as base-16 integers, the way
 * Python's `int(s, 16)` does. A slice that is not a numeral raises, which is
 * `None` here.
 */
module HexColor {
  import opened Wrappers

  /** The three integers `hex_to_rgb` returns, in order red, green, blue. */
  datatype Rgb = Rgb(red: int, green: int, blue: int)

  predicate IsByte(x: int) { 0 <= x < 256 }

  predicate IsByteRgb(c: Rgb) { IsByte(c.red) && IsByte(c.green) && IsByte(c.blue) }

  // ---------------------------------------------------------------------------
  // Characters

  predicate IsHexDigit(ch: char) {
    '0' <= ch <= '9' || 'a' <= ch <= 'f' || 'A' <= ch <= 'F'
  }

  function DigitValue(ch: char): (v: nat)
    requires IsHexDigit(ch)
    ensures v < 16
  {
    if '0' <= ch <= '9' then ch as int - '0' as int
    else if 'a' <= ch <= 'f' then ch as int - 'a' as int + 10
    else ch as int - 'A' as int + 10
  }

  /** The lower-case digit for a value below 16. */
  function DigitChar(v: nat): (ch: char)
    requires v < 16
    ensures IsHexDigit(ch) && DigitValue(ch) == v
    ensures !('A' <= ch <= 'F')
  {
    if v < 10 then ('0' as int + v) as char else ('a' as int + v - 10) as char
  }

  /** Case folding of a hex digit: the lower-case digit of the same value. */
  function LowerDigit(ch: char): (l: char)
    requires IsHexDigit(ch)
    ensures IsHexDigit(l) && DigitValue(l) == DigitValue(ch)
    ensures !('A' <= l <= 'F')
  {
    if 'A' <= ch <= 'F' then (ch as int - 'A' as int + 'a' as int) as char else ch
  }

  /** The ASCII whitespace `int()` skips around a numeral: space, tab, newline, vertical tab, form feed, return. */
  predicate IsSpace(ch: char) {
    ch == ' ' || 9 <= ch as int <= 13
  }

  // ---------------------------------------------------------------------------
  // String helpers with Python semantics

  /** `s.lstrip('#')`: the suffix of `s` left after every leading '#' is removed. */
  function LStripHash(s: string): (r: string)
    ensures |r| <= |s| && r == s[|s| - |r|..]
    ensures forall i :: 0 <= i < |s| - |r| ==> s[i] == '#'
    ensures r == [] || r[0] != '#'
  {
    if s != [] && s[0] == '#' then
      var r := LStripHash(s[1..]);
      assert s[1..][|s| - 1 - |r|..] == s[|s| - |r|..];
      assert forall i :: 1 <= i < |s| - |r| ==> s[i] == s[1..][i - 1];
      r
    else s
  }

  /** Python's slice `s[i:j]` for 0 <= i <= j: indices past the end are clamped. */
  function Slice(s: string, i: nat, j: nat): (r: string)
    requires i <= j
    ensures j <= |s| ==> r == s[i..j]
    ensures i <= |s| <= j ==> r == s[i..]
    ensures |s| <= i ==> r == []
    ensures |r| <= j - i
  {
    var lo := if i < |s| then i else |s|;
    var hi := if j < |s| then j else |s|;
    s[lo..hi]
  }

  /** Every character of s is whitespace. */
  predicate SpaceOnly(s: string) {
    forall i :: 0 <= i < |s| ==> IsSpace(s[i])
  }

  /**
   * `s.strip()` restricted to the whitespace of `IsSpace`; `StripExact`
   * shows that only leading and trailing whitespace is removed.
   */
  function Strip(s: string): (r: string)
    ensures |r| <= |s|
    ensures r != [] ==> !IsSpace(r[0]) && !IsSpace(r[|r| - 1])
    decreases |s|
  {
    if s == [] then s
    else if IsSpace(s[0]) then Strip(s[1..])
    else if IsSpace(s[|s| - 1]) then Strip(s[..|s| - 1])
    else s
  }

  /** The stripped text is an infix s[a..b] of the input with only whitespace before and after it. */
  predicate StrippedAt(s: string, a: int, b: int) {
    0 <= a <= b <= |s| && Strip(s) == s[a..b] && SpaceOnly(s[..a]) && SpaceOnly(s[b..])
  }

  /** `Strip` removes exactly the leading and trailing whitespace and nothing else. */
  lemma {:induction false} StripExact(s: string)
    ensures exists a, b :: StrippedAt(s, a, b)
    decreases |s|
  {
    if s == [] {
      assert s[..0] == [] && s[0..] == [];
      assert StrippedAt(s, 0, 0);
    } else if IsSpace(s[0]) {
      StripExact(s[1..]);
      var a, b :| StrippedAt(s[1..], a, b);
      StripFirstSpace(s, a, b);
    } else if IsSpace(s[|s| - 1]) {
      StripExact(s[..|s| - 1]);
      var a, b :| StrippedAt(s[..|s| - 1], a, b);
      StripLastSpace(s, a, b);
    } else {
      assert s[..0] == [] && s[|s|..] == [] && s[0..|s|] == s;
      assert StrippedAt(s, 0, |s|);
    }
  }

  lemma StripFirstSpace(s: string, a: int, b: int)
    requires s != [] && IsSpace(s[0]) && StrippedAt(s[1..], a, b)
    ensures StrippedAt(s, a + 1, b + 1)
  {
    var rest := s[1..];
    assert 0 <= a <= b <= |rest|;
    assert |s[a + 1..b + 1]| == |rest[a..b]|;
    forall k | 0 <= k < b - a
      ensures s[a + 1..b + 1][k] == rest[a..b][k]
    {
      assert s[a + 1 + k] == rest[a + k];
    }
    assert s[a + 1..b + 1] == rest[a..b];
    assert s[..a + 1] == [s[0]] + rest[..a];
    assert s[b + 1..] == rest[b..];
  }

  lemma StripLastSpace(s: string, a: int, b: int)
    requires s != [] && !IsSpace(s[0]) && IsSpace(s[|s| - 1]) && StrippedAt(s[..|s| - 1], a, b)
    ensures StrippedAt(s, a, b)
  {
    var rest := s[..|s| - 1];
    assert s[a..b] == rest[a..b];
    assert s[..a] == rest[..a];
    assert s[b..] == rest[b..] + [s[|s| - 1]];
  }

  // ---------------------------------------------------------------------------
  // int(s, 16)

  predicate IsNumeral(ds: string) {
    ds != [] && forall i :: 0 <= i < |ds| ==> IsHexDigit(ds[i])
  }

  /** The value of a string of hex digits, most significant first. */
  function NumeralValue(ds: string): nat
    requires forall i :: 0 <= i < |ds| ==> IsHexDigit(ds[i])
  {
    if ds == [] then 0 else 16 * NumeralValue(ds[..|ds| - 1]) + DigitValue(ds[|ds| - 1])
  }

  lemma {:induction false} NumeralValueBound(ds: string)
    requires forall i :: 0 <= i < |ds| ==> IsHexDigit(ds[i])
    ensures |ds| <= 1 ==> NumeralValue(ds) < 16
    ensures |ds| <= 2 ==> NumeralValue(ds) < 256
  {
    if ds != [] {
      NumeralValueBound(ds[..|ds| - 1]);
    }
  }

  /** Two hex digits read as one byte: 16 times the first digit plus the second. */
  lemma TwoDigitValue(ds: string)
    requires |ds| == 2 && IsNumeral(ds)
    ensures NumeralValue(ds) == 16 * DigitValue(ds[0]) + DigitValue(ds[1])
  {
    var first := ds[..1];
    assert first[..0] == [] && first[0] == ds[0];
    assert NumeralValue(first) == DigitValue(ds[0]);
    assert ds[..|ds| - 1] == first;
  }

  /** An optional sign followed by one or more hex digits, as `int(s, 16)` accepts once stripped. */
  predicate IsSignedNumeral(t: string) {
    IsNumeral(t) || (t != [] && (t[0] == '+' || t[0] == '-') && IsNumeral(t[1..]))
  }

  /** `int()` on text already stripped: an optional sign, then one or more hex digits. */
  function ParseSigned(t: string): (r: Option<int>)
    ensures r.Some? <==> IsSignedNumeral(t)
    ensures IsNumeral(t) ==> r == Some(NumeralValue(t))
    ensures r.Some? ==> exists i :: 0 <= i < |t| && IsHexDigit(t[i])
    ensures |t| <= 2 && r.Some? ==> -15 <= r.value <= 255
  {
    if IsNumeral(t) then
      assert IsHexDigit(t[0]);
      NumeralValueBound(t);
      Some(NumeralValue(t))
    else if t != [] && (t[0] == '+' || t[0] == '-') && IsNumeral(t[1..]) then
      var ds := t[1..];
      assert IsHexDigit(t[1]);
      NumeralValueBound(ds);
      var v: int := NumeralValue(ds);
      Some(if t[0] == '-' then -v else v)
    else
      None
  }

  /**
   * Python's `int(s, 16)`: surrounding whitespace stripped, an optional sign,
   * then one or more hex digits; anything else raises (`None`).
   */
  function ParseInt16(s: string): (r: Option<int>)
    ensures IsNumeral(s) ==> r == Some(NumeralValue(s))
    ensures r.Some? ==> exists i :: 0 <= i < |s| && IsHexDigit(s[i])
    ensures |s| <= 2 && r.Some? ==> -15 <= r.value <= 255
  {
    var t := Strip(s);
    assert IsNumeral(s) ==> t == s by {
      if IsNumeral(s) {
        assert !IsSpace(s[0]) && !IsSpace(s[|s| - 1]);
      }
    }
    var r := ParseSigned(t);
    assert r.Some? ==> exists i :: 0 <= i < |s| && IsHexDigit(s[i]) by {
      if r.Some? {
        var k :| 0 <= k < |t| && IsHexDigit(t[k]);
        StripExact(s);
        var a, b :| StrippedAt(s, a, b);
        assert s[a + k] == t[k];
      }
    }
    r
  }

  /** `int(s, 16)` raises exactly when the stripped text is not a numeral with an optional sign. */
  lemma ParseInt16Fails(s: string)
    ensures ParseInt16(s).None? <==> !IsSignedNumeral(Strip(s))
  {
  }

  /** A sign in front of a numeral: '-' negates its value and '+' keeps it. */
  lemma ParseInt16Signed(ds: string)
    requires IsNumeral(ds)
    ensures ParseInt16("-" + ds) == Some(-(NumeralValue(ds) as int))
    ensures ParseInt16("+" + ds) == Some(NumeralValue(ds))
  {
    SignedNumeral('-', ds);
    SignedNumeral('+', ds);
  }

  /** A sign and a numeral have nothing to strip, and `int()` reads them as a signed numeral. */
  lemma SignedNumeral(sign: char, ds: string)
    requires IsNumeral(ds) && (sign == '-' || sign == '+')
    ensures ParseInt16([sign] + ds) == Some(if sign == '-' then -(NumeralValue(ds) as int) else NumeralValue(ds))
  {
    var t := [sign] + ds;
    assert t[1..] == ds;
    assert !IsHexDigit(t[0]);
    assert !IsNumeral(t);
    assert ParseSigned(t) == Some(if sign == '-' then -(NumeralValue(ds) as int) else NumeralValue(ds));
    assert t[|t| - 1] == ds[|ds| - 1];
    assert Strip(t) == t;
  }

  /** Whitespace before or after the text never changes what `int(s, 16)` gives. */
  lemma ParseInt16IgnoresSpace(c: char, s: string)
    requires IsSpace(c)
    ensures ParseInt16([c] + s) == ParseInt16(s)
    ensures ParseInt16(s + [c]) == ParseInt16(s)
  {
    assert ([c] + s)[1..] == s;
    StripTrailingSpace(s, c);
  }

  /** A trailing whitespace character is stripped. */
  lemma {:induction false} StripTrailingSpace(s: string, c: char)
    requires IsSpace(c)
    ensures Strip(s + [c]) == Strip(s)
    decreases |s|
  {
    var sc := s + [c];
    if s == [] {
      assert sc[1..] == [];
    } else if IsSpace(s[0]) {
      assert sc[1..] == s[1..] + [c];
      StripTrailingSpace(s[1..], c);
    } else {
      assert sc[..|sc| - 1] == s;
    }
  }

  // ---------------------------------------------------------------------------
  // hex_to_rgb

  /** `hex_to_rgb`: `None` when any of the three slices is not a base-16 numeral. */
  function HexToRgb(color: string): (r: Option<Rgb>)
    ensures r.Some? ==> |LStripHash(color)| >= 5
    ensures r.Some? ==> -15 <= r.value.red <= 255 && -15 <= r.value.green <= 255
                        && -15 <= r.value.blue <= 255
  {
    var rgb := LStripHash(color);
    var red, green, blue := ParseInt16(Slice(rgb, 0, 2)), ParseInt16(Slice(rgb, 2, 4)),
                            ParseInt16(Slice(rgb, 4, 6));
    if red.Some? && green.Some? && blue.Some? then Some(Rgb(red.value, green.value, blue.value))
    else None
  }

  /** A colour written the way the configuration is meant to give it: '#' and six hex digits. */
  predicate IsHexColor(color: string) {
    |color| == 7 && color[0] == '#' && forall i :: 1 <= i < 7 ==> IsHexDigit(color[i])
  }

  /** The byte spelled by the two hex digits at positions i and i + 1. */
  function DigitPair(s: string, i: nat): int
    requires i + 1 < |s| && IsHexDigit(s[i]) && IsHexDigit(s[i + 1])
  {
    16 * DigitValue(s[i]) + DigitValue(s[i + 1])
  }

  /** Two hex digits parse as the byte they spell. */
  lemma ParsePair(s: string, i: nat)
    requires i + 1 < |s| && IsHexDigit(s[i]) && IsHexDigit(s[i + 1])
    ensures ParseInt16(s[i..i + 2]) == Some(DigitPair(s, i))
  {
    TwoDigitValue(s[i..i + 2]);
  }

  /** On a well-formed colour every component is a byte spelled by its two digits. */
  lemma HexToRgbDigits(color: string)
    requires IsHexColor(color)
    ensures HexToRgb(color) == Some(Rgb(DigitPair(color, 1), DigitPair(color, 3), DigitPair(color, 5)))
    ensures IsByteRgb(HexToRgb(color).value)
  {
    ColourSlices(color);
    ParsePair(color, 1);
    ParsePair(color, 3);
    ParsePair(color, 5);
  }

  /** The three slices `hex_to_rgb` takes of a well-formed colour are its three digit pairs. */
  lemma ColourSlices(color: string)
    requires IsHexColor(color)
    ensures Slice(LStripHash(color), 0, 2) == color[1..3]
    ensures Slice(LStripHash(color), 2, 4) == color[3..5]
    ensures Slice(LStripHash(color), 4, 6) == color[5..7]
  {
    var rgb := color[1..];
    assert rgb[0] == color[1] && IsHexDigit(color[1]);
    assert LStripHash(rgb) == rgb;
    assert LStripHash(color) == rgb;
  }

  /** Extra leading '#' characters are ignored, as `lstrip` removes them all. */
  lemma HexToRgbIgnoresHashes(s: string)
    ensures HexToRgb("#" + s) == HexToRgb(s)
  {
    assert ("#" + s)[1..] == s;
  }

  /** Too short a colour makes the last slice empty, and `int('', 16)` raises. */
  lemma HexToRgbTooShort(color: string)
    requires |LStripHash(color)| < 5
    ensures HexToRgb(color) == None
  {
  }

  /** A sign inside a slice is accepted: "#-f0000" parses, with red -15. */
  lemma NegativeComponent()
    ensures HexToRgb("#-f0000") == Some(Rgb(-15, 0, 0))
  {
    var color := "#-f0000";
    var rgb := color[1..];
    assert LStripHash(rgb) == rgb;
    assert LStripHash(color) == rgb;
    assert Slice(rgb, 0, 2) == "-" + "f";
    ParseInt16Signed("f");
    assert ParseInt16(Slice(rgb, 0, 2)) == Some(-15);
    assert Slice(rgb, 2, 4) == "00" && Slice(rgb, 4, 6) == "00";
    assert NumeralValue("00") == 0;
    assert ParseInt16("00") == Some(0);
  }

  // ---------------------------------------------------------------------------
  // Formatting back

  /** A byte as two lower-case hex digits. */
  function HexByte(x: int): (s: string)
    requires IsByte(x)
    ensures |s| == 2 && IsNumeral(s) && DigitPair(s, 0) == x
  {
    [DigitChar(x / 16), DigitChar(x % 16)]
  }

  /** A colour as six lower-case hex digits, red first. */
  function FormatRgb(c: Rgb): (s: string)
    requires IsByteRgb(c)
  {
    HexByte(c.red) + HexByte(c.green) + HexByte(c.blue)
  }

  /** A string of hex digits with its upper-case letters folded to lower case. */
  function LowerDigits(s: string): (l: string)
    requires forall i :: 0 <= i < |s| ==> IsHexDigit(s[i])
    ensures |l| == |s|
    ensures forall i :: 0 <= i < |s| ==> l[i] == LowerDigit(s[i])
  {
    if s == [] then [] else [LowerDigit(s[0])] + LowerDigits(s[1..])
  }

  /** Two digits of the same value are the same digit once case is folded. */
  lemma SameDigit(a: char, b: char)
    requires IsHexDigit(a) && IsHexDigit(b) && DigitValue(a) == DigitValue(b)
    ensures LowerDigit(a) == LowerDigit(b)
  {
  }

  /** A byte spelled by two digits is written back as those digits, case folded. */
  lemma HexBytePair(s: string, i: nat)
    requires i + 1 < |s| && IsHexDigit(s[i]) && IsHexDigit(s[i + 1])
    ensures IsByte(DigitPair(s, i))
    ensures HexByte(DigitPair(s, i)) == [LowerDigit(s[i]), LowerDigit(s[i + 1])]
  {
    var x := DigitPair(s, i);
    assert x / 16 == DigitValue(s[i]) && x % 16 == DigitValue(s[i + 1]);
    SameDigit(DigitChar(x / 16), s[i]);
    SameDigit(DigitChar(x % 16), s[i + 1]);
  }

  /** Writing the parsed components back as hex gives the input digits, ignoring case. */
  lemma FormatParsedColor(color: string)
    requires IsHexColor(color)
    ensures HexToRgb(color).Some? && IsByteRgb(HexToRgb(color).value)
    ensures FormatRgb(HexToRgb(color).value) == LowerDigits(color[1..])
  {
    HexToRgbDigits(color);
    FormatDigitPairs(color);
  }

  /** The three bytes spelled by a colour's digits are written back as those digits, case folded. */
  lemma FormatDigitPairs(color: string)
    requires IsHexColor(color)
    ensures IsByteRgb(Rgb(DigitPair(color, 1), DigitPair(color, 3), DigitPair(color, 5)))
    ensures FormatRgb(Rgb(DigitPair(color, 1), DigitPair(color, 3), DigitPair(color, 5)))
         == LowerDigits(color[1..])
  {
    HexBytePair(color, 1);
    HexBytePair(color, 3);
    HexBytePair(color, 5);
    var l := LowerDigits(color[1..]);
    assert l == [l[0], l[1]] + [l[2], l[3]] + [l[4], l[5]];
  }

  /** Parsing a colour written by `FormatRgb` gives back the same components. */
  lemma ParseFormattedColor(c: Rgb)
    requires IsByteRgb(c)
    ensures IsHexColor("#" + FormatRgb(c))
    ensures HexToRgb("#" + FormatRgb(c)) == Some(c)
  {
    FormattedDigitPairs(c);
    HexToRgbDigits("#" + FormatRgb(c));
  }

  /** '#' and a formatted triple is a well-formed colour whose digit pairs spell the triple. */
  lemma FormattedDigitPairs(c: Rgb)
    requires IsByteRgb(c)
    ensures IsHexColor("#" + FormatRgb(c))
    ensures DigitPair("#" + FormatRgb(c), 1) == c.red
    ensures DigitPair("#" + FormatRgb(c), 3) == c.green
    ensures DigitPair("#" + FormatRgb(c), 5) == c.blue
  {
    var color := "#" + FormatRgb(c);
    assert color[1..3] == HexByte(c.red);
    assert color[3..5] == HexByte(c.green);
    assert color[5..7] == HexByte(c.blue);
  }
}
