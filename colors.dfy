/**
 * Colours: `#rrggbb` strings parsed the way the renderer and the colour
 * panel parse them, formatted back with `'#{:02x}{:02x}{:02x}'`, darkened,
 * and the two background pulse colours derived from the main colour.
 */
module Colors {
  import opened Wrappers
  import opened Text
  import opened Numeric

  datatype Rgb = Rgb(r: int, g: int, b: int)

  predicate IsByte(v: int) {
    0 <= v <= 255
  }

  predicate ValidRgb(c: Rgb) {
    IsByte(c.r) && IsByte(c.g) && IsByte(c.b)
  }

  predicate IsHexDigit(c: char) {
    '0' <= c <= '9' || 'a' <= c <= 'f' || 'A' <= c <= 'F'
  }

  predicate IsLowerHexDigit(c: char) {
    '0' <= c <= '9' || 'a' <= c <= 'f'
  }

  /** The value of a hex digit; `HexValueNibble` ties it to the digit `format` writes. */
  function HexValue(c: char): (v: int)
    requires IsHexDigit(c)
    ensures 0 <= v < 16
  {
    if '0' <= c <= '9' then c as int - '0' as int
    else if 'a' <= c <= 'f' then c as int - 'a' as int + 10
    else c as int - 'A' as int + 10
  }

  /** The lower-case form of a hex digit (`c.lower()`). */
  function LowerHex(c: char): (d: char)
    requires IsHexDigit(c)
    ensures IsLowerHexDigit(d)
    ensures IsLowerHexDigit(c) ==> d == c
    ensures 'A' <= c <= 'F' ==> d as int == c as int + 32
  {
    if 'A' <= c <= 'F' then (c as int + 32) as char else c
  }

  /** The lower-case digit `format` writes for a value below 16. */
  function Nibble(v: int): (c: char)
    requires 0 <= v < 16
    ensures IsLowerHexDigit(c) && HexValue(c) == v
  {
    if v < 10 then ('0' as int + v) as char else ('a' as int + v - 10) as char
  }

  /**
   * A digit of either case has the value whose lower-case digit is its own
   * lower-case form: `'A'`..`'F'` are worth what `'a'`..`'f'` are worth.
   */
  lemma HexValueNibble(c: char)
    requires IsHexDigit(c)
    ensures Nibble(HexValue(c)) == LowerHex(c)
    ensures HexValue(LowerHex(c)) == HexValue(c)
  {
  }

  /**
   * `int(s, 16)` for the one- or two-character slices the colour code
   * takes: surrounding whitespace is ignored, one sign may lead a single
   * digit, anything else is a `ValueError` (`None`).
   */
  function ParseHexField(s: string): (r: Option<int>)
    requires |s| <= 2
    ensures r.Some? ==> -15 <= r.value <= 255
    ensures |s| == 2 && IsHexDigit(s[0]) && IsHexDigit(s[1]) ==> r == Some(16 * HexValue(s[0]) + HexValue(s[1]))
    ensures s == [] ==> r == None
  {
    if |s| == 0 then None
    else if |s| == 1 then (if IsHexDigit(s[0]) then Some(HexValue(s[0])) else None)
    else
      var a, b := s[0], s[1];
      if IsHexDigit(a) && IsHexDigit(b) then Some(16 * HexValue(a) + HexValue(b))
      else if IsIntSpace(a) && IsHexDigit(b) then Some(HexValue(b))
      else if IsHexDigit(a) && IsIntSpace(b) then Some(HexValue(a))
      else if a == '+' && IsHexDigit(b) then Some(HexValue(b))
      else if a == '-' && IsHexDigit(b) then Some(-HexValue(b))
      else None
  }

  /**
   * `r` is the part of `s` after its first `k` characters, and everything
   * cut from either end is `int()` whitespace.
   */
  predicate IntPadded(s: string, r: string, k: nat) {
    k + |r| <= |s| && r == s[k..k + |r|]
    && (forall i :: 0 <= i < k ==> IsIntSpace(s[i]))
    && (forall i :: k + |r| <= i < |s| ==> IsIntSpace(s[i]))
  }

  /** `int()`'s whitespace removed from both ends, and nothing else. */
  function IntTrim(s: string): (r: string)
    ensures |r| <= |s|
    ensures r == [] || (!IsIntSpace(r[0]) && !IsIntSpace(r[|r| - 1]))
    ensures exists k: nat :: IntPadded(s, r, k)
  {
    if s != [] && IsIntSpace(s[0]) then
      var r := IntTrim(s[1..]);
      IntPaddedFront(s, r);
      r
    else if s != [] && IsIntSpace(s[|s| - 1]) then
      var r := IntTrim(s[..|s| - 1]);
      IntPaddedBack(s, s[..|s| - 1], r);
      r
    else
      assert IntPadded(s, s, 0);
      s
  }

  /** One more blank in front keeps a trimmed infix an infix. */
  lemma IntPaddedFront(s: string, r: string)
    requires s != [] && IsIntSpace(s[0])
    requires exists k: nat :: IntPadded(s[1..], r, k)
    ensures exists k: nat :: IntPadded(s, r, k)
  {
    var k: nat :| IntPadded(s[1..], r, k);
    forall i | 0 <= i < k + 1
      ensures IsIntSpace(s[i])
    {
      if 0 < i {
        assert s[i] == s[1..][i - 1];
      }
    }
    forall i | k + 1 + |r| <= i < |s|
      ensures IsIntSpace(s[i])
    {
      assert s[i] == s[1..][i - 1];
    }
    assert r == s[k + 1..k + 1 + |r|];
    assert IntPadded(s, r, k + 1);
  }

  /** One more blank at the back keeps a trimmed infix an infix. */
  lemma IntPaddedBack(s: string, t: string, r: string)
    requires s != [] && IsIntSpace(s[|s| - 1]) && t == s[..|s| - 1]
    requires exists k: nat :: IntPadded(t, r, k)
    ensures exists k: nat :: IntPadded(s, r, k)
  {
    var k: nat :| IntPadded(t, r, k);
    forall i | 0 <= i < k
      ensures IsIntSpace(s[i])
    {
      assert s[i] == t[i];
    }
    forall i | k + |r| <= i < |s|
      ensures IsIntSpace(s[i])
    {
      if i < |s| - 1 {
        assert s[i] == t[i];
      }
    }
    assert r == s[k..k + |r|];
    assert IntPadded(s, r, k);
  }

  predicate AllHex(s: string) {
    s != [] && forall i :: 0 <= i < |s| ==> IsHexDigit(s[i])
  }

  /** The number a non-empty string of hex digits spells, most significant first. */
  function HexNumber(s: string): (n: nat)
    requires forall i :: 0 <= i < |s| ==> IsHexDigit(s[i])
  {
    if s == [] then 0 else 16 * HexNumber(s[..|s| - 1]) + HexValue(s[|s| - 1])
  }

  /**
   * Base-16 integer syntax once the whitespace is gone: an optional sign and
   * one or more hex digits. (The `0x` prefix and `_` separators that `int`
   * also admits cannot form a valid slice of two characters.)
   */
  function ReadHex(t: string): Option<int> {
    if AllHex(t) then Some(HexNumber(t))
    else if t != [] && t[0] == '+' && AllHex(t[1..]) then Some(HexNumber(t[1..]))
    else if t != [] && t[0] == '-' && AllHex(t[1..]) then Some(-(HexNumber(t[1..]) as int))
    else None
  }

  /** On every slice of at most two characters the field parser is `int(s, 16)`: trim, then read a signed hex number. */
  lemma ParseHexFieldMeans(s: string)
    requires |s| <= 2
    ensures ParseHexField(s) == ReadHex(IntTrim(s))
  {
    if |s| == 1 {
      ParseOneMeans(s);
    } else if |s| == 2 {
      if IsIntSpace(s[0]) {
        ParseBlankFirst(s);
      } else if IsIntSpace(s[1]) {
        ParseBlankLast(s);
      } else {
        ParseTwoMeans(s);
      }
    }
  }

  lemma ParseBlankFirst(s: string)
    requires |s| == 2 && IsIntSpace(s[0])
    ensures ParseHexField(s) == ReadHex(IntTrim(s))
  {
    var b := s[1];
    assert s[1..] == [b];
    assert IntTrim(s) == IntTrim([b]);
    ParseOneMeans([b]);
  }

  lemma ParseBlankLast(s: string)
    requires |s| == 2 && !IsIntSpace(s[0]) && IsIntSpace(s[1])
    ensures ParseHexField(s) == ReadHex(IntTrim(s))
  {
    var a := s[0];
    assert s[..1] == [a];
    assert IntTrim(s) == IntTrim([a]);
    ParseOneMeans([a]);
  }

  lemma ParseOneMeans(s: string)
    requires |s| == 1
    ensures ParseHexField(s) == ReadHex(IntTrim(s))
    ensures ParseHexField(s) == if IsHexDigit(s[0]) then Some(HexValue(s[0])) else None
  {
    assert s[1..] == [] && s[..0] == [];
    if IsIntSpace(s[0]) {
      assert IntTrim(s) == [];
    } else {
      assert IntTrim(s) == s;
    }
  }

  lemma ParseTwoMeans(s: string)
    requires |s| == 2 && !IsIntSpace(s[0]) && !IsIntSpace(s[1])
    ensures ParseHexField(s) == ReadHex(s) && IntTrim(s) == s
  {
    var a, b := s[0], s[1];
    assert s[1..] == [b] && [b][..0] == [] && s[..1] == [a] && [a][..0] == [];
    if IsHexDigit(b) {
      assert HexNumber([b]) == HexValue(b);
      if IsHexDigit(a) {
        assert HexNumber([a]) == HexValue(a);
        assert AllHex(s) && HexNumber(s) == 16 * HexValue(a) + HexValue(b);
      }
    } else {
      assert !AllHex(s) && !AllHex(s[1..]);
    }
  }

  /** Three colour fields, or `None` as soon as one of them does not parse. */
  function ParseFields(a: string, b: string, c: string): Option<Rgb>
    requires |a| <= 2 && |b| <= 2 && |c| <= 2
  {
    var r, g, bl := ParseHexField(a), ParseHexField(b), ParseHexField(c);
    if r.Some? && g.Some? && bl.Some? then Some(Rgb(r.value, g.value, bl.value)) else None
  }

  /** `s.lstrip('#')`. */
  function StripHashes(s: string): (r: string)
    ensures |r| <= |s| && r == s[|s| - |r|..]
    ensures forall i :: 0 <= i < |s| - |r| ==> s[i] == '#'
    ensures r == [] || r[0] != '#'
  {
    if s != [] && s[0] == '#' then StripHashes(s[1..]) else s
  }

  /**
   * `hex_to_rgb`: every leading `#` dropped, then the fields at offsets 0, 2
   * and 4. Fewer than five characters after the hashes leave the last field
   * empty, which `int` rejects.
   */
  function HexToRgb(hex: string): (r: Option<Rgb>)
    ensures |StripHashes(hex)| <= 4 ==> r == None
    ensures r.Some? ==> -15 <= r.value.r <= 255 && -15 <= r.value.g <= 255 && -15 <= r.value.b <= 255
  {
    var s := StripHashes(hex);
    ParseFields(Slice(s, 0, 2), Slice(s, 2, 4), Slice(s, 4, 6))
  }

  /** `#` followed by six hex digits of either case: a colour `hex_to_rgb` reads. */
  predicate IsHexColor(s: string) {
    |s| == 7 && s[0] == '#' && forall i :: 1 <= i < 7 ==> IsHexDigit(s[i])
  }

  /** `#` followed by six lower-case hex digits: what `rgb_to_hex` writes for a valid colour. */
  predicate IsLowerHexColor(s: string) {
    |s| == 7 && s[0] == '#' && forall i :: 1 <= i < 7 ==> IsLowerHexDigit(s[i])
  }

  /** `s.lower()` on a well-formed colour. */
  function LowerCaseColor(s: string): (r: string)
    requires IsHexColor(s)
    ensures IsLowerHexColor(r)
    ensures forall i :: 1 <= i < 7 ==> r[i] == LowerHex(s[i])
    ensures IsLowerHexColor(s) ==> r == s
  {
    "#" + [LowerHex(s[1]), LowerHex(s[2]), LowerHex(s[3]), LowerHex(s[4]), LowerHex(s[5]), LowerHex(s[6])]
  }

  /** The minimal lower-case hexadecimal digits of `n`. */
  function HexDigits(n: nat): (r: string)
    ensures 1 <= |r|
    ensures n < 16 ==> r == [Nibble(n)]
    ensures 16 <= n < 256 ==> r == [Nibble(n / 16), Nibble(n % 16)]
    decreases n
  {
    if n < 16 then [Nibble(n)] else HexDigits(n / 16) + [Nibble(n % 16)]
  }

  /**
   * `'{:02x}'.format(v)`: at least two digits, zero-padded; a negative value
   * keeps its sign; a byte is exactly its two digits, high nibble first.
   */
  function Hex02(v: int): (r: string)
    ensures 2 <= |r|
    ensures v < 0 ==> r[0] == '-'
    ensures IsByte(v) ==> r == [Nibble(v / 16), Nibble(v % 16)]
  {
    if v < 0 then "-" + HexDigits(-v)
    else
      var d := HexDigits(v);
      if |d| < 2 then "0" + d else d
  }

  /** One formatted byte parses back to itself. */
  lemma Hex02Parses(v: int)
    requires IsByte(v)
    ensures |Hex02(v)| == 2
    ensures ParseHexField(Hex02(v)) == Some(v)
  {
    var h := Hex02(v);
    assert HexValue(h[0]) == v / 16 && HexValue(h[1]) == v % 16;
  }

  /** `rgb_to_hex(rgb)`: a valid colour gives `#` and six lower-case hex digits. */
  function RgbToHex(c: Rgb): (r: string)
    ensures 7 <= |r| && r[0] == '#'
    ensures ValidRgb(c) ==> IsLowerHexColor(r)
  {
    var s := "#" + Hex02(c.r) + Hex02(c.g) + Hex02(c.b);
    assert ValidRgb(c) ==>
      s == "#" + [Nibble(c.r / 16), Nibble(c.r % 16)] + [Nibble(c.g / 16), Nibble(c.g % 16)] + [Nibble(c.b / 16), Nibble(c.b % 16)];
    s
  }

  /** A well-formed colour's fields are the slices at 1, 3 and 5, whatever the case of its digits. */
  lemma HexColorFields(s: string)
    requires IsHexColor(s)
    ensures HexToRgb(s) == ParseFields(s[1..3], s[3..5], s[5..7])
  {
    assert StripHashes(s) == StripHashes(s[1..]);
    assert s[1..][0] == s[1];
    var t := s[1..];
    assert StripHashes(s) == t;
    assert Slice(t, 0, 2) == s[1..3] && Slice(t, 2, 4) == s[3..5] && Slice(t, 4, 6) == s[5..7];
  }

  lemma SplitHex(a: string, b: string, c: string)
    requires |a| == 2 && |b| == 2 && |c| == 2
    ensures var s := "#" + a + b + c; |s| == 7 && s[1..3] == a && s[3..5] == b && s[5..7] == c
  {
  }

  /** A valid colour survives formatting and parsing back. */
  lemma RgbRoundTrip(c: Rgb)
    requires ValidRgb(c)
    ensures HexToRgb(RgbToHex(c)) == Some(c)
  {
    var s := RgbToHex(c);
    HexColorFields(s);
    SplitHex(Hex02(c.r), Hex02(c.g), Hex02(c.b));
    Hex02Parses(c.r);
    Hex02Parses(c.g);
    Hex02Parses(c.b);
  }

  /**
   * A well-formed colour of either case parses to a valid colour that
   * formats back to its lower-case form, so a lower-case one comes back
   * unchanged.
   */
  lemma HexRoundTrip(s: string)
    requires IsHexColor(s)
    ensures HexToRgb(s).Some? && ValidRgb(HexToRgb(s).value)
    ensures RgbToHex(HexToRgb(s).value) == LowerCaseColor(s)
    ensures IsLowerHexColor(s) ==> RgbToHex(HexToRgb(s).value) == s
  {
    HexColorFields(s);
    var r := FieldAt(s, 1);
    var g := FieldAt(s, 3);
    var b := FieldAt(s, 5);
    var rgb := Rgb(r, g, b);
    assert HexToRgb(s) == Some(rgb);
    var l := LowerCaseColor(s);
    assert RgbToHex(rgb) == "#" + l[1..3] + l[3..5] + l[5..7];
    JoinHex(l);
  }

  /** The field at offset `i` of a well-formed colour parses to a byte that formats as the lower-case field. */
  lemma FieldAt(s: string, i: int) returns (v: int)
    requires IsHexColor(s) && (i == 1 || i == 3 || i == 5)
    ensures ParseHexField(s[i..i + 2]) == Some(v) && IsByte(v)
    ensures Hex02(v) == LowerCaseColor(s)[i..i + 2]
  {
    FieldRoundTrip(s[i..i + 2]);
    LowerPair(s, i);
    v := ParseHexField(s[i..i + 2]).value;
  }

  lemma LowerPair(s: string, i: int)
    requires IsHexColor(s) && (i == 1 || i == 3 || i == 5)
    ensures LowerCaseColor(s)[i..i + 2] == [LowerHex(s[i..i + 2][0]), LowerHex(s[i..i + 2][1])]
  {
  }

  lemma JoinHex(s: string)
    requires |s| == 7 && s[0] == '#'
    ensures s == "#" + s[1..3] + s[3..5] + s[5..7]
  {
  }

  /** Two hex digits of either case parse to a byte that formats back to their lower-case forms. */
  lemma FieldRoundTrip(a: string)
    requires |a| == 2 && IsHexDigit(a[0]) && IsHexDigit(a[1])
    ensures ParseHexField(a).Some? && IsByte(ParseHexField(a).value)
    ensures Hex02(ParseHexField(a).value) == [LowerHex(a[0]), LowerHex(a[1])]
  {
    var v := 16 * HexValue(a[0]) + HexValue(a[1]);
    assert v / 16 == HexValue(a[0]) && v % 16 == HexValue(a[1]);
    HexValueNibble(a[0]);
    HexValueNibble(a[1]);
  }

  /** Each channel multiplied by `factor` and truncated, as `int(r * factor)` does. */
  function Darken(c: Rgb, factor: real): Rgb {
    Rgb(Scale(c.r, factor), Scale(c.g, factor), Scale(c.b, factor))
  }

  /** `int(v * factor)` for one channel. */
  function Scale(v: int, factor: real): int {
    Trunc(v as real * factor)
  }

  /** `darken_color(hex, factor)`: fails exactly when `hex_to_rgb` does. */
  function DarkenColor(hex: string, factor: real): (r: Option<string>)
    ensures r.Some? <==> HexToRgb(hex).Some?
    ensures r.Some? ==> 7 <= |r.value| && r.value[0] == '#'
  {
    match HexToRgb(hex)
    case None => None
    case Some(c) => Some(RgbToHex(Darken(c, factor)))
  }

  /** Scaling a channel by a factor in [0, 1] keeps it a byte no larger than before. */
  lemma ScaleChannel(v: int, factor: real)
    requires IsByte(v) && 0.0 <= factor <= 1.0
    ensures IsByte(Scale(v, factor)) && Scale(v, factor) <= v
  {
    TruncScaled(v as real, factor);
  }

  /** Darkening a well-formed colour by a factor in [0, 1] gives a well-formed colour no brighter in any channel. */
  lemma DarkenColorDarker(hex: string, factor: real)
    requires IsHexColor(hex) && 0.0 <= factor <= 1.0
    ensures DarkenColor(hex, factor).Some?
    ensures var d := DarkenColor(hex, factor).value;
      IsLowerHexColor(d) && HexToRgb(d).Some?
      && HexToRgb(d).value.r <= HexToRgb(hex).value.r
      && HexToRgb(d).value.g <= HexToRgb(hex).value.g
      && HexToRgb(d).value.b <= HexToRgb(hex).value.b
  {
    HexRoundTrip(hex);
    var c := HexToRgb(hex).value;
    var dark := Darken(c, factor);
    assert DarkenColor(hex, factor) == Some(RgbToHex(dark));
    DarkenValid(c, factor);
    RgbRoundTrip(dark);
  }

  lemma DarkenValid(c: Rgb, factor: real)
    requires ValidRgb(c) && 0.0 <= factor <= 1.0
    ensures ValidRgb(Darken(c, factor))
    ensures Darken(c, factor).r <= c.r && Darken(c, factor).g <= c.g && Darken(c, factor).b <= c.b
  {
    var d := Darken(c, factor);
    ScaleChannel(c.r, factor);
    ScaleChannel(c.g, factor);
    ScaleChannel(c.b, factor);
    assert d == Rgb(Scale(c.r, factor), Scale(c.g, factor), Scale(c.b, factor));
  }

  /** The main colour as `auto_generate_bg_colors` reads it: fields at offsets 1, 3 and 5, whatever the first character. */
  function ParseMainColor(hex: string): (r: Option<Rgb>)
    ensures |hex| <= 5 ==> r == None
    ensures r.Some? ==> -15 <= r.value.r <= 255 && -15 <= r.value.g <= 255 && -15 <= r.value.b <= 255
  {
    ParseFields(Slice(hex, 1, 3), Slice(hex, 3, 5), Slice(hex, 5, 7))
  }

  /** `int(v * 0.80)` and `int(v * 0.40)` for one channel. */
  function PulseA(v: int): int {
    Trunc(v as real * 0.80)
  }

  function PulseB(v: int): int {
    Trunc(v as real * 0.40)
  }

  /** On bytes the two scalings are the integer quotients 4v/5 and 2v/5. */
  lemma PulseOfByte(v: int)
    requires IsByte(v)
    ensures PulseA(v) == 4 * v / 5 && PulseB(v) == 2 * v / 5
    ensures 0 <= PulseB(v) <= PulseA(v) <= v
  {
    var q, r := 4 * v / 5, 4 * v % 5;
    assert v as real * 0.80 == q as real + r as real / 5.0;
    var q2, r2 := 2 * v / 5, 2 * v % 5;
    assert v as real * 0.40 == q2 as real + r2 as real / 5.0;
  }

  /** The two background pulse colours, 80% and 40% of the main colour. */
  function PulseColors(c: Rgb): (Rgb, Rgb) {
    (Rgb(PulseA(c.r), PulseA(c.g), PulseA(c.b)), Rgb(PulseB(c.r), PulseB(c.g), PulseB(c.b)))
  }

  /** The pulse colours formatted as hex strings, or `None` when the main colour does not parse. */
  function AutoBgColors(mainHex: string): (r: Option<(string, string)>)
    ensures r.Some? <==> ParseMainColor(mainHex).Some?
    ensures r.Some? ==> r.value.0 != [] && r.value.0[0] == '#' && r.value.1 != [] && r.value.1[0] == '#'
  {
    match ParseMainColor(mainHex)
    case None => None
    case Some(c) => Some((RgbToHex(PulseColors(c).0), RgbToHex(PulseColors(c).1)))
  }

  lemma PulseColorsOfValid(c: Rgb)
    requires ValidRgb(c)
    ensures PulseColors(c).0 == Rgb(4 * c.r / 5, 4 * c.g / 5, 4 * c.b / 5)
    ensures PulseColors(c).1 == Rgb(2 * c.r / 5, 2 * c.g / 5, 2 * c.b / 5)
    ensures ValidRgb(PulseColors(c).0) && ValidRgb(PulseColors(c).1)
  {
    PulseOfByte(c.r);
    PulseOfByte(c.g);
    PulseOfByte(c.b);
  }

  /** On a well-formed colour the panel's offset-1 reading agrees with `hex_to_rgb`. */
  lemma MainColorAgrees(mainHex: string)
    requires IsHexColor(mainHex)
    ensures ParseMainColor(mainHex) == HexToRgb(mainHex)
  {
    HexColorFields(mainHex);
    assert Slice(mainHex, 1, 3) == mainHex[1..3] && Slice(mainHex, 3, 5) == mainHex[3..5]
      && Slice(mainHex, 5, 7) == mainHex[5..7];
  }

  /**
   * For a well-formed main colour both pulse colours are well formed and
   * parse back to floor(4c/5) and floor(2c/5) of each channel c.
   */
  lemma AutoBgColorsSpec(mainHex: string)
    requires IsHexColor(mainHex)
    ensures HexToRgb(mainHex).Some? && AutoBgColors(mainHex).Some?
    ensures var c := HexToRgb(mainHex).value;
      var (a, b) := AutoBgColors(mainHex).value;
      IsLowerHexColor(a) && IsLowerHexColor(b)
      && HexToRgb(a) == Some(Rgb(4 * c.r / 5, 4 * c.g / 5, 4 * c.b / 5))
      && HexToRgb(b) == Some(Rgb(2 * c.r / 5, 2 * c.g / 5, 2 * c.b / 5))
  {
    HexRoundTrip(mainHex);
    MainColorAgrees(mainHex);
    var c := HexToRgb(mainHex).value;
    PulseColorsOfValid(c);
    var (pa, pb) := PulseColors(c);
    RgbRoundTrip(pa);
    RgbRoundTrip(pb);
  }

  /**
   * The generator's default main colour `#FFEF00` is upper case. It reads as
   * (255, 239, 0), and the start-up auto-generation turns the background
   * defaults into `#ccbf00` and `#665f00`.
   */
  lemma DefaultColors(main: string)
    requires main == "#FFEF00"
    ensures HexToRgb(main) == Some(Rgb(255, 239, 0))
    ensures AutoBgColors(main) == Some(("#ccbf00", "#665f00"))
  {
    var c := Rgb(255, 239, 0);
    DefaultFields(main);
    MainColorAgrees(main);
    AutoBgOf(main, c);
    DefaultPulses(c);
    FormatsAs(Rgb(204, 191, 0), "#ccbf00");
    FormatsAs(Rgb(102, 95, 0), "#665f00");
  }

  /** Once the main colour reads as `c`, the pulse pair is its two pulse colours, formatted. */
  lemma AutoBgOf(mainHex: string, c: Rgb)
    requires ParseMainColor(mainHex) == Some(c)
    ensures AutoBgColors(mainHex) == Some((RgbToHex(PulseColors(c).0), RgbToHex(PulseColors(c).1)))
  {
  }

  /** 80% and 40% of (255, 239, 0), truncated. */
  lemma DefaultPulses(c: Rgb)
    requires c == Rgb(255, 239, 0)
    ensures PulseColors(c) == (Rgb(204, 191, 0), Rgb(102, 95, 0))
  {
    assert 255.0 * 0.80 == 204.0 && 239.0 * 0.80 == 191.2 && 0.0 * 0.80 == 0.0;
    assert 255.0 * 0.40 == 102.0 && 239.0 * 0.40 == 95.6 && 0.0 * 0.40 == 0.0;
  }

  lemma DefaultFields(main: string)
    requires main == "#FFEF00"
    ensures IsHexColor(main) && HexToRgb(main) == Some(Rgb(255, 239, 0))
  {
    assert |main| == 7 && main[0] == '#';
    assert main[1] == main[2] == main[4] == 'F' && main[3] == 'E' && main[5] == main[6] == '0';
    YellowFields(main);
  }

  /** Any colour spelled `#FFEF00` reads as (255, 239, 0). */
  lemma YellowFields(main: string)
    requires |main| == 7 && main[0] == '#'
    requires main[1] == main[2] == main[4] == 'F' && main[3] == 'E' && main[5] == main[6] == '0'
    ensures IsHexColor(main) && HexToRgb(main) == Some(Rgb(255, 239, 0))
  {
    assert IsHexColor(main);
    HexColorFields(main);
    var f1, f2, f3 := main[1..3], main[3..5], main[5..7];
    assert f1[0] == f1[1] == f2[1] == 'F' && f2[0] == 'E' && f3[0] == f3[1] == '0';
    assert HexValue('F') == 15 && HexValue('E') == 14 && HexValue('0') == 0;
    ParseByte(f1);
    ParseByte(f2);
    ParseByte(f3);
  }

  /** Two hex digits read as the byte they spell. */
  lemma ParseByte(s: string)
    requires |s| == 2 && IsHexDigit(s[0]) && IsHexDigit(s[1])
    ensures ParseHexField(s) == Some(16 * HexValue(s[0]) + HexValue(s[1]))
  {
  }

  lemma FormatsAs(c: Rgb, hex: string)
    requires (c == Rgb(204, 191, 0) && hex == "#ccbf00") || (c == Rgb(102, 95, 0) && hex == "#665f00")
    ensures RgbToHex(c) == hex
  {
    assert Nibble(12) == 'c' && Nibble(11) == 'b' && Nibble(15) == 'f' && Nibble(0) == '0';
    assert Nibble(6) == '6' && Nibble(5) == '5';
    assert Hex02(c.r) + Hex02(c.g) + Hex02(c.b) == hex[1..];
  }

  /** The colour entries of the generator's settings that the auto-background option rewrites. */
  class ColorSettings {
    var color: string
    var bgColor1: string
    var bgColor2: string

    constructor (color: string, bgColor1: string, bgColor2: string)
      ensures this.color == color && this.bgColor1 == bgColor1 && this.bgColor2 == bgColor2
    {
      this.color := color;
      this.bgColor1 := bgColor1;
      this.bgColor2 := bgColor2;
    }

    /**
     * `auto_generate_bg_colors`: both background entries replaced by the
     * pulse colours of the main colour; a main colour that does not parse
     * raises before anything is written (`ok` false, nothing changes).
     */
    method AutoGenerateBgColors() returns (ok: bool)
      modifies this
      ensures color == old(color)
      ensures ok == AutoBgColors(color).Some?
      ensures ok ==> (bgColor1, bgColor2) == AutoBgColors(color).value
      ensures !ok ==> bgColor1 == old(bgColor1) && bgColor2 == old(bgColor2)
    {
      var c := ParseMainColor(color);
      if c.None? {
        return false;
      }
      var (a, b) := PulseColors(c.value);
      bgColor1 := RgbToHex(a);
      bgColor2 := RgbToHex(b);
      ok := true;
    }
  }
}
