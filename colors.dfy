/**
 * Colour strings of utils/color_picker.py: the static `ColorPicker` helpers
 * (`is_valid_color`, `hex_to_rgb`, `rgb_to_hex`) and the `ColorPresets` tables.
 * The same `hex_to_rgb` appears in utils/text_effects.py and is modelled here once.
 */
module Colors {
  import opened Wrappers
  import opened Strings

  predicate IsHexDigit(c: char) {
    DigitValue(c) < 16
  }

  /**
   * `hex_color.lstrip('#')`, then `int(h[i:i+2], 16)` for i in 0, 2, 4; `None` where one
   * of them raises. The leading '#' characters are dropped one at a time.
   */
  function HexToRgb(hex: string): Option<(int, int, int)>
    decreases |hex|
  {
    if |hex| > 0 && hex[0] == '#' then HexToRgb(hex[1..])
    else
      var r := HexPair(hex, 0);
      var g := HexPair(hex, 2);
      var b := HexPair(hex, 4);
      if r.Some? && g.Some? && b.Some? then Some((r.value, g.value, b.value)) else None
  }

  /** `int(hex[i:i+2], 16)`. */
  function HexPair(hex: string, i: nat): Option<int> {
    ParseInt(Slice(hex, i, i + 2), 16)
  }

  /** `f"#{r:02X}{g:02X}{b:02X}"`. */
  function RgbToHex(r: int, g: int, b: int): string {
    "#" + Hex02(r) + Hex02(g) + Hex02(b)
  }

  /** Channels in 0..255 give '#' and exactly two upper-case hexadecimal digits per channel, high digit first. */
  lemma RgbToHexShape(r: nat, g: nat, b: nat)
    requires r < 256 && g < 256 && b < 256
    ensures var s := RgbToHex(r, g, b);
      |s| == 7 && s[0] == '#'
      && s[1] == DigitChar(r / 16) && s[2] == DigitChar(r % 16)
      && s[3] == DigitChar(g / 16) && s[4] == DigitChar(g % 16)
      && s[5] == DigitChar(b / 16) && s[6] == DigitChar(b % 16)
  {
    Hex02Byte(r);
    Hex02Byte(g);
    Hex02Byte(b);
    var s := RgbToHex(r, g, b);
    assert s == "#" + Hex02(r) + Hex02(g) + Hex02(b);
    assert s[1..3] == Hex02(r) && s[3..5] == Hex02(g) && s[5..7] == Hex02(b);
  }

  /** Two hexadecimal digits at `i` read as one byte. */
  /** The byte two hexadecimal digits stand for, high digit first. */
  function PairValue(hi: char, lo: char): int {
    DigitValue(hi) * 16 + DigitValue(lo)
  }

  lemma PairAt(t: string, i: nat)
    requires i + 2 <= |t| && IsHexDigit(t[i]) && IsHexDigit(t[i + 1])
    ensures HexPair(t, i) == Some(PairValue(t[i], t[i + 1]))
  {
    SliceTwo(t, i);
    ParseHexPair(Slice(t, i, i + 2));
  }

  /** `hex_to_rgb` of a single '#' and six hexadecimal digits reads the three pairs. */
  lemma HexToRgbOfSixDigits(s: string)
    requires |s| == 7 && s[0] == '#' && forall k :: 1 <= k < 7 ==> IsHexDigit(s[k])
    ensures HexToRgb(s) == Some((PairValue(s[1], s[2]), PairValue(s[3], s[4]), PairValue(s[5], s[6])))
  {
    var t := s[1..];
    HexDigitPlain(t[0]);
    assert HexToRgb(s) == HexToRgb(t);
    assert t[0] == s[1] && t[1] == s[2] && t[2] == s[3] && t[3] == s[4] && t[4] == s[5] && t[5] == s[6];
    SixBareDigits(t);
  }

  /** Six hexadecimal digits without the '#' read as three pairs. */
  lemma SixBareDigits(t: string)
    requires |t| == 6 && t[0] != '#' && forall k :: 0 <= k < 6 ==> IsHexDigit(t[k])
    ensures HexToRgb(t) == Some((PairValue(t[0], t[1]), PairValue(t[2], t[3]), PairValue(t[4], t[5])))
  {
    var r, g, b := PairValue(t[0], t[1]), PairValue(t[2], t[3]), PairValue(t[4], t[5]);
    PairAt(t, 0);
    PairAt(t, 2);
    PairAt(t, 4);
    ReadsPairs(t, r, g, b);
  }

  /** Without a leading '#', `hex_to_rgb` gives the three pairs when each reads as a number. */
  lemma ReadsPairs(t: string, r: int, g: int, b: int)
    requires t != [] && t[0] != '#' && HexPair(t, 0) == Some(r) && HexPair(t, 2) == Some(g) && HexPair(t, 4) == Some(b)
    ensures HexToRgb(t) == Some((r, g, b))
  {
  }

  /** The seven characters a byte triple formats to. */
  predicate FormatsAs(s: string, r: nat, g: nat, b: nat)
    requires r < 256 && g < 256 && b < 256
  {
    |s| == 7 && s[0] == '#'
    && s[1] == DigitChar(r / 16) && s[2] == DigitChar(r % 16)
    && s[3] == DigitChar(g / 16) && s[4] == DigitChar(g % 16)
    && s[5] == DigitChar(b / 16) && s[6] == DigitChar(b % 16)
  }

  lemma FormattedReadsBack(s: string, r: nat, g: nat, b: nat)
    requires r < 256 && g < 256 && b < 256 && FormatsAs(s, r, g, b)
    ensures HexToRgb(s) == Some((r, g, b))
    ensures forall k :: 1 <= k < 7 ==> IsHexDigit(s[k])
  {
    FormattedDigits(s, r, g, b);
    PairsRead(s, r, g, b);
  }

  lemma FormattedDigits(s: string, r: nat, g: nat, b: nat)
    requires r < 256 && g < 256 && b < 256 && FormatsAs(s, r, g, b)
    ensures forall k :: 1 <= k < 7 ==> IsHexDigit(s[k])
    ensures DigitValue(s[1]) * 16 + DigitValue(s[2]) == r
    ensures DigitValue(s[3]) * 16 + DigitValue(s[4]) == g
    ensures DigitValue(s[5]) * 16 + DigitValue(s[6]) == b
  {
    ByteDigits(r);
    ByteDigits(g);
    ByteDigits(b);
  }

  lemma PairsRead(s: string, r: int, g: int, b: int)
    requires |s| == 7 && s[0] == '#' && forall k :: 1 <= k < 7 ==> IsHexDigit(s[k])
    requires PairValue(s[1], s[2]) == r && PairValue(s[3], s[4]) == g && PairValue(s[5], s[6]) == b
    ensures HexToRgb(s) == Some((r, g, b))
  {
    HexToRgbOfSixDigits(s);
  }

  lemma ByteDigits(n: nat)
    requires n < 256
    ensures DigitValue(DigitChar(n / 16)) * 16 + DigitValue(DigitChar(n % 16)) == n
  {
    DivMod(n, 16);
  }

  /** Reading back a formatted colour gives the channels it was made from. */
  lemma HexRoundTrip(r: nat, g: nat, b: nat)
    requires r < 256 && g < 256 && b < 256
    ensures HexToRgb(RgbToHex(r, g, b)) == Some((r, g, b))
  {
    RgbToHexShape(r, g, b);
    FormattedReadsBack(RgbToHex(r, g, b), r, g, b);
  }

  /** The three integers of "rgb(r,g,b)" in 0..255, or false. */
  predicate ValidRgbTriple(inner: string) {
    var parts := Split(inner, ',');
    |parts| == 3
    && ParseInt(parts[0], 10).Some? && ParseInt(parts[1], 10).Some? && ParseInt(parts[2], 10).Some?
    && 0 <= ParseInt(parts[0], 10).value <= 255
    && 0 <= ParseInt(parts[1], 10).value <= 255
    && 0 <= ParseInt(parts[2], 10).value <= 255
  }

  /**
   * `is_valid_color`: after stripping, '#' and six more characters that `int(..., 16)`
   * accepts, or "rgb(" three comma-separated integers in 0..255 ")"; nothing else.
   */
  predicate IsValidColor(color: string) {
    if color == "" then false
    else
      var c := Strip(color);
      if StartsWith(c, "#") && |c| == 7 then ParseInt(c[1..], 16).Some?
      else if StartsWith(c, "rgb(") && EndsWith(c, ")") then ValidRgbTriple(Slice(c, 4, |c| - 1))
      else false
  }

  /** Every formatted colour is valid. */
  lemma RgbToHexIsValid(r: nat, g: nat, b: nat)
    requires r < 256 && g < 256 && b < 256
    ensures IsValidColor(RgbToHex(r, g, b))
  {
    RgbToHexShape(r, g, b);
    FormattedReadsBack(RgbToHex(r, g, b), r, g, b);
    HexDigitsValid(RgbToHex(r, g, b));
  }

  /** '#' and six hexadecimal digits, as every preset of six digits is, is valid. */
  lemma HexDigitsValid(s: string)
    requires |s| == 7 && s[0] == '#' && forall k :: 1 <= k < 7 ==> IsHexDigit(s[k])
    ensures IsValidColor(s)
  {
    var t := s[1..];
    DigitsAreRun(t, 16);
    assert !IsSpace(s[0]) && !IsSpace(s[6]);
    StripByKeeps(s, IsSpace);
    ParseDigitRun(t, 16);
  }

  /** A string with more than six characters after '#', such as the eight-digit presets, is not a valid colour. */
  lemma LongHexInvalid(s: string)
    requires |s| > 7 && s[0] == '#' && !IsSpace(s[0]) && !IsSpace(s[|s| - 1])
    ensures !IsValidColor(s)
  {
    StripByKeeps(s, IsSpace);
  }

  /** Colours of the 'rgb(...)' form are accepted exactly when each of the three numbers is in 0..255. */
  lemma RgbFormValidity(inner: string)
    ensures IsValidColor("rgb(" + inner + ")") <==> ValidRgbTriple(inner)
  {
    var s := "rgb(" + inner + ")";
    StripByKeeps(s, IsSpace);
    assert Slice(s, 4, |s| - 1) == inner;
  }

  const CommonColors: map<string, string> := map[
    "黑色" := "#000000", "白色" := "#FFFFFF", "红色" := "#FF0000", "绿色" := "#00FF00",
    "蓝色" := "#0000FF", "黄色" := "#FFFF00", "青色" := "#00FFFF", "洋红" := "#FF00FF",
    "橙色" := "#FFA500", "紫色" := "#800080", "粉色" := "#FFC0CB", "棕色" := "#A52A2A",
    "灰色" := "#808080", "深绿" := "#008000", "深蓝" := "#000080"]

  const TextWatermarkColors: map<string, string> := map[
    "经典黑" := "#000000", "纯白" := "#FFFFFF", "深灰" := "#333333", "浅灰" := "#CCCCCC",
    "半透明黑" := "#00000080", "半透明白" := "#FFFFFF80", "金色" := "#FFD700", "银色" := "#C0C0C0",
    "深红" := "#8B0000", "深蓝" := "#000080"]

  /** '#' followed by six hexadecimal digits: the form of every opaque preset. */
  predicate SixHexForm(s: string) {
    |s| == 7 && s[0] == '#' && forall k :: 1 <= k < 7 ==> IsHexDigit(s[k])
  }

  /** Every common preset has the six-digit form. */
  lemma CommonColorsForm(name: string)
    requires name in CommonColors
    ensures SixHexForm(CommonColors[name])
  {
  }

  /** `ColorPresets.get_color_by_name`: the preset, or black for an unknown name; always a valid colour. */
  function GetColorByName(name: string): (r: string)
    ensures name !in CommonColors ==> r == "#000000"
    ensures name in CommonColors ==> r == CommonColors[name]
    ensures IsValidColor(r)
  {
    if name in CommonColors then
      CommonColorsForm(name);
      HexDigitsValid(CommonColors[name]);
      CommonColors[name]
    else
      HexDigitsValid("#000000");
      "#000000"
  }

  /** The two half-transparent text presets carry a third, alpha, byte; every other has six digits. */
  lemma TextWatermarkColorsForm(name: string)
    requires name in TextWatermarkColors
    ensures name != "半透明黑" && name != "半透明白" ==> SixHexForm(TextWatermarkColors[name])
    ensures name == "半透明黑" || name == "半透明白" ==>
      (|TextWatermarkColors[name]| == 9 && TextWatermarkColors[name][0] == '#' && TextWatermarkColors[name][8] == '0')
  {
  }

  /**
   * `ColorPresets.get_text_watermark_color`: the preset, or black for an unknown name.
   * The answer is a valid colour for every name except the two half-transparent presets.
   */
  function GetTextWatermarkColor(name: string): (r: string)
    ensures name !in TextWatermarkColors ==> r == "#000000"
    ensures name in TextWatermarkColors ==> r == TextWatermarkColors[name]
    ensures IsValidColor(r) <==> name != "半透明黑" && name != "半透明白"
  {
    if name in TextWatermarkColors then
      TextWatermarkColorsForm(name);
      var c := TextWatermarkColors[name];
      if name != "半透明黑" && name != "半透明白" then
        HexDigitsValid(c);
        c
      else
        assert !IsSpace(c[0]) && !IsSpace(c[|c| - 1]);
        LongHexInvalid(c);
        c
    else
      HexDigitsValid("#000000");
      assert "半透明黑" in TextWatermarkColors && "半透明白" in TextWatermarkColors;
      "#000000"
  }

  /**
   * `ColorPresets.get_contrasting_color`: white on a background whose brightness
   * (299r + 587g + 114b) / 1000 is below 128, black otherwise; `None` where the
   * background does not parse.
   */
  function GetContrastingColor(background: string): Option<string> {
    match HexToRgb(background)
    case None => None
    case Some((r, g, b)) =>
      var brightness := (r * 299 + g * 587 + b * 114) as real / 1000.0;
      Some(if brightness < 128.0 then "#FFFFFF" else "#000000")
  }

  /** The answer is white exactly when 299r + 587g + 114b < 128000, in integers. */
  lemma ContrastThreshold(r: nat, g: nat, b: nat)
    requires r < 256 && g < 256 && b < 256
    ensures GetContrastingColor(RgbToHex(r, g, b))
      == Some(if r * 299 + g * 587 + b * 114 < 128000 then "#FFFFFF" else "#000000")
  {
    HexRoundTrip(r, g, b);
  }

  /** Black gets white text and white gets black text. */
  lemma ContrastExtremes()
    ensures GetContrastingColor("#000000") == Some("#FFFFFF")
    ensures GetContrastingColor("#FFFFFF") == Some("#000000")
  {
    HexToRgbOfSixDigits("#000000");
    HexToRgbOfSixDigits("#FFFFFF");
  }
}
