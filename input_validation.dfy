/**
 * `InputValidator` of utils/input_validation.py: integers read from loosely typed
 * input and clamped into a range, colour strings normalised to '#RRGGBB', and the
 * RGBA tuple built from both.
 */
module InputValidation {
  import opened Wrappers
  import opened Numbers
  import opened Strings
  import opened Colors

  /**
   * The value handed to a validator: a Python `str`, an `int`, or some other value on which
   * `int()` raises `TypeError`, such as `None`. A `float`, which `int()` truncates instead, is
   * outside the validators' declared `Union[str, int]` and is not modelled.
   */
  datatype Input = StrInput(s: string) | IntInput(n: int) | OtherInput

  predicate IsDigit(c: char) {
    '0' <= c <= '9'
  }

  /** The characters `re.sub(r'[^\d-]', '', value)` keeps. */
  predicate IsDigitOrMinus(c: char) {
    IsDigit(c) || c == '-'
  }

  /** `re.sub(r'[^\d-]', '', s)`: every character other than a digit or '-' deleted, the rest kept in order. */
  function DigitsAndMinus(s: string): string
    decreases |s|
  {
    if s == [] then [] else (if IsDigitOrMinus(s[0]) then [s[0]] else []) + DigitsAndMinus(s[1..])
  }

  /** The filter keeps exactly the digits and minus signs: nothing else survives, and a string made of them alone is unchanged. */
  lemma {:induction false} DigitsAndMinusFacts(s: string)
    ensures var r := DigitsAndMinus(s);
      |r| <= |s| && (forall i :: 0 <= i < |r| ==> IsDigitOrMinus(r[i]))
      && ((forall i :: 0 <= i < |s| ==> IsDigitOrMinus(s[i])) ==> r == s)
    decreases |s|
  {
    if s != [] {
      DigitsAndMinusFacts(s[1..]);
      var head := if IsDigitOrMinus(s[0]) then [s[0]] else [];
      var r := DigitsAndMinus(s);
      assert r == head + DigitsAndMinus(s[1..]);
      forall i | 0 <= i < |r|
        ensures IsDigitOrMinus(r[i])
      {
        if i >= |head| {
          assert r[i] == DigitsAndMinus(s[1..])[i - |head|];
        }
      }
      if forall i :: 0 <= i < |s| ==> IsDigitOrMinus(s[i]) {
        assert IsDigitOrMinus(s[0]);
        assert forall i :: 0 <= i < |s[1..]| ==> IsDigitOrMinus(s[1..][i]);
        assert [s[0]] + s[1..] == s;
      }
    }
  }

  /** `max(result, min_val)` when a minimum is given, then `min(result, max_val)` when a maximum is given. */
  function Clamp(n: int, minVal: Option<int>, maxVal: Option<int>): int {
    var atLeast := if minVal.Some? then Max(n, minVal.value) else n;
    if maxVal.Some? then Min(atLeast, maxVal.value) else atLeast
  }

  /**
   * The maximum, applied last, always holds; the minimum holds when it does not exceed
   * the maximum; a value already in range is kept; and a reversed range gives the maximum.
   */
  lemma ClampBounds(n: int, minVal: Option<int>, maxVal: Option<int>)
    ensures var r := Clamp(n, minVal, maxVal);
      (maxVal.Some? ==> r <= maxVal.value)
      && (minVal.Some? && (maxVal.None? || minVal.value <= maxVal.value) ==> r >= minVal.value)
      && ((minVal.None? || minVal.value <= n) && (maxVal.None? || n <= maxVal.value) ==> r == n)
      && (minVal.Some? && maxVal.Some? && minVal.value > maxVal.value ==> r == maxVal.value)
  {
  }

  /**
   * `validate_integer`: a string is stripped, emptied of everything but digits and '-',
   * and read by `int()`; the result is clamped. An empty string, a filtered string that
   * is empty or "-", one `int()` rejects, and a value of another type give the default
   * (0 when none is given), unclamped.
   */
  function ValidateInteger(value: Input, minVal: Option<int>, maxVal: Option<int>, default: Option<int>): int {
    var fallback := default.GetOr(0);
    match value
    case IntInput(n) => Clamp(n, minVal, maxVal)
    case OtherInput => fallback
    case StrInput(s) =>
      var v := Strip(s);
      if v == "" then fallback else ReadFiltered(DigitsAndMinus(v), minVal, maxVal, fallback)
  }

  /** `int()` of the filtered string, clamped; an empty string, a lone "-" and a string `int()` rejects give the fallback. */
  function ReadFiltered(w: string, minVal: Option<int>, maxVal: Option<int>, fallback: int): int {
    if w == "" || w == "-" then fallback
    else
      match ParseInt(w, 10)
      case None => fallback
      case Some(n) => Clamp(n, minVal, maxVal)
  }

  predicate AllDigits(s: string) {
    forall i :: 0 <= i < |s| ==> IsDigit(s[i])
  }

  lemma AllDigitsSnoc(s: string)
    requires s != []
    ensures AllDigits(s) <==> AllDigits(s[..|s| - 1]) && IsDigit(s[|s| - 1])
  {
    if AllDigits(s[..|s| - 1]) && IsDigit(s[|s| - 1]) {
      forall i | 0 <= i < |s| ensures IsDigit(s[i]) {
        if i < |s| - 1 {
          assert s[i] == s[..|s| - 1][i];
        }
      }
    }
  }

  /** A run of characters without underscores is a digit run exactly when every character is a digit. */
  lemma {:induction false} RunCharsOfDecimal(s: string)
    requires forall i :: 0 <= i < |s| ==> IsDigitOrMinus(s[i])
    ensures RunChars(s, 10) <==> AllDigits(s)
    decreases |s|
  {
    if s != [] {
      var init := s[..|s| - 1];
      assert forall i :: 0 <= i < |init| ==> IsDigitOrMinus(init[i]) by {
        forall i | 0 <= i < |init| ensures IsDigitOrMinus(init[i]) {
          assert init[i] == s[i];
        }
      }
      RunCharsOfDecimal(init);
      assert IsDigitOrMinus(s[|s| - 1]);
      if AllDigits(s) {
        assert AllDigits(init) by {
          forall i | 0 <= i < |init| ensures IsDigit(init[i]) {
            assert init[i] == s[i];
          }
        }
        assert IsDigit(s[|s| - 1]);
      } else {
        AllDigitsSnoc(s);
      }
    }
  }

  /** A string of digits and minus signs has no surrounding whitespace, so `int()` goes straight to the sign. */
  lemma ParseIsSigned(w: string)
    requires w != [] && IsDigitOrMinus(w[0]) && IsDigitOrMinus(w[|w| - 1])
    ensures ParseInt(w, 10) == ParseSigned(w, 10)
  {
  }

  /** The unsigned part: a non-empty run of digits reads as its value, anything else is rejected. */
  lemma ParseRunOfDecimal(u: string)
    requires forall i :: 0 <= i < |u| ==> IsDigitOrMinus(u[i])
    ensures ParseRun(u, 10) == if u != [] && AllDigits(u) then Some(RunValue(u, 10)) else None
  {
    RunCharsOfDecimal(u);
    if u != [] && !AllDigits(u) {
      assert !RunChars(u, 10);
    }
  }

  /**
   * What `int()` makes of a string of digits and minus signs: digits alone, or one '-'
   * followed by digits, read in decimal; anything else (such as "5-" or "--5") is rejected.
   */
  lemma ParseDigitsAndMinus(w: string)
    requires w != [] && forall i :: 0 <= i < |w| ==> IsDigitOrMinus(w[i])
    ensures ParseInt(w, 10).Some? <==> AllDigits(w) || (|w| >= 2 && w[0] == '-' && AllDigits(w[1..]))
    ensures AllDigits(w) ==> ParseInt(w, 10) == Some(RunValue(w, 10))
    ensures |w| >= 2 && w[0] == '-' && AllDigits(w[1..]) ==> ParseInt(w, 10) == Some(-(RunValue(w[1..], 10) as int))
  {
    ParseIsSigned(w);
    if w[0] == '-' {
      assert !IsDigit(w[0]);
      ParseAfterMinus(w);
    } else {
      ParseRunOfDecimal(w);
      assert DropPrefix(w, 10) == w;
    }
  }

  /** A leading '-' is dropped and negates the number read from the rest. */
  lemma ParseAfterMinus(w: string)
    requires w != [] && w[0] == '-' && forall i :: 0 <= i < |w| ==> IsDigitOrMinus(w[i])
    ensures ParseSigned(w, 10) == if w[1..] != [] && AllDigits(w[1..]) then Some(-(RunValue(w[1..], 10) as int)) else None
  {
    var u := w[1..];
    forall i | 0 <= i < |u| ensures IsDigitOrMinus(u[i]) {
      assert u[i] == w[i + 1];
    }
    ParseRunOfDecimal(u);
    assert DropPrefix(u, 10) == u;
  }

  /** `str(n)` is made of digits and at most a leading '-'. */
  lemma DecimalChars(n: int)
    ensures var s := IntToDecimal(n);
      s != [] && (forall i :: 0 <= i < |s| ==> IsDigitOrMinus(s[i]))
      && (n >= 0 ==> AllDigits(s) && RunValue(s, 10) == n)
      && (n < 0 ==> |s| >= 2 && s[0] == '-' && AllDigits(s[1..]) && RunValue(s[1..], 10) == -n)
  {
    var d := Decimal(if n < 0 then -n else n);
    assert forall i :: 0 <= i < |d| ==> IsDigit(d[i]) by {
      forall i | 0 <= i < |d| ensures IsDigit(d[i]) {
        assert DigitValue(d[i]) < 10;
      }
    }
    DigitsRoundTrip(if n < 0 then -n else n, 10);
    if n < 0 {
      var s := IntToDecimal(n);
      assert s == "-" + d && s[1..] == d;
      forall i | 0 <= i < |s| ensures IsDigitOrMinus(s[i]) {
        if i > 0 {
          assert s[i] == d[i - 1];
        }
      }
    }
  }

  /** A string without surrounding whitespace goes to the filter unchanged. */
  lemma ValidateUnpadded(s: string, minVal: Option<int>, maxVal: Option<int>, default: Option<int>)
    requires s != [] && !IsSpace(s[0]) && !IsSpace(s[|s| - 1])
    ensures ValidateInteger(StrInput(s), minVal, maxVal, default) == ReadFiltered(DigitsAndMinus(s), minVal, maxVal, default.GetOr(0))
  {
    StripByKeeps(s, IsSpace);
  }

  /** The filter keeps `str(n)` whole, and `int()` reads it back as `n`. */
  lemma ReadFilteredDecimal(n: int, minVal: Option<int>, maxVal: Option<int>, fallback: int)
    ensures DigitsAndMinus(IntToDecimal(n)) == IntToDecimal(n)
    ensures ReadFiltered(IntToDecimal(n), minVal, maxVal, fallback) == Clamp(n, minVal, maxVal)
  {
    var s := IntToDecimal(n);
    DecimalChars(n);
    DigitsAndMinusFacts(s);
    ParseDigitsAndMinus(s);
    if n < 0 {
      assert s != "-";
    }
  }

  /** Reading back `str(n)` gives `n`, clamped: the validator accepts every integer Python prints. */
  lemma ValidateIntegerOfDecimal(n: int, minVal: Option<int>, maxVal: Option<int>, default: Option<int>)
    ensures ValidateInteger(StrInput(IntToDecimal(n)), minVal, maxVal, default) == Clamp(n, minVal, maxVal)
    ensures ValidateInteger(IntInput(n), minVal, maxVal, default) == Clamp(n, minVal, maxVal)
  {
    var s := IntToDecimal(n);
    DecimalChars(n);
    assert IsDigitOrMinus(s[0]) && IsDigitOrMinus(s[|s| - 1]);
    ValidateUnpadded(s, minVal, maxVal, default);
    ReadFilteredDecimal(n, minVal, maxVal, default.GetOr(0));
  }

  /**
   * The result is the default or a clamped integer: it never exceeds a given maximum
   * unless it is the default, and never falls below a minimum that does not exceed the maximum.
   */
  lemma ValidateIntegerRange(value: Input, minVal: Option<int>, maxVal: Option<int>, default: Option<int>)
    ensures var r := ValidateInteger(value, minVal, maxVal, default);
      r == default.GetOr(0)
      || ((maxVal.Some? ==> r <= maxVal.value)
          && (minVal.Some? && (maxVal.None? || minVal.value <= maxVal.value) ==> r >= minVal.value))
  {
    var r := ValidateInteger(value, minVal, maxVal, default);
    if r != default.GetOr(0) {
      var n :| r == Clamp(n, minVal, maxVal);
      ClampBounds(n, minVal, maxVal);
    }
  }

  /** Blank input falls back to the default. */
  lemma BlankIsDefault(s: string, minVal: Option<int>, maxVal: Option<int>, default: Option<int>)
    requires forall i :: 0 <= i < |s| ==> IsSpace(s[i])
    ensures ValidateInteger(StrInput(s), minVal, maxVal, default) == default.GetOr(0)
  {
    StripByFacts(s, IsSpace);
  }

  /** Characters other than digits and '-' are deleted, not rejected: "50.5" reads as 505. */
  lemma DotIsDropped()
    ensures ValidateInteger(StrInput("50.5"), None, None, Some(7)) == 505
  {
    StripByKeeps("50.5", IsSpace);
    FilterOfFiftyPointFive();
    ReadOfFiveOFive();
  }

  lemma FilterOfFiftyPointFive()
    ensures DigitsAndMinus("50.5") == "505"
  {
    assert DigitsAndMinus("5") == "5";
    assert DigitsAndMinus(".5") == "5" by { assert ".5"[1..] == "5"; }
    assert DigitsAndMinus("0.5") == "05" by { assert "0.5"[1..] == ".5"; }
    assert "50.5"[1..] == "0.5";
  }

  lemma ReadOfFiveOFive()
    ensures ReadFiltered("505", None, None, 7) == 505
  {
    ParseDigitsAndMinus("505");
    assert AllDigits("505");
    assert RunValue("505", 10) == 505 by {
      assert "505"[..2] == "50" && "50"[..1] == "5" && "5"[..0] == "";
    }
  }

  /** A minus sign anywhere but in front makes `int()` fail, so the default is used. */
  lemma TrailingMinusIsDefault()
    ensures ValidateInteger(StrInput("5-"), None, None, Some(7)) == 7
  {
    StripByKeeps("5-", IsSpace);
    assert DigitsAndMinus("5-") == "5-" by {
      assert DigitsAndMinus("-") == "-";
      assert "5-"[1..] == "-";
    }
    ParseDigitsAndMinus("5-");
    assert !AllDigits("5-") by { assert !IsDigit("5-"[1]); }
  }

  const DefaultOpacity := 128
  const DefaultFontSize := 48
  const DefaultQuality := 95

  /** `validate_opacity`: an integer in 0..255. */
  function ValidateOpacity(value: Input, default: int): int {
    ValidateInteger(value, Some(0), Some(255), Some(default))
  }

  /** `validate_font_size`: an integer in 8..1000. */
  function ValidateFontSize(value: Input, default: int): int {
    ValidateInteger(value, Some(8), Some(1000), Some(default))
  }

  /** `validate_quality`: an integer in 1..100. */
  function ValidateQuality(value: Input, default: int): int {
    ValidateInteger(value, Some(1), Some(100), Some(default))
  }

  /** Each of the three lands in its range or on its default. */
  lemma RangedValidators(value: Input, default: int)
    ensures var r := ValidateOpacity(value, default); r == default || 0 <= r <= 255
    ensures var r := ValidateFontSize(value, default); r == default || 8 <= r <= 1000
    ensures var r := ValidateQuality(value, default); r == default || 1 <= r <= 100
  {
    ValidateIntegerRange(value, Some(0), Some(255), Some(default));
    ValidateIntegerRange(value, Some(8), Some(1000), Some(default));
    ValidateIntegerRange(value, Some(1), Some(100), Some(default));
  }

  /** '#' followed by hexadecimal digits only. */
  predicate HexBody(h: string) {
    |h| >= 1 && h[0] == '#' && forall i :: 1 <= i < |h| ==> IsHexDigit(h[i])
  }

  /** `''.join([c*2 for c in s])`. */
  function Doubled(s: string): (r: string)
    decreases |s|
  {
    if s == [] then [] else [s[0], s[0]] + Doubled(s[1..])
  }

  /** The stripped value with '#' put in front when missing. */
  function WithHash(s: string): string {
    var v := Strip(s);
    if StartsWith(v, "#") then v else "#" + v
  }

  /**
   * `validate_color_hex`: '#' and six hexadecimal digits comes back upper-cased,
   * '#' and three digits has each digit doubled with its case kept, and anything else,
   * or a value that is not a string, gives the default.
   */
  function ValidateColorHex(value: Option<string>, default: string): string {
    match value
    case None => default
    case Some(s) =>
      var h := WithHash(s);
      if |h| == 7 && HexBody(h) then Upper(h)
      else if |h| == 4 && HexBody(h) then "#" + Doubled(h[1..])
      else default
  }

  /** The value is a string matching one of the two accepted forms once stripped and prefixed. */
  predicate AcceptedColor(value: Option<string>) {
    value.Some? && (|WithHash(value.value)| == 7 || |WithHash(value.value)| == 4) && HexBody(WithHash(value.value))
  }

  lemma UpperHexDigit(c: char)
    requires IsHexDigit(c)
    ensures IsHexDigit(UpperChar(c)) && DigitValue(UpperChar(c)) == DigitValue(c) && !('a' <= UpperChar(c) <= 'z')
  {
  }

  /**
   * An accepted colour comes back as '#' and six hexadecimal digits, upper-case when six
   * were given and each of the three doubled, case kept, when three were given; any other
   * value gives the default.
   */
  lemma ValidateColorHexForm(value: Option<string>, default: string)
    ensures var r := ValidateColorHex(value, default);
      (AcceptedColor(value) ==> |r| == 7 && HexBody(r))
      && (AcceptedColor(value) && |WithHash(value.value)| == 7 ==>
            forall i :: 0 <= i < 7 ==> !('a' <= r[i] <= 'z') && DigitValue(r[i]) == DigitValue(WithHash(value.value)[i]))
      && (AcceptedColor(value) && |WithHash(value.value)| == 4 ==>
            var h := WithHash(value.value);
            r == ['#', h[1], h[1], h[2], h[2], h[3], h[3]])
      && (!AcceptedColor(value) ==> r == default)
  {
    var r := ValidateColorHex(value, default);
    if AcceptedColor(value) {
      var h := WithHash(value.value);
      if |h| == 7 {
        forall i | 0 <= i < 7
          ensures !('a' <= r[i] <= 'z') && DigitValue(r[i]) == DigitValue(h[i])
          ensures i >= 1 ==> IsHexDigit(r[i])
        {
          if i >= 1 {
            UpperHexDigit(h[i]);
          }
        }
      } else {
        var t := h[1..];
        assert Doubled(t[2..]) == [t[2], t[2]] + Doubled([]);
        assert Doubled(t[1..]) == [t[1], t[1]] + Doubled(t[2..]);
        assert t[1..][1..] == t[2..] && t[2..][1..] == [];
        assert Doubled(t) == [t[0], t[0]] + Doubled(t[1..]);
        assert r == ['#', h[1], h[1], h[2], h[2], h[3], h[3]];
        assert forall i :: 1 <= i < 4 ==> IsHexDigit(h[i]);
      }
    }
  }

  /** The '#' is optional: a value without surrounding whitespace validates the same with or without it. */
  lemma HashIsOptional(s: string, default: string)
    requires s != [] && s[0] != '#' && !IsSpace(s[0]) && !IsSpace(s[|s| - 1])
    ensures ValidateColorHex(Some(s), default) == ValidateColorHex(Some("#" + s), default)
  {
    StripByKeeps(s, IsSpace);
    StripByKeeps("#" + s, IsSpace);
    assert WithHash(s) == "#" + s;
    assert WithHash("#" + s) == "#" + s;
  }

  /** Normalising is not idempotent: a lower-case short form is doubled on the first pass and upper-cased on the second. */
  lemma ShortFormNotIdempotent()
    ensures ValidateColorHex(Some("#abc"), "#000000") == "#aabbcc"
    ensures ValidateColorHex(Some("#aabbcc"), "#000000") == "#AABBCC"
  {
    StripByKeeps("#abc", IsSpace);
    assert WithHash("#abc") == "#abc";
    assert AcceptedColor(Some("#abc"));
    ValidateColorHexForm(Some("#abc"), "#000000");
    StripByKeeps("#aabbcc", IsSpace);
    assert WithHash("#aabbcc") == "#aabbcc";
    assert HexBody("#aabbcc");
  }

  /**
   * `hex_to_rgba`: the colour validated with default "#000000", the opacity validated into
   * 0..255 with default 128, and the six digits read as three bytes. `None` stands for an
   * exception, which `HexToRgbaTotal` shows cannot occur.
   */
  function HexToRgba(hexColor: Option<string>, opacity: Input): Option<(int, int, int, int)> {
    var h := ValidateColorHex(hexColor, "#000000");
    var a := ValidateOpacity(opacity, DefaultOpacity);
    match HexToRgb(h)
    case None => None
    case Some(rgb) => Some((rgb.0, rgb.1, rgb.2, a))
  }

  /**
   * `hex_to_rgba` always answers, with four components in 0..255; a colour of neither
   * accepted form is black.
   */
  lemma HexToRgbaTotal(hexColor: Option<string>, opacity: Input)
    ensures var r := HexToRgba(hexColor, opacity);
      r.Some? && 0 <= r.value.0 < 256 && 0 <= r.value.1 < 256 && 0 <= r.value.2 < 256 && 0 <= r.value.3 < 256
      && r.value.3 == ValidateOpacity(opacity, DefaultOpacity)
      && (!AcceptedColor(hexColor) ==> r.value.0 == 0 && r.value.1 == 0 && r.value.2 == 0)
  {
    var h := ValidateColorHex(hexColor, "#000000");
    ValidateColorHexForm(hexColor, "#000000");
    RangedValidators(opacity, DefaultOpacity);
    if AcceptedColor(hexColor) {
      HexToRgbOfSixDigits(h);
      ChannelRange(h[1], h[2]);
      ChannelRange(h[3], h[4]);
      ChannelRange(h[5], h[6]);
    } else {
      assert h == "#000000";
      HexToRgbOfSixDigits(h);
    }
  }

  lemma ChannelRange(hi: char, lo: char)
    requires IsHexDigit(hi) && IsHexDigit(lo)
    ensures 0 <= PairValue(hi, lo) < 256
  {
  }
}
