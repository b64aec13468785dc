/**
 * The Python string operations the tool relies on, over `string`
 * (a sequence of Unicode scalar values): `strip`, `upper`/`lower`,
 * `split`, slicing with clamped bounds, `int(s, base)` and the decimal and
 * hexadecimal formatting of `str(n)` and `f"{n:02X}"`.
 */
module Strings {
  import opened Wrappers

  /** Python's `str.isspace`: the characters `str.strip()` and `int()` skip. */
  predicate IsSpace(c: char) {
    if c <= ' ' then '\t' <= c <= '\r' || '\U{1C}' <= c
    else if c < '\U{85}' then false
    else (c == '\U{85}' || c == '\U{A0}' || c == '\U{1680}' || ('\U{2000}' <= c <= '\U{200A}')
          || c == '\U{2028}' || c == '\U{2029}' || c == '\U{202F}' || c == '\U{205F}' || c == '\U{3000}')
  }

  /** `s.lstrip(chars)`, the characters to remove given as a predicate. */
  function LStrip(s: string, drop: char -> bool): string
    decreases |s|
  {
    if s != [] && drop(s[0]) then LStrip(s[1..], drop) else s
  }

  /** What `lstrip` removes is a prefix of dropped characters, and what is left does not start with one. */
  lemma {:induction false} LStripFacts(s: string, drop: char -> bool)
    ensures var r := LStrip(s, drop);
      |r| <= |s| && r == s[|s| - |r|..] && (r == [] || !drop(r[0]))
      && forall i :: 0 <= i < |s| - |r| ==> drop(s[i])
    decreases |s|
  {
    if s != [] && drop(s[0]) {
      LStripFacts(s[1..], drop);
    }
  }

  /** Stripping stops at the first character that is kept. */
  lemma LStripOne(s: string, drop: char -> bool)
    requires |s| >= 2 && drop(s[0]) && !drop(s[1])
    ensures LStrip(s, drop) == s[1..]
  {
    assert LStrip(s, drop) == LStrip(s[1..], drop);
  }

  /** `s.rstrip(chars)`, the characters to remove given as a predicate. */
  function RStrip(s: string, drop: char -> bool): string
    decreases |s|
  {
    if s != [] && drop(s[|s| - 1]) then RStrip(s[..|s| - 1], drop) else s
  }

  /** What `rstrip` removes is a suffix of dropped characters, and what is left does not end with one. */
  lemma {:induction false} RStripFacts(s: string, drop: char -> bool)
    ensures var r := RStrip(s, drop);
      |r| <= |s| && r == s[..|r|] && (r == [] || !drop(r[|r| - 1]))
      && forall i :: |r| <= i < |s| ==> drop(s[i])
    decreases |s|
  {
    if s != [] && drop(s[|s| - 1]) {
      RStripFacts(s[..|s| - 1], drop);
    }
  }

  /** `s.strip(chars)`: both ends. */
  function StripBy(s: string, drop: char -> bool): string {
    RStrip(LStrip(s, drop), drop)
  }

  /** `strip` leaves a part of the string that neither starts nor ends with a dropped character. */
  lemma StripByFacts(s: string, drop: char -> bool)
    ensures var r := StripBy(s, drop);
      (r == [] || (!drop(r[0]) && !drop(r[|r| - 1])))
      && |r| <= |s| && forall i :: 0 <= i < |r| ==> r[i] in s
  {
    var l := LStrip(s, drop);
    var r := RStrip(l, drop);
    LStripFacts(s, drop);
    RStripFacts(l, drop);
    assert forall i :: 0 <= i < |r| ==> r[i] == s[|s| - |l| + i];
  }

  /** `strip` keeps one contiguous piece of the string; everything outside it is dropped. */
  lemma StripByWindow(s: string, drop: char -> bool) returns (a: nat, b: nat)
    ensures a <= b <= |s| && StripBy(s, drop) == s[a..b]
    ensures forall i :: 0 <= i < |s| && (i < a || b <= i) ==> drop(s[i])
  {
    var l := LStrip(s, drop);
    var r := RStrip(l, drop);
    LStripFacts(s, drop);
    RStripFacts(l, drop);
    a := |s| - |l|;
    b := a + |r|;
    assert forall i :: b <= i < |s| ==> s[i] == l[i - a];
  }

  /** `s.strip()` with Python's default whitespace. */
  function Strip(s: string): string {
    StripBy(s, IsSpace)
  }

  /** A string that starts and ends with a character `drop` keeps is its own strip. */
  lemma StripByKeeps(s: string, drop: char -> bool)
    requires s == [] || (!drop(s[0]) && !drop(s[|s| - 1]))
    ensures StripBy(s, drop) == s
  {
  }

  predicate StartsWith(s: string, prefix: string) {
    |prefix| <= |s| && s[..|prefix|] == prefix
  }

  predicate EndsWith(s: string, suffix: string) {
    |suffix| <= |s| && s[|s| - |suffix|..] == suffix
  }

  /** Python's `str.upper()` on ASCII letters; other characters are kept. */
  function UpperChar(c: char): char {
    if 'a' <= c <= 'z' then (c as int - 32) as char else c
  }

  /** Python's `str.lower()` on ASCII letters; other characters are kept. */
  function LowerChar(c: char): char {
    if 'A' <= c <= 'Z' then (c as int + 32) as char else c
  }

  function Upper(s: string): (r: string)
    ensures |r| == |s| && forall i :: 0 <= i < |s| ==> r[i] == UpperChar(s[i])
  {
    seq(|s|, i requires 0 <= i < |s| => UpperChar(s[i]))
  }

  function Lower(s: string): (r: string)
    ensures |r| == |s| && forall i :: 0 <= i < |s| ==> r[i] == LowerChar(s[i])
  {
    seq(|s|, i requires 0 <= i < |s| => LowerChar(s[i]))
  }

  /** `s.replace(from, to)` for one-character `from` and `to`. */
  function ReplaceChar(s: string, from: char, to: char): (r: string)
    ensures |r| == |s|
    ensures forall i :: 0 <= i < |s| ==> r[i] == (if s[i] == from then to else s[i])
  {
    seq(|s|, i requires 0 <= i < |s| => if s[i] == from then to else s[i])
  }

  /** Python's `s[i:j]` for non-negative `i` and `j`: out-of-range bounds are clamped. */
  function Slice(s: string, i: nat, j: nat): (r: string)
    ensures |r| <= |s|
  {
    var lo := if i < |s| then i else |s|;
    var hi := if j < |s| then j else |s|;
    if hi <= lo then [] else s[lo..hi]
  }

  /** `s[i:i+2]` inside the string is the two characters there. */
  lemma SliceTwo(s: string, i: nat)
    requires i + 2 <= |s|
    ensures |Slice(s, i, i + 2)| == 2 && Slice(s, i, i + 2)[0] == s[i] && Slice(s, i, i + 2)[1] == s[i + 1]
  {
  }

  /** `s.split(sep)` for a one-character separator: always at least one part. */
  function Split(s: string, sep: char): (parts: seq<string>)
    ensures |parts| >= 1
    decreases |s|
  {
    if s == [] then [[]]
    else
      var rest := Split(s[1..], sep);
      if s[0] == sep then [[]] + rest else [[s[0]] + rest[0]] + rest[1..]
  }

  // ---------------------------------------------------------------------
  // Digits, formatting and parsing.

  /** The value of a digit character in bases up to 36, or 99 for a non-digit. */
  function DigitValue(c: char): nat {
    if '0' <= c <= '9' then c as nat - '0' as nat
    else if 'a' <= c <= 'z' then c as nat - 'a' as nat + 10
    else if 'A' <= c <= 'Z' then c as nat - 'A' as nat + 10
    else 99
  }

  /** The upper-case digit character Python's `%X` and `str` formatting emit. */
  function DigitChar(d: nat): (c: char)
    requires d < 16
    ensures DigitValue(c) == d && c != '_' && !IsSpace(c) && c != 'x' && c != 'X'
  {
    "0123456789ABCDEF"[d]
  }

  /** The digits of `n` in `base`, most significant first, without leading zeros. */
  function NatToDigits(n: nat, base: nat): (s: string)
    requires 2 <= base <= 16
    ensures |s| >= 1
    ensures forall i :: 0 <= i < |s| ==> DigitValue(s[i]) < base
    decreases n
  {
    if n < base then [DigitChar(n)] else NatToDigits(n / base, base) + [DigitChar(n % base)]
  }

  /** `str(n)` for a non-negative integer. */
  function Decimal(n: nat): string {
    NatToDigits(n, 10)
  }

  /** `str(i)` for any integer. */
  function IntToDecimal(i: int): string {
    if i < 0 then "-" + Decimal(-i) else Decimal(i)
  }

  /**
   * `f"{n:02X}"`: upper-case hexadecimal padded with zeros to width two;
   * the sign of a negative number counts towards the width.
   */
  function Hex02(n: int): string {
    if n < 0 then "-" + NatToDigits(-n, 16)
    else if n < 16 then "0" + NatToDigits(n, 16)
    else NatToDigits(n, 16)
  }

  /** A run of `base` digits in which single underscores may separate digits. */
  predicate DigitRun(s: string, base: nat) {
    |s| > 0 && DigitValue(s[0]) < base && DigitValue(s[|s| - 1]) < base && RunChars(s, base)
  }

  /** Every character is a digit or an underscore, and no two underscores are adjacent. */
  predicate RunChars(s: string, base: nat)
    decreases |s|
  {
    s == []
    || ((s[|s| - 1] == '_' || DigitValue(s[|s| - 1]) < base)
        && !(|s| >= 2 && s[|s| - 1] == '_' && s[|s| - 2] == '_')
        && RunChars(s[..|s| - 1], base))
  }

  /** A string of digits alone is a run. */
  lemma {:induction false} DigitsAreRun(s: string, base: nat)
    requires base <= 36
    requires forall i :: 0 <= i < |s| ==> DigitValue(s[i]) < base
    ensures RunChars(s, base)
    decreases |s|
  {
    if s != [] {
      DigitsAreRun(s[..|s| - 1], base);
      assert DigitValue(s[|s| - 1]) < base;
    }
  }

  /** The value of a digit run, underscores skipped. */
  function RunValue(s: string, base: nat): nat
    decreases |s|
  {
    if s == [] then 0
    else if s[|s| - 1] == '_' then RunValue(s[..|s| - 1], base)
    else RunValue(s[..|s| - 1], base) * base + DigitValue(s[|s| - 1])
  }

  /**
   * Python's `int(s, base)` for base 10 or 16: surrounding whitespace, an
   * optional sign, for base 16 an optional `0x`/`0X` prefix (which may be
   * followed by one underscore), then digits with single underscores between
   * them. `None` stands for the `ValueError` Python raises.
   */
  function ParseInt(s: string, base: nat): (r: Option<int>)
    requires base == 10 || base == 16
    decreases |s|
  {
    if |s| > 0 && IsSpace(s[0]) then ParseInt(s[1..], base)
    else if |s| > 0 && IsSpace(s[|s| - 1]) then ParseInt(s[..|s| - 1], base)
    else ParseSigned(s, base)
  }

  /** An optional sign, then an unsigned number. */
  function ParseSigned(t: string, base: nat): Option<int>
    requires base == 10 || base == 16
  {
    var signed := |t| > 0 && (t[0] == '-' || t[0] == '+');
    var magnitude := ParseRun(DropPrefix(if signed then t[1..] else t, base), base);
    if magnitude.Some? && signed && t[0] == '-' then Some(-magnitude.value) else magnitude
  }

  /** For base 16, a `0x`/`0X` prefix and one underscore after it are skipped. */
  function DropPrefix(u: string, base: nat): string {
    if base == 16 && |u| >= 2 && u[0] == '0' && (u[1] == 'x' || u[1] == 'X') then
      (if |u| > 2 && u[2] == '_' then u[3..] else u[2..])
    else u
  }

  function ParseRun(v: string, base: nat): Option<int> {
    if DigitRun(v, base) then Some(RunValue(v, base)) else None
  }

  /** Appending one digit multiplies the value so far by the base. */
  lemma RunValueSnoc(s: string, c: char, base: nat)
    requires c != '_'
    ensures RunValue(s + [c], base) == RunValue(s, base) * base + DigitValue(c)
  {
    assert (s + [c])[..|s + [c]| - 1] == s;
  }

  /** Reading back the digits of `n` gives `n`. */
  lemma {:induction false} DigitsRoundTrip(n: nat, base: nat)
    requires 2 <= base <= 16
    ensures RunValue(NatToDigits(n, base), base) == n
    decreases n
  {
    if n < base {
      var c := DigitChar(n);
      assert NatToDigits(n, base) == [c];
      RunValueSnoc([], c, base);
      assert [] + [c] == [c];
    } else {
      DigitsRoundTrip(n / base, base);
      DigitsStep(n, base);
    }
  }

  /** The inductive step: the last digit of `n` is `n % base` and the rest spell `n / base`. */
  lemma DigitsStep(n: nat, base: nat)
    requires 2 <= base <= 16 && base <= n
    requires RunValue(NatToDigits(n / base, base), base) == n / base
    ensures RunValue(NatToDigits(n, base), base) == n
  {
    var q, d := n / base, n % base;
    var prefix := NatToDigits(q, base);
    RunValueSnoc(prefix, DigitChar(d), base);
    assert NatToDigits(n, base) == prefix + [DigitChar(d)];
    DivMod(n, base);
  }

  lemma DivMod(n: nat, base: nat)
    requires 2 <= base
    ensures (n / base) * base + n % base == n
  {
  }

  /** Distinct numbers have distinct decimal forms. */
  lemma DecimalInjective(a: nat, b: nat)
    requires Decimal(a) == Decimal(b)
    ensures a == b
  {
    DigitsRoundTrip(a, 10);
    DigitsRoundTrip(b, 10);
  }

  /** A byte formats as exactly two upper-case hexadecimal digits, high nibble first. */
  lemma Hex02Byte(n: nat)
    requires n < 256
    ensures Hex02(n) == [DigitChar(n / 16), DigitChar(n % 16)]
  {
    if n >= 16 {
      assert NatToDigits(n, 16) == NatToDigits(n / 16, 16) + [DigitChar(n % 16)];
      assert NatToDigits(n / 16, 16) == [DigitChar(n / 16)];
    }
  }

  /** A bare digit run, with no whitespace, sign or prefix, parses as its value. */
  lemma ParseDigitRun(s: string, base: nat)
    requires base == 10 || base == 16
    requires DigitRun(s, base) && !IsSpace(s[0]) && !IsSpace(s[|s| - 1])
    requires |s| >= 2 ==> s[1] != 'x' && s[1] != 'X'
    ensures ParseInt(s, base) == Some(RunValue(s, base))
  {
    StripByKeeps(s, IsSpace);
    assert Strip(s) == s;
    assert s[0] != '-' && s[0] != '+';
    assert DropPrefix(s, base) == s;
    assert ParseSigned(s, base) == ParseRun(s, base);
  }

  /** A hexadecimal digit is neither whitespace nor a sign, an underscore or the prefix letter. */
  lemma HexDigitPlain(c: char)
    requires DigitValue(c) < 16
    ensures !IsSpace(c) && c != '_' && c != '-' && c != '+' && c != 'x' && c != 'X' && c != '#'
  {
  }

  /** Two hexadecimal digit characters parse as a byte, high digit first. */
  lemma ParseHexPair(s: string)
    requires |s| == 2 && DigitValue(s[0]) < 16 && DigitValue(s[1]) < 16
    ensures ParseInt(s, 16) == Some(DigitValue(s[0]) * 16 + DigitValue(s[1]))
  {
    HexDigitPlain(s[0]);
    HexDigitPlain(s[1]);
    DigitsAreRun(s, 16);
    RunValueSnoc([], s[0], 16);
    assert [] + [s[0]] == s[..1];
    RunValueSnoc(s[..1], s[1], 16);
    assert s[..1] + [s[1]] == s;
    ParseDigitRun(s, 16);
  }

  /** `int(f"{n:02X}", 16) == n` for every byte. */
  lemma Hex02RoundTrip(n: nat)
    requires n < 256
    ensures ParseInt(Hex02(n), 16) == Some(n)
  {
    Hex02Byte(n);
    ParseHexPair(Hex02(n));
    DivMod(n, 16);
  }
}
