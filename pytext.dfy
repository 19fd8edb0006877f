/**
 * The pieces of Python's text and number handling that the application relies on:
 * `str.strip()`, `int(str)`, `str(int)`, the `{:02d}` format and `int(float)`.
 */
module PyText {
  import opened Wrappers

  /** The characters for which Python's `str.isspace()` holds. */
  predicate IsSpace(c: char) {
    c == ' ' || ('\t' <= c <= '\r') || ('\U{1c}' <= c <= '\U{1f}')
    || c == '\U{85}' || c == '\U{a0}' || c == '\U{1680}'
    || ('\U{2000}' <= c <= '\U{200a}') || c == '\U{2028}' || c == '\U{2029}'
    || c == '\U{202f}' || c == '\U{205f}' || c == '\U{3000}'
  }

  /**
   * The two whitespace sets Python trims. `str.strip()` trims every `str.isspace()`
   * character. `int()` maps non-ASCII whitespace to a space and then skips only ASCII
   * whitespace, so it does not trim U+001C to U+001F, which `isspace()` includes.
   */
  datatype Blanks = StrBlanks | IntBlanks

  predicate IsBlank(c: char, blanks: Blanks) {
    IsSpace(c) && (blanks == IntBlanks ==> !('\U{1c}' <= c <= '\U{1f}'))
  }

  /** Number of blank characters at the front of `s`. */
  function LeadingSpace(s: string, blanks: Blanks): (n: nat)
    ensures n <= |s|
  {
    if s == [] || !IsBlank(s[0], blanks) then 0 else 1 + LeadingSpace(s[1..], blanks)
  }

  lemma {:induction false} LeadingSpaceIsMaximal(s: string, blanks: Blanks)
    ensures forall i :: 0 <= i < LeadingSpace(s, blanks) ==> IsBlank(s[i], blanks)
    ensures LeadingSpace(s, blanks) < |s| ==> !IsBlank(s[LeadingSpace(s, blanks)], blanks)
  {
    if s != [] && IsBlank(s[0], blanks) {
      LeadingSpaceIsMaximal(s[1..], blanks);
    }
  }

  /** Number of blank characters at the back of `s`. */
  function TrailingSpace(s: string, blanks: Blanks): (n: nat)
    ensures n <= |s|
  {
    if s == [] || !IsBlank(s[|s| - 1], blanks) then 0 else 1 + TrailingSpace(s[..|s| - 1], blanks)
  }

  lemma {:induction false} TrailingSpaceIsMaximal(s: string, blanks: Blanks)
    ensures forall i :: |s| - TrailingSpace(s, blanks) <= i < |s| ==> IsBlank(s[i], blanks)
    ensures TrailingSpace(s, blanks) < |s| ==> !IsBlank(s[|s| - 1 - TrailingSpace(s, blanks)], blanks)
  {
    if s != [] && IsBlank(s[|s| - 1], blanks) {
      TrailingSpaceIsMaximal(s[..|s| - 1], blanks);
    }
  }

  predicate IsTrimmed(s: string, blanks: Blanks) {
    s == [] || (!IsBlank(s[0], blanks) && !IsBlank(s[|s| - 1], blanks))
  }

  /** `s` without its leading and trailing blanks. */
  function Trim(s: string, blanks: Blanks): (r: string)
    ensures IsTrimmed(r, blanks)
    ensures |r| <= |s|
  {
    var t := s[LeadingSpace(s, blanks)..];
    LeadingSpaceIsMaximal(s, blanks);
    TrailingSpaceIsMaximal(t, blanks);
    t[..|t| - TrailingSpace(t, blanks)]
  }

  /** Text without outer blanks is its own trim. */
  lemma TrimmedIsFixpoint(s: string, blanks: Blanks)
    requires IsTrimmed(s, blanks)
    ensures Trim(s, blanks) == s
  {
    if s != [] {
      assert LeadingSpace(s, blanks) == 0;
      assert TrailingSpace(s, blanks) == 0;
    }
  }

  /** A string that `strip()` leaves as it is. */
  predicate IsStripped(s: string) {
    IsTrimmed(s, StrBlanks)
  }

  /** Python's `s.strip()` with no argument. */
  function Strip(s: string): (r: string)
    ensures IsStripped(r)
    ensures |r| <= |s|
  {
    Trim(s, StrBlanks)
  }

  /** A trim removes exactly a blank prefix and a blank suffix of its set, nothing else. */
  lemma TrimIsSlice(s: string, blanks: Blanks)
    ensures exists a, b ::
      && 0 <= a <= b <= |s| && Trim(s, blanks) == s[a..b]
      && (forall i :: 0 <= i < a ==> IsBlank(s[i], blanks))
      && (forall i :: b <= i < |s| ==> IsBlank(s[i], blanks))
  {
    var a := LeadingSpace(s, blanks);
    var t := s[a..];
    var b := a + |t| - TrailingSpace(t, blanks);
    LeadingSpaceIsMaximal(s, blanks);
    TrailingSpaceIsMaximal(t, blanks);
    assert Trim(s, blanks) == s[a..b];
    forall i | b <= i < |s| ensures IsBlank(s[i], blanks) {
      assert s[i] == t[i - a];
    }
  }

  /** `strip()` removes exactly a whitespace prefix and a whitespace suffix, nothing else. */
  lemma StripIsTrimmedSlice(s: string)
    ensures exists a, b ::
      && 0 <= a <= b <= |s| && Strip(s) == s[a..b]
      && (forall i :: 0 <= i < a ==> IsSpace(s[i]))
      && (forall i :: b <= i < |s| ==> IsSpace(s[i]))
  {
    TrimIsSlice(s, StrBlanks);
  }

  /** `strip()` gives the empty string exactly when the text is all whitespace. */
  lemma StripEmptyIffAllSpace(s: string)
    ensures Strip(s) == [] <==> forall i :: 0 <= i < |s| ==> IsSpace(s[i])
  {
    var a := LeadingSpace(s, StrBlanks);
    var t := s[a..];
    LeadingSpaceIsMaximal(s, StrBlanks);
    TrailingSpaceIsMaximal(t, StrBlanks);
    if a < |s| {
      assert !IsSpace(s[a]) && |Strip(s)| > 0 by {
        assert t[0] == s[a];
        assert TrailingSpace(t, StrBlanks) < |t|;
      }
    }
  }

  /** A string without outer whitespace is its own `strip()`. */
  lemma StrippedIsFixpoint(s: string)
    requires IsStripped(s)
    ensures Strip(s) == s
  {
    TrimmedIsFixpoint(s, StrBlanks);
  }

  /** Stripping twice is stripping once. */
  lemma StripIdempotent(s: string)
    ensures Strip(Strip(s)) == Strip(s)
  {
    StrippedIsFixpoint(Strip(s));
  }

  predicate IsDigit(c: char) {
    '0' <= c <= '9'
  }

  predicate AllDigits(s: string) {
    forall i :: 0 <= i < |s| ==> IsDigit(s[i])
  }

  function DigitChar(d: nat): (c: char)
    requires d < 10
    ensures IsDigit(c)
  {
    (d + '0' as int) as char
  }

  function DigitValue(c: char): (d: nat)
    requires IsDigit(c)
    ensures d < 10 && DigitChar(d) == c
  {
    c as int - '0' as int
  }

  /** The number a string of decimal digits denotes (leading zeros allowed). */
  function DigitsValue(s: string): nat
    requires AllDigits(s)
  {
    if s == [] then 0 else DigitsValue(s[..|s| - 1]) * 10 + DigitValue(s[|s| - 1])
  }

  /** Python's `str(n)` for `n >= 0`: the shortest decimal spelling. */
  function NatToString(n: nat): (s: string)
    ensures |s| >= 1 && AllDigits(s)
    ensures |s| > 1 ==> s[0] != '0'
    ensures |s| == 1 <==> n < 10
    ensures 10 <= n < 100 ==> |s| == 2
  {
    if n < 10 then [DigitChar(n)] else NatToString(n / 10) + [DigitChar(n % 10)]
  }

  /** Python's `str(n)`. */
  function IntToString(n: int): (s: string)
    ensures |s| >= 1
  {
    if n < 0 then "-" + NatToString(-n) else NatToString(n)
  }

  /** Python's `f"{n:02d}"`: zero-padded to width two; a minus sign counts toward the width. */
  function Format02(n: int): (s: string)
    ensures |s| >= 2
    ensures 0 <= n < 100 ==> |s| == 2
  {
    if 0 <= n < 10 then "0" + NatToString(n) else IntToString(n)
  }

  /** Python's `_` digit separators: single underscores between digits. */
  predicate ValidDigitGroup(s: string) {
    && |s| >= 1 && IsDigit(s[0]) && IsDigit(s[|s| - 1])
    && (forall i :: 0 <= i < |s| ==> IsDigit(s[i]) || s[i] == '_')
    && (forall i, j :: 0 <= i < |s| && j == i + 1 < |s| && s[i] == '_' ==> s[j] != '_')
  }

  function WithoutUnderscores(s: string): (r: string)
    requires forall i :: 0 <= i < |s| ==> IsDigit(s[i]) || s[i] == '_'
    ensures AllDigits(r)
  {
    if s == [] then []
    else if s[0] == '_' then WithoutUnderscores(s[1..])
    else [s[0]] + WithoutUnderscores(s[1..])
  }

  function ParseDigitGroup(s: string): Option<nat> {
    if ValidDigitGroup(s) then
      Some(DigitsValue(WithoutUnderscores(s)))
    else None
  }

  /**
   * Python's `int(s)` in base 10 on ASCII digits: surrounding `int()` blanks, an optional
   * sign and a digit group; `None` where Python raises `ValueError`.
   */
  function ParseInt(s: string): Option<int> {
    ParseSigned(Trim(s, IntBlanks))
  }

  /** `int()` after the blanks have been trimmed: an optional sign, then a digit group. */
  function ParseSigned(t: string): Option<int> {
    if |t| > 0 && (t[0] == '+' || t[0] == '-') then
      match ParseDigitGroup(t[1..])
      case None => None
      case Some(v) => Some(if t[0] == '-' then 0 - v else v)
    else
      match ParseDigitGroup(t)
      case None => None
      case Some(v) => Some(v)
  }

  /** Python's `int(x)` on a float: truncation toward zero. */
  function Trunc(x: real): (r: int)
    ensures x >= 0.0 ==> r >= 0 && r as real <= x < r as real + 1.0
    ensures x < 0.0 ==> r <= 0 && r as real - 1.0 < x <= r as real
  {
    if x >= 0.0 then x.Floor else -((-x).Floor)
  }

  lemma {:induction false} NatToStringValue(n: nat)
    ensures DigitsValue(NatToString(n)) == n
  {
    if n >= 10 {
      NatToStringValue(n / 10);
      var s := NatToString(n);
      assert s[..|s| - 1] == NatToString(n / 10);
    }
  }

  lemma {:induction false} LeadingZeroValue(s: string)
    requires AllDigits(s)
    ensures AllDigits("0" + s) && DigitsValue("0" + s) == DigitsValue(s)
  {
    if s != [] {
      LeadingZeroValue(s[..|s| - 1]);
      assert ("0" + s)[..|s|] == "0" + s[..|s| - 1];
    }
  }

  lemma {:induction false} DigitsHaveNoUnderscores(s: string)
    requires AllDigits(s)
    ensures WithoutUnderscores(s) == s
  {
    if s != [] {
      DigitsHaveNoUnderscores(s[1..]);
    }
  }

  lemma DigitGroupValue(d: string)
    requires |d| >= 1 && AllDigits(d)
    ensures ParseDigitGroup(d) == Some(DigitsValue(d))
  {
    DigitsHaveNoUnderscores(d);
  }

  /** `int()` of a string of ASCII digits is their decimal value, leading zeros included. */
  lemma ParseNatString(s: string)
    requires |s| >= 1 && AllDigits(s)
    ensures ParseInt(s) == Some(DigitsValue(s) as int)
  {
    assert IsDigit(s[0]) && IsDigit(s[|s| - 1]);
    TrimmedIsFixpoint(s, IntBlanks);
    DigitGroupValue(s);
  }

  lemma ParseSignedNegative(t: string)
    requires |t| >= 2 && t[0] == '-' && AllDigits(t[1..])
    ensures ParseSigned(t) == Some(0 - DigitsValue(t[1..]))
  {
    DigitGroupValue(t[1..]);
  }

  lemma ParseNegative(s: string)
    requires |s| >= 2 && s[0] == '-' && AllDigits(s[1..])
    ensures ParseInt(s) == Some(0 - DigitsValue(s[1..]))
  {
    assert IsDigit(s[1..][|s| - 2]);
    TrimmedIsFixpoint(s, IntBlanks);
    ParseSignedNegative(s);
  }

  /**
   * `int()` does not skip U+001C to U+001F the way `strip()` does: `"\x1c5".strip()` is
   * `"5"`, yet `int("\x1c5")` raises `ValueError`.
   */
  lemma IntRejectsSeparatorBlank(digits: string)
    requires |digits| >= 1 && AllDigits(digits)
    ensures Strip("\U{1c}" + digits) == digits
    ensures ParseInt("\U{1c}" + digits) == None
  {
    var s := "\U{1c}" + digits;
    assert IsDigit(digits[|digits| - 1]);
    assert LeadingSpace(s, StrBlanks) == 1 by {
      assert s[1..] == digits;
      assert LeadingSpace(digits, StrBlanks) == 0;
    }
    assert s[1..] == digits;
    TrimmedIsFixpoint(digits, StrBlanks);
    TrimmedIsFixpoint(s, IntBlanks);
    assert !IsDigit(s[0]);
  }

  /** `int(str(n)) == n`: printing an integer and parsing it back gives the integer. */
  lemma IntToStringRoundTrip(n: int)
    ensures ParseInt(IntToString(n)) == Some(n)
  {
    if n < 0 {
      NegativeRoundTrip(n, IntToString(n));
    } else {
      var d := NatToString(n);
      NatToStringValue(n);
      ParseNatString(d);
    }
  }

  lemma NegativeRoundTrip(n: int, s: string)
    requires n < 0 && s == "-" + NatToString(-n)
    ensures ParseInt(s) == Some(n)
  {
    var d := NatToString(-n);
    assert DigitsValue(d) == -n by { NatToStringValue(-n); }
    assert s[1..] == d;
    ParseNegative(s);
  }

  /** `int(f"{n:02d}") == n`. */
  lemma Format02RoundTrip(n: int)
    ensures ParseInt(Format02(n)) == Some(n)
  {
    if 0 <= n < 10 {
      NatToStringValue(n);
      LeadingZeroValue(NatToString(n));
      ParseNatString("0" + NatToString(n));
    } else {
      IntToStringRoundTrip(n);
    }
  }

  lemma NoColonInDigits(s: string)
    requires AllDigits(s)
    ensures ':' !in s
  {
    forall i | 0 <= i < |s| ensures s[i] != ':' {
      assert IsDigit(s[i]);
    }
  }

  /** No `{:02d}` rendering contains the `:` that separates minutes from seconds. */
  lemma NoColonInFormat02(n: int)
    ensures ':' !in Format02(n)
  {
    if 0 <= n < 10 {
      assert AllDigits("0" + NatToString(n));
      NoColonInDigits("0" + NatToString(n));
    } else if n < 0 {
      NoColonInDigits(NatToString(-n));
    } else {
      NoColonInDigits(NatToString(n));
    }
  }

  lemma NoColonInIntToString(n: int)
    ensures ':' !in IntToString(n)
  {
    if n < 0 {
      NoColonInDigits(NatToString(-n));
    } else {
      NoColonInDigits(NatToString(n));
    }
  }
}
