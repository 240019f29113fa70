/**
 * The solver's time-limit parser: "2000ms" and "2s" become an absolute
 * deadline in milliseconds after the start time; null, blank or unparseable
 * text means no deadline, encoded as 0. Arithmetic is on Java's 64-bit
 * `long`, so sums and the seconds-to-milliseconds product wrap around.
 */
module Deadline {
  import opened Options

  const LongMin: int := -0x8000_0000_0000_0000
  const LongMax: int := 0x7FFF_FFFF_FFFF_FFFF

  predicate IsLong(x: int) { LongMin <= x <= LongMax }

  /** Two's-complement wrap-around of an exact result into a `long`. */
  function Wrap64(x: int): (w: int)
    ensures IsLong(w)
    ensures IsLong(x) ==> w == x
  {
    (x - LongMin) % 0x1_0000_0000_0000_0000 + LongMin
  }

  /** Wrapping changes a value by a multiple of 2^64. */
  lemma Wrap64Congruent(x: int)
    ensures (Wrap64(x) - x) % 0x1_0000_0000_0000_0000 == 0
  {
  }

  /** `Character.isWhitespace`. */
  predicate IsWhitespace(ch: char) {
    || ('\U{0009}' <= ch <= '\U{000D}') || ('\U{001C}' <= ch <= '\U{0020}')
    || ch == '\U{1680}' || ('\U{2000}' <= ch <= '\U{2006}') || ('\U{2008}' <= ch <= '\U{200A}')
    || ch == '\U{2028}' || ch == '\U{2029}' || ch == '\U{205F}' || ch == '\U{3000}'
  }

  /** `String.isBlank`: empty or whitespace only. */
  predicate IsBlank(s: string) {
    forall i :: 0 <= i < |s| ==> IsWhitespace(s[i])
  }

  function TrimStart(s: string): (t: string)
    ensures |t| <= |s|
    ensures t == [] || t[0] > ' '
  {
    if s != [] && s[0] <= ' ' then TrimStart(s[1..]) else s
  }

  function TrimEnd(s: string): (t: string)
    ensures |t| <= |s|
    ensures t == [] || t[|t| - 1] > ' '
  {
    if s != [] && s[|s| - 1] <= ' ' then TrimEnd(s[..|s| - 1]) else s
  }

  /** `String.trim`: drop leading and trailing characters up to U+0020. */
  function Trim(s: string): string {
    TrimEnd(TrimStart(s))
  }

  function LowerChar(ch: char): char {
    if 'A' <= ch <= 'Z' then (ch as int + 32) as char else ch
  }

  /** `String.toLowerCase(Locale.ROOT)` on ASCII letters. */
  function ToLower(s: string): (t: string)
    ensures |t| == |s| && forall i :: 0 <= i < |s| ==> t[i] == LowerChar(s[i])
  {
    if s == [] then [] else [LowerChar(s[0])] + ToLower(s[1..])
  }

  predicate EndsWith(s: string, suffix: string) {
    |suffix| <= |s| && s[|s| - |suffix|..] == suffix
  }

  predicate IsDigit(ch: char) { '0' <= ch <= '9' }

  predicate AllDigits(s: string) {
    forall i :: 0 <= i < |s| ==> IsDigit(s[i])
  }

  /** The value of a string of decimal digits. */
  function DigitsValue(s: string): (v: nat)
    requires AllDigits(s)
  {
    if s == [] then 0 else DigitsValue(s[..|s| - 1]) * 10 + (s[|s| - 1] as int - '0' as int)
  }

  /** `Long.parseLong`: optional sign, at least one digit, value within `long`; None where Java throws. */
  function ParseLong(s: string): (r: Option<int>)
    ensures r.Some? ==> IsLong(r.value)
  {
    var neg := |s| > 0 && s[0] == '-';
    var digits := if |s| > 0 && (s[0] == '-' || s[0] == '+') then s[1..] else s;
    if digits == [] || !AllDigits(digits) then None
    else
      var v := if neg then -(DigitsValue(digits) as int) else DigitsValue(digits) as int;
      if IsLong(v) then Some(v) else None
  }

  /**
   * `computeDeadline(startMs, timeLimit)`: "<n>ms" gives start + n, "<n>s"
   * gives start + n * 1000, anything else 0 (no deadline). The "ms" form is
   * tried first; when its number does not parse the result is 0 without
   * trying the "s" form.
   */
  function ComputeDeadline(startMs: int, timeLimit: Option<string>): (deadline: int)
    requires IsLong(startMs)
    ensures IsLong(deadline)
    ensures timeLimit.None? ==> deadline == 0
  {
    if timeLimit.None? || IsBlank(timeLimit.value) then 0
    else DeadlineOf(startMs, ToLower(Trim(timeLimit.value)))
  }

  /** The deadline given by trimmed, lower-cased, non-blank text `s`. */
  function DeadlineOf(startMs: int, s: string): (deadline: int)
    requires IsLong(startMs)
    ensures IsLong(deadline)
  {
    if EndsWith(s, "ms") then
      match ParseLong(s[..|s| - 2])
      case Some(ms) => Wrap64(startMs + ms)
      case None => 0
    else if EndsWith(s, "s") then
      match ParseLong(s[..|s| - 1])
      case Some(sec) => Wrap64(startMs + Wrap64(sec * 1000))
      case None => 0
    else 0
  }

  // ---------------------------------------------------------------------
  // Decimal rendering, and what the parser does with it
  // ---------------------------------------------------------------------

  function DigitChar(d: int): char
    requires 0 <= d < 10
  {
    ('0' as int + d) as char
  }

  /** The decimal digits of `n`, no sign, no leading zeros. */
  function Decimal(n: nat): (s: string)
    ensures |s| > 0 && AllDigits(s)
  {
    if n < 10 then [DigitChar(n)] else Decimal(n / 10) + [DigitChar(n % 10)]
  }

  lemma {:induction false} DecimalValue(n: nat)
    ensures DigitsValue(Decimal(n)) == n
  {
    if n >= 10 {
      var s := Decimal(n);
      assert s[..|s| - 1] == Decimal(n / 10);
      DecimalValue(n / 10);
    }
  }

  /** Parsing a rendered `long` gives it back. */
  lemma ParseDecimal(n: nat)
    requires n <= LongMax
    ensures ParseLong(Decimal(n)) == Some(n)
  {
    DecimalValue(n);
  }

  lemma TrimPrintable(t: string)
    requires t != [] && t[0] > ' ' && t[|t| - 1] > ' '
    ensures Trim(t) == t
  {
    assert TrimStart(t) == t;
  }

  lemma ToLowerUnchanged(t: string)
    requires forall i :: 0 <= i < |t| ==> !('A' <= t[i] <= 'Z')
    ensures ToLower(t) == t
  {
  }

  lemma RenderedTrimmed(n: nat, unit: string)
    requires unit == "ms" || unit == "s"
    ensures Trim(Decimal(n) + unit) == Decimal(n) + unit
  {
    var d := Decimal(n);
    var t := d + unit;
    assert t[0] == d[0] && IsDigit(d[0]);
    assert t[|t| - 1] == 's';
    TrimPrintable(t);
  }

  lemma RenderedNotBlank(n: nat, unit: string)
    requires unit == "ms" || unit == "s"
    ensures !IsBlank(Decimal(n) + unit)
  {
    var t := Decimal(n) + unit;
    assert t[|t| - 1] == 's';
    assert !IsWhitespace(t[|t| - 1]);
  }

  lemma RenderedLowerCase(n: nat, unit: string)
    requires unit == "ms" || unit == "s"
    ensures ToLower(Decimal(n) + unit) == Decimal(n) + unit
  {
    var d := Decimal(n);
    var t := d + unit;
    forall i | 0 <= i < |t| ensures !('A' <= t[i] <= 'Z') {
      if i < |d| { assert t[i] == d[i]; } else { assert t[i] == unit[i - |d|]; }
    }
    ToLowerUnchanged(t);
  }

  /** A rendered number followed by a lower-case unit is left as it is by trimming and lower-casing. */
  lemma NormalizeRendered(n: nat, unit: string)
    requires unit == "ms" || unit == "s"
    ensures !IsBlank(Decimal(n) + unit)
    ensures ToLower(Trim(Decimal(n) + unit)) == Decimal(n) + unit
  {
    var t := Decimal(n) + unit;
    RenderedNotBlank(n, unit);
    RenderedTrimmed(n, unit);
    assert Trim(t) == t;
    RenderedLowerCase(n, unit);
    assert ToLower(t) == t;
  }

  /**
   * "<n>ms" is the deadline n milliseconds after the start (wrapping as a
   * `long`), for any text that trims and lower-cases to it; NormalizeRendered
   * and ParseDecimal show that the rendering of a number qualifies.
   */
  lemma MillisecondsDeadline(startMs: int, text: string, digits: string, n: int)
    requires IsLong(startMs) && !IsBlank(text) && ToLower(Trim(text)) == digits + "ms"
    requires ParseLong(digits) == Some(n)
    ensures ComputeDeadline(startMs, Some(text)) == Wrap64(startMs + n)
  {
    MillisecondsForm(startMs, digits);
  }

  /** Without overflow, "<n>ms" is exactly n milliseconds after the start. */
  lemma MillisecondsDeadlineExact(startMs: int, text: string, digits: string, n: int)
    requires IsLong(startMs) && !IsBlank(text) && ToLower(Trim(text)) == digits + "ms"
    requires ParseLong(digits) == Some(n) && IsLong(startMs + n)
    ensures ComputeDeadline(startMs, Some(text)) == startMs + n
  {
    MillisecondsDeadline(startMs, text, digits, n);
  }

  /** "<digits>ms" is read as a number of milliseconds. */
  lemma MillisecondsForm(startMs: int, digits: string)
    requires IsLong(startMs)
    ensures DeadlineOf(startMs, digits + "ms") ==
      match ParseLong(digits) case Some(ms) => Wrap64(startMs + ms) case None => 0
  {
    var s := digits + "ms";
    assert EndsWith(s, "ms") by { assert s[|s| - 2..] == "ms"; }
    assert s[..|s| - 2] == digits;
  }

  /**
   * "<n>s" is the deadline n seconds after the start (wrapping as a `long`),
   * for any text that trims and lower-cases to it.
   */
  lemma SecondsDeadline(startMs: int, text: string, digits: string, n: int)
    requires IsLong(startMs) && !IsBlank(text) && ToLower(Trim(text)) == digits + "s"
    requires digits != [] && IsDigit(digits[|digits| - 1]) && ParseLong(digits) == Some(n)
    ensures ComputeDeadline(startMs, Some(text)) == Wrap64(startMs + Wrap64(n * 1000))
  {
    SecondsForm(startMs, digits);
    assert ComputeDeadline(startMs, Some(text)) == DeadlineOf(startMs, digits + "s");
  }

  /** Without overflow, "<n>s" is exactly n * 1000 milliseconds after the start. */
  lemma SecondsDeadlineExact(startMs: int, text: string, digits: string, n: int)
    requires IsLong(startMs) && !IsBlank(text) && ToLower(Trim(text)) == digits + "s"
    requires digits != [] && IsDigit(digits[|digits| - 1]) && ParseLong(digits) == Some(n)
    requires IsLong(n * 1000) && IsLong(startMs + n * 1000)
    ensures ComputeDeadline(startMs, Some(text)) == startMs + n * 1000
  {
    SecondsDeadline(startMs, text, digits, n);
  }

  /** "<digits>s", the digits ending in a digit, is read as a number of seconds. */
  lemma SecondsForm(startMs: int, digits: string)
    requires IsLong(startMs) && digits != [] && IsDigit(digits[|digits| - 1])
    ensures DeadlineOf(startMs, digits + "s") ==
      match ParseLong(digits) case Some(sec) => Wrap64(startMs + Wrap64(sec * 1000)) case None => 0
  {
    var s := digits + "s";
    assert !EndsWith(s, "ms") by { assert s[|s| - 2] == digits[|digits| - 1]; }
    assert EndsWith(s, "s") by { assert s[|s| - 1..] == "s"; }
    assert s[..|s| - 1] == digits;
  }

  lemma MillisecondsSuffix(s: string)
    ensures EndsWith(s, "ms") ==> EndsWith(s, "s")
  {
    if EndsWith(s, "ms") {
      assert s[|s| - 1..] == s[|s| - 2..][1..];
    }
  }

  /** Blank text, or text that does not end in "s" after trimming and lower-casing, means no deadline. */
  lemma NoDeadline(startMs: int, text: string)
    requires IsLong(startMs)
    requires IsBlank(text) || !EndsWith(ToLower(Trim(text)), "s")
    ensures ComputeDeadline(startMs, Some(text)) == 0
  {
    MillisecondsSuffix(ToLower(Trim(text)));
  }

  /** An "s" suffix, not "ms", whose number does not parse means no deadline. */
  lemma UnparseableSeconds(startMs: int, text: string)
    requires IsLong(startMs) && !IsBlank(text)
    requires var s := ToLower(Trim(text)); !EndsWith(s, "ms") && EndsWith(s, "s") && ParseLong(s[..|s| - 1]).None?
    ensures ComputeDeadline(startMs, Some(text)) == 0
  {
  }

  /** An "ms" suffix whose number does not parse means no deadline: the "s" form is not tried. */
  lemma UnparseableMilliseconds(startMs: int, text: string)
    requires IsLong(startMs) && !IsBlank(text)
    requires var s := ToLower(Trim(text)); EndsWith(s, "ms") && ParseLong(s[..|s| - 2]).None?
    ensures ComputeDeadline(startMs, Some(text)) == 0
  {
  }
}
