/**
 * The two textual coercions the comparison layer tries on attribute values:
 * a time of day in the layout `15:04:05` and a base-10 integer. Each parser
 * comes with the formatter it inverts, and a lemma proves that no string is
 * read both ways.
 */
module Parsing {

  datatype Option<+T> = None | Some(value: T)

  const SecondsPerDay: nat := 86400

  predicate IsDigit(c: char) {
    '0' <= c <= '9'
  }

  predicate AllDigits(s: string) {
    forall i :: 0 <= i < |s| ==> IsDigit(s[i])
  }

  function DigitValue(c: char): (d: nat)
    requires IsDigit(c)
    ensures d < 10
  {
    c as int - '0' as int
  }

  function DigitChar(d: nat): (c: char)
    requires d < 10
    ensures IsDigit(c) && DigitValue(c) == d
  {
    ('0' as int + d) as char
  }

  /** The value of a string of decimal digits, most significant digit first. */
  function DigitsValue(s: string): nat
    requires AllDigits(s)
  {
    if |s| == 0 then 0 else 10 * DigitsValue(s[..|s| - 1]) + DigitValue(s[|s| - 1])
  }

  // ---------------------------------------------------------------------------
  // Time of day

  /** `DD:DD:DD`: eight characters, colons at 2 and 5, digits elsewhere. */
  predicate IsClockShape(s: string) {
    |s| == 8 && s[2] == ':' && s[5] == ':' &&
    IsDigit(s[0]) && IsDigit(s[1]) && IsDigit(s[3]) &&
    IsDigit(s[4]) && IsDigit(s[6]) && IsDigit(s[7])
  }

  /** The two-digit field starting at index i. */
  function Field(s: string, i: nat): (n: nat)
    requires i + 1 < |s| && IsDigit(s[i]) && IsDigit(s[i + 1])
    ensures n < 100
  {
    10 * DigitValue(s[i]) + DigitValue(s[i + 1])
  }

  /**
   * Reads s as a time of day with hour 0-23, minute and second 0-59 and
   * yields the seconds since midnight, so that comparing two results
   * compares the two times chronologically.
   */
  function ParseTime(s: string): (r: Option<nat>)
    ensures r.Some? ==> IsClockShape(s) && r.value < SecondsPerDay
  {
    if IsClockShape(s) then
      var hour, minute, second := Field(s, 0), Field(s, 3), Field(s, 6);
      if hour < 24 && minute < 60 && second < 60 then
        Some(3600 * hour + 60 * minute + second)
      else
        None
    else
      None
  }

  /** Two decimal digits, with a leading zero below ten. */
  function Pad2(n: nat): (s: string)
    requires n < 100
    ensures |s| == 2 && IsDigit(s[0]) && IsDigit(s[1]) && Field(s, 0) == n
  {
    [DigitChar(n / 10), DigitChar(n % 10)]
  }

  /** The `HH:MM:SS` spelling of a number of seconds since midnight. */
  function FormatTime(t: nat): (s: string)
    requires t < SecondsPerDay
    ensures IsClockShape(s)
  {
    Pad2(t / 3600) + ":" + Pad2(t / 60 % 60) + ":" + Pad2(t % 60)
  }

  /** Every time of day is read back from its spelling. */
  lemma TimeRoundTrip(t: nat)
    requires t < SecondsPerDay
    ensures ParseTime(FormatTime(t)) == Some(t)
  {
  }

  lemma PadField(s: string, i: nat)
    requires i + 1 < |s| && IsDigit(s[i]) && IsDigit(s[i + 1])
    ensures Pad2(Field(s, i)) == s[i..i + 2]
  {
  }

  lemma ClockSplit(hour: nat, minute: nat, second: nat)
    requires hour < 24 && minute < 60 && second < 60
    ensures var t := 3600 * hour + 60 * minute + second;
      t / 3600 == hour && t / 60 % 60 == minute && t % 60 == second
  {
  }

  /**
   * A string that parses as a time is the one spelling of that time: the
   * layout accepts no alternative forms in this model.
   */
  lemma TimeCanonical(s: string)
    requires ParseTime(s).Some?
    ensures FormatTime(ParseTime(s).value) == s
  {
    ClockSplit(Field(s, 0), Field(s, 3), Field(s, 6));
    PadField(s, 0);
    PadField(s, 3);
    PadField(s, 6);
    assert s == s[0..2] + ":" + s[3..5] + ":" + s[6..8];
  }

  // ---------------------------------------------------------------------------
  // Integers

  /**
   * Reads s as an optional `+` or `-` sign followed by at least one decimal
   * digit, with an unbounded result.
   */
  function ParseInt(s: string): (r: Option<int>)
    ensures r.Some? <==> IsDecimal(s)
  {
    if |s| == 0 then
      None
    else
      var signed := s[0] == '-' || s[0] == '+';
      var digits := if signed then s[1..] else s;
      if |digits| > 0 && AllDigits(digits) then
        var magnitude: int := DigitsValue(digits);
        Some(if s[0] == '-' then -magnitude else magnitude)
      else
        None
  }

  predicate IsSign(c: char) {
    c == '+' || c == '-'
  }

  /**
   * The accepted language, character by character: a digit or a sign
   * first, digits after it, and at least one digit in all.
   */
  predicate IsDecimal(s: string) {
    |s| > 0 &&
    (IsDigit(s[0]) || (IsSign(s[0]) && |s| > 1)) &&
    forall i :: 0 < i < |s| ==> IsDigit(s[i])
  }

  /**
   * Any sign (none, `+` or `-`) before any non-empty digit string is read,
   * leading zeros included, and `-` negates the value of the digits.
   */
  lemma ParseIntSigned(sign: string, digits: string)
    requires sign == "" || sign == "+" || sign == "-"
    requires |digits| > 0 && AllDigits(digits)
    ensures ParseInt(sign + digits) ==
            Some(if sign == "-" then -(DigitsValue(digits) as int) else DigitsValue(digits))
  {
    var s := sign + digits;
    if sign == "" {
      assert s == digits;
    } else {
      assert s[0] == sign[0] && s[1..] == digits;
    }
  }

  /** The shortest decimal spelling of n. */
  function FormatNat(n: nat): (s: string)
    ensures |s| > 0 && AllDigits(s)
  {
    if n < 10 then [DigitChar(n)] else FormatNat(n / 10) + [DigitChar(n % 10)]
  }

  function FormatInt(n: int): (s: string)
    ensures |s| > 0
  {
    if n < 0 then "-" + FormatNat(-n) else FormatNat(n)
  }

  lemma {:induction false} DigitsRoundTrip(n: nat)
    ensures DigitsValue(FormatNat(n)) == n
  {
    var s := FormatNat(n);
    if n >= 10 {
      DigitsRoundTrip(n / 10);
      assert s[..|s| - 1] == FormatNat(n / 10);
    }
  }

  /** Every integer is read back from its decimal spelling. */
  lemma IntRoundTrip(n: int)
    ensures ParseInt(FormatInt(n)) == Some(n)
  {
    var s := FormatInt(n);
    if n < 0 {
      var digits := FormatNat(-n);
      DigitsRoundTrip(-n);
      assert s[0] == '-' && s[1..] == digits;
    } else {
      DigitsRoundTrip(n);
      assert IsDigit(s[0]);
    }
  }

  /** No string reads both as a time of day and as an integer. */
  lemma NeverTimeAndInt(s: string)
    ensures ParseTime(s).None? || ParseInt(s).None?
  {
  }
}
