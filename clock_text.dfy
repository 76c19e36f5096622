/**
 * The text shown on the dial. `SetDialText` turns the remaining number of
 * seconds into a .NET `TimeSpan` and prints its `Minutes` and `Seconds`
 * components, each with the `D2` format (at least two digits, a leading
 * minus sign for a negative value). Hours and days are not printed.
 */
module ClockText {

  datatype Option<T> = None | Some(value: T)

  /** The fixed marker shown when a countdown expires. */
  const Done: string := "DONE!"

  // ---------------------------------------------------------------------------
  // Integer division as .NET does it on `long` ticks: truncating toward zero.
  // ---------------------------------------------------------------------------

  function TruncDiv(a: int, b: int): (q: int)
    requires b > 0
    ensures a >= 0 ==> q == a / b
    ensures a < 0 ==> q <= 0 && q * b >= a && a > (q - 1) * b
  {
    if a >= 0 then a / b else -((-a) / b)
  }

  /** The remainder that goes with `TruncDiv`: it has the sign of `a`. */
  function TruncRem(a: int, b: int): (r: int)
    requires b > 0
    ensures a == b * TruncDiv(a, b) + r
    ensures -b < r < b
    ensures a >= 0 ==> r >= 0
    ensures a <= 0 ==> r <= 0
  {
    if a >= 0 then a % b else -((-a) % b)
  }

  /** `TimeSpan.FromSeconds(s).Minutes`: whole minutes, hours discarded. */
  function SpanMinutes(s: int): (m: int)
    ensures -60 < m < 60
    ensures s >= 0 ==> m == (s / 60) % 60
  {
    TruncRem(TruncDiv(s, 60), 60)
  }

  /** `TimeSpan.FromSeconds(s).Seconds`: seconds within the minute. */
  function SpanSeconds(s: int): (r: int)
    ensures -60 < r < 60
    ensures s >= 0 ==> r == s % 60
  {
    TruncRem(s, 60)
  }

  // ---------------------------------------------------------------------------
  // Decimal digits
  // ---------------------------------------------------------------------------

  predicate IsDigit(c: char) {
    '0' <= c <= '9'
  }

  function DigitValue(c: char): (d: int)
    requires IsDigit(c)
    ensures 0 <= d < 10
  {
    c as int - '0' as int
  }

  function Digit(d: nat): (c: char)
    requires d < 10
    ensures IsDigit(c) && DigitValue(c) == d
  {
    (d + '0' as int) as char
  }

  /** Two decimal digits, leading zero included. */
  function TwoDigits(n: nat): (r: string)
    requires n < 100
    ensures |r| == 2 && IsDigit(r[0]) && IsDigit(r[1])
    ensures 10 * DigitValue(r[0]) + DigitValue(r[1]) == n
  {
    [Digit(n / 10), Digit(n % 10)]
  }

  /** `n.ToString("D2")` for a value of at most two digits. */
  function D2(n: int): (r: string)
    requires -100 < n < 100
    ensures n >= 0 ==> |r| == 2 && IsDigit(r[0]) && IsDigit(r[1]) && 10 * DigitValue(r[0]) + DigitValue(r[1]) == n
    ensures n < 0 ==> |r| == 3 && r[0] == '-' && IsDigit(r[1]) && IsDigit(r[2]) && 10 * DigitValue(r[1]) + DigitValue(r[2]) == -n
  {
    if n < 0 then "-" + TwoDigits(-n) else TwoDigits(n)
  }

  /**
   * The dial text for `s` remaining seconds: `Minutes:D2` `:` `Seconds:D2`.
   * For a non-negative time that is MM:SS with MM = (s / 60) mod 60 and
   * SS = s mod 60, zero-padded; a minus sign appears exactly when one of the
   * two components is negative.
   */
  function FormatClock(s: int): (r: string)
    ensures 0 <= s ==> r == TwoDigits((s / 60) % 60) + ":" + TwoDigits(s % 60)
    ensures '-' in r <==> SpanMinutes(s) < 0 || SpanSeconds(s) < 0
  {
    D2(SpanMinutes(s)) + ":" + D2(SpanSeconds(s))
  }

  /**
   * A reference reading of an `MM:SS` text: exactly two digits, a colon and
   * two digits, worth 60 * MM + SS seconds. Anything else is not a clock.
   */
  function ParseClock(t: string): Option<int> {
    if |t| == 5 && IsDigit(t[0]) && IsDigit(t[1]) && t[2] == ':' && IsDigit(t[3]) && IsDigit(t[4])
    then Some(60 * (10 * DigitValue(t[0]) + DigitValue(t[1])) + 10 * DigitValue(t[3]) + DigitValue(t[4]))
    else None
  }

  // ---------------------------------------------------------------------------
  // Properties of the dial text
  // ---------------------------------------------------------------------------

  /**
   * Below one hour the minutes field is the whole number of minutes, and
   * the two fields recompose the remaining time.
   */
  lemma FormatClockFields(s: int)
    requires 0 <= s < 3600
    ensures FormatClock(s) == TwoDigits(s / 60) + ":" + TwoDigits(s % 60)
    ensures 60 * ((s / 60) % 60) + s % 60 == s
  {
    assert s / 60 < 60;
    assert (s / 60) % 60 == s / 60;
  }

  /** Below one hour, reading the text back gives the remaining time. */
  lemma FormatClockRoundTrip(s: int)
    requires 0 <= s < 3600
    ensures ParseClock(FormatClock(s)) == Some(s)
  {
    FormatClockFields(s);
    var t := FormatClock(s);
    var mm, ss := (s / 60) % 60, s % 60;
    assert t[0..2] == TwoDigits(mm) && t[2] == ':' && t[3..5] == TwoDigits(ss);
    assert 10 * DigitValue(t[0]) + DigitValue(t[1]) == mm;
    assert 10 * DigitValue(t[3]) + DigitValue(t[4]) == ss;
  }

  /** Whole hours never show: the text only depends on s mod 3600. */
  lemma FormatClockDropsHours(s: int)
    requires 0 <= s
    ensures FormatClock(s) == FormatClock(s % 3600)
    ensures ParseClock(FormatClock(s)) == Some(s % 3600)
  {
    var q, r := s / 3600, s % 3600;
    assert s == 60 * (60 * q) + r;
    DivAddMultiple(60 * q, r, 60);
    assert s / 60 == 60 * q + r / 60;
    DivAddMultiple(q, r / 60, 60);
    assert (s / 60) % 60 == (r / 60) % 60;
    assert s % 60 == r % 60;
    FormatClockRoundTrip(r);
  }

  /**
   * A negative remaining time (within an hour) prints a minus sign in at
   * least one of the two fields, so the text is no `MM:SS` clock at all.
   */
  lemma NegativeClockText(s: int)
    requires -3600 < s < 0
    ensures '-' in FormatClock(s)
    ensures ParseClock(FormatClock(s)) == None
  {
    var m, sec := SpanMinutes(s), SpanSeconds(s);
    assert TruncDiv(s, 60) * 60 > -3600;
    assert m == TruncDiv(s, 60);
    assert m < 0 || sec < 0;
    var t := FormatClock(s);
    if m < 0 {
      assert t[0] == '-';
    } else {
      assert t[3] == '-';
    }
  }

  lemma DivUnique(n: int, b: int, x: int, r: int)
    requires b > 0 && 0 <= r < b && n == x * b + r
    ensures n / b == x && n % b == r
  {
    var d := x - n / b;
    assert d * b == n % b - r;
  }

  lemma DivAddMultiple(a: int, c: int, b: int)
    requires b > 0 && c >= 0
    ensures (a * b + c) / b == a + c / b
    ensures (a * b + c) % b == c % b
  {
    assert a * b + c == (a + c / b) * b + c % b;
    DivUnique(a * b + c, b, a + c / b, c % b);
  }
}
