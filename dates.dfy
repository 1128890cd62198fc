/**
 * `java.time.LocalDate` as the log file uses it: a calendar date written
 * and read in the ISO 8601 extended calendar-date form `YYYY-MM-DD`
 * (section 4.1.2.2 of ISO 8601:2004), which is what `LocalDate.toString`
 * writes and `LocalDate.parse` accepts for four-digit years, and ordered
 * as `LocalDate.compareTo` orders it.
 */
module Dates {
  import opened Wrappers
  import opened JavaText

  datatype CalendarDate = CalendarDate(year: int, month: int, day: int)

  /** The proleptic Gregorian leap-year rule of `java.time`. */
  predicate IsLeapYear(y: int)
  {
    y % 4 == 0 && (y % 100 != 0 || y % 400 == 0)
  }

  function DaysInMonth(y: int, m: int): int
    requires 1 <= m <= 12
  {
    if m == 2 then (if IsLeapYear(y) then 29 else 28)
    else if m == 4 || m == 6 || m == 9 || m == 11 then 30
    else 31
  }

  predicate ValidDate(d: CalendarDate)
  {
    0 <= d.year <= 9999 && 1 <= d.month <= 12 && 1 <= d.day <= DaysInMonth(d.year, d.month)
  }

  /** A `LocalDate`: only real calendar days exist (four-digit years). */
  type Date = d: CalendarDate | ValidDate(d) witness CalendarDate(1970, 1, 1)

  /** `a.compareTo(b) <= 0`: year first, then month, then day. */
  predicate NotAfter(a: Date, b: Date)
  {
    a.year < b.year
    || (a.year == b.year && (a.month < b.month || (a.month == b.month && a.day <= b.day)))
  }

  /** `NotAfter` is a total order, so sorting by it is well defined. */
  lemma NotAfterTotalOrder(a: Date, b: Date, c: Date)
    ensures NotAfter(a, a)
    ensures NotAfter(a, b) || NotAfter(b, a)
    ensures NotAfter(a, b) && NotAfter(b, a) ==> a == b
    ensures NotAfter(a, b) && NotAfter(b, c) ==> NotAfter(a, c)
  {
  }

  function Pow10(n: nat): nat
  {
    if n == 0 then 1 else 10 * Pow10(n - 1)
  }

  /** `n` in exactly `width` decimal digits, zero-padded on the left. */
  function Pad(n: nat, width: nat): (r: string)
    requires n < Pow10(width)
    ensures |r| == width && AllDigits(r) && DigitsValue(r) == n
  {
    if width == 0 then []
    else
      var prefix := Pad(n / 10, width - 1);
      var r := prefix + [DigitChar(n % 10)];
      assert r[..|r| - 1] == prefix;
      r
  }

  /** Every digit string of a given width is the padding of its own value. */
  lemma {:induction false} PadDigits(s: string)
    requires AllDigits(s)
    ensures DigitsValue(s) < Pow10(|s|)
    ensures Pad(DigitsValue(s), |s|) == s
  {
    if s != [] {
      var prefix := s[..|s| - 1];
      PadDigits(prefix);
      var v := DigitsValue(s);
      assert v / 10 == DigitsValue(prefix) && v % 10 == DigitValue(s[|s| - 1]);
      assert DigitChar(v % 10) == s[|s| - 1];
      assert s == prefix + [s[|s| - 1]];
    }
  }

  /** `LocalDate.toString()` for a four-digit year. */
  function FormatIso(d: Date): string
  {
    Pad(d.year, 4) + "-" + Pad(d.month, 2) + "-" + Pad(d.day, 2)
  }

  /**
   * `LocalDate.parse(s)` with `ISO_LOCAL_DATE`: four digits, `-`, two
   * digits, `-`, two digits, and a day that exists in that month
   * (`None` where Java throws `DateTimeParseException`).
   */
  function ParseIso(s: string): Option<Date>
  {
    if |s| == 10 && s[4] == '-' && s[7] == '-'
       && AllDigits(s[..4]) && AllDigits(s[5..7]) && AllDigits(s[8..])
    then
      var d := CalendarDate(DigitsValue(s[..4]), DigitsValue(s[5..7]), DigitsValue(s[8..]));
      if ValidDate(d) then Some(d) else None
    else None
  }

  /** Reading back a written date gives the same date. */
  lemma IsoRoundTrip(d: Date)
    ensures ParseIso(FormatIso(d)) == Some(d)
  {
    var s := FormatIso(d);
    assert s[..4] == Pad(d.year, 4);
    assert s[5..7] == Pad(d.month, 2);
    assert s[8..] == Pad(d.day, 2);
  }

  /** A date that parses is written back as exactly the same text. */
  lemma IsoCanonical(s: string, d: Date)
    requires ParseIso(s) == Some(d)
    ensures FormatIso(d) == s
  {
    PadDigits(s[..4]);
    PadDigits(s[5..7]);
    PadDigits(s[8..]);
    assert s == s[..4] + "-" + s[5..7] + "-" + s[8..];
  }

  /** The written form uses digits and `-` only, so it never holds the field separator. */
  lemma IsoCharacters(d: Date)
    ensures |FormatIso(d)| == 10
    ensures forall i :: 0 <= i < 10 ==> IsDigit(FormatIso(d)[i]) || FormatIso(d)[i] == '-'
  {
  }
}
