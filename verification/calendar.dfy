/**
 * The proleptic Gregorian calendar as kotlinx-datetime's `LocalDate` sees it:
 * leap years, valid dates, the number of days since 1970-01-01 (the epoch
 * day), the date of an epoch day, the UTC date of an instant given in epoch
 * milliseconds, `LocalDate.parse` of an ISO 8601 calendar date and the order
 * `compareTo` puts dates in.
 */
module Calendar {
  import opened Wrappers
  import opened KotlinText

  datatype LocalDate = LocalDate(year: int, month: int, day: int)

  const MillisPerDay: int := 86_400_000

  predicate IsLeapYear(y: int) {
    y % 4 == 0 && (y % 100 != 0 || y % 400 == 0)
  }

  function LengthOfYear(y: int): int {
    if IsLeapYear(y) then 366 else 365
  }

  function DaysInMonth(y: int, m: int): int
    requires 1 <= m <= 12
  {
    if m == 2 then (if IsLeapYear(y) then 29 else 28)
    else if m == 4 || m == 6 || m == 9 || m == 11 then 30
    else 31
  }

  predicate IsValidDate(d: LocalDate) {
    1 <= d.month <= 12 && 1 <= d.day <= DaysInMonth(d.year, d.month)
  }

  /** Days of year `y` before month `m`; `m == 13` gives the whole year. */
  function DaysBeforeMonth(y: int, m: int): int
    requires 1 <= m <= 13
  {
    var common := [0, 31, 59, 90, 120, 151, 181, 212, 243, 273, 304, 334, 365][m - 1];
    if m > 2 && IsLeapYear(y) then common + 1 else common
  }

  lemma MonthSpan(y: int, m: int)
    requires 1 <= m <= 12
    ensures DaysBeforeMonth(y, m + 1) == DaysBeforeMonth(y, m) + DaysInMonth(y, m)
    ensures DaysBeforeMonth(y, 1) == 0 && DaysBeforeMonth(y, 13) == LengthOfYear(y)
  {
  }

  lemma {:induction false} DaysBeforeMonthMonotone(y: int, m1: int, m2: int)
    requires 1 <= m1 <= m2 <= 13
    ensures DaysBeforeMonth(y, m1) <= DaysBeforeMonth(y, m2)
    decreases m2 - m1
  {
    if m1 < m2 {
      MonthSpan(y, m1);
      DaysBeforeMonthMonotone(y, m1 + 1, m2);
    }
  }

  /** Leap years strictly before `y`, counted from a fixed origin. */
  function LeapYearsBefore(y: int): int {
    (y - 1) / 4 - (y - 1) / 100 + (y - 1) / 400
  }

  /** The epoch day of January 1st of year `y`. */
  function DaysBeforeYear(y: int): int {
    365 * (y - 1970) + LeapYearsBefore(y) - LeapYearsBefore(1970)
  }

  lemma DivStep(y: int, b: int)
    requires b == 4 || b == 100 || b == 400
    ensures y / b - (y - 1) / b == if y % b == 0 then 1 else 0
  {
  }

  /** Consecutive New Year's days are one year length apart. */
  lemma YearLength(y: int)
    ensures DaysBeforeYear(y + 1) == DaysBeforeYear(y) + LengthOfYear(y)
  {
    DivStep(y, 4);
    DivStep(y, 100);
    DivStep(y, 400);
  }

  lemma {:induction false} DaysBeforeYearMonotone(a: int, b: int)
    requires a < b
    ensures DaysBeforeYear(a + 1) <= DaysBeforeYear(b)
    decreases b - a
  {
    if a + 1 < b {
      YearLength(a + 1);
      DaysBeforeYearMonotone(a + 1, b);
    }
  }

  /** The number of days from 1970-01-01 to `d` (`LocalDate.toEpochDays`). */
  function EpochDay(d: LocalDate): int
    requires 1 <= d.month <= 12
  {
    DaysBeforeYear(d.year) + DaysBeforeMonth(d.year, d.month) + d.day - 1
  }

  /** A valid date falls inside its own year. */
  lemma EpochDayInYear(d: LocalDate)
    requires IsValidDate(d)
    ensures DaysBeforeYear(d.year) <= EpochDay(d) < DaysBeforeYear(d.year + 1)
  {
    MonthSpan(d.year, d.month);
    DaysBeforeMonthMonotone(d.year, d.month + 1, 13);
    YearLength(d.year);
  }

  /** The year holding epoch day `n`, searching upward from year `y`. */
  function YearAtOrAfter(n: int, y: int): (r: int)
    requires DaysBeforeYear(y) <= n
    ensures DaysBeforeYear(r) <= n < DaysBeforeYear(r + 1)
    decreases n - DaysBeforeYear(y)
  {
    YearLength(y);
    if n < DaysBeforeYear(y + 1) then y else YearAtOrAfter(n, y + 1)
  }

  /** The year holding epoch day `n`, searching downward from year `y`. */
  function YearAtOrBefore(n: int, y: int): (r: int)
    requires n < DaysBeforeYear(y + 1)
    ensures DaysBeforeYear(r) <= n < DaysBeforeYear(r + 1)
    decreases DaysBeforeYear(y + 1) - n
  {
    YearLength(y);
    if DaysBeforeYear(y) <= n then y else YearAtOrBefore(n, y - 1)
  }

  /** The year holding epoch day `n`. */
  function YearOfEpochDay(n: int): (r: int)
    ensures DaysBeforeYear(r) <= n < DaysBeforeYear(r + 1)
  {
    if n >= 0 then YearAtOrAfter(n, 1970) else YearAtOrBefore(n, 1969)
  }

  /** The month of year `y` holding day-of-year `doy`, searching down from `m`. */
  function MonthOf(y: int, doy: int, m: int): (r: int)
    requires 1 <= m <= 12 && 0 <= doy < DaysBeforeMonth(y, m + 1)
    ensures 1 <= r <= m
    ensures DaysBeforeMonth(y, r) <= doy < DaysBeforeMonth(y, r + 1)
    decreases m
  {
    MonthSpan(y, m);
    if DaysBeforeMonth(y, m) <= doy then m else MonthOf(y, doy, m - 1)
  }

  /** The date of epoch day `n` (`LocalDate.fromEpochDays`). */
  function DateOfEpochDay(n: int): (d: LocalDate)
    ensures IsValidDate(d) && EpochDay(d) == n
  {
    var y := YearOfEpochDay(n);
    YearLength(y);
    MonthSpan(y, 12);
    var doy := n - DaysBeforeYear(y);
    var m := MonthOf(y, doy, 12);
    MonthSpan(y, m);
    LocalDate(y, m, doy - DaysBeforeMonth(y, m) + 1)
  }

  /** `LocalDate.compareTo(other) <= 0`: by year, then month, then day. */
  predicate DateLe(a: LocalDate, b: LocalDate) {
    a.year < b.year
    || (a.year == b.year && (a.month < b.month || (a.month == b.month && a.day <= b.day)))
  }

  lemma EarlierDateEarlierDay(a: LocalDate, b: LocalDate)
    requires IsValidDate(a) && IsValidDate(b) && DateLe(a, b) && a != b
    ensures EpochDay(a) < EpochDay(b)
  {
    EpochDayInYear(a);
    EpochDayInYear(b);
    if a.year < b.year {
      DaysBeforeYearMonotone(a.year, b.year);
    } else if a.month < b.month {
      MonthSpan(a.year, a.month);
      DaysBeforeMonthMonotone(a.year, a.month + 1, b.month);
    }
  }

  /** On valid dates the calendar order is the order of their epoch days. */
  lemma DateOrderIsDayOrder(a: LocalDate, b: LocalDate)
    requires IsValidDate(a) && IsValidDate(b)
    ensures DateLe(a, b) <==> EpochDay(a) <= EpochDay(b)
    ensures a == b <==> EpochDay(a) == EpochDay(b)
  {
    if a != b {
      if DateLe(a, b) {
        EarlierDateEarlierDay(a, b);
      } else {
        EarlierDateEarlierDay(b, a);
      }
    }
  }

  /** Every valid date is the date of its own epoch day. */
  lemma DateOfEpochDayInverse(d: LocalDate)
    requires IsValidDate(d)
    ensures DateOfEpochDay(EpochDay(d)) == d
  {
    DateOrderIsDayOrder(DateOfEpochDay(EpochDay(d)), d);
  }

  /** The UTC calendar date of an instant given in epoch milliseconds
      (`Instant.fromEpochMilliseconds(ms).toLocalDateTime(TimeZone.UTC).date`). */
  function DateOfMillis(ms: int): (d: LocalDate)
    ensures IsValidDate(d)
    ensures EpochDay(d) * MillisPerDay <= ms < (EpochDay(d) + 1) * MillisPerDay
  {
    DateOfEpochDay(ms / MillisPerDay)
  }

  /** Two instants share a UTC date exactly when they share a UTC day. */
  lemma SameDateOfMillis(x: int, y: int)
    ensures DateOfMillis(x) == DateOfMillis(y) <==> x / MillisPerDay == y / MillisPerDay
  {
    DateOrderIsDayOrder(DateOfMillis(x), DateOfMillis(y));
  }

  // ---------------------------------------------------------------------
  // ISO 8601 calendar dates

  /**
   * `LocalDate.parse(text)`: exactly `YYYY-MM-DD` in ASCII digits, naming an
   * existing date; anything else is a DateTimeParseException, modelled as None.
   */
  function ParseIsoDate(s: string): (r: Option<LocalDate>)
    ensures r.Some? ==> IsValidDate(r.value)
  {
    if |s| == 10 && s[4] == '-' && s[7] == '-'
       && AllAsciiDigits(s[..4]) && AllAsciiDigits(s[5..7]) && AllAsciiDigits(s[8..])
    then
      var d := LocalDate(AsciiValue(s[..4]), AsciiValue(s[5..7]), AsciiValue(s[8..]));
      if IsValidDate(d) then Some(d) else None
    else None
  }

  /** `LocalDate.toString()` for years 0 to 9999. */
  function FormatIsoDate(d: LocalDate): string
    requires IsValidDate(d) && 0 <= d.year <= 9999
  {
    PadStart(NatToString(d.year), 4, '0') + "-" + Pad(d.month) + "-" + Pad(d.day)
  }

  lemma ParseIsoDateParts(a: string, b: string, c: string)
    requires |a| == 4 && |b| == 2 && |c| == 2
    requires AllAsciiDigits(a) && AllAsciiDigits(b) && AllAsciiDigits(c)
    ensures var d := LocalDate(AsciiValue(a), AsciiValue(b), AsciiValue(c));
      ParseIsoDate(a + "-" + b + "-" + c) == if IsValidDate(d) then Some(d) else None
  {
    var s := a + "-" + b + "-" + c;
    assert |s| == 10 && s[4] == '-' && s[7] == '-';
    assert s[..4] == a;
    assert s[5..7] == b;
    assert s[8..] == c;
  }

  /** The year printed to four digits, as `LocalDate.toString` does. */
  lemma YearText(year: int)
    requires 0 <= year <= 9999
    ensures var y := PadStart(NatToString(year), 4, '0');
      |y| == 4 && AllAsciiDigits(y) && AsciiValue(y) == year
  {
    var y := PadStart(NatToString(year), 4, '0');
    NatToStringLength(year, 10000, 4);
    var z := seq(|y| - |NatToString(year)|, _ => '0');
    assert y == z + NatToString(year);
    DigitsValueOfNatToString(year);
    DigitsValueLeadingZeros(z, NatToString(year));
    assert forall i :: 0 <= i < |z| ==> z[i] == '0';
    AsciiValueIsDigitsValue(y);
  }

  /** Parsing a printed date gives the date back. */
  lemma ParseFormatIsoDate(d: LocalDate)
    requires IsValidDate(d) && 0 <= d.year <= 9999
    ensures ParseIsoDate(FormatIsoDate(d)) == Some(d)
  {
    var y, mo, da := PadStart(NatToString(d.year), 4, '0'), Pad(d.month), Pad(d.day);
    YearText(d.year);
    assert d.day <= 31;
    TwoDigitText(d.month);
    TwoDigitText(d.day);
    assert LocalDate(AsciiValue(y), AsciiValue(mo), AsciiValue(da)) == d;
    ParseIsoDateParts(y, mo, da);
  }

  /** An accepted text is exactly the ISO text of the date it yields: the
      year has four digits, and month and day are printed back as read. */
  lemma FormatParseIsoDate(s: string)
    requires ParseIsoDate(s).Some?
    ensures 0 <= ParseIsoDate(s).value.year <= 9999
    ensures FormatIsoDate(ParseIsoDate(s).value) == s
  {
    var d := ParseIsoDate(s).value;
    assert d == LocalDate(AsciiValue(s[..4]), AsciiValue(s[5..7]), AsciiValue(s[8..]));
    IsoDateFields(s);
  }

  lemma IsoDateFields(s: string)
    requires |s| == 10 && s[4] == '-' && s[7] == '-'
    requires AllAsciiDigits(s[..4]) && AllAsciiDigits(s[5..7]) && AllAsciiDigits(s[8..])
    ensures AsciiValue(s[..4]) <= 9999
    ensures s == PadStart(NatToString(AsciiValue(s[..4])), 4, '0') + "-" + Pad(AsciiValue(s[5..7])) + "-" + Pad(AsciiValue(s[8..]))
  {
    YearPrintsBack(s[..4]);
    FieldPrintsBack(s[5..7]);
    FieldPrintsBack(s[8..]);
    assert s == s[..4] + "-" + s[5..7] + "-" + s[8..];
  }

  lemma YearPrintsBack(part: string)
    requires |part| == 4 && AllAsciiDigits(part)
    ensures AsciiValue(part) <= 9999 && PadStart(NatToString(AsciiValue(part)), 4, '0') == part
  {
    AsciiValueBound(part);
    assert Pow10(4) == 10000;
    YearText(AsciiValue(part));
    AsciiValueInjective(PadStart(NatToString(AsciiValue(part)), 4, '0'), part);
  }

  lemma FieldPrintsBack(part: string)
    requires |part| == 2 && AllAsciiDigits(part)
    ensures Pad(AsciiValue(part)) == part
  {
    AsciiValueBound(part);
    assert Pow10(2) == 100;
    TwoDigitText(AsciiValue(part));
    AsciiValueInjective(Pad(AsciiValue(part)), part);
  }

  /** A month or day printed to two digits. */
  lemma TwoDigitText(n: int)
    requires 0 <= n < 100
    ensures |Pad(n)| == 2 && AllAsciiDigits(Pad(n)) && AsciiValue(Pad(n)) == n
  {
    PadDenotes(n);
    AsciiValueIsDigitsValue(Pad(n));
  }
}
