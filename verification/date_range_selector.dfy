/**
 * The helpers behind the date-range picker: the picked instant is widened
 * to the first or last millisecond of its UTC day before it reaches the
 * guide filter, and shown as `dd/MM/yyyy`.
 */
module DateRangeSelector {
  import opened Wrappers
  import opened KotlinText
  import opened Calendar

  /** `LocalDateTime(date, hour, minute, second, nanosecond).toInstant(UTC)
      .toEpochMilliseconds()`: whole milliseconds, the nanoseconds truncated.
      The instant lies on the date's UTC day, at the given time of day. */
  function EpochMillisOf(d: LocalDate, hour: nat, minute: nat, second: nat, nanosecond: nat): (r: int)
    requires IsValidDate(d) && hour < 24 && minute < 60 && second < 60 && nanosecond < 1_000_000_000
    ensures r / MillisPerDay == EpochDay(d)
    ensures r % MillisPerDay == ((hour * 60 + minute) * 60 + second) * 1_000 + nanosecond / 1_000_000
  {
    var timeOfDay := ((hour * 60 + minute) * 60 + second) * 1_000 + nanosecond / 1_000_000;
    var r := (EpochDay(d) * 86_400 + hour * 3_600 + minute * 60 + second) * 1_000 + nanosecond / 1_000_000;
    WholeDaysPlus(EpochDay(d), timeOfDay, r);
    r
  }

  lemma WholeDaysPlus(n: int, timeOfDay: int, r: int)
    requires 0 <= timeOfDay < MillisPerDay && r == n * MillisPerDay + timeOfDay
    ensures r / MillisPerDay == n && r % MillisPerDay == timeOfDay
  {
  }

  /** `startOfDayMillis`: midnight, UTC, of the instant's date, which is the
      instant rounded down to a whole UTC day. */
  function StartOfDayMillis(x: int): (r: int)
    ensures r == (x / MillisPerDay) * MillisPerDay
    ensures r % MillisPerDay == 0
    ensures r <= x < r + MillisPerDay
  {
    var d := DateOfMillis(x);
    assert EpochDay(d) == x / MillisPerDay;
    EpochMillisOf(d, 0, 0, 0, 0)
  }

  /** `endOfDayMillis`: 23:59:59.999999999, UTC, of the instant's date,
      which is the last whole millisecond of its UTC day: the 999 999 999
      nanoseconds truncate to 999 milliseconds. */
  function EndOfDayMillis(x: int): (r: int)
    ensures r == StartOfDayMillis(x) + 86_399_999
    ensures r - MillisPerDay < x <= r
  {
    var d := DateOfMillis(x);
    assert EpochDay(d) == x / MillisPerDay;
    EpochMillisOf(d, 23, 59, 59, 999_999_999)
  }

  /** `millisToDmy`: the instant's UTC date as `dd/MM/yyyy`, with the
      separators after a two-digit day and a two-digit month. */
  function MillisToDmy(x: int): (r: string)
    ensures |r| >= 7 && r[2] == '/' && r[5] == '/'
  {
    var date := DateOfMillis(x);
    assert date.day <= 31;
    TwoDigitText(date.day);
    TwoDigitText(date.month);
    DmyShape(Pad(date.day), Pad(date.month), IntToString(date.year));
    Pad(date.day) + "/" + Pad(date.month) + "/" + IntToString(date.year)
  }

  lemma DmyShape(dd: string, mm: string, yyyy: string)
    requires |dd| == 2 && |mm| == 2 && |yyyy| >= 1
    ensures var r := dd + "/" + mm + "/" + yyyy; |r| >= 7 && r[2] == '/' && r[5] == '/'
  {
  }

  /** Widening keeps the picked day: both ends fall on the same UTC date as
      the instant, and taking the start of the day twice changes nothing. */
  lemma DayBoundsKeepTheDate(x: int)
    ensures DateOfMillis(StartOfDayMillis(x)) == DateOfMillis(x)
    ensures DateOfMillis(EndOfDayMillis(x)) == DateOfMillis(x)
    ensures StartOfDayMillis(StartOfDayMillis(x)) == StartOfDayMillis(x)
    ensures EndOfDayMillis(EndOfDayMillis(x)) == EndOfDayMillis(x)
  {
    SameDateOfMillis(StartOfDayMillis(x), x);
    SameDateOfMillis(EndOfDayMillis(x), x);
  }

  /** `dd/MM/yyyy`: two-digit day and month that read back as the date's
      day and month, then the year. */
  lemma DmyFields(x: int)
    ensures var date := DateOfMillis(x);
      var parts := Split(MillisToDmy(x), '/', 3);
      |parts| == 3 && |parts[0]| == 2 && |parts[1]| == 2
      && ParseInt(parts[0]) == Some(date.day) && ParseInt(parts[1]) == Some(date.month)
      && parts[2] == IntToString(date.year)
  {
    var date := DateOfMillis(x);
    assert date.day <= 31;
    PadDenotes(date.day);
    PadDenotes(date.month);
    SplitDmy(Pad(date.day), Pad(date.month), IntToString(date.year));
  }

  lemma SplitDmy(dd: string, mm: string, yyyy: string)
    requires AllAsciiDigits(dd) && AllAsciiDigits(mm)
    ensures Split(dd + "/" + mm + "/" + yyyy, '/', 3) == [dd, mm, yyyy]
  {
    assert '/' !in dd && '/' !in mm by {
      forall i | 0 <= i < |dd| ensures dd[i] != '/' {
        assert IsAsciiDigit(dd[i]);
      }
      forall i | 0 <= i < |mm| ensures mm[i] != '/' {
        assert IsAsciiDigit(mm[i]);
      }
    }
    assert dd + "/" + mm + "/" + yyyy == dd + ['/'] + (mm + ['/'] + yyyy);
    SplitAtFirst(dd, '/', mm + ['/'] + yyyy, 3);
    SplitAtFirst(mm, '/', yyyy, 2);
  }
}
