/**
 * The app's text formatters (file sizes, ISO timestamps, elapsed time,
 * truncated names, durations) and the client-side filter that keeps the
 * guides dated inside a picked range of UTC days.
 */
module Formatters {
  import opened Wrappers
  import opened KotlinText
  import opened Seqs
  import opened Calendar
  import opened GuideModel

  // ---------------------------------------------------------------------
  // formatFileSize

  /** `formatFileSize` below one mebibyte: whole bytes, or whole kibibytes
      rounded down. */
  function FormatFileSize(bytes: int): (r: string)
    requires IsInt(bytes) && bytes < 1024 * 1024
    ensures bytes < 1024 ==> r == IntToString(bytes) + " B"
    ensures bytes >= 1024 ==> exists n :: 1 <= n < 1024 && n * 1024 <= bytes < (n + 1) * 1024
                                         && r == IntToString(n) + " KB"
  {
    if bytes < 1024 then IntToString(bytes) + " B"
    else
      var n := Quot(bytes, 1024);
      assert n * 1024 <= bytes < (n + 1) * 1024;
      IntToString(n) + " KB"
  }

  // ---------------------------------------------------------------------
  // formatIsoWithSplit

  /** The fields `formatIsoWithSplit` reads out of an ISO timestamp. */
  datatype IsoStamp = IsoStamp(year: int, month: int, day: int, hour: int, minute: int)

  /** Year, month and day of `yyyy-MM-dd...`: three parts split at the first
      two `-`, each read with `toInt`. */
  function ReadDateFields(datePart: string): Option<(int, int, int)> {
    var parts := Split(datePart, '-', 3);
    if |parts| < 3 then None
    else
      var day, month, year := ParseInt(parts[2]), ParseInt(parts[1]), ParseInt(parts[0]);
      if day.None? || month.None? || year.None? then None
      else Some((year.value, month.value, day.value))
  }

  /** Hour and minute of `HH:mm...`: the leading digits and colons split at
      the first two `:`; a missing minute reads as 0. */
  function ReadClockFields(timePart: string): Option<(int, int)> {
    var pieces := Split(TakeTimeChars(timePart), ':', 3);
    var hour := ParseInt(pieces[0]);
    var minute := if |pieces| >= 2 then ParseInt(pieces[1]) else Some(0);
    if hour.None? || minute.None? then None else Some((hour.value, minute.value))
  }

  /**
   * The reading half of `formatIsoWithSplit`: split once at `T`, then read
   * the date and the clock. A missing part or any `toInt` failure is None.
   */
  function ReadIsoStamp(fechaIso: string): (r: Option<IsoStamp>)
    ensures r.Some? ==> 'T' in fechaIso
    ensures r.Some? ==> IsInt(r.value.year) && IsInt(r.value.month) && IsInt(r.value.day)
                        && IsInt(r.value.hour) && IsInt(r.value.minute)
  {
    var halves := Split(fechaIso, 'T', 2);
    if |halves| < 2 then None
    else
      match (ReadDateFields(halves[0]), ReadClockFields(halves[1]))
      case (Some(date), Some(clock)) => Some(IsoStamp(date.0, date.1, date.2, clock.0, clock.1))
      case _ => None
  }

  /** The hour on a twelve-hour clock. */
  function Hour12(hour24: int): int {
    if hour24 == 0 then 12 else if hour24 > 12 then hour24 - 12 else hour24
  }

  function AmPm(hour24: int): string {
    if hour24 < 12 then "AM" else "PM"
  }

  /** `dd/MM/year h:mm AM|PM`: the text ends in the marker of the hour. */
  function ShowStamp(t: IsoStamp): (r: string)
    ensures |r| >= 2 && (r[|r| - 2..] == "AM" <==> t.hour < 12) && (r[|r| - 2..] == "PM" <==> t.hour >= 12)
  {
    Pad(t.day) + "/" + Pad(t.month) + "/" + IntToString(t.year) + " "
    + IntToString(Hour12(t.hour)) + ":" + Pad(t.minute) + " " + AmPm(t.hour)
  }

  /** `formatIsoWithSplit`: the timestamp shown day first on a twelve-hour
      clock, or the input itself when it cannot be read. */
  function FormatIsoWithSplit(fechaIso: string): (r: string)
    ensures ReadIsoStamp(fechaIso).None? ==> r == fechaIso
    ensures ReadIsoStamp(fechaIso).Some? ==> r == ShowStamp(ReadIsoStamp(fechaIso).value)
  {
    match ReadIsoStamp(fechaIso)
    case None => fechaIso
    case Some(t) => ShowStamp(t)
  }

  /** For hours 0 to 23 the clock shows 1 to 12, the same hour modulo 12,
      marked AM exactly before noon. */
  lemma TwelveHourClock(hour24: int)
    requires 0 <= hour24 <= 23
    ensures 1 <= Hour12(hour24) <= 12
    ensures Hour12(hour24) % 12 == hour24 % 12
    ensures AmPm(hour24) == "AM" <==> hour24 < 12
  {
  }

  /** A printed ISO timestamp is shown day first, on a twelve-hour clock,
      with its AM or PM marker; the seconds and whatever follows the clock
      are dropped. */
  lemma FormatIsoText(t: IsoStamp, second: nat, tail: string)
    requires 0 <= t.year <= 9999 && 0 <= t.month < 100 && 0 <= t.day < 100
    requires 0 <= t.hour < 100 && 0 <= t.minute < 100 && second < 100
    requires |tail| == 0 || !IsTimeChar(tail[0])
    ensures FormatIsoWithSplit(IsoText(t, second, tail))
      == Pad(t.day) + "/" + Pad(t.month) + "/" + IntToString(t.year) + " "
         + IntToString(Hour12(t.hour)) + ":" + Pad(t.minute) + " " + (if t.hour < 12 then "AM" else "PM")
  {
    var x := IsoText(t, second, tail);
    ReadIsoText(t, second, tail);
    assert FormatIsoWithSplit(x) == ShowStamp(t);
  }

  /** A text without `T` has no time part and is shown as it is. */
  lemma FormatIsoWithoutT(s: string)
    requires 'T' !in s
    ensures FormatIsoWithSplit(s) == s
  {
    SplitWithout(s, 'T', 2);
  }

  /** A time part that does not start with a digit or a colon has no hour to
      read, so the whole text is shown as it is. */
  lemma FormatIsoWithoutHour(datePart: string, timePart: string)
    requires 'T' !in datePart
    requires |timePart| == 0 || !IsTimeChar(timePart[0])
    ensures FormatIsoWithSplit(datePart + "T" + timePart) == datePart + "T" + timePart
  {
    SplitAtFirst(datePart, 'T', timePart, 2);
    assert TakeTimeChars(timePart) == "";
    SplitWithout("", ':', 3);
  }

  /** An ISO timestamp `YYYY-MM-DDTHH:mm:ss` followed by anything that does
      not start with a digit or a colon. */
  function IsoText(t: IsoStamp, second: nat, tail: string): string
    requires 0 <= t.year <= 9999 && 0 <= t.month && 0 <= t.day && 0 <= t.hour && 0 <= t.minute
  {
    (PadStart(NatToString(t.year), 4, '0') + "-" + Pad(t.month) + "-" + Pad(t.day))
    + "T" + (Pad(t.hour) + ":" + Pad(t.minute) + ":" + Pad(second) + tail)
  }

  /** Reading a printed ISO timestamp recovers its fields. */
  lemma ReadIsoText(t: IsoStamp, second: nat, tail: string)
    requires 0 <= t.year <= 9999 && 0 <= t.month < 100 && 0 <= t.day < 100
    requires 0 <= t.hour < 100 && 0 <= t.minute < 100 && second < 100
    requires |tail| == 0 || !IsTimeChar(tail[0])
    ensures ReadIsoStamp(IsoText(t, second, tail)) == Some(t)
  {
    var y := PadStart(NatToString(t.year), 4, '0');
    var mo, d, h, mi, se := Pad(t.month), Pad(t.day), Pad(t.hour), Pad(t.minute), Pad(second);
    var datePart := y + "-" + mo + "-" + d;
    var timePart := h + ":" + mi + ":" + se + tail;
    IsoTextHalves(t, second, tail);
    IsoTextDate(t);
    IsoTextClock(t, second, tail);
    ReadIsoStampOfHalves(IsoText(t, second, tail), datePart, timePart, t);
  }

  lemma ReadIsoStampOfHalves(s: string, datePart: string, timePart: string, t: IsoStamp)
    requires Split(s, 'T', 2) == [datePart, timePart]
    requires ReadDateFields(datePart) == Some((t.year, t.month, t.day))
    requires ReadClockFields(timePart) == Some((t.hour, t.minute))
    ensures ReadIsoStamp(s) == Some(t)
  {
  }

  lemma IsoTextHalves(t: IsoStamp, second: nat, tail: string)
    requires 0 <= t.year <= 9999 && 0 <= t.month < 100 && 0 <= t.day < 100
    requires 0 <= t.hour < 100 && 0 <= t.minute < 100 && second < 100
    ensures Split(IsoText(t, second, tail), 'T', 2)
      == [PadStart(NatToString(t.year), 4, '0') + "-" + Pad(t.month) + "-" + Pad(t.day),
          Pad(t.hour) + ":" + Pad(t.minute) + ":" + Pad(second) + tail]
  {
    var y := PadStart(NatToString(t.year), 4, '0');
    YearText(t.year);
    PadValue(t.month);
    PadValue(t.day);
    SplitIsoHalves(y + "-" + Pad(t.month) + "-" + Pad(t.day),
                   Pad(t.hour) + ":" + Pad(t.minute) + ":" + Pad(second) + tail, y, Pad(t.month), Pad(t.day));
  }

  lemma IsoTextDate(t: IsoStamp)
    requires 0 <= t.year <= 9999 && 0 <= t.month < 100 && 0 <= t.day < 100
    ensures ReadDateFields(PadStart(NatToString(t.year), 4, '0') + "-" + Pad(t.month) + "-" + Pad(t.day))
      == Some((t.year, t.month, t.day))
  {
    YearText(t.year);
    PadValue(t.month);
    PadValue(t.day);
    ReadDateText(PadStart(NatToString(t.year), 4, '0'), Pad(t.month), Pad(t.day));
  }

  lemma IsoTextClock(t: IsoStamp, second: nat, tail: string)
    requires 0 <= t.hour < 100 && 0 <= t.minute < 100 && second < 100
    requires |tail| == 0 || !IsTimeChar(tail[0])
    ensures ReadClockFields(Pad(t.hour) + ":" + Pad(t.minute) + ":" + Pad(second) + tail) == Some((t.hour, t.minute))
  {
    PadValue(t.hour);
    PadValue(t.minute);
    PadValue(second);
    ReadClockText(Pad(t.hour), Pad(t.minute), Pad(second), tail);
  }

  lemma PadValue(n: nat)
    requires n < 100
    ensures |Pad(n)| == 2 && AllAsciiDigits(Pad(n)) && AsciiValue(Pad(n)) == n
  {
    PadDenotes(n);
    AsciiValueIsDigitsValue(Pad(n));
  }

  lemma ReadDateText(y: string, mo: string, d: string)
    requires |y| >= 1 && |mo| >= 1 && |d| >= 1
    requires AllAsciiDigits(y) && AllAsciiDigits(mo) && AllAsciiDigits(d)
    requires AsciiValue(y) <= MaxInt && AsciiValue(mo) <= MaxInt && AsciiValue(d) <= MaxInt
    ensures ReadDateFields(y + "-" + mo + "-" + d)
      == Some((AsciiValue(y) as int, AsciiValue(mo) as int, AsciiValue(d) as int))
  {
    SplitDateFields(y, mo, d);
    ParseIntOfDigits(y);
    ParseIntOfDigits(mo);
    ParseIntOfDigits(d);
  }

  lemma ReadClockText(h: string, mi: string, se: string, tail: string)
    requires |h| >= 1 && |mi| >= 1
    requires AllAsciiDigits(h) && AllAsciiDigits(mi) && AllAsciiDigits(se)
    requires AsciiValue(h) <= MaxInt && AsciiValue(mi) <= MaxInt
    requires |tail| == 0 || !IsTimeChar(tail[0])
    ensures ReadClockFields(h + ":" + mi + ":" + se + tail) == Some((AsciiValue(h) as int, AsciiValue(mi) as int))
  {
    ClockPrefix(h, mi, se, tail);
    SplitClockFields(h, mi, se);
    ParseIntOfDigits(h);
    ParseIntOfDigits(mi);
  }

  lemma SplitIsoHalves(datePart: string, timePart: string, y: string, mo: string, d: string)
    requires AllAsciiDigits(y) && AllAsciiDigits(mo) && AllAsciiDigits(d)
    requires datePart == y + "-" + mo + "-" + d
    ensures Split(datePart + "T" + timePart, 'T', 2) == [datePart, timePart]
  {
    NoSeparatorInDigits(y);
    NoSeparatorInDigits(mo);
    NoSeparatorInDigits(d);
    assert 'T' !in datePart;
    SplitAtFirst(datePart, 'T', timePart, 2);
  }

  lemma SplitDateFields(y: string, mo: string, d: string)
    requires AllAsciiDigits(y) && AllAsciiDigits(mo) && AllAsciiDigits(d)
    ensures Split(y + "-" + mo + "-" + d, '-', 3) == [y, mo, d]
  {
    NoSeparatorInDigits(y);
    NoSeparatorInDigits(mo);
    assert y + "-" + mo + "-" + d == y + ['-'] + (mo + ['-'] + d);
    SplitAtFirst(y, '-', mo + ['-'] + d, 3);
    SplitAtFirst(mo, '-', d, 2);
  }

  lemma ClockPrefix(h: string, mi: string, se: string, tail: string)
    requires AllAsciiDigits(h) && AllAsciiDigits(mi) && AllAsciiDigits(se)
    requires |tail| == 0 || !IsTimeChar(tail[0])
    ensures TakeTimeChars(h + ":" + mi + ":" + se + tail) == h + ":" + mi + ":" + se
  {
    var clock := h + ":" + mi + ":" + se;
    assert AllAsciiDigitsOrColon(clock);
    forall i | 0 <= i < |clock| ensures IsTimeChar(clock[i]) {
      if clock[i] != ':' { AsciiDigit(clock[i]); }
    }
    TakeTimeCharsPrefix(clock, tail);
  }

  predicate AllAsciiDigitsOrColon(s: string) {
    forall i :: 0 <= i < |s| ==> IsAsciiDigit(s[i]) || s[i] == ':'
  }

  lemma SplitClockFields(h: string, mi: string, se: string)
    requires AllAsciiDigits(h) && AllAsciiDigits(mi) && AllAsciiDigits(se)
    ensures Split(h + ":" + mi + ":" + se, ':', 3) == [h, mi, se]
  {
    NoSeparatorInDigits(h);
    NoSeparatorInDigits(mi);
    assert h + ":" + mi + ":" + se == h + [':'] + (mi + [':'] + se);
    SplitAtFirst(h, ':', mi + [':'] + se, 3);
    SplitAtFirst(mi, ':', se, 2);
  }

  lemma NoSeparatorInDigits(s: string)
    requires AllAsciiDigits(s)
    ensures 'T' !in s && '-' !in s && ':' !in s && '+' !in s
  {
    forall i | 0 <= i < |s| ensures s[i] != 'T' && s[i] != '-' && s[i] != ':' && s[i] != '+' {
    }
  }

  lemma ParseIntOfDigits(s: string)
    requires |s| >= 1 && AllAsciiDigits(s) && AsciiValue(s) <= MaxInt
    ensures AllDigits(s) && ParseInt(s) == Some(AsciiValue(s) as int)
  {
    AsciiValueIsDigitsValue(s);
  }

  lemma {:induction false} TakeTimeCharsPrefix(a: string, b: string)
    requires forall i :: 0 <= i < |a| ==> IsTimeChar(a[i])
    requires |b| == 0 || !IsTimeChar(b[0])
    ensures TakeTimeChars(a + b) == a
  {
    if |a| > 0 {
      assert (a + b)[1..] == a[1..] + b;
      TakeTimeCharsPrefix(a[1..], b);
    } else {
      assert a + b == b;
    }
  }

  // ---------------------------------------------------------------------
  // formatTiempoAtras

  /**
   * `formatTiempoAtras`, with the current instant `ahora` passed in: the
   * elapsed milliseconds in 64-bit arithmetic, whole seconds narrowed to a
   * 32-bit Int, then the largest non-zero unit among days, hours and minutes.
   */
  function FormatTiempoAtras(fechaRegistro: int, ahora: int): (r: string)
    requires IsLong(fechaRegistro) && IsLong(ahora)
    ensures r == "Justo ahora" || (|r| > 6 && r[|r| - 6..] == " atrás")
  {
    var diffMillis := ToLong(ahora - fechaRegistro);
    var diffSegundos := ToInt(Quot(diffMillis, 1000));
    var diffMinutos := Quot(diffSegundos, 60);
    var diffHoras := Quot(diffMinutos, 60);
    var diffDias := Quot(diffHoras, 24);
    if diffDias > 0 then
      IntToString(diffDias) + " día" + (if diffDias > 1 then "s" else "") + " atrás"
    else if diffHoras > 0 then
      IntToString(diffHoras) + " hora" + (if diffHoras > 1 then "s" else "") + " atrás"
    else if diffMinutos > 0 then
      IntToString(diffMinutos) + " min atrás"
    else
      "Justo ahora"
  }

  /** The elapsed time in words, by whole days, hours or minutes. */
  function Ago(elapsed: int): string {
    var days, hours, minutes := elapsed / 86_400_000, elapsed / 3_600_000, elapsed / 60_000;
    if elapsed >= 86_400_000 then
      IntToString(days) + " día" + (if days > 1 then "s" else "") + " atrás"
    else if elapsed >= 3_600_000 then
      IntToString(hours) + " hora" + (if hours > 1 then "s" else "") + " atrás"
    else if elapsed >= 60_000 then
      IntToString(minutes) + " min atrás"
    else
      "Justo ahora"
  }

  /** While the elapsed seconds fit in an Int, the text names the largest
      whole unit of the elapsed time; an instant in the future, or less than
      a minute ago, is "Justo ahora". */
  lemma TiempoAtrasNamesLargestUnit(fechaRegistro: int, ahora: int)
    requires IsLong(fechaRegistro) && IsLong(ahora)
    requires MinInt * 1000 <= ahora - fechaRegistro <= MaxInt * 1000
    ensures FormatTiempoAtras(fechaRegistro, ahora) == Ago(ahora - fechaRegistro)
  {
    var e := ahora - fechaRegistro;
    if e >= 0 {
      NestedQuot(e);
    } else {
      assert Quot(e, 1000) <= 0;
      assert IsInt(Quot(e, 1000));
    }
  }

  lemma NestedQuot(e: int)
    requires 0 <= e
    ensures e / 1000 / 60 == e / 60_000
    ensures e / 1000 / 60 / 60 == e / 3_600_000
    ensures e / 1000 / 60 / 60 / 24 == e / 86_400_000
  {
    var s := e / 1000;
    var m := s / 60;
    var h := m / 60;
    assert e == 60_000 * m + 1000 * (s % 60) + e % 1000;
    assert e == 3_600_000 * h + 60_000 * (m % 60) + 1000 * (s % 60) + e % 1000;
    assert e == 86_400_000 * (h / 24) + 3_600_000 * (h % 24) + 60_000 * (m % 60) + 1000 * (s % 60) + e % 1000;
  }

  // ---------------------------------------------------------------------
  // truncarNombre, toReadableTime

  /** The limit `truncarNombre` uses when none is given. */
  const DefaultMaximoCaracteres := 30

  /** `truncarNombre`: a name longer than the limit is cut to the limit and
      marked with an ellipsis; a shorter one is kept. A negative limit is
      always exceeded and makes `substring` throw, modelled as None. */
  function TruncarNombre(s: string, maximoCaracteres: int): (r: Option<string>)
    ensures r.None? <==> maximoCaracteres < 0
    ensures r.Some? && |s| <= maximoCaracteres ==> r.value == s
    ensures r.Some? && |s| > maximoCaracteres ==>
      |r.value| == maximoCaracteres + 3 && StartsWith(s, r.value[..maximoCaracteres])
      && r.value[maximoCaracteres..] == "..."
  {
    if |s| > maximoCaracteres then
      if maximoCaracteres < 0 then None else Some(s[..maximoCaracteres] + "...")
    else Some(s)
  }

  /** With the default limit a name is never refused, comes back whole up
      to 30 characters, and is otherwise cut to 30 plus the ellipsis. */
  lemma TruncarNombreDefault(s: string)
    ensures TruncarNombre(s, DefaultMaximoCaracteres).Some?
    ensures |TruncarNombre(s, DefaultMaximoCaracteres).value| <= 33
    ensures |s| <= 30 ==> TruncarNombre(s, DefaultMaximoCaracteres).value == s
  {
  }

  /** `toReadableTime` of a number of seconds. */
  function ToReadableTime(seconds: int): (r: string)
    requires IsLong(seconds)
    ensures |r| >= 3 && r[|r| - 1] == 's'
    ensures r[|r| - 2] == ' ' <==> ToInt(Quot(seconds, 60)) <= 0
  {
    var minutos := ToInt(Quot(seconds, 60));
    var segundos := ToInt(Rem(seconds, 60));
    if minutos > 0 then IntToString(minutos) + " min " + IntToString(segundos) + "s"
    else IntToString(segundos) + " s"
  }

  /** For a non-negative count whose minutes fit in an Int, the text shows
      the whole minutes and the remaining seconds, and leaves the minutes
      out exactly when there are none. */
  lemma ReadableTimeShowsMinutesAndSeconds(seconds: int)
    requires 0 <= seconds && seconds / 60 <= MaxInt
    ensures seconds / 60 == 0 ==> ToReadableTime(seconds) == IntToString(seconds % 60) + " s"
    ensures seconds / 60 > 0 ==>
      ToReadableTime(seconds) == IntToString(seconds / 60) + " min " + IntToString(seconds % 60) + "s"
  {
  }

  /** A negative count whose minutes fit in an Int never shows minutes: it
      prints the truncated remainder alone, so -75 reads "-15 s". */
  lemma ReadableTimeOfNegative(seconds: int)
    requires MinInt * 60 <= seconds < 0
    ensures ToReadableTime(seconds) == IntToString(-((-seconds) % 60)) + " s"
  {
  }

  // ---------------------------------------------------------------------
  // parseGuideDate, filterGuidesByDate

  /** `parseGuideDate`: the guide's date text read as an ISO calendar date;
      a date is read only from its own ISO text. */
  function ParseGuideDate(dateString: string): (r: Option<LocalDate>)
    ensures r.Some? ==> IsValidDate(r.value) && 0 <= r.value.year <= 9999
                        && FormatIsoDate(r.value) == dateString
  {
    if ParseIsoDate(dateString).Some? then
      FormatParseIsoDate(dateString);
      ParseIsoDate(dateString)
    else None
  }

  /** The UTC date of an optional bound. */
  function BoundDate(millis: Option<int>): Option<LocalDate> {
    match millis
    case None => None
    case Some(ms) => Some(DateOfMillis(ms))
  }

  /** The test the filter applies to one guide. */
  predicate InDateRange(g: RemissionGuide, startDate: Option<LocalDate>, endDate: Option<LocalDate>) {
    match ParseGuideDate(g.date)
    case None => false
    case Some(d) =>
      (startDate.None? || DateLe(startDate.value, d)) && (endDate.None? || DateLe(d, endDate.value))
  }

  /** `filterGuidesByDate`. */
  function FilterGuidesByDate(guides: seq<RemissionGuide>, startDateMillis: Option<int>, endDateMillis: Option<int>)
    : (r: seq<RemissionGuide>)
    ensures startDateMillis.None? && endDateMillis.None? ==> r == guides
    ensures IsSubsequence(r, guides)
    ensures startDateMillis.Some? || endDateMillis.Some? ==>
      forall i :: 0 <= i < |r| ==> InDateRange(r[i], BoundDate(startDateMillis), BoundDate(endDateMillis))
    ensures forall i ::
      (0 <= i < |guides| && InDateRange(guides[i], BoundDate(startDateMillis), BoundDate(endDateMillis)))
      ==> guides[i] in r
  {
    if startDateMillis.None? && endDateMillis.None? then
      SubsequenceReflexive(guides);
      guides
    else
      var startDate, endDate := BoundDate(startDateMillis), BoundDate(endDateMillis);
      FilterIsSubsequence(guides, g => InDateRange(g, startDate, endDate));
      Filter(guides, g => InDateRange(g, startDate, endDate))
  }

  /** Once a bound is given, a guide whose date does not parse is dropped. */
  lemma UnparseableDateExcluded(guides: seq<RemissionGuide>, s: Option<int>, e: Option<int>, g: RemissionGuide)
    requires s.Some? || e.Some?
    requires ParseGuideDate(g.date).None?
    ensures g !in FilterGuidesByDate(guides, s, e)
  {
  }

  /** Kept guides are exactly the listed guides whose date parses to a day
      between the UTC day of the start bound and that of the end bound,
      both inclusive. */
  lemma FilterKeepsDaysInRange(guides: seq<RemissionGuide>, s: Option<int>, e: Option<int>, g: RemissionGuide)
    requires s.Some? || e.Some?
    ensures g in FilterGuidesByDate(guides, s, e) <==>
      g in guides && ParseGuideDate(g.date).Some?
      && (s.Some? ==> s.value / MillisPerDay <= EpochDay(ParseGuideDate(g.date).value))
      && (e.Some? ==> EpochDay(ParseGuideDate(g.date).value) <= e.value / MillisPerDay)
  {
    var r := FilterGuidesByDate(guides, s, e);
    match ParseGuideDate(g.date)
    case None =>
    case Some(d) =>
      if s.Some? { DateOrderIsDayOrder(DateOfMillis(s.value), d); }
      if e.Some? { DateOrderIsDayOrder(d, DateOfMillis(e.value)); }
      if g in guides {
        var i :| 0 <= i < |guides| && guides[i] == g;
      }
      if g in r {
        var i :| 0 <= i < |r| && r[i] == g;
        FilterMembers(guides, s, e, r, i);
      }
  }

  /** The filter keeps every copy of a guide in range, as often as it is
      listed, and no copy of any other guide. */
  lemma FilterGuidesByDateCount(guides: seq<RemissionGuide>, s: Option<int>, e: Option<int>, g: RemissionGuide)
    requires s.Some? || e.Some?
    ensures multiset(FilterGuidesByDate(guides, s, e))[g]
      == if InDateRange(g, BoundDate(s), BoundDate(e)) then multiset(guides)[g] else 0
  {
    var startDate, endDate := BoundDate(s), BoundDate(e);
    FilterCount(guides, h => InDateRange(h, startDate, endDate), g);
  }

  lemma FilterMembers(guides: seq<RemissionGuide>, s: Option<int>, e: Option<int>, r: seq<RemissionGuide>, i: int)
    requires s.Some? || e.Some?
    requires r == FilterGuidesByDate(guides, s, e) && 0 <= i < |r|
    ensures r[i] in guides && InDateRange(r[i], BoundDate(s), BoundDate(e))
  {
    var startDate, endDate := BoundDate(s), BoundDate(e);
    assert r == Filter(guides, g => InDateRange(g, startDate, endDate));
  }

  /** Filtering an already filtered list with the same bounds changes nothing. */
  lemma FilterGuidesByDateIdempotent(guides: seq<RemissionGuide>, s: Option<int>, e: Option<int>)
    ensures FilterGuidesByDate(FilterGuidesByDate(guides, s, e), s, e) == FilterGuidesByDate(guides, s, e)
  {
    if s.Some? || e.Some? {
      var startDate, endDate := BoundDate(s), BoundDate(e);
      FilterIdempotent(guides, g => InDateRange(g, startDate, endDate));
    }
  }
}
