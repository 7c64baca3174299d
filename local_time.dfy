/** Local time for the Europe/Oslo region as the controller derives it from a
    UTC clock reading: a Gregorian day count, the "last Sunday" scan, the
    summer-time window and the local minute-of-day (utils.py, lines 67-98).

    The clock is injected: every operation takes the UTC reading
    `(y, mo, d, hh, mi, ss)` that `time.gmtime()` would have returned. */
module LocalTime {

  /** A calendar date `(y, mo, d)` as compared by the scheduler. */
  datatype Date = Date(year: int, month: int, day: int)

  /** The six fields of `time.gmtime()` the controller uses. */
  datatype UtcTime = UtcTime(year: int, month: int, day: int, hour: int, minute: int, second: int)

  function DaysInMonth(year: int, month: int): int {
    if month == 2 then (if IsLeapYear(year) then 29 else 28)
    else if month == 4 || month == 6 || month == 9 || month == 11 then 30
    else 31
  }

  predicate IsLeapYear(year: int) {
    year % 4 == 0 && (year % 100 != 0 || year % 400 == 0)
  }

  /** What `time.gmtime()` can return. */
  predicate ValidUtc(t: UtcTime) {
    && 1 <= t.month <= 12
    && 1 <= t.day <= DaysInMonth(t.year, t.month)
    && 0 <= t.hour < 24
    && 0 <= t.minute < 60
    && 0 <= t.second < 60
  }

  // ---------- Gregorian day arithmetic (stands in for time.mktime) ----------

  /** Days in the March-based year before the 1st of month `month`
      (March = 0, ..., February = 11 after the shift). */
  function MonthOffset(month: int): int {
    (153 * ((month + 9) % 12) + 2) / 5
  }

  /** Days since 1970-01-01 of the proleptic Gregorian date `(year, month, day)`.
      A day beyond the end of a month counts on into the next month, as
      `time.mktime` normalises it. */
  function DaysFromCivil(year: int, month: int, day: int): int {
    var y := if month <= 2 then year - 1 else year;
    var era := y / 400;
    var yoe := y - era * 400;
    var doe := yoe * 365 + yoe / 4 - yoe / 100 + MonthOffset(month) + day - 1;
    era * 146097 + doe - 719468
  }

  /** Day of the week with 0 = Monday .. 6 = Sunday, the convention of
      `time.gmtime()[6]` (1970-01-01 was a Thursday). */
  function DayOfWeek(year: int, month: int, day: int): (w: int)
    ensures 0 <= w < 7
  {
    (DaysFromCivil(year, month, day) + 3) % 7
  }

  lemma DaysFromCivilStep(year: int, month: int, day: int, k: int)
    ensures DaysFromCivil(year, month, day - k) == DaysFromCivil(year, month, day) - k
  {
  }

  /** Going back `k` days within a month moves the weekday back by `k`. */
  lemma DayOfWeekBack(year: int, month: int, day: int, k: int)
    ensures DayOfWeek(year, month, day - k) == (DayOfWeek(year, month, day) - k) % 7
  {
    DaysFromCivilStep(year, month, day, k);
  }

  /** The calendar day after `(year, month, day)`. */
  function NextDate(year: int, month: int, day: int): Date {
    if day < DaysInMonth(year, month) then Date(year, month, day + 1)
    else if month < 12 then Date(year, month + 1, 1)
    else Date(year + 1, 1, 1)
  }

  /** The count starts at 1970-01-01, a Thursday. */
  lemma DaysFromCivilEpoch()
    ensures DaysFromCivil(1970, 1, 1) == 0
    ensures DayOfWeek(1970, 1, 1) == 3
  {
  }

  /** For days from March on, the count splits into the count for the 1st
      of March plus the days into the March-based year. */
  lemma DaysAfterMarch(year: int, month: int, day: int)
    requires 3 <= month <= 12
    ensures DaysFromCivil(year, month, day) == DaysFromCivil(year, 3, 1) + MonthOffset(month) + day - 1
  {
  }

  /** January and February count on from the 1st of March of the year before. */
  lemma DaysBeforeMarch(year: int, month: int, day: int)
    requires 1 <= month <= 2
    ensures DaysFromCivil(year, month, day) == DaysFromCivil(year - 1, 3, 1) + MonthOffset(month) + day - 1
    ensures MonthOffset(month) == if month == 1 then 306 else 337
  {
  }

  /** From the 1st of March of one year to the next there are 365 days, or
      366 when the February in between has a 29th. */
  lemma MarchYearLength(year: int)
    ensures DaysFromCivil(year + 1, 3, 1) ==
      DaysFromCivil(year, 3, 1) + (if IsLeapYear(year + 1) then 366 else 365)
  {
    var era := year / 400;
    var yoe := year - era * 400;
    if yoe < 399 {
      MarchYearWithinEra(year, era, yoe);
    } else {
      MarchYearAcrossEra(year, era);
      LeapAtEraStart(year + 1, era + 1);
    }
  }

  /** A year that is not the last of its 400-year era. */
  lemma MarchYearWithinEra(year: int, era: int, yoe: int)
    requires year == era * 400 + yoe && 0 <= yoe < 399
    ensures DaysFromCivil(year + 1, 3, 1) ==
      DaysFromCivil(year, 3, 1) + (if IsLeapYear(year + 1) then 366 else 365)
  {
    MarchFirstDays(year, era, yoe);
    MarchFirstDays(year + 1, era, yoe + 1);
    YearStepWithinEra(year, era, yoe);
  }

  /** The last year of an era, followed by the first of the next. */
  lemma MarchYearAcrossEra(year: int, era: int)
    requires year == era * 400 + 399
    ensures DaysFromCivil(year + 1, 3, 1) == DaysFromCivil(year, 3, 1) + 366
  {
    MarchFirstDays(year, era, 399);
    MarchFirstDays(year + 1, era + 1, 0);
  }

  /** The first year of an era is a leap year. */
  lemma LeapAtEraStart(y: int, era: int)
    requires y == era * 400
    ensures IsLeapYear(y)
  {
    ModShift(y, era * 100, 0, 4);
    ModShift(y, era * 4, 0, 100);
    assert y % 400 == 0;
  }

  lemma YearStepWithinEra(year: int, era: int, yoe: int)
    requires year == era * 400 + yoe && 0 <= yoe < 399
    ensures era * 146097 + (yoe + 1) * 365 + (yoe + 1) / 4 - (yoe + 1) / 100 ==
      era * 146097 + yoe * 365 + yoe / 4 - yoe / 100 + (if IsLeapYear(year + 1) then 366 else 365)
  {
    EraYearStep(yoe);
    LeapInEra(year + 1, era, yoe + 1);
  }

  /** The count for the 1st of March of year `era * 400 + yoe`. */
  lemma MarchFirstDays(y: int, era: int, yoe: int)
    requires y == era * 400 + yoe && 0 <= yoe < 400
    ensures DaysFromCivil(y, 3, 1) == era * 146097 + yoe * 365 + yoe / 4 - yoe / 100 - 719468
  {
    assert y / 400 == era;
  }

  /** Within an era, each year adds 365 days and one more when the next
      year of the era is a leap year. */
  lemma EraYearStep(yoe: int)
    requires 0 <= yoe < 399
    ensures (yoe + 1) * 365 + (yoe + 1) / 4 - (yoe + 1) / 100 ==
      yoe * 365 + yoe / 4 - yoe / 100 + (if (yoe + 1) % 4 == 0 && (yoe + 1) % 100 != 0 then 366 else 365)
  {
  }

  /** Year `k` of an era is a leap year by the era-local rule. */
  lemma LeapInEra(y: int, era: int, k: int)
    requires y == era * 400 + k && 0 < k < 400
    ensures IsLeapYear(y) <==> k % 4 == 0 && k % 100 != 0
  {
    ModShift(y, era * 100, k, 4);
    ModShift(y, era * 4, k, 100);
    assert y % 400 == k;
  }

  lemma ModShift(y: int, a: int, k: int, m: int)
    requires m == 4 || m == 100
    requires y == m * a + k && 0 <= k
    ensures y % m == k % m
  {
    var q := k / m;
    assert k == m * q + k % m;
    assert y == m * (a + q) + k % m;
  }

  /** The length of each month from March to November is the gap between its
      offset and the next month's. */
  lemma MonthOffsetStep(year: int, month: int)
    requires 3 <= month <= 11
    ensures MonthOffset(month + 1) == MonthOffset(month) + DaysInMonth(year, month)
  {
    if month == 3 {} else if month == 4 {} else if month == 5 {} else if month == 6 {}
    else if month == 7 {} else if month == 8 {} else if month == 9 {} else if month == 10 {}
  }

  /** The count goes up by one from each valid date to the next, across the
      ends of months and years. */
  lemma DaysFromCivilNext(year: int, month: int, day: int)
    requires 1 <= month <= 12 && 1 <= day <= DaysInMonth(year, month)
    ensures var n := NextDate(year, month, day);
      DaysFromCivil(n.year, n.month, n.day) == DaysFromCivil(year, month, day) + 1
  {
    if day < DaysInMonth(year, month) {
      DaysFromCivilStep(year, month, day + 1, 1);
    } else if month == 2 {
      NextFromFebruary(year, day);
    } else if month < 12 {
      NextMonth(year, month, day);
    } else {
      NextFromDecember(year, day);
    }
  }

  /** With the epoch, the weekday of every date follows: each next day is the
      next weekday. */
  lemma DayOfWeekNext(year: int, month: int, day: int)
    requires 1 <= month <= 12 && 1 <= day <= DaysInMonth(year, month)
    ensures var n := NextDate(year, month, day);
      DayOfWeek(n.year, n.month, n.day) == (DayOfWeek(year, month, day) + 1) % 7
  {
    var n := NextDate(year, month, day);
    DaysFromCivilNext(year, month, day);
    WeekdayStep(DaysFromCivil(year, month, day), DaysFromCivil(n.year, n.month, n.day));
  }

  lemma WeekdayStep(a: int, b: int)
    requires b == a + 1
    ensures (b + 3) % 7 == ((a + 3) % 7 + 1) % 7
  {
  }

  lemma NextFromFebruary(year: int, day: int)
    requires day == DaysInMonth(year, 2)
    ensures DaysFromCivil(year, 3, 1) == DaysFromCivil(year, 2, day) + 1
  {
    DaysBeforeMarch(year, 2, day);
    MarchYearLength(year - 1);
  }

  lemma NextMonth(year: int, month: int, day: int)
    requires month == 1 || 3 <= month <= 11
    requires day == DaysInMonth(year, month)
    ensures DaysFromCivil(year, month + 1, 1) == DaysFromCivil(year, month, day) + 1
  {
    if month == 1 {
      DaysBeforeMarch(year, 1, day);
      DaysBeforeMarch(year, 2, 1);
    } else {
      DaysAfterMarch(year, month, day);
      DaysAfterMarch(year, month + 1, 1);
      MonthOffsetStep(year, month);
    }
  }

  lemma NextFromDecember(year: int, day: int)
    requires day == 31
    ensures DaysFromCivil(year + 1, 1, 1) == DaysFromCivil(year, 12, day) + 1
  {
    DaysAfterMarch(year, 12, day);
    DaysBeforeMarch(year + 1, 1, 1);
    assert MonthOffset(12) == 275;
  }

  /** Seconds since the epoch of a UTC tuple; the comparison `time.mktime`
      makes possible in `is_dst_oslo_now_utc`. */
  function Seconds(year: int, month: int, day: int, hour: int, minute: int, second: int): int {
    DaysFromCivil(year, month, day) * 86400 + hour * 3600 + minute * 60 + second
  }

  /** A valid time of day lies within its date's 86400 seconds, so the
      seconds order valid instants by date first, then by time of day. */
  lemma SecondsWithinDay(year: int, month: int, day: int, hour: int, minute: int, second: int)
    requires 0 <= hour < 24 && 0 <= minute < 60 && 0 <= second < 60
    ensures DaysFromCivil(year, month, day) * 86400 <= Seconds(year, month, day, hour, minute, second)
    ensures Seconds(year, month, day, hour, minute, second) < DaysFromCivil(year, month, day) * 86400 + 86400
  {
  }

  // ---------- _last_sunday ----------

  /** The scan of `_last_sunday` from `day` downwards: the first Sunday among
      `day, day - 1, ..., 28`, or 31 when there is none. */
  function ScanDown(year: int, month: int, day: int): (d: int)
    requires day <= 31
    ensures 28 <= d <= 31
    ensures d == 31 || DayOfWeek(year, month, d) == 6
    decreases day
  {
    if day < 28 then 31
    else if DayOfWeek(year, month, day) == 6 then day
    else ScanDown(year, month, day - 1)
  }

  /** The day `_last_sunday(year, month)` returns. */
  function LastSundayScan(year: int, month: int): int {
    ScanDown(year, month, 31)
  }

  /** The descending search loop of `_last_sunday`: tries days 31, 30, 29, 28
      and returns the first Sunday, falling back to day 31. */
  method LastSunday(year: int, month: int) returns (day: int)
    ensures day == LastSundayScan(year, month)
    ensures 28 <= day <= 31
    ensures forall k :: day < k <= 31 ==> DayOfWeek(year, month, k) != 6
    ensures day == 31 || DayOfWeek(year, month, day) == 6
  {
    var d := 31;
    while d > 27
      invariant 27 <= d <= 31
      invariant ScanDown(year, month, d) == LastSundayScan(year, month)
      invariant forall k :: d < k <= 31 ==> DayOfWeek(year, month, k) != 6
    {
      if DayOfWeek(year, month, d) == 6 {
        return d;
      }
      d := d - 1;
    }
    return 31;
  }

  /** The actual last Sunday of a 31-day month, the reference the scan is
      measured against. */
  ghost predicate IsLastSunday(year: int, month: int, day: int) {
    && 1 <= month <= 12 && DaysInMonth(year, month) == 31
    && 1 <= day <= 31
    && DayOfWeek(year, month, day) == 6
    && forall k :: day < k <= 31 ==> DayOfWeek(year, month, k) != 6
  }

  /** Every 31-day month has a last Sunday, on day 25 or later. */
  lemma LastSundayExists(year: int, month: int) returns (day: int)
    requires 1 <= month <= 12 && DaysInMonth(year, month) == 31
    ensures 25 <= day <= 31 && IsLastSunday(year, month, day)
  {
    var w := DayOfWeek(year, month, 31);
    var back := (w + 1) % 7;
    day := 31 - back;
    DayOfWeekBack(year, month, 31, back);
    forall k | day < k <= 31
      ensures DayOfWeek(year, month, k) != 6
    {
      DayOfWeekBack(year, month, 31, 31 - k);
    }
  }

  /** The scan agrees with the real last Sunday when that falls on the 28th or
      later, and answers 31 when it falls on the 25th, 26th or 27th. */
  lemma {:induction false} ScanFindsLateLastSunday(year: int, month: int, day: int)
    requires IsLastSunday(year, month, day)
    ensures day >= 28 ==> LastSundayScan(year, month) == day
    ensures day < 28 ==> LastSundayScan(year, month) == 31
  {
    var d := 31;
    while d > day && d >= 28
      invariant (if day < 27 then 27 else day) <= d <= 31
      invariant ScanDown(year, month, d) == LastSundayScan(year, month)
    {
      d := d - 1;
    }
  }

  /** October 2024: the last Sunday was the 27th, but the scan gives the 31st. */
  lemma October2024Scan()
    ensures IsLastSunday(2024, 10, 27)
    ensures LastSundayScan(2024, 10) == 31
  {
    assert DaysFromCivil(2024, 10, 31) == 20027;
    assert DayOfWeek(2024, 10, 27) == 6;
    forall k | 27 < k <= 31
      ensures DayOfWeek(2024, 10, k) != 6
    {
      DayOfWeekBack(2024, 10, 31, 31 - k);
    }
    ScanFindsLateLastSunday(2024, 10, 27);
  }

  // ---------- is_dst_oslo_now_utc ----------

  /** 01:00:00 UTC on the scanned last Sunday of March. */
  function DstStart(year: int): int {
    Seconds(year, 3, LastSundayScan(year, 3), 1, 0, 0)
  }

  /** 01:00:00 UTC on the scanned last Sunday of October. */
  function DstEnd(year: int): int {
    Seconds(year, 10, LastSundayScan(year, 10), 1, 0, 0)
  }

  function SecondsOf(t: UtcTime): int {
    Seconds(t.year, t.month, t.day, t.hour, t.minute, t.second)
  }

  /** Summer time holds on the half-open window `[DstStart, DstEnd)` of the
      current UTC year. */
  predicate IsDst(t: UtcTime) {
    DstStart(t.year) <= SecondsOf(t) < DstEnd(t.year)
  }

  /** Hours east of UTC: CEST = UTC+2 in summer, CET = UTC+1 otherwise. */
  function UtcOffset(t: UtcTime): (h: int)
    ensures h == 1 || h == 2
    ensures h == 2 <==> IsDst(t)
  {
    if IsDst(t) then 2 else 1
  }

  /** One second before the March boundary is winter time, the boundary
      itself is summer time; one second before the October boundary is still
      summer time, the boundary itself is winter time. */
  lemma DstBoundaries(year: int)
    ensures !IsDst(UtcTime(year, 3, LastSundayScan(year, 3), 0, 59, 59))
    ensures IsDst(UtcTime(year, 3, LastSundayScan(year, 3), 1, 0, 0))
    ensures IsDst(UtcTime(year, 10, LastSundayScan(year, 10), 0, 59, 59))
    ensures !IsDst(UtcTime(year, 10, LastSundayScan(year, 10), 1, 0, 0))
  {
    var sd, ed := LastSundayScan(year, 3), LastSundayScan(year, 10);
    DaysAfterMarch(year, 3, sd);
    DaysAfterMarch(year, 10, ed);
    assert MonthOffset(10) == 214;
    assert DaysFromCivil(year, 3, sd) < DaysFromCivil(year, 10, ed);
  }

  /** Every valid instant from April to September is summer time. */
  lemma SummerMonthsAreDst(t: UtcTime)
    requires ValidUtc(t) && 4 <= t.month <= 9
    ensures IsDst(t)
  {
    var sd, ed := LastSundayScan(t.year, 3), LastSundayScan(t.year, 10);
    DaysAfterMarch(t.year, 3, sd);
    DaysAfterMarch(t.year, 10, ed);
    DaysAfterMarch(t.year, t.month, t.day);
    assert MonthOffset(10) == 214;
    assert 31 <= MonthOffset(t.month) <= 184;
  }

  /** Every valid instant of November and December is winter time. */
  lemma LateAutumnIsNotDst(t: UtcTime)
    requires ValidUtc(t) && 11 <= t.month <= 12
    ensures !IsDst(t)
  {
    var ed := LastSundayScan(t.year, 10);
    DaysAfterMarch(t.year, 10, ed);
    DaysAfterMarch(t.year, t.month, t.day);
    assert MonthOffset(10) == 214;
    assert MonthOffset(t.month) >= 245;
  }

  /** Summer time read off the calendar fields: April to September, March
      from 01:00 on the scanned day, October until 01:00 on the scanned day. */
  predicate CalendarDst(t: UtcTime) {
    var sd, ed := LastSundayScan(t.year, 3), LastSundayScan(t.year, 10);
    || 4 <= t.month <= 9
    || (t.month == 3 && (t.day > sd || (t.day == sd && t.hour >= 1)))
    || (t.month == 10 && (t.day < ed || (t.day == ed && t.hour < 1)))
  }

  /** For every valid instant, the seconds comparison of
      `is_dst_oslo_now_utc` agrees with the calendar reading. */
  lemma IsDstByCalendar(t: UtcTime)
    requires ValidUtc(t)
    ensures IsDst(t) <==> CalendarDst(t)
  {
    if 4 <= t.month <= 9 {
      SummerMonthsAreDst(t);
    } else if 11 <= t.month {
      LateAutumnIsNotDst(t);
    } else if t.month <= 2 {
      EarlyYearIsNotDst(t);
    } else if t.month == 3 {
      MarchDst(t);
    } else {
      OctoberDst(t);
    }
  }

  /** Every valid instant of January and February is winter time. */
  lemma EarlyYearIsNotDst(t: UtcTime)
    requires ValidUtc(t) && t.month <= 2
    ensures !IsDst(t)
  {
    var sd := LastSundayScan(t.year, 3);
    DaysAfterMarch(t.year, 3, sd);
    DaysBeforeMarch(t.year, t.month, t.day);
    MarchYearLength(t.year - 1);
    SecondsWithinDay(t.year, t.month, t.day, t.hour, t.minute, t.second);
  }

  /** In March summer time starts at 01:00 on the scanned day. */
  lemma MarchDst(t: UtcTime)
    requires ValidUtc(t) && t.month == 3
    ensures IsDst(t) <==> t.day > LastSundayScan(t.year, 3) || (t.day == LastSundayScan(t.year, 3) && t.hour >= 1)
  {
    var sd, ed := LastSundayScan(t.year, 3), LastSundayScan(t.year, 10);
    DaysAfterMarch(t.year, 3, sd);
    DaysAfterMarch(t.year, 3, t.day);
    DaysAfterMarch(t.year, 10, ed);
    assert MonthOffset(10) == 214;
    SecondsWithinDay(t.year, t.month, t.day, t.hour, t.minute, t.second);
  }

  /** In October summer time ends at 01:00 on the scanned day. */
  lemma OctoberDst(t: UtcTime)
    requires ValidUtc(t) && t.month == 10
    ensures IsDst(t) <==> t.day < LastSundayScan(t.year, 10) || (t.day == LastSundayScan(t.year, 10) && t.hour < 1)
  {
    var sd, ed := LastSundayScan(t.year, 3), LastSundayScan(t.year, 10);
    DaysAfterMarch(t.year, 3, sd);
    DaysAfterMarch(t.year, 10, t.day);
    DaysAfterMarch(t.year, 10, ed);
    assert MonthOffset(10) == 214;
    SecondsWithinDay(t.year, t.month, t.day, t.hour, t.minute, t.second);
  }

  /** The October 2024 scan keeps summer time one extra scanned week: on
      2024-10-28 at 12:00 UTC the model (like the source) still uses UTC+2. */
  lemma October2024LateDst()
    ensures IsDst(UtcTime(2024, 10, 28, 12, 0, 0))
  {
    October2024Scan();
    DaysAfterMarch(2024, 3, LastSundayScan(2024, 3));
    DaysAfterMarch(2024, 10, 31);
    DaysAfterMarch(2024, 10, 28);
  }

  // ---------- local_minutes_since_midnight ----------

  /** Local minute-of-day and the date the scheduler compares.  The hour
      wraps modulo 24 after adding the offset; the date is the UTC date, not
      moved to local time. */
  function LocalMinutes(t: UtcTime): (r: (int, Date))
    ensures 0 <= t.minute < 60 ==> 0 <= r.0 < 1440 && r.0 % 60 == t.minute
    ensures 0 <= t.minute < 60 ==> (r.0 / 60 - UtcOffset(t)) % 24 == t.hour % 24
    ensures r.1 == Date(t.year, t.month, t.day)
  {
    var hh := (t.hour + UtcOffset(t)) % 24;
    HourMinute(hh, t.minute);
    ShiftBack(t.hour, UtcOffset(t));
    (hh * 60 + t.minute, Date(t.year, t.month, t.day))
  }

  lemma HourMinute(hh: int, mi: int)
    requires 0 <= hh < 24
    ensures 0 <= mi < 60 ==> 0 <= hh * 60 + mi < 1440
    ensures 0 <= mi < 60 ==> (hh * 60 + mi) / 60 == hh && (hh * 60 + mi) % 60 == mi
  {
  }

  lemma ShiftBack(hour: int, off: int)
    ensures ((hour + off) % 24 - off) % 24 == hour % 24
  {
  }

  /** Local 00:30 on 2 January 2024 is still dated 1 January: the date
      changes at UTC midnight, which is 01:00 local time in winter. */
  lemma LocalDateIsUtcDate()
    ensures LocalMinutes(UtcTime(2024, 1, 1, 23, 30, 0)) == (30, Date(2024, 1, 1))
  {
    var t := UtcTime(2024, 1, 1, 23, 30, 0);
    assert !IsDst(t) by {
      DaysAfterMarch(2024, 3, LastSundayScan(2024, 3));
      assert DaysFromCivil(2024, 1, 1) < DaysFromCivil(2024, 3, 1);
    }
  }
}
