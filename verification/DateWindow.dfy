/**
 The date window of a schedule record (main/EVENT_Actor.c): Start_EpochDay and Stop_EpochDay turn
 the record's month and day pairs into day numbers of the current year, and the scan accepts the
 day in between. Ranges may wrap over New Year.
 */
module DateWindow {
  import opened Calendar
  import opened Common

  const HOLIDAY_RANGE: nat := 3

  /** A row of the schedule table. */
  datatype Record = Record(
    eventId: nat, scriptId: nat, dateRangeType: nat,
    startMonth: nat, startDay: nat, endMonth: nat, endDay: nat,
    weekDays: bv8, timeType: nat,
    holidayStartIndex: nat, holidayStartOffset: int, holidayEndIndex: nat, holidayEndOffset: int,
    offsetMinutes: int, hour: nat, minute: int, sortOrder: nat)

  /** The month and day pairs a record's window is computed from. */
  datatype Span = Span(startMonth: nat, startDay: nat, endMonth: nat, endDay: nat)

  /** Months as the tables index them; days as positive `int8_t`, whether or not the month has them. */
  predicate ProperSpan(s: Span) {
    1 <= s.startMonth <= 12 && 1 <= s.endMonth <= 12 && 1 <= s.startDay <= 127 && 1 <= s.endDay <= 127
  }

  // ---------------------------------------------------------------- day of the year

  const CUMULATIVE: seq<seq<nat>> := [
    [0, 0, 31, 59, 90, 120, 151, 181, 212, 243, 273, 304, 334],
    [0, 0, 31, 60, 91, 121, 152, 182, 213, 244, 274, 305, 335]
  ]

  /** `yisleap`, which the scan calls with the two-digit year. */
  predicate YIsLeap(year: nat) {
    (year % 4 == 0 && year % 100 != 0) || year % 400 == 0
  }

  function GetYDay(day: nat, mon: nat, year: nat): nat {
    CUMULATIVE[if YIsLeap(year) then 1 else 0][mon % 13] + day
  }

  lemma LeapRule(year: nat)
    requires year < 256
    ensures YIsLeap(year) <==> year % 4 == 0 && year != 100 && year != 200
  {
  }

  lemma TablesAgree(y: nat, mon: nat)
    requires y < 4 && 1 <= mon <= 12
    ensures DAYS[y][mon - 1] == DAYS[y][0] + CUMULATIVE[if y == 0 then 1 else 0][mon]
    ensures CUMULATIVE[0][mon] == CUMULATIVE[1][mon] <==> mon <= 2
  {
  }

  /** The two leap rules number the days of a year alike, except after February of years 100 and 200. */
  lemma DayNumberingsAgree(year: nat, mon: nat, day: nat)
    requires year < 256 && 1 <= mon <= 12 && 1 <= day
    ensures EpochDays(Date(year, mon, day)) == EpochDays(Date(year, 1, 1)) + GetYDay(day, mon, year) - 1
            <==> mon <= 2 || (year != 100 && year != 200)
  {
    LeapRule(year);
    TablesAgree(year % 4, mon);
  }

  /** Dates that exist in the year are ordered by month and then day. */
  lemma YDayOrderIsDateOrder(a: Date, b: Date)
    requires a.year == b.year && 1 <= a.month <= 12 && 1 <= b.month <= 12
    requires 1 <= a.date <= MonthLength(YIsLeap(a.year), a.month)
    requires 1 <= b.date <= MonthLength(YIsLeap(b.year), b.month)
    ensures GetYDay(a.date, a.month, a.year) <= GetYDay(b.date, b.month, b.year)
            <==> a.month < b.month || (a.month == b.month && a.date <= b.date)
  {
    var leap := YIsLeap(a.year);
    assert a.month % 13 == a.month && b.month % 13 == b.month;
    if a.month < b.month {
      MonthsDoNotOverlap(leap, a.month, b.month);
    } else if b.month < a.month {
      MonthsDoNotOverlap(leap, b.month, a.month);
    }
  }

  lemma {:induction false} MonthsDoNotOverlap(leap: bool, m: nat, k: nat)
    requires 1 <= m < k <= 12
    ensures CUMULATIVE[if leap then 1 else 0][m] + MonthLength(leap, m) <= CUMULATIVE[if leap then 1 else 0][k]
  {
    if m + 1 < k { MonthsDoNotOverlap(leap, m, k - 1); }
  }

  // ---------------------------------------------------------------- the window

  /** One holiday of the current year, moved by an offset in days; the table holds seconds since 1970. */
  predicate HolidayInTable(holidays: seq<seq<nat>>, index: nat, offset: int, year: nat) {
    && 1 <= index <= |holidays| && 20 <= year < 20 + |holidays[index - 1]|
    && 0 <= holidays[index - 1][year - 20] + offset * 24 * 60 * 60 - EPOCH_TO_30_YEAR < 0x1_0000_0000
  }

  function HolidayDate(holidays: seq<seq<nat>>, index: nat, offset: int, year: nat): (d: Date)
    requires HolidayInTable(holidays, index, offset, year)
    ensures TableDate(d)
  {
    EncodeUndoesDecode(holidays[index - 1][year - 20] + offset * 24 * 60 * 60 - EPOCH_TO_30_YEAR);
    DateTimeOf(holidays[index - 1][year - 20] + offset * 24 * 60 * 60 - EPOCH_TO_30_YEAR).day
  }

  predicate RecordInDomain(rec: Record, holidays: seq<seq<nat>>, year: nat) {
    if rec.dateRangeType == HOLIDAY_RANGE then
      && HolidayInTable(holidays, rec.holidayStartIndex, rec.holidayStartOffset, year)
      && HolidayInTable(holidays, rec.holidayEndIndex, rec.holidayEndOffset, year)
    else
      ProperSpan(Span(rec.startMonth, rec.startDay, rec.endMonth, rec.endDay))
  }

  function SpanOf(rec: Record, holidays: seq<seq<nat>>, year: nat): (s: Span)
    requires RecordInDomain(rec, holidays, year)
    ensures ProperSpan(s)
  {
    if rec.dateRangeType == HOLIDAY_RANGE then
      var a := HolidayDate(holidays, rec.holidayStartIndex, rec.holidayStartOffset, year);
      var b := HolidayDate(holidays, rec.holidayEndIndex, rec.holidayEndOffset, year);
      Span(a.month, a.date, b.month, b.date)
    else
      Span(rec.startMonth, rec.startDay, rec.endMonth, rec.endDay)
  }

  /** The first and last day numbers of the window, as the two functions return them. */
  function WindowStart(s: Span, today: Date): nat
    requires ProperSpan(s)
  {
    var start, stop, current := GetYDay(s.startDay, s.startMonth, today.year), GetYDay(s.endDay, s.endMonth, today.year),
                                GetYDay(today.date, today.month, today.year);
    if stop < start && current < start && current <= stop then EpochDays(Date(today.year, 1, 1))
    else EpochDays(Date(today.year, s.startMonth, s.startDay))
  }

  function WindowStop(s: Span, today: Date): nat
    requires ProperSpan(s)
  {
    var start, stop, current := GetYDay(s.startDay, s.startMonth, today.year), GetYDay(s.endDay, s.endMonth, today.year),
                                GetYDay(today.date, today.month, today.year);
    if stop < start && start <= current then EpochDays(Date(today.year, 12, 31))
    else EpochDays(Date(today.year, s.endMonth, s.endDay))
  }

  /** Day `c` lies on the way from `a` to `b` around the year. */
  predicate CyclicBetween(a: nat, c: nat, b: nat) {
    if a <= b then a <= c <= b else a <= c || c <= b
  }

  predicate InWindow(rec: Record, holidays: seq<seq<nat>>, today: Date)
    requires RecordInDomain(rec, holidays, today.year)
  {
    var s := SpanOf(rec, holidays, today.year);
    CyclicBetween(GetYDay(s.startDay, s.startMonth, today.year),
                  GetYDay(today.date, today.month, today.year),
                  GetYDay(s.endDay, s.endMonth, today.year))
  }

  /** The years on which both leap rules agree; the clock keeps 0..99. */
  predicate TwoDigitYear(year: nat) {
    year < 256 && year != 100 && year != 200
  }

  lemma DecemberIsLast(today: Date)
    requires TableDate(today) && TwoDigitYear(today.year)
    ensures GetYDay(today.date, today.month, today.year) <= GetYDay(31, 12, today.year)
  {
    LeapRule(today.year);
  }

  lemma WindowTestIsCyclic(s: Span, today: Date)
    requires ProperSpan(s) && TableDate(today) && TwoDigitYear(today.year)
    ensures WindowStart(s, today) <= WindowStop(s, today)
            && WindowStart(s, today) <= EpochDays(today) <= WindowStop(s, today)
            <==> CyclicBetween(GetYDay(s.startDay, s.startMonth, today.year),
                               GetYDay(today.date, today.month, today.year),
                               GetYDay(s.endDay, s.endMonth, today.year))
  {
    DayNumberingsAgree(today.year, s.startMonth, s.startDay);
    DayNumberingsAgree(today.year, s.endMonth, s.endDay);
    DayNumberingsAgree(today.year, today.month, today.date);
    DayNumberingsAgree(today.year, 12, 31);
    DecemberIsLast(today);
  }

  /** Months and days in the order of the calendar. */
  predicate Before(m: nat, d: nat, month: nat, day: nat) {
    m < month || (m == month && d < day)
  }

  predicate ExistsIn(year: nat, month: nat, day: nat) {
    1 <= month <= 12 && 1 <= day <= MonthLength(YIsLeap(year), month)
  }

  /** A fixed range accepts the days from its first to its last, over New Year if the first comes later in the year. */
  lemma FixedRangeAccepts(rec: Record, holidays: seq<seq<nat>>, today: Date)
    requires rec.dateRangeType != 3 && RecordInDomain(rec, holidays, today.year)
    requires ExistsIn(today.year, rec.startMonth, rec.startDay) && ExistsIn(today.year, rec.endMonth, rec.endDay)
    requires ExistsIn(today.year, today.month, today.date)
    ensures InWindow(rec, holidays, today)
            <==> var begun, over := !Before(today.month, today.date, rec.startMonth, rec.startDay),
                                    Before(rec.endMonth, rec.endDay, today.month, today.date);
                 if Before(rec.endMonth, rec.endDay, rec.startMonth, rec.startDay) then begun || !over else begun && !over
  {
    hide GetYDay, MonthLength, YIsLeap;
    var start, stop := Date(today.year, rec.startMonth, rec.startDay), Date(today.year, rec.endMonth, rec.endDay);
    YDayOrderIsDateOrder(start, stop);
    YDayOrderIsDateOrder(start, today);
    YDayOrderIsDateOrder(today, stop);
  }

  /** Day number of a holiday of the year, moved by an offset in days. */
  function HolidayDay(holidays: seq<seq<nat>>, index: nat, offset: int, year: nat): nat
    requires HolidayInTable(holidays, index, offset, year)
  {
    (holidays[index - 1][year - 20] + offset * 86400 - EPOCH_TO_30_YEAR) / 86400
  }

  lemma HolidayDayIsItsDate(holidays: seq<seq<nat>>, index: nat, offset: int, year: nat)
    requires HolidayInTable(holidays, index, offset, year)
    ensures EpochDays(HolidayDate(holidays, index, offset, year)) == HolidayDay(holidays, index, offset, year)
  {
    var seconds := holidays[index - 1][year - 20] + offset * 24 * 60 * 60 - EPOCH_TO_30_YEAR;
    DaysOfSeconds(seconds);
  }

  lemma DaysOfSeconds(seconds: nat)
    ensures seconds / 60 / 60 / 24 == seconds / 86400
  {
  }

  /** Within a year the day numbers and the days of the year are in the same order. */
  lemma SameOrderInYear(a: Date, b: Date)
    requires TableDate(a) && TableDate(b) && a.year == b.year && TwoDigitYear(a.year)
    ensures GetYDay(a.date, a.month, a.year) <= GetYDay(b.date, b.month, b.year) <==> EpochDays(a) <= EpochDays(b)
  {
    hide GetYDay;
    DayNumberingsAgree(a.year, a.month, a.date);
    DayNumberingsAgree(b.year, b.month, b.date);
  }

  /** A range between holidays of today's year accepts the days from the first to the last, with their offsets. */
  lemma HolidayRangeAccepts(rec: Record, holidays: seq<seq<nat>>, today: Date)
    requires rec.dateRangeType == 3 && RecordInDomain(rec, holidays, today.year)
    requires TableDate(today) && TwoDigitYear(today.year)
    requires HolidayDate(holidays, rec.holidayStartIndex, rec.holidayStartOffset, today.year).year == today.year
    requires HolidayDate(holidays, rec.holidayEndIndex, rec.holidayEndOffset, today.year).year == today.year
    ensures InWindow(rec, holidays, today)
            <==> CyclicBetween(HolidayDay(holidays, rec.holidayStartIndex, rec.holidayStartOffset, today.year),
                               EpochDays(today),
                               HolidayDay(holidays, rec.holidayEndIndex, rec.holidayEndOffset, today.year))
  {
    hide GetYDay, HolidayDay, HolidayDate, TableDate, EpochDays;
    var a := HolidayDate(holidays, rec.holidayStartIndex, rec.holidayStartOffset, today.year);
    var b := HolidayDate(holidays, rec.holidayEndIndex, rec.holidayEndOffset, today.year);
    HolidayDayIsItsDate(holidays, rec.holidayStartIndex, rec.holidayStartOffset, today.year);
    HolidayDayIsItsDate(holidays, rec.holidayEndIndex, rec.holidayEndOffset, today.year);
    SameOrderInYear(a, b);
    SameOrderInYear(a, today);
    SameOrderInYear(today, b);
  }

  method HolidayMonthDay(holidays: seq<seq<nat>>, index: nat, offset: int, year: nat) returns (month: nat, day: nat)
    requires HolidayInTable(holidays, index, offset, year)
    ensures month == HolidayDate(holidays, index, offset, year).month
    ensures day == HolidayDate(holidays, index, offset, year).date
  {
    var holidayEpoch := holidays[index - 1][year - 20];
    var holidayOffset := offset * 24 * 60 * 60;
    holidayOffset := holidayEpoch + holidayOffset;
    var t := EpochToDateTime(holidayOffset - EPOCH_TO_30_YEAR);
    return t.day.month, t.day.date;
  }

  method StartEpochDay(rec: Record, holidays: seq<seq<nat>>, now: Date) returns (totalDays: nat)
    requires RecordInDomain(rec, holidays, now.year)
    ensures totalDays == WindowStart(SpanOf(rec, holidays, now.year), now)
  {
    var startMonth, startDay, endMonth, endDay := rec.startMonth, rec.startDay, rec.endMonth, rec.endDay;
    if rec.dateRangeType == HOLIDAY_RANGE {
      startMonth, startDay := HolidayMonthDay(holidays, rec.holidayStartIndex, rec.holidayStartOffset, now.year);
      endMonth, endDay := HolidayMonthDay(holidays, rec.holidayEndIndex, rec.holidayEndOffset, now.year);
    }
    var start := Date(now.year, startMonth, startDay);
    var stopDays := GetYDay(endDay, endMonth, now.year);
    var startDays := GetYDay(startDay, startMonth, now.year);
    var currentDays := GetYDay(now.date, now.month, now.year);
    if stopDays < startDays {
      if currentDays >= startDays {
        stopDays := GetYDay(31, 12, now.year);
      } else if currentDays <= stopDays {
        startDays := GetYDay(1, 1, now.year);
        start := Date(now.year, 1, 1);
      }
    }
    totalDays := EpochDays(start);
  }

  method StopEpochDay(rec: Record, holidays: seq<seq<nat>>, now: Date) returns (totalDays: nat)
    requires RecordInDomain(rec, holidays, now.year)
    ensures totalDays == WindowStop(SpanOf(rec, holidays, now.year), now)
  {
    var startMonth, startDay, endMonth, endDay := rec.startMonth, rec.startDay, rec.endMonth, rec.endDay;
    if rec.dateRangeType == HOLIDAY_RANGE {
      startMonth, startDay := HolidayMonthDay(holidays, rec.holidayStartIndex, rec.holidayStartOffset, now.year);
      endMonth, endDay := HolidayMonthDay(holidays, rec.holidayEndIndex, rec.holidayEndOffset, now.year);
    }
    var stop := Date(now.year, endMonth, endDay);
    var stopDays := GetYDay(endDay, endMonth, now.year);
    var startDays := GetYDay(startDay, startMonth, now.year);
    var currentDays := GetYDay(now.date, now.month, now.year);
    if stopDays < startDays {
      if currentDays >= startDays {
        stopDays := GetYDay(31, 12, now.year);
        startDays := GetYDay(1, 1, now.year);
        stop := Date(now.year, 12, 31);
      }
    }
    totalDays := EpochDays(stop);
  }

  /** The scan's window test: it accepts a day iff it lies on the record's cyclic interval. */
  method DateWindowTest(rec: Record, holidays: seq<seq<nat>>, now: Date) returns (accepted: bool)
    requires RecordInDomain(rec, holidays, now.year) && TableDate(now) && TwoDigitYear(now.year)
    ensures accepted <==> InWindow(rec, holidays, now)
  {
    var current := EpochDays(now);
    var start := StartEpochDay(rec, holidays, now);
    var stop := StopEpochDay(rec, holidays, now);
    accepted := false;
    if stop >= start {
      if current >= start && current <= stop {
        accepted := true;
      }
    }
    WindowTestIsCyclic(SpanOf(rec, holidays, now.year), now);
  }
}
