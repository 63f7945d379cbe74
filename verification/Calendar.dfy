/**
 Dates of the event scheduler (main/EVENT_Actor.c): seconds since 2000-01-01 to a broken-down
 date over a four-year table, back to a day number, and the weekday of a day number.
 */
module Calendar {

  /** `unsigned long` and `uint32_t` of the target. */
  type uint32 = x: int | 0 <= x < 0x1_0000_0000

  /** Year counted from 2000, month 1..12, day of the month from 1. */
  datatype Date = Date(year: nat, month: nat, date: nat)

  datatype DateTime = DateTime(day: Date, hour: nat, minute: nat, second: nat)

  const DAYS: seq<seq<nat>> := [
    [0, 31, 60, 91, 121, 152, 182, 213, 244, 274, 305, 335],
    [366, 397, 425, 456, 486, 517, 547, 578, 609, 639, 670, 700],
    [731, 762, 790, 821, 851, 882, 912, 943, 974, 1004, 1035, 1065],
    [1096, 1127, 1155, 1186, 1216, 1247, 1277, 1308, 1339, 1369, 1400, 1430]
  ]

  const CYCLE: nat := 365 * 4 + 1

  // ---------------------------------------------------------------- the calendar the table encodes

  predicate GregorianLeap(fullYear: nat) {
    (fullYear % 4 == 0 && fullYear % 100 != 0) || fullYear % 400 == 0
  }

  function MonthLength(leap: bool, month: nat): nat {
    if month == 2 then (if leap then 29 else 28)
    else if month == 4 || month == 6 || month == 9 || month == 11 then 30
    else 31
  }

  /** A date whose day fits its month when every fourth year is a leap year, which is the table's rule. */
  predicate TableDate(d: Date) {
    1 <= d.month <= 12 && 1 <= d.date <= MonthLength(d.year % 4 == 0, d.month)
  }

  predicate ClockTime(t: DateTime) {
    t.hour < 24 && t.minute < 60 && t.second < 60
  }

  /** The day after `d` in the Gregorian calendar. */
  function GregorianSuccessor(d: Date): Date {
    if d.date < MonthLength(GregorianLeap(2000 + d.year), d.month) then Date(d.year, d.month, d.date + 1)
    else if d.month < 12 then Date(d.year, d.month + 1, 1)
    else Date(d.year + 1, 1, 1)
  }

  // ---------------------------------------------------------------- conversions

  function EpochDays(d: Date): nat
    requires 1 <= d.month <= 12 && 1 <= d.date
  {
    d.year / 4 * CYCLE + DAYS[d.year % 4][d.month - 1] + (d.date - 1)
  }

  function EpochSeconds(t: DateTime): nat
    requires TableDate(t.day)
  {
    ((EpochDays(t.day) * 24 + t.hour) * 60 + t.minute) * 60 + t.second
  }

  /** Where month `m` (counted from 0) of year `y` of the cycle starts; month 12 is the next January. */
  function MonthStart(y: nat, m: nat): nat
    requires y < 4 && m <= 12
  {
    if m < 12 then DAYS[y][m] else if y < 3 then DAYS[y + 1][0] else CYCLE
  }

  lemma MonthStartStep(y: nat, m: nat)
    requires y < 4 && m < 12
    ensures MonthStart(y, m + 1) == MonthStart(y, m) + MonthLength(y == 0, m + 1)
  {
  }

  lemma {:induction false} MonthStartMonotone(y: nat, m: nat, k: nat)
    requires y < 4 && m <= k <= 12
    ensures MonthStart(y, m) <= MonthStart(y, k)
    decreases k - m
  {
    if m < k {
      MonthStartStep(y, m);
      MonthStartMonotone(y, m + 1, k);
    }
  }

  /** The year and month searches, downwards from their last candidate `k`. */
  function FindYear(r: nat, k: nat): (y: nat)
    requires k < 4 && r < MonthStart(k, 12)
    ensures y <= k && MonthStart(y, 0) <= r < MonthStart(y, 12)
  {
    if k == 0 || DAYS[k][0] <= r then k else FindYear(r, k - 1)
  }

  function FindMonth(y: nat, r: nat, k: nat): (m: nat)
    requires y < 4 && k < 12 && MonthStart(y, 0) <= r < MonthStart(y, k + 1)
    ensures m <= k && MonthStart(y, m) <= r < MonthStart(y, m + 1)
  {
    if k == 0 || DAYS[y][k] <= r then k else FindMonth(y, r, k - 1)
  }

  lemma CellDate(q: nat, y: nat, m: nat, date: nat)
    requires y < 4 && m < 12 && 1 <= date <= MonthLength(y == 0, m + 1)
    ensures TableDate(Date(q * 4 + y, m + 1, date))
    ensures EpochDays(Date(q * 4 + y, m + 1, date)) == q * CYCLE + MonthStart(y, m) + (date - 1)
  {
    hide MonthLength;
    assert (q * 4 + y) / 4 == q && (q * 4 + y) % 4 == y;
  }

  lemma CycleEnds()
    ensures MonthStart(3, 12) == CYCLE && MonthStart(0, 0) == 0
    ensures forall y :: 0 <= y < 3 ==> MonthStart(y, 12) == MonthStart(y + 1, 0)
  {
  }

  function DateOfDay(n: nat): (d: Date)
    ensures TableDate(d) && EpochDays(d) == n
  {
    hide MonthStart, MonthLength, FindYear, FindMonth, EpochDays;
    CycleEnds();
    var r := n % CYCLE;
    var y := FindYear(r, 3);
    var m := FindMonth(y, r, 11);
    var date := r - MonthStart(y, m) + 1;
    MonthStartStep(y, m);
    CellDate(n / CYCLE, y, m, date);
    Date(n / CYCLE * 4 + y, m + 1, date)
  }

  function DateTimeOf(epoch: nat): DateTime {
    DateTime(DateOfDay(epoch / 60 / 60 / 24), epoch / 60 / 60 % 24, epoch / 60 % 60, epoch % 60)
  }

  /** The two downward searches, as loops. */
  method SearchYear(r: nat) returns (year: nat)
    requires r < CYCLE
    ensures year == FindYear(r, 3)
  {
    year := 3;
    while year > 0
      invariant year <= 3 && r < MonthStart(year, 12)
      invariant FindYear(r, 3) == FindYear(r, year)
    {
      if r >= DAYS[year][0] { break; }
      year := year - 1;
    }
  }

  method SearchMonth(year: nat, r: nat) returns (month: nat)
    requires year < 4 && MonthStart(year, 0) <= r < MonthStart(year, 12)
    ensures month == FindMonth(year, r, 11)
  {
    month := 11;
    while month > 0
      invariant month <= 11 && MonthStart(year, 0) <= r < MonthStart(year, month + 1)
      invariant FindMonth(year, r, 11) == FindMonth(year, r, month)
    {
      if r >= DAYS[year][month] { break; }
      month := month - 1;
    }
  }

  lemma TableCell(y: nat, m: nat)
    requires y < 4 && m < 12
    ensures |DAYS| == 4 && |DAYS[y]| == 12 && DAYS[y][m] == MonthStart(y, m)
  {
  }

  method DayToDate(n: nat) returns (day: Date)
    ensures day == DateOfDay(n)
  {
    hide MonthStart, FindYear, FindMonth;
    CycleEnds();
    var years := n / CYCLE * 4;
    var r := n % CYCLE;
    var year := SearchYear(r);
    var month := SearchMonth(year, r);
    TableCell(year, month);
    day := Date(years + year, month + 1, r - DAYS[year][month] + 1);
  }

  method EpochToDateTime(epochSeconds: uint32) returns (t: DateTime)
    ensures t == DateTimeOf(epochSeconds)
    ensures t.day.year < 256
  {
    var epoch := epochSeconds;
    var second := epoch % 60;
    epoch := epoch / 60;
    var minute := epoch % 60;
    epoch := epoch / 60;
    var hour := epoch % 24;
    epoch := epoch / 24;
    var day := DayToDate(epoch);
    YearIsBounded(day);
    t := DateTime(day, hour, minute, second);
  }

  // ---------------------------------------------------------------- the two conversions are inverse

  /** Offset of a date in its four-year cycle. */
  function CycleOffset(d: Date): (r: nat)
    requires TableDate(d)
    ensures MonthStart(d.year % 4, d.month - 1) <= r < MonthStart(d.year % 4, d.month)
    ensures EpochDays(d) == d.year / 4 * CYCLE + r
  {
    MonthStartStep(d.year % 4, d.month - 1);
    DAYS[d.year % 4][d.month - 1] + (d.date - 1)
  }

  lemma YearEndsBefore(y: nat, k: nat)
    requires y < 4 && k < 4
    ensures MonthStart(y, 12) <= CYCLE
    ensures y < k ==> MonthStart(y, 12) <= MonthStart(k, 0)
  {
  }

  lemma EarlierCellIsSmaller(a: Date, b: Date)
    requires TableDate(a) && TableDate(b)
    requires a.year < b.year || (a.year == b.year && a.month < b.month)
    ensures EpochDays(a) < EpochDays(b)
  {
    var ra, rb := CycleOffset(a), CycleOffset(b);
    var ya, yb := a.year % 4, b.year % 4;
    MonthStartMonotone(ya, a.month, 12);
    MonthStartMonotone(yb, 0, b.month - 1);
    YearEndsBefore(ya, yb);
    if a.year == b.year {
      MonthStartMonotone(ya, a.month, b.month - 1);
    } else if a.year / 4 == b.year / 4 {
      assert ra < rb;
    } else {
      assert a.year / 4 + 1 <= b.year / 4;
      assert (a.year / 4 + 1) * CYCLE <= b.year / 4 * CYCLE;
    }
  }

  lemma DateIsDetermined(a: Date, b: Date)
    requires TableDate(a) && TableDate(b) && EpochDays(a) == EpochDays(b)
    ensures a == b
  {
    if a.year < b.year || (a.year == b.year && a.month < b.month) {
      EarlierCellIsSmaller(a, b);
    } else if b.year < a.year || (a.year == b.year && b.month < a.month) {
      EarlierCellIsSmaller(b, a);
    }
  }

  lemma EncodeUndoesDecode(epoch: nat)
    ensures TableDate(DateTimeOf(epoch).day) && ClockTime(DateTimeOf(epoch))
    ensures EpochSeconds(DateTimeOf(epoch)) == epoch
  {
    assert epoch / 60 == epoch / 60 / 60 * 60 + epoch / 60 % 60;
  }

  lemma DecodeUndoesEncode(t: DateTime)
    requires TableDate(t.day) && ClockTime(t)
    ensures DateTimeOf(EpochSeconds(t)) == t
    ensures DateOfDay(EpochDays(t.day)) == t.day
  {
    var e := EpochSeconds(t);
    assert e / 60 == (EpochDays(t.day) * 24 + t.hour) * 60 + t.minute;
    assert e / 60 / 60 == EpochDays(t.day) * 24 + t.hour;
    assert e / 60 / 60 / 24 == EpochDays(t.day);
    DateIsDetermined(DateOfDay(EpochDays(t.day)), t.day);
  }

  // ---------------------------------------------------------------- agreement with the Gregorian calendar

  /** 2100-02-28, where the table goes on to a 29th that the Gregorian calendar does not have. */
  const FEB_28_OF_2100: nat := 36583

  /** The day after `d` when every fourth year is a leap year. */
  function TableSuccessor(d: Date): Date {
    if d.date < MonthLength(d.year % 4 == 0, d.month) then Date(d.year, d.month, d.date + 1)
    else if d.month < 12 then Date(d.year, d.month + 1, 1)
    else Date(d.year + 1, 1, 1)
  }

  lemma SuccessorIsNextDay(d: Date)
    requires TableDate(d)
    ensures TableDate(TableSuccessor(d)) && EpochDays(TableSuccessor(d)) == EpochDays(d) + 1
  {
    hide MonthStart, EpochDays, CycleOffset;
    var q, y, m := d.year / 4, d.year % 4, d.month - 1;
    CellDate(q, y, m, d.date);
    MonthStartStep(y, m);
    CycleEnds();
    assert q * 4 + y == d.year;
    if d.date < MonthLength(y == 0, d.month) {
      CellDate(q, y, m, d.date + 1);
    } else if m < 11 {
      CellDate(q, y, m + 1, 1);
    } else if y < 3 {
      CellDate(q, y + 1, 0, 1);
    } else {
      CellDate(q + 1, 0, 0, 1);
    }
  }

  lemma YearIsBounded(d: Date)
    requires TableDate(d) && EpochDays(d) * 86400 < 0x1_0000_0000
    ensures d.year <= 136
  {
    var r := CycleOffset(d);
    assert d.year / 4 * CYCLE <= 49710;
  }

  lemma SuccessorsAgree(d: Date)
    requires TableDate(d) && d.year <= 136
    ensures TableSuccessor(d) == GregorianSuccessor(d) <==> d != Date(100, 2, 28)
    ensures TableDate(Date(100, 2, 28)) && EpochDays(Date(100, 2, 28)) == FEB_28_OF_2100
  {
    assert GregorianLeap(2000 + d.year) <==> d.year % 4 == 0 && d.year != 100;
  }

  lemma SuccessorIsGregorian(n: nat)
    requires (n + 1) * 86400 < 0x1_0000_0000
    ensures DateOfDay(n + 1) == GregorianSuccessor(DateOfDay(n)) <==> n != FEB_28_OF_2100
  {
    var d := DateOfDay(n);
    SuccessorIsNextDay(d);
    DateIsDetermined(TableSuccessor(d), DateOfDay(n + 1));
    YearIsBounded(d);
    SuccessorsAgree(d);
    if n == FEB_28_OF_2100 {
      DateIsDetermined(d, Date(100, 2, 28));
    }
  }

  /** Day `n` of the Gregorian calendar, counted out one day at a time from 2000-01-01. */
  function GregorianDate(n: nat): Date {
    if n == 0 then Date(0, 1, 1) else GregorianSuccessor(GregorianDate(n - 1))
  }

  lemma EndOfFebruary2100(n: nat)
    requires n == FEB_28_OF_2100
    ensures DateOfDay(n) == Date(100, 2, 28) && DateOfDay(n + 1) == Date(100, 2, 29)
    ensures GregorianSuccessor(Date(100, 2, 28)) == GregorianSuccessor(Date(100, 2, 29)) == Date(100, 3, 1)
  {
    DateIsDetermined(DateOfDay(n), Date(100, 2, 28));
    DateIsDetermined(DateOfDay(n + 1), Date(100, 2, 29));
  }

  lemma DayZero(n: nat)
    requires n == 0
    ensures DateOfDay(n) == GregorianDate(n)
  {
    DateIsDetermined(DateOfDay(n), Date(0, 1, 1));
  }

  /** Dates that follow one another from a counted date on are the counted dates. */
  lemma {:induction false} FollowsTheCount(f: nat -> Date, from: nat, day: nat, k: nat)
    requires f(from) == GregorianDate(day)
    requires forall i: nat | from <= i < from + k :: f(i + 1) == GregorianSuccessor(f(i))
    ensures f(from + k) == GregorianDate(day + k)
  {
    if k > 0 { FollowsTheCount(f, from, day, k - 1); }
  }

  lemma SuccessorsFrom(from: nat, to: nat)
    requires to * 86400 < 0x1_0000_0000 && (to <= FEB_28_OF_2100 || from > FEB_28_OF_2100)
    ensures forall i: nat | from <= i < to :: DateOfDay(i + 1) == GregorianSuccessor(DateOfDay(i))
  {
    forall i: nat | from <= i < to ensures DateOfDay(i + 1) == GregorianSuccessor(DateOfDay(i)) {
      SuccessorIsGregorian(i);
    }
  }

  lemma CountedDates(n: nat)
    requires n <= FEB_28_OF_2100
    ensures DateOfDay(n) == GregorianDate(n)
  {
    DayZero(0);
    SuccessorsFrom(0, n);
    FollowsTheCount(DateOfDay, 0, 0, n);
  }

  lemma CountedMarch2100(n: nat)
    requires n == FEB_28_OF_2100 + 1
    ensures GregorianDate(n) == Date(100, 3, 1) && DateOfDay(n) == Date(100, 2, 29)
    ensures DateOfDay(n + 1) == GregorianDate(n)
  {
    CountedDates(n - 1);
    EndOfFebruary2100(n - 1);
    SuccessorIsGregorian(n);
  }

  lemma CountedDatesAfter(n: nat, march: nat)
    requires march == FEB_28_OF_2100 + 1 < n && n * 86400 < 0x1_0000_0000
    ensures DateOfDay(n) == GregorianDate(n - 1)
  {
    CountedMarch2100(march);
    SuccessorsFrom(march + 1, n);
    FollowsTheCount(DateOfDay, march + 1, march, n - 1 - march);
  }

  /** Decoding gives the Gregorian date up to 2100-02-28 and never again within the 32-bit range. */
  lemma DecodedDateIsGregorian(n: nat)
    requires n * 86400 < 0x1_0000_0000
    ensures DateOfDay(n) == GregorianDate(n) <==> n <= FEB_28_OF_2100
  {
    if n <= FEB_28_OF_2100 {
      CountedDates(n);
    } else if n == FEB_28_OF_2100 + 1 {
      CountedMarch2100(n);
    } else {
      CountedDatesAfter(n, FEB_28_OF_2100 + 1);
    }
  }

  // ---------------------------------------------------------------- weekdays

  /** The letters of the schedule database, in the order of the days they stand for. */
  const WEEK: string := "MTWRFAS"

  /** Day 0, 2000-01-01, was a Saturday. */
  function WeekdayIndex(n: nat): (i: nat)
    ensures i < 7
  {
    if n == 0 then 5 else (WeekdayIndex(n - 1) + 1) % 7
  }

  function Letter(n: nat): char { WEEK[WeekdayIndex(n)] }

  /** `(CurrentTotalDays - 2) % 7 + 1` in unsigned 32-bit arithmetic. */
  function RtcWeekDay(totalDays: uint32): (r: nat)
    ensures 1 <= r <= 7
  {
    (totalDays - 2) % 0x1_0000_0000 % 7 + 1
  }

  function DayBit(totalDays: uint32): bv8 {
    (0x80 as bv8) >> RtcWeekDay(totalDays)
  }

  function LetterBit(c: char): bv8 {
    match c
    case 'M' => 0x40
    case 'T' => 0x20
    case 'W' => 0x10
    case 'R' => 0x08
    case 'F' => 0x04
    case 'A' => 0x02
    case 'S' => 0x01
    case _ => 0
  }

  function MaskOf(s: string): bv8 {
    if s == [] then 0 else MaskOf(s[1..]) | LetterBit(s[0])
  }

  /** The loader's reading of a WeekDays string, from its last letter to its first. */
  method ParseWeekDays(s: string) returns (mask: bv8)
    ensures mask == MaskOf(s)
  {
    mask := 0;
    var j := |s| - 1;
    while j >= 0
      invariant -1 <= j < |s|
      invariant mask == MaskOf(s[j + 1..])
    {
      assert s[j..][1..] == s[j + 1..];
      match s[j] {
      case 'M' => mask := mask | (1 << 6);
      case 'T' => mask := mask | (1 << 5);
      case 'W' => mask := mask | (1 << 4);
      case 'R' => mask := mask | (1 << 3);
      case 'F' => mask := mask | (1 << 2);
      case 'A' => mask := mask | (1 << 1);
      case 'S' => mask := mask | (1 << 0);
      case _ =>
      }
      j := j - 1;
    }
  }

  lemma {:induction false} WeekdayIndexClosed(n: nat)
    ensures WeekdayIndex(n) == (n + 5) % 7
  {
    if n > 0 { WeekdayIndexClosed(n - 1); }
  }

  lemma {:induction false} MaskHasBit(s: string, i: nat)
    requires i < 7
    ensures MaskOf(s) & LetterBit(WEEK[i]) != 0 <==> WEEK[i] in s
  {
    if s != [] {
      MaskHasBit(s[1..], i);
      var rest, bit, here := MaskOf(s[1..]), LetterBit(WEEK[i]), LetterBit(s[0]);
      assert (rest | here) & bit == (rest & bit) | (here & bit);
      assert here & bit != 0 <==> s[0] == WEEK[i];
      assert (rest & bit) | (here & bit) != 0 <==> rest & bit != 0 || here & bit != 0;
      assert s == [s[0]] + s[1..];
    }
  }

  lemma WeekBit(i: nat)
    requires i < 7
    ensures (0x80 as bv8) >> (i + 1) == LetterBit(WEEK[i])
  {
  }

  lemma DayBitOfLetter(n: uint32)
    requires n >= 2
    ensures DayBit(n) == LetterBit(Letter(n))
  {
    hide LetterBit;
    WeekdayIndexClosed(n);
    WeekBit(WeekdayIndex(n));
    assert RtcWeekDay(n) == WeekdayIndex(n) + 1;
  }

  lemma FirstTwoDays(n: uint32)
    requires n < 2
    ensures DayBit(n) & LetterBit(Letter(n)) == 0
  {
    WeekdayIndexClosed(n);
    assert RtcWeekDay(n) == n + 3;
  }

  /** The scan's weekday test selects the letter of that day in every string, from 2000-01-03 on and only then. */
  lemma WeekdayTestIsExact(n: uint32)
    ensures (forall s: string :: DayBit(n) & MaskOf(s) != 0 <==> Letter(n) in s) <==> n >= 2
  {
    var i := WeekdayIndex(n);
    if n >= 2 {
      DayBitOfLetter(n);
      forall s: string ensures DayBit(n) & MaskOf(s) != 0 <==> Letter(n) in s {
        MaskHasBit(s, i);
        assert DayBit(n) & MaskOf(s) == MaskOf(s) & DayBit(n);
      }
    } else {
      var s := [Letter(n)];
      FirstTwoDays(n);
      assert MaskOf(s[1..]) == 0;
      assert Letter(n) in s && DayBit(n) & MaskOf(s) == 0;
    }
  }
}
