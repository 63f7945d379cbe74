/**
 One scan of the schedule table (main/EVENT_Actor.c, Tasks_EventCheck): a first pass works out the
 time of every record and the most urgent priority among those due now, a second pass emits the
 records of that priority.
 */
module Schedule {
  import opened Calendar
  import opened Common
  import opened DateWindow

  const TOTAL_DAY_MINUTES: int := 1440
  const SUNSET: nat := 2
  const SUNRISE: nat := 3

  datatype HourMinute = HM(hour: int, minute: int)

  /** Sunset and sunrise as last stored, and the day of the month on which a record was last found in its window. */
  datatype Sun = Sun(set_: HourMinute, rise: HourMinute, prevDD: nat)

  /** What a scan reads besides its table. */
  datatype Context = Context(
    holidays: seq<seq<nat>>, now: DateTime,
    todaysSet: HourMinute, todaysRise: HourMinute,  // sunset and sunrise worked out for the local date
    warp: bool,                                     // a time warp is running
    room: bool,                                     // the report before the passes can be allocated
    roomAt: nat -> bool)                            // and the report on the emission of a record

  /** What is queued for execution. */
  datatype Job = Job(scriptId: nat, eventId: nat)

  // ---------------------------------------------------------------- C arithmetic

  function CDiv(a: int, b: int): int
    requires b > 0
  {
    if a >= 0 then a / b else -((-a) / b)
  }

  function CMod(a: int, b: int): int
    requires b > 0
  {
    a - b * CDiv(a, b)
  }

  // ---------------------------------------------------------------- when a record is due

  predicate Domain(rec: Record, c: Context) {
    && TableDate(c.now.day) && ClockTime(c.now) && TwoDigitYear(c.now.day.year)
    && RecordInDomain(rec, c.holidays, c.now.day.year)
  }

  /** Minutes after midnight of a sun-relative record. */
  function SunMinutes(rec: Record, sun: Sun): int {
    (if rec.timeType == SUNSET then sun.set_.hour * 60 + sun.set_.minute else sun.rise.hour * 60 + sun.rise.minute)
    + rec.offsetMinutes
  }

  /** Event_Hour is a `uint8_t`, Event_Minute an `int16_t`. */
  function EventTime(rec: Record, sun: Sun): HourMinute {
    if rec.timeType == SUNSET || rec.timeType == SUNRISE then
      HM(CMod(CDiv(SunMinutes(rec, sun), 60), 24) % 256, CMod(SunMinutes(rec, sun), 60))
    else
      HM(rec.hour, rec.minute)
  }

  lemma MinutesSplit(m: int, hour: int, minute: int)
    requires 0 <= hour < 24 && 0 <= minute < 60 && m >= 0
    ensures m / 60 % 24 == hour && m % 60 == minute <==> m % 1440 == hour * 60 + minute
  {
    var q, r := m / 60 / 24, m / 60 % 24;
    assert m / 60 == q * 24 + r;
    assert m == q * 1440 + (r * 60 + m % 60);
  }

  lemma BeforeMidnight(m: int)
    requires -1440 < m < 0
    ensures CMod(CDiv(m, 60), 24) % 256 >= 24 || CMod(m, 60) < 0
  {
    var q := (-m) / 60;
    assert CDiv(m, 60) == -q && 0 <= q < 24;
    assert CMod(-q, 24) == -q;
  }

  /** A sun-relative record is due at its minute of the day, also past midnight, but never when it falls before midnight. */
  lemma SunTimeWraps(rec: Record, sun: Sun, now: DateTime)
    requires rec.timeType == SUNSET || rec.timeType == SUNRISE
    requires ClockTime(now) && -1440 < SunMinutes(rec, sun)
    ensures EventTime(rec, sun) == HM(now.hour, now.minute)
            <==> SunMinutes(rec, sun) >= 0 && SunMinutes(rec, sun) % 1440 == now.hour * 60 + now.minute
  {
    var m := SunMinutes(rec, sun);
    if m >= 0 {
      MinutesSplit(m, now.hour, now.minute);
    } else {
      BeforeMidnight(m);
    }
  }

  function TotalDays(d: Date): uint32
    requires TableDate(d) && d.year < 256
  {
    DaysFit(d);
    EpochDays(d)
  }

  lemma DaysFit(d: Date)
    requires TableDate(d) && d.year < 256
    ensures EpochDays(d) < 0x1_0000_0000
  {
    var r := CycleOffset(d);
    MonthStartMonotone(d.year % 4, d.month, 12);
    YearEndsBefore(d.year % 4, 3);
  }

  /** The window holds today, the weekday is marked, and the time of the record is the current minute. */
  predicate Eligible(rec: Record, c: Context, sun: Sun)
    requires Domain(rec, c)
  {
    && InWindow(rec, c.holidays, c.now.day)
    && DayBit(TotalDays(c.now.day)) & rec.weekDays != 0
    && EventTime(rec, sun) == HM(c.now.hour, c.now.minute)
  }

  // ---------------------------------------------------------------- what being due means

  lemma TodayIsCounted(d: Date)
    requires TableDate(d) && d.year < 256
    ensures TotalDays(d) == EpochDays(d)
  {
  }

  /** The weekday test of a scan selects the letter of today, counted from 2000-01-01, in every string. */
  lemma WeekdayOfToday(d: Date, s: string)
    requires TableDate(d) && d.year < 256 && EpochDays(d) >= 2
    ensures DayBit(TotalDays(d)) & MaskOf(s) != 0 <==> Letter(EpochDays(d)) in s
  {
    hide DayBit, MaskOf, Letter, EpochDays;
    TodayIsCounted(d);
    WeekdayTestIsExact(EpochDays(d));
  }

  /** The minute of the day a record asks for, if it depends on sunset or sunrise. */
  function SunMinuteOfDay(rec: Record, sun: Sun): int {
    if rec.timeType == 2 then sun.set_.hour * 60 + sun.set_.minute + rec.offsetMinutes
    else sun.rise.hour * 60 + sun.rise.minute + rec.offsetMinutes
  }

  /** The clock shows the hour and minute of the record, or the minute of the day its sun time and offset give. */
  predicate ClockMatches(rec: Record, sun: Sun, now: DateTime) {
    if rec.timeType == 2 || rec.timeType == 3 then
      SunMinuteOfDay(rec, sun) >= 0 && SunMinuteOfDay(rec, sun) % 1440 == now.hour * 60 + now.minute
    else
      rec.hour == now.hour && rec.minute == now.minute
  }

  lemma TimeIsClockTime(rec: Record, sun: Sun, now: DateTime)
    requires ClockTime(now) && -1440 < SunMinuteOfDay(rec, sun)
    ensures EventTime(rec, sun) == HM(now.hour, now.minute) <==> ClockMatches(rec, sun, now)
  {
    hide CDiv, CMod;
    if rec.timeType == SUNSET || rec.timeType == SUNRISE {
      SunTimeWraps(rec, sun, now);
    }
  }

  /** A record is due iff today is in its window, its string of weekdays holds today's letter, and the clock matches. */
  lemma EligibleIff(rec: Record, c: Context, sun: Sun, s: string)
    requires Domain(rec, c) && rec.weekDays == MaskOf(s) && EpochDays(c.now.day) >= 2
    requires -1440 < SunMinuteOfDay(rec, sun)
    ensures Eligible(rec, c, sun)
            <==> InWindow(rec, c.holidays, c.now.day) && Letter(EpochDays(c.now.day)) in s && ClockMatches(rec, sun, c.now)
  {
    hide InWindow, RecordInDomain, DayBit, MaskOf, Letter, EpochDays, TotalDays, EventTime, ClockMatches, TableDate;
    WeekdayOfToday(c.now.day, s);
    TimeIsClockTime(rec, sun, c.now);
  }

  /** A sunset record without offset is due at sunset, a sunrise record at sunrise. */
  lemma DueAtTheSun(rec: Record, sun: Sun, now: DateTime)
    requires (rec.timeType == 2 || rec.timeType == 3) && rec.offsetMinutes == 0 && ClockTime(now)
    requires 0 <= sun.set_.hour < 24 && 0 <= sun.set_.minute < 60 && 0 <= sun.rise.hour < 24 && 0 <= sun.rise.minute < 60
    ensures EventTime(rec, sun) == HM(now.hour, now.minute)
            <==> HM(now.hour, now.minute) == if rec.timeType == 2 then sun.set_ else sun.rise
  {
    hide EventTime;
    TimeIsClockTime(rec, sun, now);
    var t := if rec.timeType == 2 then sun.set_ else sun.rise;
    assert SunMinuteOfDay(rec, sun) == t.hour * 60 + t.minute < 1440;
  }

  // ---------------------------------------------------------------- the sun times of a scan

  /** The first record in its window on a new day of the month refreshes the sun time it depends on. */
  function SunStep(sun: Sun, rec: Record, c: Context): Sun
    requires Domain(rec, c)
  {
    if InWindow(rec, c.holidays, c.now.day) && sun.prevDD != c.now.day.date then
      Sun(if rec.timeType == SUNSET then c.todaysSet else sun.set_,
          if rec.timeType == SUNRISE then c.todaysRise else sun.rise,
          c.now.day.date)
    else sun
  }

  function SunAfter(table: seq<Record>, k: nat, c: Context, sun: Sun): Sun
    requires k <= |table| && forall i | 0 <= i < k :: Domain(table[i], c)
  {
    if k == 0 then sun else SunStep(SunAfter(table, k - 1, c, sun), table[k - 1], c)
  }

  /** Writing a report stores both of today's times. */
  function Refreshed(sun: Sun, c: Context): Sun {
    Sun(c.todaysSet, c.todaysRise, sun.prevDD)
  }

  /** Outside a time warp a scan begins with a report. */
  function SunAtStart(sun: Sun, c: Context): Sun {
    if !c.warp && c.room then Refreshed(sun, c) else sun
  }

  /** From the first record in its window on, the sun times no longer change. */
  lemma {:induction false} SunSettles(table: seq<Record>, k: nat, n: nat, c: Context, sun: Sun)
    requires k < n <= |table| && forall i | 0 <= i < n :: Domain(table[i], c)
    requires Domain(table[k], c) && InWindow(table[k], c.holidays, c.now.day)
    ensures SunAfter(table, k + 1, c, sun) == SunAfter(table, n, c, sun)
    ensures SunAfter(table, n, c, sun).prevDD == c.now.day.date
  {
    hide InWindow, Domain;
    if k + 1 < n { SunSettles(table, k, n - 1, c, sun); }
  }

  lemma SunBefore(table: seq<Record>, c: Context, sun: Sun)
    ensures SunAfter(table, 0, c, sun) == sun
  {
  }

  lemma SunKeptOutsideWindow(sun: Sun, rec: Record, c: Context)
    requires Domain(rec, c) && !InWindow(rec, c.holidays, c.now.day)
    ensures SunStep(sun, rec, c) == sun
  {
  }

  // ---------------------------------------------------------------- what a scan must emit

  /** `n` records in use, each inside the domain, and a zero ScriptID behind them; `uint8_t` indices reach them all. */
  predicate Loaded(table: seq<Record>, n: nat, c: Context) {
    && n <= 256 && n < |table| && table[n].scriptId == 0
    && forall i | 0 <= i < n :: table[i].scriptId != 0 && Domain(table[i], c)
  }

  /** Which of the records in use are due. */
  function DueFlags(table: seq<Record>, n: nat, c: Context, sun: Sun): (due: seq<bool>)
    requires Loaded(table, n, c)
    ensures |due| == n
    ensures forall k: nat | k < n :: due[k] <==> Eligible(table[k], c, SunAfter(table, n, c, sun))
  {
    seq(n, k requires 0 <= k < n => Eligible(table[k], c, SunAfter(table, n, c, sun)))
  }

  /** Record `k` is due, and none that is due has a smaller priority among 1..100. */
  ghost predicate Chosen(table: seq<Record>, due: seq<bool>, k: nat)
    requires k < |due| <= |table|
  {
    && due[k] && 1 <= table[k].sortOrder <= 100
    && forall j: nat | j < |due| && due[j] && table[j].sortOrder >= 1 :: table[k].sortOrder <= table[j].sortOrder
  }

  /** Among the due records with an order in 1..100 those of the least order are chosen, all of them and no other. */
  lemma ChosenIff(table: seq<Record>, due: seq<bool>, k: nat)
    requires k < |due| <= |table|
    ensures Chosen(table, due, k)
            <==> due[k] && 1 <= table[k].sortOrder <= 100
                 && !exists j: nat :: j < |due| && due[j] && 1 <= table[j].sortOrder < table[k].sortOrder
  {
  }

  function JobOf(rec: Record): Job { Job(rec.scriptId, rec.eventId) }

  /** One of the first `k` records is chosen and the report on its emission is written. */
  ghost predicate Reports(table: seq<Record>, due: seq<bool>, k: nat, roomAt: nat -> bool)
    requires k <= |due| <= |table|
  {
    exists j: nat :: j < k && Chosen(table, due, j) && roomAt(j)
  }

  /** The flags of a scan that finds the sun times `sun`. */
  function ScanFlags(table: seq<Record>, n: nat, c: Context, sun: Sun): (due: seq<bool>)
    requires Loaded(table, n, c)
    ensures |due| == n
  {
    DueFlags(table, n, c, SunAtStart(sun, c))
  }

  /** The sun times a scan leaves. */
  ghost function SunAfterScan(table: seq<Record>, n: nat, c: Context, sun: Sun): Sun
    requires Loaded(table, n, c)
  {
    var used := SunAfter(table, n, c, SunAtStart(sun, c));
    if Reports(table, ScanFlags(table, n, c, sun), n, c.roomAt) then Refreshed(used, c) else used
  }

  /** The chosen records among the first `k`, in table order. */
  ghost function ChosenJobs(table: seq<Record>, due: seq<bool>, k: nat): seq<Job>
    requires k <= |due| <= |table|
  {
    if k == 0 then []
    else ChosenJobs(table, due, k - 1) + (if Chosen(table, due, k - 1) then [JobOf(table[k - 1])] else [])
  }

  /** The value the first pass leaves in `priority_number` after `k` records. */
  ghost predicate IsPriority(table: seq<Record>, due: seq<bool>, k: nat, p: int)
    requires k <= |due| <= |table|
  {
    && 1 <= p <= 100
    && (forall j: nat | j < k && due[j] && table[j].sortOrder >= 1 :: p <= table[j].sortOrder)
    && (p < 100 ==> exists j: nat :: j < k && due[j] && table[j].sortOrder == p)
  }

  lemma NextReport(table: seq<Record>, due: seq<bool>, k: nat, roomAt: nat -> bool)
    requires k < |due| <= |table|
    ensures Reports(table, due, k + 1, roomAt) <==> Reports(table, due, k, roomAt) || (Chosen(table, due, k) && roomAt(k))
  {
    hide Chosen;
  }

  /** Comparing with the priority of the first pass is choosing by the definition. */
  lemma PriorityChooses(table: seq<Record>, due: seq<bool>, p: int, k: nat)
    requires k < |due| <= |table| && IsPriority(table, due, |due|, p)
    ensures Chosen(table, due, k) <==> due[k] && table[k].sortOrder == p
  {
    if Chosen(table, due, k) && p < 100 {
      var j: nat :| j < |due| && due[j] && table[j].sortOrder == p;
    }
  }

  lemma {:induction false} NoneOfPriority(table: seq<Record>, due: seq<bool>, p: int, k: nat)
    requires k <= |due| <= |table| && IsPriority(table, due, |due|, p)
    ensures ChosenJobs(table, due, k) == [] <==> forall j: nat | j < k && due[j] :: table[j].sortOrder != p
  {
    if k > 0 {
      NoneOfPriority(table, due, p, k - 1);
      PriorityChooses(table, due, p, k - 1);
    }
  }

  /** Nothing is emitted exactly when no due record has a priority in 1..100. */
  lemma NothingEmitted(table: seq<Record>, due: seq<bool>, p: int)
    requires |due| <= |table| && IsPriority(table, due, |due|, p)
    ensures ChosenJobs(table, due, |due|) == []
            <==> forall j: nat | j < |due| && due[j] :: !(1 <= table[j].sortOrder <= 100)
  {
    hide ChosenJobs;
    NoneOfPriority(table, due, p, |due|);
    if j: nat :| j < |due| && due[j] && 1 <= table[j].sortOrder <= 100 && p == 100 {
      assert table[j].sortOrder == p;
    }
  }

  // ---------------------------------------------------------------- the scanning task

  class EventTask {
    const table: array<Record>
    const eventHour: array<int>
    const eventMinute: array<int>
    var priority: int
    var sun: Sun
    var emitted: seq<Job>

    ghost predicate Valid() {
      && table.Length == eventHour.Length == eventMinute.Length == MAX_EVENT_ORDER
      && eventHour != eventMinute
    }

    constructor ()
      ensures Valid() && fresh(table) && fresh(eventHour) && fresh(eventMinute) && emitted == []
      ensures sun == Sun(HM(0, 0), HM(0, 0), 0)
    {
      var empty := Record(0, 0, 0, 0, 0, 0, 0, 0, 0, 0, 0, 0, 0, 0, 0, 0, 0);
      table := new Record[MAX_EVENT_ORDER](_ => empty);
      eventHour := new int[MAX_EVENT_ORDER](_ => 0);
      eventMinute := new int[MAX_EVENT_ORDER](_ => 0);
      priority, sun, emitted := 100, Sun(HM(0, 0), HM(0, 0), 0), [];
    }

    /** The weekday bit of the current day; the two corrections for a minute outside the day never apply. */
    method WeekdayBit(now: DateTime) returns (weekday: bv8)
      requires TableDate(now.day) && ClockTime(now) && now.day.year < 256
      ensures weekday == DayBit(TotalDays(now.day))
    {
      var rtcWeekDay: int := RtcWeekDay(TotalDays(now.day));
      var dayOffset := now.hour * 60 + now.minute;
      if dayOffset >= TOTAL_DAY_MINUTES {
        rtcWeekDay := if rtcWeekDay >= 7 then 1 else rtcWeekDay + 1;
      } else if dayOffset < 0 {
        rtcWeekDay := if rtcWeekDay == 1 then 7 else rtcWeekDay - 1;
      }
      weekday := (0x80 as bv8) >> rtcWeekDay;
    }

    /** The time of record `k`, refreshing the sun times on the first call of a day. */
    method TimeOfRecord(k: nat, c: Context)
      requires Valid() && k < MAX_EVENT_ORDER && Domain(table[k], c) && InWindow(table[k], c.holidays, c.now.day)
      requires eventHour[k] == table[k].hour && eventMinute[k] == table[k].minute
      modifies this`sun, eventHour, eventMinute
      ensures sun == SunStep(old(sun), table[k], c)
      ensures HM(eventHour[k], eventMinute[k]) == EventTime(table[k], sun)
      ensures forall i | 0 <= i < MAX_EVENT_ORDER && i != k ::
                eventHour[i] == old(eventHour[i]) && eventMinute[i] == old(eventMinute[i])
    {
      var rec := table[k];
      if sun.prevDD != c.now.day.date {
        sun := sun.(prevDD := c.now.day.date);
        if rec.timeType == SUNSET {
          sun := sun.(set_ := c.todaysSet);
          eventHour[k] := CMod(CDiv(sun.set_.hour * 60 + sun.set_.minute + rec.offsetMinutes, 60), 24) % 256;
          eventMinute[k] := CMod(sun.set_.hour * 60 + sun.set_.minute + rec.offsetMinutes, 60);
        } else if rec.timeType == SUNRISE {
          sun := sun.(rise := c.todaysRise);
          eventHour[k] := CMod(CDiv(sun.rise.hour * 60 + sun.rise.minute + rec.offsetMinutes, 60), 24) % 256;
          eventMinute[k] := CMod(sun.rise.hour * 60 + sun.rise.minute + rec.offsetMinutes, 60);
        }
      } else {
        if rec.timeType == SUNSET {
          eventHour[k] := CMod(CDiv(sun.set_.hour * 60 + sun.set_.minute + rec.offsetMinutes, 60), 24) % 256;
          eventMinute[k] := CMod(sun.set_.hour * 60 + sun.set_.minute + rec.offsetMinutes, 60);
        } else if rec.timeType == SUNRISE {
          eventHour[k] := CMod(CDiv(sun.rise.hour * 60 + sun.rise.minute + rec.offsetMinutes, 60), 24) % 256;
          eventMinute[k] := CMod(sun.rise.hour * 60 + sun.rise.minute + rec.offsetMinutes, 60);
        }
      }
    }

    /** The tests on weekday, hour and minute of a record in its window. */
    method MatchesNow(k: nat, c: Context) returns (matches: bool)
      requires Valid() && k < MAX_EVENT_ORDER && Domain(table[k], c)
      ensures matches <==> DayBit(TotalDays(c.now.day)) & table[k].weekDays != 0
                           && HM(eventHour[k], eventMinute[k]) == HM(c.now.hour, c.now.minute)
    {
      hide DayBit, TotalDays, RecordInDomain;
      matches := false;
      var weekday := WeekdayBit(c.now);
      if weekday & table[k].weekDays != 0 {
        if eventHour[k] == c.now.hour {
          if eventMinute[k] == c.now.minute {
            matches := true;
          }
        }
      }
    }

    /** What the first pass finds out about record `k`: its time, and whether it is due. */
    method Examine(k: nat, ghost n: nat, c: Context, ghost sun0: Sun) returns (due: bool)
      requires Valid() && Loaded(table[..], n, c) && k < n && sun == SunAfter(table[..], k, c, sun0)
      modifies this`sun, eventHour, eventMinute
      ensures sun == SunAfter(table[..], k + 1, c, sun0)
      ensures due == DueFlags(table[..], n, c, sun0)[k]
      ensures InWindow(table[k], c.holidays, c.now.day) ==>
                HM(eventHour[k], eventMinute[k]) == EventTime(table[k], SunAfter(table[..], n, c, sun0))
      ensures forall i | 0 <= i < MAX_EVENT_ORDER && i != k ::
                eventHour[i] == old(eventHour[i]) && eventMinute[i] == old(eventMinute[i])
    {
      hide InWindow, DayBit, EventTime, TotalDays, SunStep, RecordInDomain, DueFlags;
      ghost var t := table[..];
      due := false;
      eventHour[k] := table[k].hour;
      eventMinute[k] := table[k].minute;
      var inWindow := DateWindowTest(table[k % 256], c.holidays, c.now.day);
      if inWindow {
        TimeOfRecord(k, c);
        SunSettles(t, k, n, c, sun0);
        due := MatchesNow(k, c);
      } else {
        SunKeptOutsideWindow(sun, t[k], c);
      }
    }

    /** The first pass. */
    method FirstPass(ghost n: nat, c: Context)
      requires Valid() && Loaded(table[..], n, c)
      modifies this`priority, this`sun, eventHour, eventMinute
      ensures sun == SunAfter(table[..], n, c, old(sun))
      ensures IsPriority(table[..], DueFlags(table[..], n, c, old(sun)), n, priority)
      ensures forall i | 0 <= i < n && InWindow(table[i], c.holidays, c.now.day) ::
                HM(eventHour[i], eventMinute[i]) == EventTime(table[i], sun)
    {
      hide InWindow, EventTime, SunAfter, RecordInDomain, DueFlags;
      ghost var t, sun0 := table[..], sun;
      ghost var flags := DueFlags(t, n, c, sun0);
      SunBefore(t, c, sun0);
      priority := 100;
      var k := 0;
      while table[k].scriptId != 0
        invariant k <= n && table[..] == t
        invariant sun == SunAfter(t, k, c, sun0)
        invariant IsPriority(t, flags, k, priority)
        invariant forall i | 0 <= i < k && InWindow(t[i], c.holidays, c.now.day) ::
                    HM(eventHour[i], eventMinute[i]) == EventTime(t[i], SunAfter(t, n, c, sun0))
        decreases n - k
      {
        var due := Examine(k, n, c, sun0);
        if due {
          if table[k].sortOrder <= priority && table[k].sortOrder != 0 && priority != 0 {
            priority := table[k].sortOrder;
          }
        }
        k := k + 1;
      }
    }

    /** What the second pass checks again for record `k`. */
    method IsDue(k: nat, ghost n: nat, c: Context, ghost sun0: Sun) returns (due: bool)
      requires Valid() && Loaded(table[..], n, c) && k < n
      requires InWindow(table[k], c.holidays, c.now.day) ==>
                 HM(eventHour[k], eventMinute[k]) == EventTime(table[k], SunAfter(table[..], n, c, sun0))
      ensures due == DueFlags(table[..], n, c, sun0)[k]
    {
      hide InWindow, DayBit, EventTime, TotalDays, SunAfter, RecordInDomain, DueFlags;
      due := false;
      var inWindow := DateWindowTest(table[k % 256], c.holidays, c.now.day);
      if inWindow {
        due := MatchesNow(k, c);
      }
    }

    method RefreshSun(c: Context)
      modifies this`sun
      ensures sun == Refreshed(old(sun), c)
    {
      sun := sun.(rise := c.todaysRise);
      sun := sun.(set_ := c.todaysSet);
    }

    /** The second pass. */
    method SecondPass(ghost n: nat, c: Context, ghost sun0: Sun)
      requires Valid() && Loaded(table[..], n, c)
      requires IsPriority(table[..], DueFlags(table[..], n, c, sun0), n, priority)
      requires forall i | 0 <= i < n && InWindow(table[i], c.holidays, c.now.day) ::
                 HM(eventHour[i], eventMinute[i]) == EventTime(table[i], SunAfter(table[..], n, c, sun0))
      modifies this`emitted, this`sun
      ensures emitted == old(emitted) + ChosenJobs(table[..], DueFlags(table[..], n, c, sun0), n)
      ensures sun == if Reports(table[..], DueFlags(table[..], n, c, sun0), n, c.roomAt) then Refreshed(old(sun), c) else old(sun)
    {
      hide InWindow, EventTime, SunAfter, RecordInDomain, DueFlags, Chosen, IsPriority, Domain;
      ghost var t, before := table[..], emitted;
      ghost var flags := DueFlags(t, n, c, sun0);
      var k := 0;
      while table[k].scriptId != 0
        invariant k <= n
        invariant emitted == before + ChosenJobs(t, flags, k)
        invariant sun == if Reports(t, flags, k, c.roomAt) then Refreshed(old(sun), c) else old(sun)
        decreases n - k
      {
        PriorityChooses(t, flags, priority, k);
        NextReport(t, flags, k, c.roomAt);
        var due := IsDue(k, n, c, sun0);
        if due {
          if table[k].sortOrder == priority {
            if c.roomAt(k) {
              RefreshSun(c);
            }
            emitted := emitted + [JobOf(table[k])];
          }
        }
        k := k + 1;
      }
    }

    /** A completed scan emits the chosen records, in table order, and nothing else. */
    method Scan(ghost n: nat, c: Context)
      requires Valid() && Loaded(table[..], n, c)
      modifies this`priority, this`sun, this`emitted, eventHour, eventMinute
      ensures emitted == old(emitted) + ChosenJobs(table[..], ScanFlags(table[..], n, c, old(sun)), n)
      ensures sun == SunAfterScan(table[..], n, c, old(sun))
    {
      hide InWindow, EventTime, SunAfter, RecordInDomain, DueFlags, IsPriority, Loaded, Reports;
      if !c.warp {
        if c.room {
          RefreshSun(c);
        }
      }
      ghost var sun0 := sun;
      FirstPass(n, c);
      SecondPass(n, c, sun0);
    }
  }
}
