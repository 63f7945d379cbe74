/**
 Which sunset and sunrise a scan uses (main/EVENT_Actor.c, Tasks_EventCheck): a report stores both of
 today's times, the records themselves only refresh one of them, once a day.
 */
module SunTimes {
  import opened Calendar
  import opened DateWindow
  import opened Schedule

  function TimeOf(sun: Sun, timeType: nat): HourMinute {
    if timeType == SUNSET then sun.set_ else sun.rise
  }

  function TodaysTime(c: Context, timeType: nat): HourMinute {
    if timeType == SUNSET then c.todaysSet else c.todaysRise
  }

  predicate SunRelative(timeType: nat) {
    timeType == SUNSET || timeType == SUNRISE
  }

  /** All records in use can be tested against the day. */
  predicate Testable(table: seq<Record>, n: nat, holidays: seq<seq<nat>>, day: Date) {
    n <= |table| && forall i | 0 <= i < n :: RecordInDomain(table[i], holidays, day.year)
  }

  predicate NoneInWindow(table: seq<Record>, k: nat, holidays: seq<seq<nat>>, day: Date)
    requires Testable(table, k, holidays, day)
  {
    forall i | 0 <= i < k :: !InWindow(table[i], holidays, day)
  }

  /** Record `f` is the first that is in its window on the day. */
  predicate IsFirst(table: seq<Record>, n: nat, holidays: seq<seq<nat>>, day: Date, f: nat)
    requires Testable(table, n, holidays, day)
  {
    f < n && InWindow(table[f], holidays, day) && NoneInWindow(table, f, holidays, day)
  }

  /** The first record in its window depends on that sun time. */
  ghost predicate DependsOn(table: seq<Record>, n: nat, holidays: seq<seq<nat>>, day: Date, timeType: nat)
    requires Testable(table, n, holidays, day)
  {
    exists f: nat :: IsFirst(table, n, holidays, day, f) && table[f].timeType == timeType
  }

  lemma LoadedIsTestable(table: seq<Record>, n: nat, c: Context)
    requires Loaded(table, n, c)
    ensures Testable(table, n, c.holidays, c.now.day)
    ensures forall i | 0 <= i < n :: Domain(table[i], c)
  {
    hide RecordInDomain, ClockTime, TableDate, TwoDigitYear;
  }

  lemma {:induction false} KeptOutsideWindows(table: seq<Record>, n: nat, k: nat, c: Context, sun: Sun)
    requires Loaded(table, n, c) && k <= n && Testable(table, k, c.holidays, c.now.day)
    requires NoneInWindow(table, k, c.holidays, c.now.day)
    ensures SunAfter(table, k, c, sun) == sun
    decreases k
  {
    hide InWindow, Domain, RecordInDomain;
    if k > 0 {
      KeptOutsideWindows(table, n, k - 1, c, sun);
      SunKeptOutsideWindow(sun, table[k - 1], c);
    }
  }

  lemma {:induction false} FirstOrNone(table: seq<Record>, n: nat, holidays: seq<seq<nat>>, day: Date) returns (f: nat)
    requires Testable(table, n, holidays, day)
    ensures f <= n && NoneInWindow(table, f, holidays, day)
    ensures f < n ==> IsFirst(table, n, holidays, day, f)
  {
    hide InWindow, RecordInDomain;
    f := 0;
    while f < n && !InWindow(table[f], holidays, day)
      invariant f <= n && NoneInWindow(table, f, holidays, day)
    {
      f := f + 1;
    }
  }

  lemma FirstIsUnique(table: seq<Record>, n: nat, holidays: seq<seq<nat>>, day: Date, f: nat, g: nat)
    requires Testable(table, n, holidays, day)
    requires IsFirst(table, n, holidays, day, f) && IsFirst(table, n, holidays, day, g)
    ensures f == g
  {
    hide InWindow, RecordInDomain;
  }

  /** What the record loop leaves is decided by the first record in its window. */
  lemma LoopInOneStep(table: seq<Record>, n: nat, c: Context, sun: Sun, f: nat)
    requires Loaded(table, n, c) && Testable(table, n, c.holidays, c.now.day)
    requires f <= n && NoneInWindow(table, f, c.holidays, c.now.day)
    requires f < n ==> IsFirst(table, n, c.holidays, c.now.day, f) && Domain(table[f], c)
    ensures SunAfter(table, n, c, sun) == if f < n then SunStep(sun, table[f], c) else sun
    ensures f < n ==> SunAfter(table, n, c, sun).prevDD == c.now.day.date
  {
    hide InWindow, Domain, RecordInDomain, SunStep;
    LoadedIsTestable(table, n, c);
    KeptOutsideWindows(table, n, f, c, sun);
    if f < n {
      SunSettles(table, f, n, c, sun);
    }
  }

  /** The stored time is today's, or the record loop is going to refresh it. */
  ghost predicate WillBeTodays(table: seq<Record>, n: nat, c: Context, sun: Sun, timeType: nat)
    requires Testable(table, n, c.holidays, c.now.day)
  {
    || TimeOf(sun, timeType) == TodaysTime(c, timeType)
    || (sun.prevDD != c.now.day.date && DependsOn(table, n, c.holidays, c.now.day, timeType))
  }

  /** The record loop uses today's time iff it was stored, or the first record in its window is the first of the day and depends on it. */
  lemma LoopUsesTodaysIff(table: seq<Record>, n: nat, c: Context, sun: Sun, timeType: nat)
    requires Loaded(table, n, c) && SunRelative(timeType) && Testable(table, n, c.holidays, c.now.day)
    ensures TimeOf(SunAfter(table, n, c, sun), timeType) == TodaysTime(c, timeType)
            <==> WillBeTodays(table, n, c, sun, timeType)
    ensures WillBeTodays(table, n, c, SunAfter(table, n, c, sun), timeType) <==> WillBeTodays(table, n, c, sun, timeType)
  {
    hide InWindow, Domain, RecordInDomain, Testable, NoneInWindow, Loaded, SunAfter;
    LoadedIsTestable(table, n, c);
    var f := FirstOrNone(table, n, c.holidays, c.now.day);
    LoopInOneStep(table, n, c, sun, f);
    if f < n {
      forall g: nat | IsFirst(table, n, c.holidays, c.now.day, g) ensures g == f {
        FirstIsUnique(table, n, c.holidays, c.now.day, f, g);
      }
      FirstIsInside(table, n, c, f);
    } else {
      NoFirst(table, n, c.holidays, c.now.day);
    }
  }

  lemma FirstIsInside(table: seq<Record>, n: nat, c: Context, f: nat)
    requires Testable(table, n, c.holidays, c.now.day) && IsFirst(table, n, c.holidays, c.now.day, f)
    ensures f < |table| && RecordInDomain(table[f], c.holidays, c.now.day.year) && InWindow(table[f], c.holidays, c.now.day)
  {
  }

  lemma NoFirst(table: seq<Record>, n: nat, holidays: seq<seq<nat>>, day: Date)
    requires Testable(table, n, holidays, day) && NoneInWindow(table, n, holidays, day)
    ensures forall f: nat :: !IsFirst(table, n, holidays, day, f)
  {
    hide InWindow, RecordInDomain;
  }

  // ---------------------------------------------------------------- outside a time warp

  /** The records due at the current minute by today's sun. */
  function TodaysDue(table: seq<Record>, n: nat, c: Context): (due: seq<bool>)
    requires Loaded(table, n, c)
    ensures |due| == n
    ensures forall k: nat | k < n :: due[k] <==> Eligible(table[k], c, Sun(c.todaysSet, c.todaysRise, 0))
  {
    seq(n, k requires 0 <= k < n => Eligible(table[k], c, Sun(c.todaysSet, c.todaysRise, 0)))
  }

  /** Outside a time warp a scan that writes its report times every record by today's sun, whatever was stored. */
  lemma ReportedScanUsesTodaysSun(table: seq<Record>, n: nat, c: Context, sun: Sun)
    requires Loaded(table, n, c) && !c.warp && c.room
    ensures var used := SunAfter(table, n, c, SunAtStart(sun, c)); used.set_ == c.todaysSet && used.rise == c.todaysRise
    ensures ScanFlags(table, n, c, sun) == TodaysDue(table, n, c)
  {
    hide InWindow, Domain, RecordInDomain, Loaded, SunAfter;
    LoadedIsTestable(table, n, c);
    var start := SunAtStart(sun, c);
    LoopUsesTodaysIff(table, n, c, start, SUNSET);
    LoopUsesTodaysIff(table, n, c, start, SUNRISE);
    forall k: nat | k < n ensures ScanFlags(table, n, c, sun)[k] == TodaysDue(table, n, c)[k] {
      OnlyTheTimesMatter(table[k], c, SunAfter(table, n, c, start), Sun(c.todaysSet, c.todaysRise, 0));
    }
  }

  lemma OnlyTheTimesMatter(rec: Record, c: Context, a: Sun, b: Sun)
    requires Domain(rec, c) && a.set_ == b.set_ && a.rise == b.rise
    ensures Eligible(rec, c, a) == Eligible(rec, c, b)
  {
    hide InWindow, Domain, DayBit, TotalDays;
  }

  // ---------------------------------------------------------------- one scan

  /** The scan stores today's times before its passes. */
  predicate ReportsFirst(c: Context) {
    !c.warp && c.room
  }

  ghost predicate ReportsEmission(table: seq<Record>, n: nat, c: Context, sun: Sun)
    requires Loaded(table, n, c)
  {
    Reports(table, ScanFlags(table, n, c, sun), n, c.roomAt)
  }

  /** The sun times the records of a scan are timed by. */
  function UsedSun(table: seq<Record>, n: nat, c: Context, sun: Sun): Sun
    requires Loaded(table, n, c)
  {
    SunAfter(table, n, c, SunAtStart(sun, c))
  }

  lemma ScanUsesTodaysIff(table: seq<Record>, n: nat, c: Context, sun: Sun, timeType: nat)
    requires Loaded(table, n, c) && SunRelative(timeType) && Testable(table, n, c.holidays, c.now.day)
    ensures TimeOf(UsedSun(table, n, c, sun), timeType) == TodaysTime(c, timeType)
            <==> ReportsFirst(c) || WillBeTodays(table, n, c, sun, timeType)
    ensures WillBeTodays(table, n, c, SunAfterScan(table, n, c, sun), timeType)
            <==> ReportsFirst(c) || ReportsEmission(table, n, c, sun) || WillBeTodays(table, n, c, sun, timeType)
  {
    hide InWindow, Domain, RecordInDomain, Loaded, SunAfter, Testable, DependsOn, Reports, ScanFlags;
    LoopUsesTodaysIff(table, n, c, SunAtStart(sun, c), timeType);
  }

  /** The flags of a scan are what being due means, by the sun times it uses. */
  lemma FlagsMeanDue(table: seq<Record>, n: nat, c: Context, sun: Sun, k: nat, s: string)
    requires Loaded(table, n, c) && k < n && table[k].weekDays == MaskOf(s) && EpochDays(c.now.day) >= 2
    requires Domain(table[k], c) && -1440 < SunMinuteOfDay(table[k], UsedSun(table, n, c, sun))
    ensures ScanFlags(table, n, c, sun)[k]
            <==> InWindow(table[k], c.holidays, c.now.day) && Letter(EpochDays(c.now.day)) in s
                 && ClockMatches(table[k], UsedSun(table, n, c, sun), c.now)
  {
    hide InWindow, RecordInDomain, MaskOf, Letter, EpochDays, ClockMatches, TableDate, SunAfter, SunMinuteOfDay, Eligible;
    EligibleIff(table[k], c, UsedSun(table, n, c, sun), s);
  }

  /** A chosen record whose report is written leaves both of today's times, otherwise a scan leaves those it used. */
  lemma EmissionStoresBothTimes(table: seq<Record>, n: nat, c: Context, sun: Sun)
    requires Loaded(table, n, c)
    ensures var due, after := ScanFlags(table, n, c, sun), SunAfterScan(table, n, c, sun);
            if exists j: nat :: j < n && Chosen(table, due, j) && c.roomAt(j)
            then after.set_ == c.todaysSet && after.rise == c.todaysRise
            else after == UsedSun(table, n, c, sun)
  {
    hide Loaded, SunAfter, ScanFlags, Chosen;
  }

  /** Only records in their window move the latch, reports do not. */
  lemma LatchAfterScan(table: seq<Record>, n: nat, c: Context, sun: Sun)
    requires Loaded(table, n, c) && Testable(table, n, c.holidays, c.now.day)
    ensures SunAfterScan(table, n, c, sun).prevDD
            == if NoneInWindow(table, n, c.holidays, c.now.day) then sun.prevDD else c.now.day.date
  {
    hide InWindow, Domain, RecordInDomain, Testable, Loaded, SunAfter, Reports, ScanFlags;
    LoadedIsTestable(table, n, c);
    var start := SunAtStart(sun, c);
    var f := FirstOrNone(table, n, c.holidays, c.now.day);
    LoopInOneStep(table, n, c, start, f);
    if f < n { FirstIsInside(table, n, c, f); }
  }
}
