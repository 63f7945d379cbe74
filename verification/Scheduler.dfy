/**
 The polling loop together with the scan (main/EVENT_Actor.c, Tasks_EventCheck): what is emitted in
 the course of a run, in real time and in a time warp, with a table that does not change.
 */
module Scheduler {
  import opened Calendar
  import opened Common
  import opened DateWindow
  import opened Dst
  import opened Polling
  import opened Schedule
  import opened SunTimes

  /** The table, which iterations scan it, what a scan in each of them would read, and the sun times at the beginning. */
  datatype Run = Run(table: seq<Record>, n: nat, scans: seq<bool>, contexts: seq<Context>, sun: Sun)

  ghost predicate Proper(r: Run) {
    |r.contexts| == |r.scans| && forall k :: 0 <= k < |r.scans| ==> Loaded(r.table, r.n, r.contexts[k])
  }

  /** Sunset and sunrise before iteration `k`. */
  ghost function SunAt(r: Run, k: nat): Sun
    requires Proper(r) && k <= |r.scans|
  {
    if k == 0 then r.sun
    else if r.scans[k - 1] then SunAfterScan(r.table, r.n, r.contexts[k - 1], SunAt(r, k - 1))
    else SunAt(r, k - 1)
  }

  /** The records due in iteration `k`. */
  ghost function DueAt(r: Run, k: nat): (due: seq<bool>)
    requires Proper(r) && k < |r.scans|
    ensures |due| == r.n <= |r.table|
  {
    ScanFlags(r.table, r.n, r.contexts[k], SunAt(r, k))
  }

  ghost function EmittedAt(r: Run, k: nat): seq<Job>
    requires Proper(r) && k < |r.scans|
  {
    if r.scans[k] then ChosenJobs(r.table, DueAt(r, k), r.n) else []
  }

  /** What the first `k` iterations emit. */
  ghost function Emitted(r: Run, k: nat): seq<Job>
    requires Proper(r) && k <= |r.scans|
  {
    if k == 0 then [] else Emitted(r, k - 1) + EmittedAt(r, k - 1)
  }

  // ---------------------------------------------------------------- one iteration

  /** One turn of the loop: a scan if the latch lets it through. */
  method PollOnce(loop: EventLoop, task: EventTask, poll: nat, zone: Zone, ghost n: nat, c: Context)
    requires |zone.table.starts| == |zone.table.ends|
    requires task.Valid() && Loaded(task.table[..], n, c)
    modifies loop, task, task.eventHour, task.eventMinute
    ensures loop.Abstract() == Step(old(loop.Abstract()), poll, zone)
    ensures task.table[..] == old(task.table[..])
    ensures var scans := old(Scans(loop.Abstract(), poll, zone));
            && task.sun == (if scans then SunAfterScan(task.table[..], n, c, old(task.sun)) else old(task.sun))
            && task.emitted == old(task.emitted)
                               + if scans then ChosenJobs(task.table[..], ScanFlags(task.table[..], n, c, old(task.sun)), n) else []
  {
    hide Loaded, ChosenJobs, SunAfterScan, ScanFlags, Step, Scans;
    var before := |loop.scanned|;
    loop.Iterate(poll, zone);
    if |loop.scanned| > before {
      task.Scan(n, c);
    }
  }

  lemma NextEmission(r: Run, k: nat)
    requires Proper(r) && k < |r.scans|
    ensures Loaded(r.table, r.n, r.contexts[k])
    ensures SunAt(r, k + 1) == if r.scans[k] then SunAfterScan(r.table, r.n, r.contexts[k], SunAt(r, k)) else SunAt(r, k)
    ensures Emitted(r, k + 1)
            == Emitted(r, k)
               + if r.scans[k] then ChosenJobs(r.table, ScanFlags(r.table, r.n, r.contexts[k], SunAt(r, k)), r.n) else []
  {
    hide Loaded, ChosenJobs, SunAfterScan, ScanFlags;
  }

  lemma AtTheBeginning(r: Run)
    requires Proper(r)
    ensures SunAt(r, 0) == r.sun && Emitted(r, 0) == [] && |r.contexts| == |r.scans|
  {
  }

  // ---------------------------------------------------------------- real time

  /** The run is that of the loop over polls in local milliseconds, without a time warp. */
  ghost predicate Follows(r: Run, local: seq<nat>) {
    && Proper(r) && |r.scans| == |local|
    && forall k: nat :: k < |local| ==> FollowsAt(r.scans[k], r.contexts[k], local, k)
  }

  ghost predicate FollowsAt(scans: bool, c: Context, local: seq<nat>, k: nat)
    requires k < |local|
  {
    scans == ScansAt(local, k) && !c.warp && c.now == DateTimeOf(local[k] / 1000)
  }

  lemma FollowsHere(r: Run, local: seq<nat>, k: nat)
    requires Follows(r, local) && k < |local|
    ensures Proper(r) && |r.scans| == |r.contexts| == |local| && FollowsAt(r.scans[k], r.contexts[k], local, k)
  {
    hide FollowsAt, Loaded;
  }

  /** Polls in UTC milliseconds shown in local time. */
  ghost predicate Shown(polls: seq<nat>, zone: Zone, local: seq<nat>) {
    && |local| == |polls|
    && forall k :: 0 <= k < |polls| ==> local[k] == LocalMs(polls[k], zone) && local[k] < 0x1_0000_0000 * 1000
  }

  lemma NextPoll(r: Run, polls: seq<nat>, zone: Zone, local: seq<nat>, k: nat)
    requires Follows(r, local) && Shown(polls, zone, local) && k < |polls|
    ensures LoopState(polls, zone, k + 1) == Step(LoopState(polls, zone, k), polls[k], zone)
    ensures Scans(LoopState(polls, zone, k), polls[k], zone) <==> r.scans[k]
  {
    hide LocalMs, Step, Scans, Follows;
    LoopFollowsLatch(polls, local, zone, k);
    FollowsHere(r, local, k);
  }

  lemma BeforeFirstPoll(polls: seq<nat>, zone: Zone)
    ensures LoopState(polls, zone, 0) == State(0, 0, false)
  {
  }

  lemma Lengths(r: Run, polls: seq<nat>, zone: Zone, local: seq<nat>)
    requires Follows(r, local) && Shown(polls, zone, local)
    ensures Proper(r) && |r.contexts| == |r.scans| == |local| == |polls|
  {
  }

  lemma AfterLastPoll(polls: seq<nat>, zone: Zone, local: seq<nat>)
    requires Shown(polls, zone, local)
    ensures |local| == |polls| && LoopState(polls, zone, |polls|) == State(0, 0, Latch(local, |polls|))
  {
    hide LocalMs;
    LoopFollowsLatch(polls, local, zone, |polls|);
  }

  /** One run of the loop over polls in UTC milliseconds. */
  method RunPolls(loop: EventLoop, task: EventTask, polls: seq<nat>, zone: Zone, ghost local: seq<nat>, ghost r: Run,
                  contexts: seq<Context>)
    requires |zone.table.starts| == |zone.table.ends|
    requires loop.Abstract() == State(0, 0, false) && task.Valid()
    requires Follows(r, local) && Shown(polls, zone, local)
    requires r.contexts == contexts && r.table == task.table[..] && r.sun == task.sun
    modifies loop, task, task.eventHour, task.eventMinute
    ensures |r.scans| == |polls| == |local|
    ensures task.emitted == old(task.emitted) + Emitted(r, |polls|)
    ensures task.sun == SunAt(r, |polls|)
    ensures loop.Abstract() == State(0, 0, Latch(local, |polls|))
  {
    hide *;
    Lengths(r, polls, zone, local);
    AtTheBeginning(r);
    BeforeFirstPoll(polls, zone);
    ghost var emitted := task.emitted;
    assert emitted + [] == emitted;
    var k := 0;
    while k < |polls|
      invariant 0 <= k <= |polls| && task.table[..] == r.table
      invariant loop.Abstract() == LoopState(polls, zone, k)
      invariant task.sun == SunAt(r, k)
      invariant task.emitted == emitted + Emitted(r, k)
    {
      NextPoll(r, polls, zone, local, k);
      NextEmission(r, k);
      PollOnce(loop, task, polls[k], zone, r.n, contexts[k]);
      k := k + 1;
    }
    AfterLastPoll(polls, zone, local);
  }

  // ---------------------------------------------------------------- time warp

  /** The run is that of a time warp from `start` on, one iteration for each simulated minute. */
  ghost predicate Replays(r: Run, start: nat, zoneAt: nat -> Zone) {
    && Proper(r) && WarpInRange(start, |r.scans|, zoneAt)
    && forall i: nat :: i < |r.scans| ==> ReplaysAt(r.scans[i], r.contexts[i], start + i * 60000, zoneAt)
  }

  /** Local seconds of an instant. */
  function LocalOf(ms: nat, zone: Zone): int {
    Local(zone.table, ms / 1000 - EPOCH_TO_30_YEAR, zone.gmt, zone.dst)
  }

  ghost predicate ReplaysAt(scans: bool, c: Context, ms: nat, zoneAt: nat -> Zone) {
    scans && c.warp && InClockRange(ms, zoneAt(ms)) && c.now == DateTimeOf(LocalOf(ms, zoneAt(ms)))
  }

  /** Where a warp from a clear latch is before iteration `i`. */
  function WarpState(start: nat, end: nat, i: nat): State {
    if i < WarpCount(start, end) then State(start + i * 60000, end, false) else State(0, 0, false)
  }

  ghost predicate ProperZones(zoneAt: nat -> Zone) {
    forall t :: |zoneAt(t).table.starts| == |zoneAt(t).table.ends|
  }

  lemma NextMinute(r: Run, start: nat, end: nat, zoneAt: nat -> Zone, i: nat)
    requires Replays(r, start, zoneAt) && start > 0 && start % 60000 == 0 && end % 60000 == 0
    requires |r.scans| == WarpCount(start, end) && i < |r.scans|
    ensures var ms := start + i * 60000;
            && WarpState(start, end, i) == State(ms, end, false) && ms > 0
            && Scans(WarpState(start, end, i), 0, zoneAt(ms))
            && Step(WarpState(start, end, i), 0, zoneAt(ms)) == WarpState(start, end, i + 1)
    ensures r.scans[i]
  {
    hide Proper, WarpInRange, InClockRange, DateTimeOf, ShownSecond, Scans;
    var ms := start + i * 60000;
    AtTheBeginning(r);
    assert ReplaysAt(r.scans[i], r.contexts[i], ms, zoneAt);
    assert ms % 60000 == 0;
    MinuteIsScanned(ms, end, zoneAt(ms));
    LastMinute(start, end, i);
  }

  lemma LastMinute(start: nat, end: nat, i: nat)
    requires start % 60000 == 0 && end % 60000 == 0 && i < WarpCount(start, end)
    ensures start + i * 60000 + 60000 >= end <==> i + 1 == WarpCount(start, end)
  {
    var a, b := start / 60000, end / 60000;
    assert start == a * 60000 && end == b * 60000;
    if end - start >= 60000 {
      assert (end - start) / 60000 == b - a;
    }
  }

  lemma WarpLengths(r: Run, start: nat, zoneAt: nat -> Zone)
    requires Replays(r, start, zoneAt)
    ensures Proper(r) && |r.contexts| == |r.scans|
  {
  }

  lemma ZoneIsProper(zoneAt: nat -> Zone, t: nat)
    requires ProperZones(zoneAt)
    ensures |zoneAt(t).table.starts| == |zoneAt(t).table.ends|
  {
  }

  lemma WarpBegins(start: nat, end: nat)
    requires start > 0 && start % 60000 == 0 && end % 60000 == 0
    ensures WarpCount(start, end) > 0 && WarpState(start, end, 0) == State(start, end, false)
  {
    AtLeastOne(start, end);
  }

  lemma WarpIsOver(start: nat, end: nat, i: nat)
    requires start > 0 && i <= WarpCount(start, end)
    ensures WarpState(start, end, i).start == 0 <==> i == WarpCount(start, end)
    ensures i == WarpCount(start, end) ==> WarpState(start, end, i) == State(0, 0, false)
  {
  }

  /** A warp over [start, end) from a clear latch: it ends, and has emitted what each minute emits, in order. */
  method RunWarp(loop: EventLoop, task: EventTask, zoneAt: nat -> Zone, ghost start: nat, ghost end: nat, ghost r: Run,
                 contexts: seq<Context>)
    requires ProperZones(zoneAt) && task.Valid()
    requires loop.Abstract() == State(start, end, false) && start > 0 && start % 60000 == 0 && end % 60000 == 0
    requires Replays(r, start, zoneAt) && |r.scans| == WarpCount(start, end)
    requires r.contexts == contexts && r.table == task.table[..] && r.sun == task.sun
    modifies loop, task, task.eventHour, task.eventMinute
    ensures task.emitted == old(task.emitted) + Emitted(r, |r.scans|)
    ensures task.sun == SunAt(r, |r.scans|)
    ensures loop.Abstract() == State(0, 0, false)
  {
    hide Replays, Proper, Loaded, SunAt, Emitted, WarpState, WarpCount, Step, Scans, ScanFlags, SunAfterScan, ChosenJobs, ProperZones;
    WarpLengths(r, start, zoneAt);
    AtTheBeginning(r);
    WarpBegins(start, end);
    ghost var emitted := task.emitted;
    assert emitted + [] == emitted;
    var i := 0;
    WarpIsOver(start, end, i);
    while loop.startEpoc != 0
      invariant 0 <= i <= |r.scans| && task.table[..] == r.table
      invariant loop.Abstract() == WarpState(start, end, i)
      invariant loop.startEpoc == 0 <==> i == |r.scans|
      invariant task.sun == SunAt(r, i)
      invariant task.emitted == emitted + Emitted(r, i)
      decreases |r.scans| - i
    {
      NextMinute(r, start, end, zoneAt, i);
      NextEmission(r, i);
      ZoneIsProper(zoneAt, loop.startEpoc);
      PollOnce(loop, task, 0, zoneAt(loop.startEpoc), r.n, contexts[i]);
      i := i + 1;
      WarpIsOver(start, end, i);
    }
    WarpIsOver(start, end, i);
  }

  // ---------------------------------------------------------------- no record twice

  /** The places of the chosen records among the first `k`. */
  ghost function ChosenPlaces(table: seq<Record>, due: seq<bool>, k: nat): (places: seq<nat>)
    requires k <= |due| <= |table|
    ensures forall i :: 0 <= i < |places| ==> places[i] < k
  {
    if k == 0 then [] else ChosenPlaces(table, due, k - 1) + if Chosen(table, due, k - 1) then [k - 1] else []
  }

  /** `jobs` are those of the chosen records among the first `k`, at `places`, each once, in the order of the table. */
  ghost predicate ListsChosen(table: seq<Record>, due: seq<bool>, k: nat, places: seq<nat>, jobs: seq<Job>)
    requires k <= |due| <= |table|
  {
    && |jobs| == |places|
    && (forall i :: 0 <= i < |places| ==> places[i] < k && Chosen(table, due, places[i]) && jobs[i] == JobOf(table[places[i]]))
    && (forall i, j :: 0 <= i < j < |places| ==> places[i] < places[j])
    && (forall p: nat :: p < k && Chosen(table, due, p) ==> p in places)
  }

  lemma ListsNext(table: seq<Record>, due: seq<bool>, k: nat, places: seq<nat>, jobs: seq<Job>)
    requires k < |due| <= |table| && ListsChosen(table, due, k, places, jobs)
    ensures if Chosen(table, due, k) then ListsChosen(table, due, k + 1, places + [k], jobs + [JobOf(table[k])])
            else ListsChosen(table, due, k + 1, places, jobs)
  {
    hide Chosen, JobOf;
    if Chosen(table, due, k) {
      var more := places + [k];
      forall p: nat | p < k + 1 && Chosen(table, due, p) ensures p in more {
        if p == k { assert more[|places|] == p; }
      }
    }
  }

  /** What is emitted are the chosen records, each once, in the order of the table. */
  lemma {:induction false} EachChosenRecordOnce(table: seq<Record>, due: seq<bool>, k: nat)
    requires k <= |due| <= |table|
    ensures ListsChosen(table, due, k, ChosenPlaces(table, due, k), ChosenJobs(table, due, k))
    decreases k
  {
    hide Chosen, JobOf, ListsChosen;
    if k == 0 {
      NothingChosen(table, due);
    } else {
      var places, jobs := ChosenPlaces(table, due, k - 1), ChosenJobs(table, due, k - 1);
      EachChosenRecordOnce(table, due, k - 1);
      ListsNext(table, due, k - 1, places, jobs);
      assert places + [] == places && jobs + [] == jobs;
    }
  }

  lemma NothingChosen(table: seq<Record>, due: seq<bool>)
    requires |due| <= |table|
    ensures ListsChosen(table, due, 0, ChosenPlaces(table, due, 0), ChosenJobs(table, due, 0))
  {
  }

  /** Each simulated minute of a warp is scanned at second 0 and emits each of its chosen records exactly once. */
  lemma EachSimulatedMinuteEmits(r: Run, start: nat, zoneAt: nat -> Zone, i: nat)
    requires Replays(r, start, zoneAt) && start % 60000 == 0 && i < |r.scans|
    ensures r.contexts[i].now.second == 0
    ensures ListsChosen(r.table, DueAt(r, i), r.n, ChosenPlaces(r.table, DueAt(r, i), r.n), EmittedAt(r, i))
  {
    hide Proper, WarpInRange, InClockRange, DateOfDay, ScanFlags, ChosenJobs, ChosenPlaces, ListsChosen, Local;
    var ms := start + i * 60000;
    AtTheBeginning(r);
    assert ReplaysAt(r.scans[i], r.contexts[i], ms, zoneAt);
    InRange(ms, zoneAt(ms));
    WholeMinuteIsLocal(ms, zoneAt(ms));
    EachChosenRecordOnce(r.table, DueAt(r, i), r.n);
  }

  lemma InRange(ms: nat, zone: Zone)
    requires InClockRange(ms, zone)
    ensures LocalOf(ms, zone) >= 0
  {
  }

  // ---------------------------------------------------------------- which sun times are used

  ghost predicate SameToday(c: Context, d: Context) {
    c.now.day == d.now.day && c.holidays == d.holidays && c.todaysSet == d.todaysSet && c.todaysRise == d.todaysRise
  }

  /** All scans from iteration `from` to iteration `k` are on one day. */
  ghost predicate OneDay(r: Run, from: nat, k: nat)
    requires k < |r.scans| == |r.contexts|
  {
    forall j: nat :: from <= j <= k && r.scans[j] ==> SameToday(r.contexts[j], r.contexts[k])
  }

  /** The scan in iteration `j` writes a report, before its passes or on an emission. */
  ghost predicate WritesReport(r: Run, j: nat)
    requires Proper(r) && j < |r.scans|
  {
    r.scans[j] && (ReportsFirst(r.contexts[j]) || ReportsEmission(r.table, r.n, r.contexts[j], SunAt(r, j)))
  }

  ghost predicate ReportedBetween(r: Run, from: nat, k: nat)
    requires Proper(r) && k <= |r.scans|
  {
    exists j: nat :: from <= j < k && WritesReport(r, j)
  }

  lemma SameDaySameSun(table: seq<Record>, n: nat, c: Context, d: Context, sun: Sun, timeType: nat)
    requires SameToday(c, d) && Testable(table, n, c.holidays, c.now.day)
    ensures Testable(table, n, d.holidays, d.now.day)
    ensures WillBeTodays(table, n, c, sun, timeType) <==> WillBeTodays(table, n, d, sun, timeType)
  {
    hide DependsOn, Testable;
  }

  lemma ContextIsLoaded(r: Run, k: nat)
    requires Proper(r) && k < |r.scans|
    ensures Loaded(r.table, r.n, r.contexts[k]) && Testable(r.table, r.n, r.contexts[k].holidays, r.contexts[k].now.day)
  {
    hide Loaded, Testable;
    LoadedIsTestable(r.table, r.n, r.contexts[k]);
  }

  lemma {:induction false} StoredSun(r: Run, from: nat, m: nat, k: nat, timeType: nat)
    requires Proper(r) && from <= m <= k < |r.scans| && OneDay(r, from, k) && r.scans[k] && SunRelative(timeType)
    requires Testable(r.table, r.n, r.contexts[k].holidays, r.contexts[k].now.day)
    ensures WillBeTodays(r.table, r.n, r.contexts[k], SunAt(r, m), timeType)
            <==> WillBeTodays(r.table, r.n, r.contexts[k], SunAt(r, from), timeType) || ReportedBetween(r, from, m)
    decreases m
  {
    hide Proper, Loaded, Testable, WillBeTodays, ReportsEmission, ReportsFirst, SunAfterScan, SunRelative;
    AtTheBeginning(r);
    if m > from {
      var j := m - 1;
      StoredSun(r, from, j, k, timeType);
      NextReport(r, from, j);
      if r.scans[j] {
        ContextIsLoaded(r, j);
        ScanUsesTodaysIff(r.table, r.n, r.contexts[j], SunAt(r, j), timeType);
        assert SameToday(r.contexts[j], r.contexts[k]);
        SameDaySameSun(r.table, r.n, r.contexts[j], r.contexts[k], SunAt(r, j), timeType);
        SameDaySameSun(r.table, r.n, r.contexts[j], r.contexts[k], SunAt(r, m), timeType);
      }
    }
  }

  lemma NextReport(r: Run, from: nat, j: nat)
    requires Proper(r) && from <= j < |r.scans|
    ensures ReportedBetween(r, from, j + 1) <==> ReportedBetween(r, from, j) || WritesReport(r, j)
  {
    hide WritesReport, Proper;
  }

  /**
   A scan times its records by today's sunset or sunrise iff that time was stored when the day began,
   or the first record in its window depends on it and finds the latch on another day of the month, or
   a report was written on the day: before the passes of this scan or an earlier one, which a time warp
   does not do, or on an emission of an earlier one.
   */
  lemma TodaysSunIsUsedIff(r: Run, from: nat, k: nat, timeType: nat)
    requires Proper(r) && from <= k < |r.scans| && OneDay(r, from, k) && r.scans[k] && SunRelative(timeType)
    requires Testable(r.table, r.n, r.contexts[k].holidays, r.contexts[k].now.day)
    ensures var c, before := r.contexts[k], SunAt(r, from);
            TimeOf(UsedSun(r.table, r.n, c, SunAt(r, k)), timeType) == TodaysTime(c, timeType)
            <==> TimeOf(before, timeType) == TodaysTime(c, timeType)
                 || (before.prevDD != c.now.day.date && DependsOn(r.table, r.n, c.holidays, c.now.day, timeType))
                 || ReportedBetween(r, from, k) || ReportsFirst(c)
  {
    hide Proper, Loaded, Testable, ReportsFirst, DependsOn, ReportedBetween, UsedSun, SunRelative;
    AtTheBeginning(r);
    ContextIsLoaded(r, k);
    StoredSun(r, from, k, k, timeType);
    ScanUsesTodaysIff(r.table, r.n, r.contexts[k], SunAt(r, k), timeType);
  }

  // ---------------------------------------------------------------- each record once a minute

  /** What those among the first `k` polls emit that are in the minute. */
  ghost function EmittedIn(r: Run, local: seq<nat>, minute: nat, k: nat): seq<Job>
    requires Proper(r) && k <= |r.scans| == |local|
  {
    if k == 0 then []
    else EmittedIn(r, local, minute, k - 1) + if MinuteOf(local[k - 1]) == minute then EmittedAt(r, k - 1) else []
  }

  lemma {:induction false} QuietMinute(r: Run, local: seq<nat>, minute: nat, k: nat)
    requires Proper(r) && k <= |r.scans| == |local|
    requires forall j: nat :: j < k && r.scans[j] ==> MinuteOf(local[j]) != minute
    ensures EmittedIn(r, local, minute, k) == []
  {
    hide Proper;
    if k > 0 { QuietMinute(r, local, minute, k - 1); }
  }

  lemma {:induction false} OnePollEmits(r: Run, local: seq<nat>, minute: nat, at: nat, k: nat)
    requires Proper(r) && at < k <= |r.scans| == |local| && MinuteOf(local[at]) == minute
    requires forall j: nat :: j < |local| && j != at && r.scans[j] ==> MinuteOf(local[j]) != minute
    ensures EmittedIn(r, local, minute, k) == EmittedAt(r, at)
    decreases k
  {
    hide Proper, ChosenJobs;
    if at == k - 1 {
      QuietMinute(r, local, minute, at);
    } else {
      OnePollEmits(r, local, minute, at, k - 1);
    }
  }

  /** Poll `k` is the only one of the minute that scans. */
  ghost predicate OnlyScan(r: Run, local: seq<nat>, minute: nat, k: nat)
    requires Follows(r, local)
  {
    && k < |local| && r.scans[k] && MinuteOf(local[k]) == minute
    && forall j: nat :: j < |local| && j != k && r.scans[j] ==> MinuteOf(local[j]) != minute
  }

  /** What the minute emits are the records chosen among `due`, each once, in the order of the table. */
  ghost predicate EmitsChosen(r: Run, local: seq<nat>, minute: nat, due: seq<bool>)
    requires Follows(r, local)
  {
    && |due| == r.n <= |r.table|
    && ListsChosen(r.table, due, r.n, ChosenPlaces(r.table, due, r.n), EmittedIn(r, local, minute, |local|))
  }

  lemma TheScan(local: seq<nat>, minute: nat) returns (k: nat)
    requires Reaches(local, 6000, minute)
    ensures k < |local| && ScansAt(local, k) && MinuteOf(local[k]) == minute
    ensures forall j: nat :: j < |local| && j != k && ScansAt(local, j) ==> MinuteOf(local[j]) != minute
  {
    hide ScansAt, MinuteOf;
    OncePerMinute(local, minute);
    k :| k < |local| && ScansAt(local, k) && MinuteOf(local[k]) == minute
         && forall j: nat :: j < |local| && ScansAt(local, j) && MinuteOf(local[j]) == minute ==> j == k;
  }

  lemma OneScanInMinute(r: Run, local: seq<nat>, minute: nat) returns (k: nat)
    requires Follows(r, local) && Reaches(local, 6000, minute)
    ensures OnlyScan(r, local, minute, k)
  {
    hide Follows, ScansAt, DateTimeOf;
    k := TheScan(local, minute);
    FollowsHere(r, local, k);
    forall j: nat | j < |local| && j != k && r.scans[j] ensures MinuteOf(local[j]) != minute {
      FollowsHere(r, local, j);
    }
  }

  /** With polls at most six seconds apart every minute reached after the first emits each of its chosen records exactly once. */
  lemma EachMinuteEmitsItsRecords(r: Run, local: seq<nat>, minute: nat) returns (k: nat)
    requires Follows(r, local) && Reaches(local, 6000, minute)
    ensures OnlyScan(r, local, minute, k) && EmitsChosen(r, local, minute, DueAt(r, k))
  {
    hide Reaches, ChosenJobs, ChosenPlaces, ScanFlags, ListsChosen;
    k := OneScanInMinute(r, local, minute);
    OnePollEmits(r, local, minute, k, |local|);
    EachChosenRecordOnce(r.table, DueAt(r, k), r.n);
  }

  /** Polls of one minute have the same date, hour and minute. */
  lemma MinuteFixesTime(a: nat, b: nat)
    requires MinuteOf(a) == MinuteOf(b)
    ensures DateTimeOf(a / 1000).(second := 0) == DateTimeOf(b / 1000).(second := 0)
  {
    hide DateOfDay;
    assert a / 1000 / 60 == a / 60000 && b / 1000 / 60 == b / 60000;
  }

  lemma DueInOneMinute(table: seq<Record>, n: nat, c: Context, d: Context)
    requires Loaded(table, n, c) && Loaded(table, n, d) && SameToday(c, d)
    requires c.now.(second := 0) == d.now.(second := 0)
    ensures TodaysDue(table, n, c) == TodaysDue(table, n, d)
  {
    hide InWindow, DayBit, EventTime, TotalDays;
    assert c.now.day == d.now.day && c.now.hour == d.now.hour && c.now.minute == d.now.minute;
    var sun := Sun(c.todaysSet, c.todaysRise, 0);
    forall k: nat | k < n ensures TodaysDue(table, n, c)[k] == TodaysDue(table, n, d)[k] {
      assert Eligible(table[k], c, sun) == Eligible(table[k], d, sun);
    }
  }

  /**
   If the scan of the minute writes its report, the minute emits exactly its own records of least sort
   order, those that are eligible by today's sun at whichever poll of the minute one asks.
   */
  lemma EachMinuteEmitsTodaysRecords(r: Run, local: seq<nat>, minute: nat, poll: nat)
    requires Follows(r, local) && Reaches(local, 6000, minute) && poll < |local| && MinuteOf(local[poll]) == minute
    requires forall j: nat :: j < |local| && r.scans[j] && MinuteOf(local[j]) == minute ==>
               r.contexts[j].room && SameToday(r.contexts[j], r.contexts[poll])
    ensures Loaded(r.table, r.n, r.contexts[poll])
    ensures EmitsChosen(r, local, minute, TodaysDue(r.table, r.n, r.contexts[poll]))
  {
    hide Reaches, ChosenJobs, ChosenPlaces, ScanFlags, ListsChosen, Loaded, DateTimeOf, ScansAt, TodaysDue, SameToday,
      EmitsChosen;
    var k := EachMinuteEmitsItsRecords(r, local, minute);
    FollowsHere(r, local, k);
    FollowsHere(r, local, poll);
    ReportedScanUsesTodaysSun(r.table, r.n, r.contexts[k], SunAt(r, k));
    MinuteFixesTime(local[k], local[poll]);
    DueInOneMinute(r.table, r.n, r.contexts[k], r.contexts[poll]);
  }
}
