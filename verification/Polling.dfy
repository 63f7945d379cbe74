/**
 The polling loop around the scan (main/EVENT_Actor.c, Tasks_EventCheck): the latch that lets one
 scan through per minute, and the time warp that replays past minutes.
 */
module Polling {
  import opened Common
  import opened Dst

  /** What turns a UTC instant into local time. */
  datatype Zone = Zone(table: Table, gmt: int, dst: bool)

  /** The `second` field after `epoch_to_date_time`, whose argument is an unsigned 32-bit number. */
  function ShownSecond(ms: nat, zone: Zone): (s: nat)
    ensures s < 60
  {
    Local(zone.table, ms / 1000 - EPOCH_TO_30_YEAR, zone.gmt, zone.dst) % 0x1_0000_0000 % 60
  }

  /** `startEPOC1`, `endEPOC1` and `executedThisMinute`. */
  datatype State = State(start: nat, end: nat, executed: bool)

  function Now(s: State, clock: nat): nat {
    if s.start == 0 then clock else s.start
  }

  predicate Scans(s: State, clock: nat, zone: Zone) {
    ShownSecond(Now(s, clock), zone) < 6 && !s.executed
  }

  /** The state after one iteration. */
  function Step(s: State, clock: nat, zone: Zone): State {
    if s.start != 0 then
      if s.start + 60000 >= s.end then State(0, 0, false) else State(s.start + 60000, s.end, false)
    else
      State(0, s.end, ShownSecond(clock, zone) <= 5)
  }

  class EventLoop {
    var startEpoc: nat
    var endEpoc: nat
    var executedThisMinute: bool
    var scanned: seq<nat>  // the instants at which the schedule was scanned

    ghost function Abstract(): State
      reads this
    {
      State(startEpoc, endEpoc, executedThisMinute)
    }

    constructor ()
      ensures Abstract() == State(0, 0, false) && scanned == []
    {
      startEpoc, endEpoc, executedThisMinute, scanned := 0, 0, false, [];
    }

    /** Both bounds are cut to whole minutes; a missing bound keeps its value. */
    method TimeWarpCommand(start: Option<nat>, end: Option<nat>)
      modifies this`startEpoc, this`endEpoc
      ensures Abstract() == State(if start.Some? then start.value / 60000 * 60000 else old(startEpoc),
                                  if end.Some? then end.value / 60000 * 60000 else old(endEpoc),
                                  executedThisMinute)
    {
      if start.Some? {
        startEpoc := start.value;
        startEpoc := startEpoc - startEpoc % 60000;
      }
      if end.Some? {
        endEpoc := end.value;
        endEpoc := endEpoc - endEpoc % 60000;
      }
    }

    method Iterate(clock: nat, zone: Zone)
      requires |zone.table.starts| == |zone.table.ends|
      modifies this
      ensures Abstract() == Step(old(Abstract()), clock, zone)
      ensures scanned == if old(Scans(Abstract(), clock, zone)) then old(scanned) + [old(Now(Abstract(), clock))] else old(scanned)
    {
      var current := clock;
      if startEpoc != 0 {
        current := startEpoc;
      }
      var local := ToLocal(zone.table, current / 1000 - EPOCH_TO_30_YEAR, zone.gmt, zone.dst);
      var second := local % 0x1_0000_0000 % 60;
      if second < 6 && !executedThisMinute {
        executedThisMinute := true;
        scanned := scanned + [current];
      }
      if second > 5 {
        executedThisMinute := false;
      }
      if startEpoc != 0 {
        executedThisMinute := false;
        startEpoc := startEpoc + 60000;
        if startEpoc >= endEpoc {
          startEpoc := 0;
          endEpoc := 0;
        }
      }
    }

    /** The iterations of a time warp, with a zone that may change from minute to minute. */
    method RunWarp(zoneAt: nat -> Zone)
      requires forall t :: |zoneAt(t).table.starts| == |zoneAt(t).table.ends|
      modifies this
      ensures startEpoc == 0
      ensures scanned == old(scanned) + WarpScans(old(Abstract()), zoneAt)
      ensures old(startEpoc) != 0 ==> Abstract() == State(0, 0, false)
    {
      while startEpoc != 0
        invariant old(startEpoc) != 0 && startEpoc == 0 ==> Abstract() == State(0, 0, false)
        invariant old(startEpoc) == 0 ==> startEpoc == 0 && scanned == old(scanned)
        invariant scanned + WarpScans(Abstract(), zoneAt) == old(scanned) + WarpScans(old(Abstract()), zoneAt)
        decreases startEpoc != 0, endEpoc - startEpoc
      {
        Iterate(0, zoneAt(startEpoc));
      }
    }
  }

  // ---------------------------------------------------------------- once per minute

  /** Polls without a time warp, as local milliseconds; the latch before poll `k` of a run that starts with it clear. */
  function Latch(polls: seq<nat>, k: nat): bool
    requires k <= |polls|
  {
    if k == 0 then false
    else if polls[k - 1] / 1000 % 60 > 5 then false
    else Latch(polls, k - 1) || polls[k - 1] / 1000 % 60 < 6
  }

  predicate ScansAt(polls: seq<nat>, k: nat)
    requires k < |polls|
  {
    polls[k] / 1000 % 60 < 6 && !Latch(polls, k)
  }

  function MinuteOf(ms: nat): nat { ms / 60000 }

  ghost predicate NonDecreasing(polls: seq<nat>) {
    forall i, j :: 0 <= i < j < |polls| ==> polls[i] <= polls[j]
  }

  lemma MinuteAndSecond(ms: nat)
    ensures MinuteOf(ms) == ms / 1000 / 60
    ensures ms / 1000 == MinuteOf(ms) * 60 + ms / 1000 % 60
  {
  }

  lemma AtMostOncePerMinute(polls: seq<nat>, j: nat, k: nat)
    requires NonDecreasing(polls) && j < k < |polls|
    requires ScansAt(polls, j) && ScansAt(polls, k)
    ensures MinuteOf(polls[j]) < MinuteOf(polls[k])
  {
    MinuteAndSecond(polls[j]);
    MinuteAndSecond(polls[k - 1]);
    MinuteAndSecond(polls[k]);
    if j < k - 1 { assert polls[j] <= polls[k - 1]; }
    assert polls[k - 1] / 1000 % 60 > 5;
    assert polls[k - 1] / 1000 <= polls[k] / 1000;
    assert MinuteOf(polls[j]) <= MinuteOf(polls[k - 1]) <= MinuteOf(polls[k]);
  }

  ghost predicate ScannedOnce(polls: seq<nat>, minute: nat) {
    exists k: nat :: k < |polls| && ScansAt(polls, k) && MinuteOf(polls[k]) == minute
                     && forall j: nat :: j < |polls| && ScansAt(polls, j) && MinuteOf(polls[j]) == minute ==> j == k
  }

  /** A poll in the first six seconds of a minute right after one that was not in such seconds. */
  predicate EntersMinute(polls: seq<nat>, minute: nat, k: nat) {
    0 < k < |polls| && MinuteOf(polls[k]) == minute && polls[k] / 1000 % 60 < 6 && polls[k - 1] / 1000 % 60 > 5
  }

  /** A minute after the first is scanned iff some poll enters it, and then exactly once. */
  lemma ScannedOnceIff(polls: seq<nat>, minute: nat)
    requires NonDecreasing(polls) && polls != [] && MinuteOf(polls[0]) < minute
    ensures ScannedOnce(polls, minute) <==> exists k: nat :: EntersMinute(polls, minute, k)
  {
    if k: nat :| EntersMinute(polls, minute, k) {
      forall j: nat | j < |polls| && ScansAt(polls, j) && MinuteOf(polls[j]) == minute ensures j == k {
        if j < k { AtMostOncePerMinute(polls, j, k); }
        if k < j { AtMostOncePerMinute(polls, k, j); }
      }
      assert ScansAt(polls, k);
    }
    if ScannedOnce(polls, minute) {
      var k: nat :| k < |polls| && ScansAt(polls, k) && MinuteOf(polls[k]) == minute;
      assert EntersMinute(polls, minute, k);
    }
  }

  ghost predicate GapsAtMost(polls: seq<nat>, gap: nat) {
    forall i :: 0 < i < |polls| ==> polls[i] - polls[i - 1] <= gap
  }

  /** Polls at most six seconds apart scan every minute they reach, after the first, exactly once. */
  lemma OncePerMinute(polls: seq<nat>, minute: nat)
    requires NonDecreasing(polls) && polls != [] && GapsAtMost(polls, 6000)
    requires MinuteOf(polls[0]) < minute <= MinuteOf(polls[|polls| - 1])
    ensures ScannedOnce(polls, minute)
  {
    var k := FirstAtLeast(polls, minute * 60000);
    var before, at := polls[k - 1], polls[k];
    MinuteAndSecond(before);
    MinuteAndSecond(at);
    assert at - before <= 6000;
    assert before < minute * 60000 <= at < minute * 60000 + 6000;
    assert MinuteOf(at) == minute && MinuteOf(before) == minute - 1;
    assert EntersMinute(polls, minute, k);
    ScannedOnceIff(polls, minute);
  }

  lemma FirstAtLeast(polls: seq<nat>, bound: nat) returns (k: nat)
    requires polls != [] && polls[0] < bound <= polls[|polls| - 1]
    ensures 0 < k < |polls| && polls[k - 1] < bound <= polls[k]
  {
    k := 1;
    while polls[k] < bound
      invariant 0 < k < |polls| && polls[k - 1] < bound
      decreases |polls| - k
    {
      k := k + 1;
    }
  }

  /** Polls at most `gap` apart that get from an earlier minute to `minute` or beyond. */
  ghost predicate Reaches(polls: seq<nat>, gap: nat, minute: nat) {
    && NonDecreasing(polls) && polls != [] && GapsAtMost(polls, gap)
    && MinuteOf(polls[0]) < minute <= MinuteOf(polls[|polls| - 1])
  }

  /** Every run of polls at most `gap` apart scans each minute it reaches after the first. */
  ghost predicate GapSuffices(gap: nat) {
    forall polls: seq<nat>, minute: nat :: Reaches(polls, gap, minute) ==> ScannedOnce(polls, minute)
  }

  /** With a longer gap a run can step from the last millisecond of a minute over the first six seconds of the next. */
  lemma LongGapMissesAMinute(polls: seq<nat>, gap: nat, minute: nat)
    requires gap > 6000 && |polls| == 2 && polls[0] == 59999 && polls[1] == 66000 && minute == 1
    ensures Reaches(polls, gap, minute) && !ScannedOnce(polls, minute)
  {
    hide Latch, ScansAt, ScannedOnce;
    assert polls[1] / 1000 % 60 == 6;
    ScannedOnceIff(polls, minute);
  }

  /** Six seconds are the longest gap that never misses a minute. */
  lemma SixSecondsSufficeAndNoMore(gap: nat)
    ensures GapSuffices(gap) <==> gap <= 6000
  {
    if gap <= 6000 {
      forall polls: seq<nat>, minute: nat | Reaches(polls, gap, minute) ensures ScannedOnce(polls, minute) {
        assert GapsAtMost(polls, 6000);
        OncePerMinute(polls, minute);
      }
    } else {
      hide ScannedOnce, Reaches;
      var polls: seq<nat>, minute := [59999, 66000], 1;
      LongGapMissesAMinute(polls, gap, minute);
    }
  }

  /** The loop without a warp scans exactly at the polls `ScansAt` names. */
  function LoopState(polls: seq<nat>, zone: Zone, k: nat): State
    requires k <= |polls|
  {
    if k == 0 then State(0, 0, false) else Step(LoopState(polls, zone, k - 1), polls[k - 1], zone)
  }

  /** Local milliseconds of UTC milliseconds. */
  function LocalMs(ms: nat, zone: Zone): int {
    Local(zone.table, ms / 1000 - EPOCH_TO_30_YEAR, zone.gmt, zone.dst) * 1000 + ms % 1000
  }

  lemma {:induction false} LoopFollowsLatch(polls: seq<nat>, local: seq<nat>, zone: Zone, k: nat)
    requires |local| == |polls| && k <= |polls|
    requires forall i :: 0 <= i < |polls| ==> local[i] == LocalMs(polls[i], zone) && local[i] < 0x1_0000_0000 * 1000
    ensures LoopState(polls, zone, k) == State(0, 0, Latch(local, k))
    ensures k < |polls| ==> (Scans(LoopState(polls, zone, k), polls[k], zone) <==> ScansAt(local, k))
  {
    if k > 0 {
      LoopFollowsLatch(polls, local, zone, k - 1);
      ShownIsLocal(polls[k - 1], local[k - 1], zone);
    }
    if k < |polls| { ShownIsLocal(polls[k], local[k], zone); }
  }

  lemma ShownIsLocal(ms: nat, local: nat, zone: Zone)
    requires local == LocalMs(ms, zone) && local < 0x1_0000_0000 * 1000
    ensures ShownSecond(ms, zone) == local / 1000 % 60
  {
    var s := Local(zone.table, ms / 1000 - EPOCH_TO_30_YEAR, zone.gmt, zone.dst);
    assert local / 1000 == s;
  }

  // ---------------------------------------------------------------- time warp

  /** The instants scanned by the iterations of a warp. */
  function WarpScans(s: State, zoneAt: nat -> Zone): seq<nat>
    decreases s.start != 0, s.end - s.start
  {
    if s.start == 0 then []
    else (if Scans(s, 0, zoneAt(s.start)) then [s.start] else []) + WarpScans(Step(s, 0, zoneAt(s.start)), zoneAt)
  }

  function WarpCount(start: nat, end: nat): nat {
    if end - start < 60000 then 1 else (end - start) / 60000
  }

  /** `n` minutes from `start` on. */
  function Minutes(start: nat, n: nat): seq<nat> {
    seq(n, i requires 0 <= i < n => start + i * 60000)
  }

  /** The instant lies where local time fits the unsigned 32-bit argument. */
  predicate InClockRange(ms: nat, zone: Zone) {
    0 <= Local(zone.table, ms / 1000 - EPOCH_TO_30_YEAR, zone.gmt, zone.dst) < 0x1_0000_0000
  }

  /** A whole minute shows second 0 iff local time, in units of the 32-bit range, is a multiple of 15. */
  lemma WholeMinuteShowsZero(ms: nat, zone: Zone)
    requires ms % 60000 == 0
    ensures var v := Local(zone.table, ms / 1000 - EPOCH_TO_30_YEAR, zone.gmt, zone.dst);
            ShownSecond(ms, zone) == 0 <==> v / 0x1_0000_0000 % 15 == 0
    ensures InClockRange(ms, zone) ==> ShownSecond(ms, zone) == 0
  {
    var v := Local(zone.table, ms / 1000 - EPOCH_TO_30_YEAR, zone.gmt, zone.dst);
    WholeMinuteIsLocal(ms, zone);
    RemainderOfMinute(v);
  }

  lemma WholeMinuteIsLocal(ms: nat, zone: Zone)
    requires ms % 60000 == 0
    ensures Local(zone.table, ms / 1000 - EPOCH_TO_30_YEAR, zone.gmt, zone.dst) % 60 == 0
  {
    var m := ms / 60000;
    assert ms / 1000 == m * 60;
    assert EPOCH_TO_30_YEAR == 15778080 * 60;
    var t := ms / 1000 - EPOCH_TO_30_YEAR + zone.gmt * 60;
    assert t == (m - 15778080 + zone.gmt) * 60;
    assert t + 3600 == (m - 15778080 + zone.gmt + 60) * 60;
  }

  lemma RemainderOfMinute(v: int)
    requires v % 60 == 0
    ensures v % 0x1_0000_0000 % 60 == 0 <==> v / 0x1_0000_0000 % 15 == 0
  {
    var q, r, k := v / 0x1_0000_0000, v % 0x1_0000_0000, v / 60;
    assert v == q * 0x1_0000_0000 + r && v == k * 60;
    assert 0x1_0000_0000 == 71582788 * 60 + 16;
    // r and -16 q are the same modulo 60
    assert r == (k - 71582788 * q) * 60 - 16 * q;
    var p, d := q / 15, q % 15;
    assert 16 * q == 240 * p + 16 * d;
    assert r == (k - 71582788 * q - 4 * p) * 60 - 16 * d;
  }

  ghost predicate WarpInRange(start: nat, n: nat, zoneAt: nat -> Zone) {
    forall i: nat :: i < n ==> InClockRange(start + i * 60000, zoneAt(start + i * 60000))
  }

  lemma RangeShifts(start: nat, n: nat, zoneAt: nat -> Zone)
    requires n > 0 && WarpInRange(start, n, zoneAt)
    ensures InClockRange(start, zoneAt(start)) && WarpInRange(start + 60000, n - 1, zoneAt)
  {
    hide InClockRange;
    assert InClockRange(start + 0 * 60000, zoneAt(start + 0 * 60000));
    forall i: nat | i < n - 1 ensures InClockRange(start + 60000 + i * 60000, zoneAt(start + 60000 + i * 60000)) {
      assert start + (i + 1) * 60000 == start + 60000 + i * 60000;
      assert InClockRange(start + (i + 1) * 60000, zoneAt(start + (i + 1) * 60000));
    }
  }

  lemma MinutesFrom(start: nat, n: nat)
    requires n > 0
    ensures Minutes(start, n) == [start] + Minutes(start + 60000, n - 1)
  {
  }

  lemma MinuteIsScanned(start: nat, end: nat, zone: Zone)
    requires start > 0 && start % 60000 == 0 && InClockRange(start, zone)
    ensures Scans(State(start, end, false), 0, zone)
  {
    WholeMinuteShowsZero(start, zone);
  }

  /** From a clear latch, a warp scans every minute from its start once, in order, and ends. */
  lemma {:induction false} WarpScansEachMinute(start: nat, end: nat, zoneAt: nat -> Zone)
    requires start > 0 && start % 60000 == 0 && end % 60000 == 0
    requires WarpInRange(start, WarpCount(start, end), zoneAt)
    ensures WarpScans(State(start, end, false), zoneAt) == Minutes(start, WarpCount(start, end))
    decreases end - start
  {
    hide WarpInRange, InClockRange, Scans, Minutes, WarpCount;
    var n := WarpCount(start, end);
    AtLeastOne(start, end);
    RangeShifts(start, n, zoneAt);
    MinuteIsScanned(start, end, zoneAt(start));
    MinutesFrom(start, n);
    if start + 60000 < end {
      CountStep(start, end);
      WarpScansEachMinute(start + 60000, end, zoneAt);
    } else {
      NoMinutes(start + 60000);
      assert WarpScans(State(0, 0, false), zoneAt) == [];
    }
  }

  lemma AtLeastOne(start: nat, end: nat)
    requires start % 60000 == 0 && end % 60000 == 0
    ensures WarpCount(start, end) >= 1 && (start + 60000 >= end ==> WarpCount(start, end) == 1)
  {
  }

  lemma NoMinutes(start: nat)
    ensures Minutes(start, 0) == []
  {
  }

  lemma CountStep(start: nat, end: nat)
    requires start % 60000 == 0 && end % 60000 == 0 && start + 60000 < end
    ensures WarpCount(start, end) == WarpCount(start + 60000, end) + 1
  {
    var d := end - start;
    assert d % 60000 == 0;
    assert d / 60000 == (d - 60000) / 60000 + 1;
  }

  /** With the latch still set, the first simulated minute is not scanned. */
  lemma LatchedWarpSkipsTheFirstMinute(start: nat, end: nat, zoneAt: nat -> Zone)
    requires start > 0 && start % 60000 == 0 && end % 60000 == 0
    requires WarpInRange(start, WarpCount(start, end), zoneAt)
    ensures WarpScans(State(start, end, true), zoneAt) == Minutes(start, WarpCount(start, end))[1..]
  {
    hide WarpInRange, InClockRange, ShownSecond, Minutes, WarpCount;
    AtLeastOne(start, end);
    WarpScansEachMinute(start, end, zoneAt);
    RangeShifts(start, WarpCount(start, end), zoneAt);
    MinuteIsScanned(start, end, zoneAt(start));
    var rest := WarpScans(Step(State(start, end, true), 0, zoneAt(start)), zoneAt);
    assert WarpScans(State(start, end, true), zoneAt) == [] + rest;
    assert WarpScans(State(start, end, false), zoneAt) == [start] + rest;
  }
}
