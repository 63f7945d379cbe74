/**
 Conversion from UTC to local time (main/EVENT_Actor.c): a GMT offset in minutes, then one hour
 more while the offset time lies in one of the daylight-saving intervals of a table.
 */
module Dst {
  import opened Common

  /** Daylight-saving intervals [starts[i], ends[i]) in seconds since 2000. */
  datatype Table = Table(starts: seq<int>, ends: seq<int>)

  /** Intervals in order, each and each gap longer than two hours. */
  ghost predicate Spaced(table: Table) {
    && |table.starts| == |table.ends|
    && (forall i :: 0 <= i < |table.starts| ==> table.starts[i] + 7200 < table.ends[i])
    && (forall i, j :: 0 <= i < j < |table.starts| ==> table.ends[i] + 7200 < table.starts[j])
  }

  // ---------------------------------------------------------------- membership in the intervals

  predicate InInterval(table: Table, t: int, i: int) {
    0 <= i < |table.starts| && i < |table.ends| && table.starts[i] <= t < table.ends[i]
  }

  predicate Summer(table: Table, t: int) {
    exists i :: 0 <= i < |table.starts| && InInterval(table, t, i)
  }

  lemma IntervalsAreApart(table: Table, i: int, j: int)
    requires Spaced(table) && 0 <= i < |table.starts| && 0 <= j < |table.starts|
    ensures i == j || table.ends[i] + 7200 < table.starts[j] || table.ends[j] + 7200 < table.starts[i]
  {
  }

  /** The scan that stops at the first interval holding `t`. */
  method DstScan(table: Table, t: int) returns (enabled: bool)
    requires |table.starts| == |table.ends|
    ensures enabled <==> Summer(table, t)
  {
    enabled := false;
    var i := 0;
    while i < |table.starts|
      invariant 0 <= i <= |table.starts| && !enabled
      invariant forall k :: 0 <= k < i ==> !InInterval(table, t, k)
    {
      if t >= table.starts[i] && t < table.ends[i] {
        assert InInterval(table, t, i);
        enabled := true;
        break;
      }
      i := i + 1;
    }
  }

  // ---------------------------------------------------------------- local time

  /** Local seconds since 2000 of UTC seconds `u`, with `gmt` minutes and `dst` the enabling property. */
  function Local(table: Table, u: int, gmt: int, dst: bool): int {
    var t := u + gmt * 60;
    if dst && Summer(table, t) then t + 3600 else t
  }

  method ToLocal(table: Table, u: int, gmt: int, dst: bool) returns (local: int)
    requires |table.starts| == |table.ends|
    ensures local == Local(table, u, gmt, dst)
  {
    local := u + gmt * 60;
    if dst {
      var enabled := DstScan(table, local);
      if enabled {
        local := local + 3600;
      }
    }
  }

  /** With daylight saving disabled the offset is all there is, and every local time has one instant. */
  lemma DisabledIsPlain(table: Table, u: int, gmt: int, local: int)
    ensures Local(table, u, gmt, false) == local <==> u == local - gmt * 60
  {
  }

  /** Enabling it makes a difference, of one hour, exactly in the intervals of the table. */
  lemma EnablingAddsAnHourIff(table: Table, u: int, gmt: int)
    ensures Local(table, u, gmt, true) == Local(table, u, gmt, false) + 3600 <==> Summer(table, u + gmt * 60)
    ensures Local(table, u, gmt, true) == Local(table, u, gmt, false) <==> !Summer(table, u + gmt * 60)
  {
  }

  /** In the last hour before an end it is summer, and one hour later it is not. */
  lemma AroundAnEnd(table: Table, t: int, i: int)
    requires Spaced(table) && 0 <= i < |table.starts| && table.ends[i] - 3600 <= t < table.ends[i]
    ensures Summer(table, t) && !Summer(table, t + 3600)
  {
    assert InInterval(table, t, i);
    if Summer(table, t + 3600) {
      var j :| 0 <= j < |table.starts| && InInterval(table, t + 3600, j);
      IntervalsAreApart(table, i, j);
    }
  }

  lemma JustAfterStart(table: Table, local: int, i: int)
    requires Spaced(table) && 0 <= i < |table.starts| && table.starts[i] <= local < table.starts[i] + 3600
    ensures Summer(table, local) && !Summer(table, local - 3600)
  {
    assert InInterval(table, local, i);
    if Summer(table, local - 3600) {
      var j :| 0 <= j < |table.starts| && InInterval(table, local - 3600, j);
      IntervalsAreApart(table, i, j);
    }
  }

  ghost predicate StraddlesEnd(table: Table, t: int) {
    exists i :: 0 <= i < |table.ends| && t < table.ends[i] <= t + 3600
  }

  lemma SharedImpliesStraddling(table: Table, u: int, v: int, gmt: int)
    requires u < v && Local(table, u, gmt, true) == Local(table, v, gmt, true)
    ensures v == u + 3600 && StraddlesEnd(table, u + gmt * 60)
  {
    var t, w := u + gmt * 60, v + gmt * 60;
    var i :| 0 <= i < |table.starts| && InInterval(table, t, i);
    assert !InInterval(table, w, i);
    assert t < table.ends[i] <= t + 3600;
  }

  lemma StraddlingIsShared(table: Table, u: int, gmt: int)
    requires Spaced(table) && StraddlesEnd(table, u + gmt * 60)
    ensures Local(table, u, gmt, true) == Local(table, u + 3600, gmt, true)
  {
    var t := u + gmt * 60;
    var i :| 0 <= i < |table.ends| && t < table.ends[i] <= t + 3600;
    AroundAnEnd(table, t, i);
    assert u + 3600 + gmt * 60 == t + 3600;
  }

  /** Two instants share a local time iff they are one hour apart across one end of daylight saving. */
  lemma SharedLocalTime(table: Table, u: int, v: int, gmt: int)
    requires Spaced(table) && u < v
    ensures Local(table, u, gmt, true) == Local(table, v, gmt, true)
            <==> v == u + 3600 && StraddlesEnd(table, u + gmt * 60)
  {
    if Local(table, u, gmt, true) == Local(table, v, gmt, true) {
      SharedImpliesStraddling(table, u, v, gmt);
    } else if v == u + 3600 && StraddlesEnd(table, u + gmt * 60) {
      StraddlingIsShared(table, u, gmt);
    }
  }

  // ---------------------------------------------------------------- preimages of a local time

  ghost predicate Skipped(table: Table, local: int) {
    exists i :: 0 <= i < |table.starts| && table.starts[i] <= local < table.starts[i] + 3600
  }

  ghost predicate Repeated(table: Table, local: int) {
    exists i :: 0 <= i < |table.ends| && table.ends[i] <= local < table.ends[i] + 3600
  }

  /** The instants shown as `local`: without and with the extra hour. */
  function Preimages(table: Table, local: int, gmt: int): (s: set<int>)
    ensures forall u :: u in s <==> Local(table, u, gmt, true) == local
  {
    var plain, shifted := local - gmt * 60, local - gmt * 60 - 3600;
    assert plain + gmt * 60 == local && shifted + gmt * 60 == local - 3600;
    (if Summer(table, local) then {} else {plain}) + (if Summer(table, local - 3600) then {shifted} else {})
  }

  lemma AwayFromChanges(table: Table, local: int)
    requires Spaced(table) && !Skipped(table, local) && !Repeated(table, local)
    ensures Summer(table, local) <==> Summer(table, local - 3600)
  {
    if Summer(table, local) {
      var i :| 0 <= i < |table.starts| && InInterval(table, local, i);
      assert InInterval(table, local - 3600, i);
    }
    if Summer(table, local - 3600) {
      var i :| 0 <= i < |table.starts| && InInterval(table, local - 3600, i);
      assert InInterval(table, local, i);
    }
  }

  lemma SummerAroundChanges(table: Table, local: int)
    requires Spaced(table)
    ensures Skipped(table, local) ==> Summer(table, local) && !Summer(table, local - 3600)
    ensures Repeated(table, local) ==> !Summer(table, local) && Summer(table, local - 3600)
    ensures !Skipped(table, local) && !Repeated(table, local) ==> Summer(table, local) == Summer(table, local - 3600)
  {
    if Skipped(table, local) {
      var i :| 0 <= i < |table.starts| && table.starts[i] <= local < table.starts[i] + 3600;
      JustAfterStart(table, local, i);
    }
    if Repeated(table, local) {
      var i :| 0 <= i < |table.ends| && table.ends[i] <= local < table.ends[i] + 3600;
      AroundAnEnd(table, local - 3600, i);
    }
    if !Skipped(table, local) && !Repeated(table, local) {
      AwayFromChanges(table, local);
    }
  }

  /** A local time has no instant in the hour after a start, two in the hour after an end, else one. */
  lemma PreimageCount(table: Table, local: int, gmt: int)
    requires Spaced(table)
    ensures |Preimages(table, local, gmt)|
            == (if Skipped(table, local) then 0 else if Repeated(table, local) then 2 else 1)
  {
    SummerAroundChanges(table, local);
    var plain, shifted := {local - gmt * 60}, {local - gmt * 60 - 3600};
    assert |plain + {}| == |{} + shifted| == 1 && |plain + shifted| == 2;
  }

  // ---------------------------------------------------------------- the table of the program

  /** Second Sundays of March, 02:00, of 2018 to 2050, in seconds since 1970. */
  const DST_START_DATE: seq<nat> := [
    1520733600, 1552183200, 1583632800, 1615687200, 1647136800, 1678586400,
    1710036000, 1741485600, 1772935200, 1804989600, 1836439200, 1867888800,
    1899338400, 1930788000, 1962842400, 1994292000, 2025741600, 2057191200,
    2088640800, 2120090400, 2152144800, 2183594400, 2215044000, 2246493600,
    2277943200, 2309392800, 2341447200, 2372896800, 2404346400, 2435796000,
    2467245600, 2499300000, 2530749600
  ]

  /** First Sundays of November, 01:00. */
  const DST_END_DATE: seq<nat> := [
    1541293200, 1572742800, 1604192400, 1636246800, 1667696400, 1699146000,
    1730595600, 1762045200, 1793494800, 1825549200, 1856998800, 1888448400,
    1919898000, 1951347600, 1983402000, 2014851600, 2046301200, 2077750800,
    2109200400, 2140650000, 2172704400, 2204154000, 2235603600, 2267053200,
    2298502800, 2329952400, 2362006800, 2393456400, 2424906000, 2456355600,
    2487805200, 2519859600, 2551309200
  ]

  const US_TABLE: Table := Table(
    seq(|DST_START_DATE|, i requires 0 <= i < |DST_START_DATE| => DST_START_DATE[i] - EPOCH_TO_30_YEAR),
    seq(|DST_END_DATE|, i requires 0 <= i < |DST_END_DATE| => DST_END_DATE[i] - EPOCH_TO_30_YEAR))

  lemma EntriesAreSpaced(i: nat)
    requires i < 33
    ensures DST_START_DATE[i] + 7200 < DST_END_DATE[i]
    ensures i > 0 ==> DST_END_DATE[i - 1] + 7200 < DST_START_DATE[i]
  {
  }

  lemma {:induction false} EntriesAreOrdered(i: nat, j: nat)
    requires i < j < 33
    ensures DST_END_DATE[i] + 7200 < DST_START_DATE[j]
  {
    EntriesAreSpaced(j);
    if i < j - 1 {
      EntriesAreOrdered(i, j - 1);
      EntriesAreSpaced(j - 1);
    }
  }

  lemma UsTableIsSpaced()
    ensures Spaced(US_TABLE) && |US_TABLE.starts| == 33
  {
    forall i | 0 <= i < 33 ensures US_TABLE.starts[i] + 7200 < US_TABLE.ends[i] {
      EntriesAreSpaced(i);
    }
    forall i, j | 0 <= i < j < 33 ensures US_TABLE.ends[i] + 7200 < US_TABLE.starts[j] {
      EntriesAreOrdered(i, j);
    }
  }
}
