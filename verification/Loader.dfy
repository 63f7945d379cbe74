/**
 Filling the schedule table from the database (main/EVENT_Actor.c, Update_Schedule_Table): rows are
 requested in batches of 64 by row id and stored at the place the row id suggests.
 */
module Loader {
  import opened Common
  import opened DateWindow
  import Schedule

  const BATCH_SIZE: nat := 64

  datatype Row = Row(rowid: int, record: Record)

  const EMPTY: Record := Record(0, 0, 0, 0, 0, 0, 0, 0, 0, 0, 0, 0, 0, 0, 0, 0, 0)

  /** The rows of the database in the order of their ids, which are positive and fit the table. */
  ghost predicate Database(rows: seq<Row>) {
    && (forall i :: 0 <= i < |rows| ==> 1 <= rows[i].rowid <= MAX_EVENT_ORDER)
    && (forall i, j :: 0 <= i < j < |rows| ==> rows[i].rowid < rows[j].rowid)
  }

  /** How many rows have an id below `start`. */
  function CountBelow(rows: seq<Row>, start: int): (f: nat)
    ensures f <= |rows|
    ensures forall i :: 0 <= i < f ==> rows[i].rowid < start
    ensures f < |rows| ==> rows[f].rowid >= start
  {
    if rows == [] || rows[0].rowid >= start then 0 else 1 + CountBelow(rows[1..], start)
  }

  function Min(a: int, b: int): int { if a <= b then a else b }

  /** SELECT * ... WHERE rowid >= start LIMIT limit */
  function Select(rows: seq<Row>, start: int, limit: nat): seq<Row> {
    var f := CountBelow(rows, start);
    rows[f..f + Min(limit, |rows| - f)]
  }

  function Records(rows: seq<Row>): (r: seq<Record>)
    ensures |r| == |rows| && forall i :: 0 <= i < |rows| ==> r[i] == rows[i].record
  {
    seq(|rows|, i requires 0 <= i < |rows| => rows[i].record)
  }

  /** `s` with the records of `part` written from place `at` on. */
  function Overwrite(s: seq<Record>, at: nat, part: seq<Row>): (r: seq<Record>)
    requires at + |part| <= |s|
    ensures |r| == |s|
    ensures forall i :: 0 <= i < |s| ==> r[i] == if at <= i < at + |part| then part[i - at].record else s[i]
  {
    s[..at] + Records(part) + s[at + |part|..]
  }

  /** The batches from row id `start` on; a batch that comes back short ends the load. */
  function LoadFrom(rows: seq<Row>, start: int, end: int, table: seq<Record>): (r: seq<Record>)
    requires 1 <= start && end <= |table|
    ensures |r| == |table|
    ensures forall i :: 0 <= i < start - 1 && i < |table| ==> r[i] == table[i]
    decreases end - start
  {
    if start > end then table
    else
      var n := Min(BATCH_SIZE, end - start + 1);
      var reply := Select(rows, start, n);
      var t := Overwrite(table, start - 1, reply);
      if |reply| < n then t else LoadFrom(rows, start + n, end, t)
  }

  function EmptyTable(): (t: seq<Record>)
    ensures |t| == MAX_EVENT_ORDER && forall i :: 0 <= i < |t| ==> t[i] == EMPTY
  {
    seq(MAX_EVENT_ORDER, _ => EMPTY)
  }

  function LoadAll(rows: seq<Row>): (t: seq<Record>)
    requires Database(rows)
    ensures |t| == MAX_EVENT_ORDER
  {
    if rows == [] then EmptyTable()
    else LoadFrom(rows, rows[0].rowid, rows[|rows| - 1].rowid, EmptyTable())
  }

  lemma OverwriteNext(s: seq<Record>, at: nat, part: seq<Row>, i: nat)
    requires at + |part| <= |s| && i < |part|
    ensures Overwrite(s, at, part[..i])[at + i := part[i].record] == Overwrite(s, at, part[..i + 1])
  {
  }

  lemma OverwriteNone(s: seq<Record>, at: nat)
    requires at <= |s|
    ensures Overwrite(s, at, []) == s
  {
  }

  /** Receives up to `toFetch` records of one reply; an answer that does not come ends the load. */
  method ReceiveBatch(reply: seq<Row>, toFetch: nat, startRecord: nat, table: array<Record>) returns (processed: nat)
    requires |reply| <= toFetch && 1 <= startRecord && startRecord - 1 + |reply| <= table.Length
    modifies table
    ensures processed == |reply|
    ensures table[..] == Overwrite(old(table[..]), startRecord - 1, reply)
  {
    hide Overwrite;
    ghost var at := startRecord - 1;
    OverwriteNone(table[..], at);
    assert reply[..0] == [];
    processed := 0;
    var i := 0;
    while i < toFetch
      invariant 0 <= i <= toFetch && processed == i <= |reply|
      invariant table[..] == Overwrite(old(table[..]), at, reply[..i])
    {
      if i >= |reply| { break; }
      OverwriteNext(old(table[..]), at, reply, i);
      table[startRecord + processed - 1] := reply[i].record;
      processed := processed + 1;
      i := i + 1;
    }
    assert reply[..i] == reply;
  }

  lemma BatchFits(rows: seq<Row>, start: int, end: int)
    requires Database(rows) && rows != [] && end == rows[|rows| - 1].rowid && 1 <= start <= end
    ensures |Select(rows, start, Min(BATCH_SIZE, end - start + 1))| <= Min(BATCH_SIZE, end - start + 1)
    ensures end <= MAX_EVENT_ORDER
  {
  }

  /** The task: the table is cleared, then filled batch by batch. */
  method UpdateScheduleTable(rows: seq<Row>, table: array<Record>)
    requires Database(rows) && table.Length == MAX_EVENT_ORDER
    modifies table
    ensures table[..] == LoadAll(rows)
  {
    hide Select, Overwrite;
    var startRecord, endRecord := 0, 0;
    if rows != [] {
      endRecord := rows[|rows| - 1].rowid;
      startRecord := rows[0].rowid;
    }
    forall i | 0 <= i < table.Length { table[i] := EMPTY; }
    assert table[..] == EmptyTable();
    if rows == [] { return; }  // the one query of an empty database is never answered
    while startRecord <= endRecord
      invariant 1 <= startRecord && endRecord == rows[|rows| - 1].rowid
      invariant LoadAll(rows) == LoadFrom(rows, startRecord, endRecord, table[..])
      decreases endRecord - startRecord
    {
      var recordsToFetch := if startRecord + BATCH_SIZE - 1 <= endRecord then BATCH_SIZE else endRecord - startRecord + 1;
      var reply := Select(rows, startRecord, recordsToFetch);
      BatchFits(rows, startRecord, endRecord);
      assert recordsToFetch == Min(BATCH_SIZE, endRecord - startRecord + 1);
      var recordsProcessed := ReceiveBatch(reply, recordsToFetch, startRecord, table);
      if recordsProcessed < recordsToFetch { return; }
      startRecord := startRecord + recordsProcessed;
    }
  }

  // ---------------------------------------------------------------- when the table lists the rows

  /** The table lists the records of the rows in order and nothing behind them. */
  ghost predicate Lists(table: seq<Record>, rows: seq<Row>) {
    && |rows| <= |table|
    && (forall i :: 0 <= i < |rows| ==> table[i] == rows[i].record)
    && (forall i :: |rows| <= i < |table| ==> table[i] == EMPTY)
  }

  /** The first row has id 1 and no id is missing among the rows of full batches. */
  predicate FullBatchesHaveNoGap(rows: seq<Row>) {
    rows == [] ||
    (rows[0].rowid == 1 && var m := |rows| / BATCH_SIZE * BATCH_SIZE; m > 0 ==> rows[m - 1].rowid == m)
  }

  ghost predicate DistinctRecords(rows: seq<Row>) {
    && (forall i :: 0 <= i < |rows| ==> rows[i].record != EMPTY)
    && (forall i, j :: 0 <= i < j < |rows| ==> rows[i].record != rows[j].record)
  }

  lemma {:induction false} IdsGrow(rows: seq<Row>, i: nat, j: nat)
    requires Database(rows) && i <= j < |rows|
    ensures rows[j].rowid - rows[i].rowid >= j - i
  {
    if i < j { IdsGrow(rows, i, j - 1); }
  }

  /** What holds when `base` rows, all of full batches, have been loaded without a gap. */
  ghost predicate InStep(rows: seq<Row>, table: seq<Record>, base: nat) {
    && |table| == MAX_EVENT_ORDER && base <= |rows| && base <= MAX_EVENT_ORDER && base % BATCH_SIZE == 0
    && (forall i :: 0 <= i < base ==> table[i] == rows[i].record)
    && (forall i :: base <= i < |table| ==> table[i] == EMPTY)
    && (base > 0 ==> rows[base - 1].rowid == base)
  }

  lemma NoGapSoFar(rows: seq<Row>, base: nat)
    requires Database(rows) && rows != [] && rows[0].rowid == 1 && base <= |rows|
    requires base > 0 ==> rows[base - 1].rowid == base
    ensures CountBelow(rows, base + 1) == base
    ensures rows[|rows| - 1].rowid >= |rows|
  {
    var f := CountBelow(rows, base + 1);
    if f > base { IdsGrow(rows, 0, f - 1); }
    IdsGrow(rows, 0, |rows| - 1);
  }

  /** Without a gap in the first `m` rows there is none in the first `k`. */
  lemma EarlierRows(rows: seq<Row>, k: nat, m: nat)
    requires Database(rows) && rows != [] && rows[0].rowid == 1
    requires 0 < k <= m <= |rows| && rows[m - 1].rowid == m
    ensures rows[k - 1].rowid == k
  {
    IdsGrow(rows, 0, k - 1);
    IdsGrow(rows, k - 1, m - 1);
  }

  lemma AfterFullBatch(rows: seq<Row>, start: int, end: int, table: seq<Record>, reply: seq<Row>)
    requires 1 <= start <= end <= |table| && Min(BATCH_SIZE, end - start + 1) == BATCH_SIZE == |reply|
    requires reply == Select(rows, start, BATCH_SIZE)
    ensures LoadFrom(rows, start, end, table) == LoadFrom(rows, start + BATCH_SIZE, end, Overwrite(table, start - 1, reply))
  {
    hide Select, Overwrite;
  }

  lemma FullReply(rows: seq<Row>, base: nat)
    requires CountBelow(rows, base + 1) == base && base + BATCH_SIZE <= |rows|
    ensures Select(rows, base + 1, BATCH_SIZE) == rows[base..base + BATCH_SIZE]
  {
  }

  lemma NextInStep(rows: seq<Row>, table: seq<Record>, base: nat)
    requires InStep(rows, table, base) && base + BATCH_SIZE <= |rows| && base + BATCH_SIZE <= MAX_EVENT_ORDER
    requires rows[base + BATCH_SIZE - 1].rowid == base + BATCH_SIZE
    ensures InStep(rows, Overwrite(table, base, rows[base..base + BATCH_SIZE]), base + BATCH_SIZE)
  {
    hide Overwrite;
    var part := rows[base..base + BATCH_SIZE];
    var t := Overwrite(table, base, part);
    forall i | 0 <= i < base + BATCH_SIZE ensures t[i] == rows[i].record {
      if i >= base { assert part[i - base] == rows[i]; }
    }
    forall i | base + BATCH_SIZE <= i < |t| ensures t[i] == EMPTY {
    }
  }

  /** One full batch without a gap before it. */
  lemma FullBatch(rows: seq<Row>, table: seq<Record>, base: nat) returns (t: seq<Record>)
    requires Database(rows) && rows != [] && rows[0].rowid == 1 && InStep(rows, table, base)
    requires base + BATCH_SIZE <= |rows|
    ensures |t| == MAX_EVENT_ORDER
    ensures LoadFrom(rows, base + 1, rows[|rows| - 1].rowid, table)
            == LoadFrom(rows, base + BATCH_SIZE + 1, rows[|rows| - 1].rowid, t)
    ensures rows[base + BATCH_SIZE - 1].rowid == base + BATCH_SIZE ==> InStep(rows, t, base + BATCH_SIZE)
  {
    hide Select, Overwrite, LoadFrom, CountBelow;
    var end := rows[|rows| - 1].rowid;
    NoGapSoFar(rows, base);
    FullReply(rows, base);
    var reply := rows[base..base + BATCH_SIZE];
    t := Overwrite(table, base, reply);
    AfterFullBatch(rows, base + 1, end, table, reply);
    if rows[base + BATCH_SIZE - 1].rowid == base + BATCH_SIZE {
      NextInStep(rows, table, base);
    }
  }

  lemma AfterLastBatch(rows: seq<Row>, start: int, end: int, table: seq<Record>, n: int, t: seq<Record>)
    requires 1 <= start <= end <= |table| && n == Min(BATCH_SIZE, end - start + 1)
    requires |Select(rows, start, n)| < n || start + n > end
    requires t == Overwrite(table, start - 1, Select(rows, start, n))
    ensures LoadFrom(rows, start, end, table) == t
  {
    hide Overwrite, Select;
  }

  lemma PartialReply(rows: seq<Row>, table: seq<Record>, base: nat, n: int) returns (reply: seq<Row>)
    requires Database(rows) && rows != [] && rows[0].rowid == 1 && InStep(rows, table, base)
    requires |rows| < base + BATCH_SIZE && n == Min(BATCH_SIZE, rows[|rows| - 1].rowid - base)
    ensures |rows| <= MAX_EVENT_ORDER && |rows| - base <= n
    ensures reply == Select(rows, base + 1, n) == rows[base..]
    ensures |reply| < n || n == rows[|rows| - 1].rowid - base
  {
    NoGapSoFar(rows, base);
    reply := Select(rows, base + 1, n);
  }

  lemma Bounds(rows: seq<Row>, table: seq<Record>, base: nat)
    requires Database(rows) && rows != [] && InStep(rows, table, base)
    ensures |table| == MAX_EVENT_ORDER && rows[|rows| - 1].rowid <= MAX_EVENT_ORDER && base <= |rows|
    ensures base > 0 ==> rows[base - 1].rowid == base
  {
  }

  /** The last, partial batch. */
  lemma LastBatch(rows: seq<Row>, table: seq<Record>, base: nat)
    requires Database(rows) && rows != [] && rows[0].rowid == 1 && InStep(rows, table, base)
    requires |rows| < base + BATCH_SIZE
    ensures Lists(LoadFrom(rows, base + 1, rows[|rows| - 1].rowid, table), rows)
  {
    hide *;
    Bounds(rows, table, base);
    NoGapSoFar(rows, base);
    var end := rows[|rows| - 1].rowid;
    if base + 1 <= end {
      var n := Smaller(BATCH_SIZE, end - base);
      var reply := PartialReply(rows, table, base, n);
      TailIsListed(rows, table, base);
      AfterLastBatch(rows, base + 1, end, table, n, Overwrite(table, base, reply));
    } else {
      NoBatchLeft(rows, base + 1, end, table);
      NothingMissing(rows, table, base);
    }
  }

  lemma Smaller(a: int, b: int) returns (n: int)
    ensures n == Min(a, b) && n <= a && n <= b
  {
    n := Min(a, b);
  }

  lemma TailIsListed(rows: seq<Row>, table: seq<Record>, base: nat)
    requires InStep(rows, table, base) && |rows| <= |table|
    ensures Lists(Overwrite(table, base, rows[base..]), rows)
  {
    var t := Overwrite(table, base, rows[base..]);
    forall i | 0 <= i < |rows| ensures t[i] == rows[i].record {
      if i >= base { assert rows[base..][i - base] == rows[i]; }
    }
  }

  lemma NothingMissing(rows: seq<Row>, table: seq<Record>, base: nat)
    requires InStep(rows, table, base) && |rows| == base
    ensures Lists(table, rows)
  {
  }

  lemma NoBatchLeft(rows: seq<Row>, start: int, end: int, table: seq<Record>)
    requires 1 <= start && end <= |table| && start > end
    ensures LoadFrom(rows, start, end, table) == table
  {
  }

  lemma {:induction false} GaplessLoad(rows: seq<Row>, table: seq<Record>, base: nat)
    requires Database(rows) && rows != [] && InStep(rows, table, base) && FullBatchesHaveNoGap(rows)
    ensures Lists(LoadFrom(rows, base + 1, rows[|rows| - 1].rowid, table), rows)
    decreases |rows| - base
  {
    hide LoadFrom, Lists;
    if base + BATCH_SIZE <= |rows| {
      EarlierRows(rows, base + BATCH_SIZE, |rows| / BATCH_SIZE * BATCH_SIZE);
      var t := FullBatch(rows, table, base);
      GaplessLoad(rows, t, base + BATCH_SIZE);
    } else {
      LastBatch(rows, table, base);
    }
  }

  /** After a gap the next batch starts with a row already loaded. */
  lemma BatchAfterGap(rows: seq<Row>, t: seq<Record>, base: nat)
    requires Database(rows) && DistinctRecords(rows) && rows != [] && |t| == MAX_EVENT_ORDER
    requires 0 < base <= |rows| && rows[base - 1].rowid > base
    ensures !Lists(LoadFrom(rows, base + 1, rows[|rows| - 1].rowid, t), rows)
  {
    var end := rows[|rows| - 1].rowid;
    IdsGrow(rows, base - 1, |rows| - 1);
    var f := CountBelow(rows, base + 1);
    assert f < base;
    var n := Min(BATCH_SIZE, end - base);
    var reply := Select(rows, base + 1, n);
    assert reply[0] == rows[f];
    var t' := Overwrite(t, base, reply);
    assert t'[base] == rows[f].record;
    assert LoadFrom(rows, base + 1, end, t)[base] == rows[f].record;
    assert base < |rows| ==> rows[f].record != rows[base].record;
  }

  lemma GapLiesAhead(rows: seq<Row>, table: seq<Record>, base: nat)
    requires rows != [] && rows[0].rowid == 1 && InStep(rows, table, base) && !FullBatchesHaveNoGap(rows)
    ensures base + BATCH_SIZE <= |rows|
  {
    var full := |rows| / BATCH_SIZE;
    assert base / BATCH_SIZE <= full && base == base / BATCH_SIZE * BATCH_SIZE;
    assert full * BATCH_SIZE <= |rows|;
  }

  lemma {:induction false} GapRepeatsARow(rows: seq<Row>, table: seq<Record>, base: nat)
    requires Database(rows) && DistinctRecords(rows) && rows != [] && rows[0].rowid == 1
    requires InStep(rows, table, base) && !FullBatchesHaveNoGap(rows)
    ensures !Lists(LoadFrom(rows, base + 1, rows[|rows| - 1].rowid, table), rows)
    decreases |rows| - base
  {
    hide LoadFrom, Lists, DistinctRecords;
    GapLiesAhead(rows, table, base);
    var t := FullBatch(rows, table, base);
    IdsGrow(rows, 0, base + BATCH_SIZE - 1);
    if rows[base + BATCH_SIZE - 1].rowid == base + BATCH_SIZE {
      GapRepeatsARow(rows, t, base + BATCH_SIZE);
    } else {
      BatchAfterGap(rows, t, base + BATCH_SIZE);
    }
  }

  lemma NothingToLoad(rows: seq<Row>)
    requires rows == []
    ensures Lists(LoadAll(rows), rows)
  {
  }

  lemma MissingFirstRow(rows: seq<Row>)
    requires Database(rows) && DistinctRecords(rows) && rows != [] && rows[0].rowid > 1
    ensures !Lists(LoadAll(rows), rows)
  {
    assert LoadAll(rows)[0] == EMPTY;
  }

  /** The loaded table lists the rows iff ids start at 1 without gaps up to the last full batch. */
  lemma LoadIsExact(rows: seq<Row>)
    requires Database(rows) && DistinctRecords(rows)
    ensures Lists(LoadAll(rows), rows) <==> FullBatchesHaveNoGap(rows)
  {
    hide LoadFrom, Lists, DistinctRecords;
    if rows == [] {
      NothingToLoad(rows);
    } else {
      if rows[0].rowid > 1 {
        MissingFirstRow(rows);
      } else if FullBatchesHaveNoGap(rows) {
        GaplessLoad(rows, EmptyTable(), 0);
      } else {
        GapRepeatsARow(rows, EmptyTable(), 0);
      }
    }
  }

  /** A table filled without gaps is one the scan is specified for: all its records, and a terminator behind them. */
  lemma LoadedTableCanBeScanned(rows: seq<Row>, c: Schedule.Context)
    requires Database(rows) && FullBatchesHaveNoGap(rows) && |rows| <= 256
    requires forall i :: 0 <= i < |rows| ==> rows[i].record.scriptId != 0 && Schedule.Domain(rows[i].record, c)
    ensures Schedule.Loaded(LoadAll(rows), |rows|, c)
    ensures forall i :: 0 <= i < |rows| ==> LoadAll(rows)[i] == rows[i].record
  {
    hide LoadFrom, FullBatchesHaveNoGap, Schedule.Domain;
    if rows == [] {
      NothingToLoad(rows);
    } else {
      FirstRowIsOne(rows);
      GaplessLoad(rows, EmptyTable(), 0);
    }
  }

  lemma FirstRowIsOne(rows: seq<Row>)
    requires FullBatchesHaveNoGap(rows) && rows != []
    ensures rows[0].rowid == 1
  {
  }
}
