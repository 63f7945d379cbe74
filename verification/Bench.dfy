/**
 The throughput bench of the BLE link (main/BLE_Actor.c): the SpeedTest operations switch an
 accumulator on and off, and payloads arrive in whatever pieces the link delivers.
 */
module Bench {
  import opened Crc
  import Checksums

  datatype Event = Start(size: nat) | Disarm | Arm | End | Payload(bytes: seq<bv8>)

  /** The fields of `g_bsp_bench`. */
  datatype State = State(rxBytes: nat, crc32: bv32, armed: bool, active: bool, expectedBytes: nat)

  const INITIAL := State(0, 0, false, false, 0)

  function Step(s: State, e: Event): State {
    match e
    case Start(size) => State(0, 0, false, true, size)
    case Disarm => s.(armed := false)
    case Arm => s.(armed := true)
    case End => s.(armed := false, active := false)
    case Payload(bytes) =>
      if !s.armed then s
      else s.(rxBytes := (s.rxBytes + |bytes|) % 0x1_0000_0000, crc32 := Update(CRC32_POLYNOMIAL, s.crc32, bytes))
  }

  /** What the answer to `end` claims. */
  predicate Matches(s: State) {
    s.expectedBytes == 0 || s.rxBytes == s.expectedBytes
  }

  class Accumulator {
    var rxBytes: nat
    var crc32: bv32
    var armed: bool
    var active: bool
    var expectedBytes: nat

    ghost function Abstract(): State
      reads this
    {
      State(rxBytes, crc32, armed, active, expectedBytes)
    }

    ghost predicate Valid()
      reads this
    {
      rxBytes < 0x1_0000_0000
    }

    constructor ()
      ensures Valid() && Abstract() == INITIAL
    {
      rxBytes, crc32, armed, active, expectedBytes := 0, 0, false, false, 0;
    }

    /** One operation; `crcMatch` belongs to the answer to `end`. */
    method SpeedTest(op: Event) returns (crcMatch: bool)
      requires Valid() && !op.Payload?
      modifies this
      ensures Valid() && Abstract() == Step(old(Abstract()), op)
      ensures op.End? ==> crcMatch == Matches(Abstract())
    {
      crcMatch := false;
      match op {
        case Start(size) =>
          rxBytes := 0;
          crc32 := 0;
          armed := false;
          active := true;
          expectedBytes := size;
        case Disarm =>
          armed := false;
        case Arm =>
          armed := true;
        case End =>
          armed := false;
          active := false;
          crcMatch := expectedBytes == 0 || rxBytes == expectedBytes;
        case Payload(_) =>
      }
    }

    method HandleBench(payload: seq<bv8>)
      requires Valid()
      modifies this`rxBytes, this`crc32
      ensures Valid() && Abstract() == Step(old(Abstract()), Payload(payload))
    {
      if !armed || |payload| == 0 {
        return;
      }
      hide Update;
      rxBytes := (rxBytes + |payload|) % 0x1_0000_0000;
      crc32 := BenchCrc(crc32, payload);
    }
  }

  // ---------------------------------------------------------------- runs

  function Run(s: State, events: seq<Event>): State
    decreases |events|
  {
    if events == [] then s else Run(Step(s, events[0]), events[1..])
  }

  lemma {:induction false} RunConcat(s: State, a: seq<Event>, b: seq<Event>)
    ensures Run(s, a + b) == Run(Run(s, a), b)
    decreases |a|
  {
    hide Step;
    if a == [] {
      assert a + b == b;
    } else {
      assert (a + b)[1..] == a[1..] + b;
      RunConcat(Step(s, a[0]), a[1..], b);
    }
  }

  lemma RunSnoc(events: seq<Event>, k: nat)
    requires k < |events|
    ensures Run(INITIAL, events[..k + 1]) == Step(Run(INITIAL, events[..k]), events[k])
  {
    hide Step;
    assert events[..k + 1] == events[..k] + [events[k]];
    RunConcat(INITIAL, events[..k], [events[k]]);
    assert [events[k]][1..] == [];
  }

  /** Since some `arm` before position `k` there was no other operation. */
  ghost predicate ArmedAt(events: seq<Event>, k: nat)
    requires k <= |events|
  {
    exists a: nat :: a < k && events[a].Arm? && forall j :: a < j < k ==> events[j].Arm? || events[j].Payload?
  }

  /** The payloads at positions `from` to `k` that arrive armed, in order. */
  ghost function Counted(events: seq<Event>, from: nat, k: nat): seq<bv8>
    requires from <= k <= |events|
    decreases k
  {
    if k == from then []
    else
      Counted(events, from, k - 1)
      + if events[k - 1].Payload? && ArmedAt(events, k - 1) then events[k - 1].bytes else []
  }

  /** Counting begins after the last start, or with the first event if there was none. */
  ghost predicate CountsFrom(events: seq<Event>, from: nat) {
    from <= |events| && (from == 0 || events[from - 1].Start?) && forall j :: from <= j < |events| ==> !events[j].Start?
  }

  lemma ArmedStep(events: seq<Event>, k: nat)
    requires k < |events|
    ensures ArmedAt(events, k + 1) <==> events[k].Arm? || (events[k].Payload? && ArmedAt(events, k))
  {
    if events[k].Arm? {
      assert ArmedAt(events, k + 1);
    } else if events[k].Payload? && ArmedAt(events, k) {
      var a: nat :| a < k && events[a].Arm? && forall j :: a < j < k ==> events[j].Arm? || events[j].Payload?;
      assert a < k + 1 && events[a].Arm? && forall j :: a < j < k + 1 ==> events[j].Arm? || events[j].Payload?;
    }
  }

  lemma {:induction false} ArmedExactly(events: seq<Event>, k: nat)
    requires k <= |events|
    ensures Run(INITIAL, events[..k]).armed <==> ArmedAt(events, k)
    decreases k
  {
    hide ArmedAt, Run;
    if k == 0 {
      StartDisarmed(events);
    } else {
      ArmedExactly(events, k - 1);
      ArmedStep(events, k - 1);
      RunSnoc(events, k - 1);
    }
  }

  lemma StartDisarmed(events: seq<Event>)
    ensures !Run(INITIAL, events[..0]).armed && !ArmedAt(events, 0)
  {
  }

  ghost predicate Accumulates(s: State, bytes: seq<bv8>) {
    s.crc32 == Update(CRC32_POLYNOMIAL, 0, bytes) && s.rxBytes == |bytes| % 0x1_0000_0000
  }

  /** In every run the accumulator holds the length and the checksum of exactly the armed payloads since the last start. */
  lemma CountsExactlyTheArmedPayloads(events: seq<Event>, from: nat)
    requires CountsFrom(events, from)
    ensures Accumulates(Run(INITIAL, events), Counted(events, from, |events|))
  {
    CountedUpTo(events, from, |events|);
    assert events[..|events|] == events;
  }

  lemma EventAccumulates(s: State, e: Event, bytes: seq<bv8>)
    requires Accumulates(s, bytes) && !e.Start?
    ensures Accumulates(Step(s, e), bytes + if e.Payload? && s.armed then e.bytes else [])
  {
    hide Update;
    if e.Payload? {
      UpdateConcat(CRC32_POLYNOMIAL, 0, bytes, e.bytes);
    }
    assert bytes + [] == bytes;
  }

  lemma {:induction false} CountedUpTo(events: seq<Event>, from: nat, k: nat)
    requires CountsFrom(events, from) && from <= k <= |events|
    ensures Accumulates(Run(INITIAL, events[..k]), Counted(events, from, k))
    decreases k
  {
    hide Accumulates, ArmedAt, Run, Step;
    if k == from {
      NothingCounted(events, k);
    } else {
      CountedUpTo(events, from, k - 1);
      ArmedExactly(events, k - 1);
      RunSnoc(events, k - 1);
      EventAccumulates(Run(INITIAL, events[..k - 1]), events[k - 1], Counted(events, from, k - 1));
    }
  }

  lemma NothingCounted(events: seq<Event>, k: nat)
    requires k <= |events| && (k == 0 || events[k - 1].Start?)
    ensures Accumulates(Run(INITIAL, events[..k]), [])
  {
    if k > 0 { RunSnoc(events, k - 1); }
  }

  /** How the link cuts a payload makes no difference to anything that follows. */
  lemma FragmentationIsInvisible(before: seq<Event>, a: seq<bv8>, b: seq<bv8>, after: seq<Event>)
    ensures Run(INITIAL, before + [Payload(a + b)] + after) == Run(INITIAL, before + [Payload(a), Payload(b)] + after)
  {
    hide Update;
    RunConcat(INITIAL, before + [Payload(a + b)], after);
    RunConcat(INITIAL, before, [Payload(a + b)]);
    RunConcat(INITIAL, before + [Payload(a), Payload(b)], after);
    RunConcat(INITIAL, before, [Payload(a), Payload(b)]);
    var s := Run(INITIAL, before);
    RunLast(s, Payload(a + b));
    TwoPayloads(s, a, b);
    UpdateConcat(CRC32_POLYNOMIAL, s.crc32, a, b);
    WrapTwice(s.rxBytes, |a|, |b|);
  }

  lemma RunLast(s: State, e: Event)
    ensures Run(s, [e]) == Step(s, e)
  {
    hide Step;
    assert [e][1..] == [];
  }

  lemma TwoPayloads(s: State, a: seq<bv8>, b: seq<bv8>)
    ensures Run(s, [Payload(a), Payload(b)]) == Step(Step(s, Payload(a)), Payload(b))
  {
    hide Step;
    assert [Payload(a), Payload(b)][1..] == [Payload(b)];
    RunLast(Step(s, Payload(a)), Payload(b));
  }

  lemma WrapTwice(x: nat, y: nat, z: nat)
    ensures ((x + y) % 0x1_0000_0000 + z) % 0x1_0000_0000 == (x + (y + z)) % 0x1_0000_0000
  {
  }

  // ---------------------------------------------------------------- what `end` tells

  /** The length that was announced by the start at which counting began. */
  function Announced(events: seq<Event>, from: nat): nat
    requires from <= |events|
  {
    if from > 0 && events[from - 1].Start? then events[from - 1].size else 0
  }

  lemma {:induction false} ExpectsWhatWasAnnounced(events: seq<Event>, from: nat, k: nat)
    requires CountsFrom(events, from) && from <= k <= |events|
    ensures Run(INITIAL, events[..k]).expectedBytes == Announced(events, from)
    decreases k
  {
    hide Update, Run;
    if k == from {
      JustStarted(events, k);
    } else {
      ExpectsWhatWasAnnounced(events, from, k - 1);
      RunSnoc(events, k - 1);
    }
  }

  /** A start after the last end, or before any. */
  ghost predicate Started(events: seq<Event>, k: nat)
    requires k <= |events|
  {
    exists a: nat :: a < k && events[a].Start? && forall j :: a < j < k ==> !events[j].End?
  }

  lemma {:induction false} ActiveIff(events: seq<Event>, k: nat)
    requires k <= |events|
    ensures Run(INITIAL, events[..k]).active <==> Started(events, k)
    decreases k
  {
    hide Run, Update;
    if k == 0 {
      NotStarted(events);
    } else {
      ActiveIff(events, k - 1);
      RunSnoc(events, k - 1);
      if events[k - 1].Start? {
        assert Started(events, k);
      } else if !events[k - 1].End? && Started(events, k - 1) {
        var a: nat :| a < k - 1 && events[a].Start? && forall j :: a < j < k - 1 ==> !events[j].End?;
        assert a < k && events[a].Start? && forall j :: a < j < k ==> !events[j].End?;
      }
    }
  }

  lemma NotStarted(events: seq<Event>)
    ensures !Run(INITIAL, events[..0]).active && !Started(events, 0)
  {
  }

  lemma JustStarted(events: seq<Event>, k: nat)
    requires k <= |events| && (k == 0 || events[k - 1].Start?)
    ensures Run(INITIAL, events[..k]).expectedBytes == Announced(events, k)
  {
    if k > 0 { RunSnoc(events, k - 1); }
  }

  /** In every run `crc_match` says that nothing was announced, or that many bytes, modulo 2^32, arrived armed. */
  lemma MatchComparesOnlyLengths(events: seq<Event>, from: nat)
    requires CountsFrom(events, from)
    ensures Matches(Run(INITIAL, events))
            <==> Announced(events, from) == 0
                 || |Counted(events, from, |events|)| % 0x1_0000_0000 == Announced(events, from)
  {
    hide Run, Counted, Announced;
    CountsExactlyTheArmedPayloads(events, from);
    ExpectsWhatWasAnnounced(events, from, |events|);
    assert events[..|events|] == events;
  }

  /** One measurement of a payload, with any length announced. */
  function Measurement(n: nat, bytes: seq<bv8>): seq<Event> {
    [Start(n)] + ([Arm] + ([Payload(bytes)] + ([Disarm] + [End])))
  }

  lemma RunCons(s: State, e: Event, rest: seq<Event>)
    ensures Run(s, [e] + rest) == Run(Step(s, e), rest)
  {
    hide Step;
    assert ([e] + rest)[1..] == rest;
  }

  lemma MeasurementResult(s: State, n: nat, bytes: seq<bv8>)
    ensures Run(s, Measurement(n, bytes))
            == State(|bytes| % 0x1_0000_0000, Update(CRC32_POLYNOMIAL, 0, bytes), false, false, n)
  {
    hide Update, Run;
    var length := |bytes| % 0x1_0000_0000;
    var crc := Update(CRC32_POLYNOMIAL, 0, bytes);
    RunCons(s, Start(n), [Arm] + ([Payload(bytes)] + ([Disarm] + [End])));
    RunCons(State(0, 0, false, true, n), Arm, [Payload(bytes)] + ([Disarm] + [End]));
    RunCons(State(0, 0, true, true, n), Payload(bytes), [Disarm] + [End]);
    RunCons(State(length, crc, true, true, n), Disarm, [End]);
    RunLast(State(length, crc, false, true, n), End);
  }

  /** Whatever went before, a measurement matches iff no length or the right one, modulo 2^32, was announced. */
  lemma MeasurementMatchesIff(s: State, n: nat, bytes: seq<bv8>)
    ensures Matches(Run(s, Measurement(n, bytes))) <==> n == 0 || |bytes| % 0x1_0000_0000 == n
  {
    hide Update, Run, Measurement;
    MeasurementResult(s, n, bytes);
  }

  /** The `crc32` of the same answer does tell payloads apart that differ within four adjacent bytes. */
  lemma CrcTellsPayloadsApart(s: State, n: nat, sent: seq<bv8>, received: seq<bv8>, from: nat)
    requires Checksums.SameBytesOutside(sent, received, from, from + 4) && sent != received
    ensures Run(s, Measurement(n, sent)).crc32 != Run(s, Measurement(n, received)).crc32
  {
    hide Update, Run, Measurement;
    MeasurementResult(s, n, sent);
    MeasurementResult(s, n, received);
    Checksums.Crc32DetectsFourAdjacentBytes(0, sent, received, from);
  }
}
