/**
 The polling loop of the digital inputs (main/B394_DigitalInput.c): a change of the input mask is
 reported once it has been stable for the debounce time.
 */
module Debounce {
  import opened Common

  const DEFAULT_DEBOUNCE := 1000

  type uint64 = x: int | 0 <= x < 0x1_0000_0000_0000_0000

  /** One turn of the loop: the mask it reads, its time and the configured debounce time, in milliseconds. */
  datatype Poll = Poll(raw: bv8, now: uint64, debounce: nat)

  datatype Event = Event(mask: bv8, time: uint64)

  datatype State = State(stable: bv8, edge: uint64, pending: bool)

  function Delay(p: Poll): (d: nat)
    ensures d > 0
  {
    if p.debounce == 0 then DEFAULT_DEBOUNCE else p.debounce
  }

  /** Unsigned 64-bit subtraction: if the clock steps back the difference is huge. */
  function Elapsed(since: uint64, now: uint64): uint64 {
    (now - since) % 0x1_0000_0000_0000_0000
  }

  function Step(s: State, p: Poll): State {
    if p.raw != s.stable then State(p.raw, p.now, true)
    else if s.pending && Elapsed(s.edge, p.now) >= Delay(p) then s.(pending := false)
    else s
  }

  predicate SendsNow(s: State, p: Poll) {
    p.raw == s.stable && s.pending && Elapsed(s.edge, p.now) >= Delay(p) && s.stable != 0
  }

  function Sends(s: State, p: Poll): seq<Event> {
    if SendsNow(s, p) then [Event(s.stable, p.now)] else []
  }

  class InputTask {
    var rawStable: bv8
    var lastEdgeTime: uint64
    var pendingSend: bool
    var sent: seq<Event>

    ghost function Abstract(): State
      reads this
    {
      State(rawStable, lastEdgeTime, pendingSend)
    }

    constructor (raw: bv8)
      ensures Abstract() == State(raw, 0, false) && sent == []
    {
      rawStable, lastEdgeTime, pendingSend, sent := raw, 0, false, [];
    }

    method Turn(p: Poll)
      modifies this
      ensures Abstract() == Step(old(Abstract()), p)
      ensures sent == old(sent) + Sends(old(Abstract()), p)
    {
      if p.raw != rawStable {
        rawStable, lastEdgeTime, pendingSend := p.raw, p.now, true;
        return;
      }
      if !pendingSend {
        return;
      }
      var debounce := p.debounce;
      if debounce == 0 {
        debounce := DEFAULT_DEBOUNCE;
      }
      if Elapsed(lastEdgeTime, p.now) < debounce {
        return;
      }
      pendingSend := false;
      if rawStable == 0 {
        return;
      }
      sent := sent + [Event(rawStable, p.now)];
    }
  }

  // ---------------------------------------------------------------- runs

  function Run(initial: bv8, polls: seq<Poll>): State {
    if polls == [] then State(initial, 0, false)
    else Step(Run(initial, polls[..|polls| - 1]), polls[|polls| - 1])
  }

  function SentAt(initial: bv8, polls: seq<Poll>, k: nat): seq<Event>
    requires k < |polls|
  {
    Sends(Run(initial, polls[..k]), polls[k])
  }

  ghost predicate NonDecreasing(polls: seq<Poll>) {
    forall i, j :: 0 <= i < j < |polls| ==> polls[i].now <= polls[j].now
  }

  function MaskBefore(initial: bv8, polls: seq<Poll>, k: nat): bv8
    requires k <= |polls|
  {
    if k == 0 then initial else polls[k - 1].raw
  }

  predicate EdgeAt(initial: bv8, polls: seq<Poll>, e: nat) {
    e < |polls| && polls[e].raw != MaskBefore(initial, polls, e)
  }

  /** The mask does not change from poll `e` up to, but not including, poll `k`. */
  ghost predicate Holds(polls: seq<Poll>, e: nat, k: nat) {
    e < k <= |polls| && forall j :: e <= j < k ==> polls[j].raw == polls[e].raw
  }

  predicate Early(polls: seq<Poll>, e: nat, j: nat)
    requires e < |polls| && j < |polls|
  {
    Elapsed(polls[e].now, polls[j].now) < Delay(polls[j])
  }

  ghost predicate AllEarly(polls: seq<Poll>, e: nat, k: nat)
    requires e < |polls| && k <= |polls|
  {
    forall j :: e < j < k ==> Early(polls, e, j)
  }

  /** Poll `k` is the first past the deadline of the edge at `e`, and the inputs, not all off, have not changed since. */
  ghost predicate Due(initial: bv8, polls: seq<Poll>, e: nat, k: nat) {
    && e < k < |polls| && EdgeAt(initial, polls, e) && Holds(polls, e, k + 1)
    && polls[e].raw != 0 && !Early(polls, e, k) && AllEarly(polls, e, k)
  }

  /** What the variables say about the polls so far. */
  ghost predicate Tracks(s: State, initial: bv8, polls: seq<Poll>, k: nat)
    requires k <= |polls|
  {
    && s.stable == MaskBefore(initial, polls, k)
    && ((forall e: nat :: e < k ==> !EdgeAt(initial, polls, e)) ==> !s.pending)
    && (forall e: nat :: e < k && EdgeAt(initial, polls, e) && Holds(polls, e, k) ==>
          s.edge == polls[e].now && (s.pending <==> AllEarly(polls, e, k)))
  }

  lemma RunPrefix(initial: bv8, polls: seq<Poll>, k: nat)
    requires k < |polls|
    ensures Run(initial, polls[..k + 1]) == Step(Run(initial, polls[..k]), polls[k])
  {
    assert polls[..k + 1][..k] == polls[..k];
  }

  lemma {:induction false} Tracking(initial: bv8, polls: seq<Poll>, k: nat)
    requires k <= |polls|
    ensures Tracks(Run(initial, polls[..k]), initial, polls, k)
    decreases k
  {
    if k > 0 {
      Tracking(initial, polls, k - 1);
      RunPrefix(initial, polls, k - 1);
      TrackingStep(Run(initial, polls[..k - 1]), initial, polls, k - 1);
    }
  }

  lemma AllEarlyNext(polls: seq<Poll>, e: nat, k: nat)
    requires e < k < |polls|
    ensures AllEarly(polls, e, k + 1) <==> AllEarly(polls, e, k) && Early(polls, e, k)
  {
  }

  lemma NoEdgeWhileHeld(initial: bv8, polls: seq<Poll>, e: nat, f: nat, k: nat)
    requires Holds(polls, e, k) && e < f < k
    ensures !EdgeAt(initial, polls, f)
  {
    assert polls[f].raw == polls[e].raw && polls[f - 1].raw == polls[e].raw;
  }

  lemma TrackingStep(s: State, initial: bv8, polls: seq<Poll>, k: nat)
    requires k < |polls| && Tracks(s, initial, polls, k)
    ensures Tracks(Step(s, polls[k]), initial, polls, k + 1)
  {
    var t := Step(s, polls[k]);
    forall e: nat | e < k + 1 && EdgeAt(initial, polls, e) && Holds(polls, e, k + 1)
      ensures t.edge == polls[e].now && (t.pending <==> AllEarly(polls, e, k + 1))
    {
      if e < k {
        NoEdgeWhileHeld(initial, polls, e, k, k + 1);
        assert Holds(polls, e, k);
        AllEarlyNext(polls, e, k);
      }
    }
    if forall e: nat :: e < k + 1 ==> !EdgeAt(initial, polls, e) {
      assert !EdgeAt(initial, polls, k);
    }
  }

  /** The last edge before poll `k`, if there is one. */
  lemma {:induction false} LastEdge(initial: bv8, polls: seq<Poll>, k: nat) returns (e: nat)
    requires 0 < k <= |polls| && exists e: nat :: e < k && EdgeAt(initial, polls, e)
    ensures e < k && EdgeAt(initial, polls, e) && Holds(polls, e, k)
    decreases k
  {
    if EdgeAt(initial, polls, k - 1) {
      e := k - 1;
    } else {
      e := LastEdge(initial, polls, k - 1);
      assert polls[k - 1].raw == polls[k - 2].raw == polls[e].raw;
    }
  }

  lemma SendsWhenDue(s: State, initial: bv8, polls: seq<Poll>, e: nat, k: nat)
    requires k < |polls| && Tracks(s, initial, polls, k) && Due(initial, polls, e, k)
    ensures SendsNow(s, polls[k])
  {
    assert Holds(polls, e, k);
    NoEdgeWhileHeld(initial, polls, e, k, k + 1);
  }

  lemma DueWhenSent(s: State, initial: bv8, polls: seq<Poll>, k: nat) returns (e: nat)
    requires k < |polls| && Tracks(s, initial, polls, k) && SendsNow(s, polls[k])
    ensures Due(initial, polls, e, k)
  {
    e := LastEdge(initial, polls, k);
    assert forall j :: e <= j < k + 1 ==> polls[j].raw == polls[e].raw;
  }

  /** An event is sent at a poll iff that poll is due for some edge; it reports the mask and the time of the poll. */
  lemma SendsIffDue(initial: bv8, polls: seq<Poll>, k: nat)
    requires k < |polls|
    ensures SentAt(initial, polls, k) == if exists e: nat :: Due(initial, polls, e, k) then [Event(polls[k].raw, polls[k].now)] else []
  {
    hide Due, Tracks;
    var s := Run(initial, polls[..k]);
    Tracking(initial, polls, k);
    if e: nat :| Due(initial, polls, e, k) {
      SendsWhenDue(s, initial, polls, e, k);
    } else if SendsNow(s, polls[k]) {
      var e := DueWhenSent(s, initial, polls, k);
    }
  }

  /** An event belongs to one edge, and an edge has at most one event. */
  lemma OneEventPerEdge(initial: bv8, polls: seq<Poll>, e1: nat, k1: nat, e2: nat, k2: nat)
    requires Due(initial, polls, e1, k1) && Due(initial, polls, e2, k2)
    ensures e1 == e2 <==> k1 == k2
  {
    forall f: nat | e1 < f <= k1 ensures !EdgeAt(initial, polls, f) { NoEdgeWhileHeld(initial, polls, e1, f, k1 + 1); }
    forall f: nat | e2 < f <= k2 ensures !EdgeAt(initial, polls, f) { NoEdgeWhileHeld(initial, polls, e2, f, k2 + 1); }
  }

  /** An edge whose mask, not zero, is still unchanged at a poll past its deadline has an event by then. */
  lemma {:induction false} HeldEdgeIsSent(initial: bv8, polls: seq<Poll>, e: nat, k: nat) returns (sent: nat)
    requires EdgeAt(initial, polls, e) && e < k < |polls| && Holds(polls, e, k + 1)
    requires polls[e].raw != 0 && !Early(polls, e, k)
    ensures e < sent <= k && Due(initial, polls, e, sent)
    ensures SentAt(initial, polls, sent) == [Event(polls[e].raw, polls[sent].now)]
    decreases k
  {
    if AllEarly(polls, e, k) {
      sent := k;
      SendsIffDue(initial, polls, k);
      assert Due(initial, polls, e, k);
    } else {
      var j :| e < j < k && !Early(polls, e, j);
      sent := HeldEdgeIsSent(initial, polls, e, j);
    }
  }

  /** An event comes at least the debounce time after its edge iff the clock has not stepped back behind the edge. */
  lemma EventIsDebouncedIff(initial: bv8, polls: seq<Poll>, e: nat, k: nat)
    requires Due(initial, polls, e, k)
    ensures polls[k].now - polls[e].now >= Delay(polls[k]) <==> polls[k].now >= polls[e].now
    ensures NonDecreasing(polls) ==> polls[k].now - polls[e].now >= Delay(polls[k])
  {
    hide EdgeAt, Holds, AllEarly, Delay;
    if NonDecreasing(polls) { assert polls[e].now <= polls[k].now; }
    assert !Early(polls, e, k);
  }

  /** A clock that steps back behind the edge ends the waiting at once iff the step is not almost the whole 64-bit range. */
  lemma SteppingBackEndsTheWaitIff(polls: seq<Poll>, e: nat, k: nat)
    requires e < k < |polls| && polls[k].now < polls[e].now
    ensures !Early(polls, e, k) <==> polls[e].now - polls[k].now <= 0x1_0000_0000_0000_0000 - Delay(polls[k])
  {
    var back := polls[e].now - polls[k].now;
    assert Elapsed(polls[e].now, polls[k].now) == 0x1_0000_0000_0000_0000 - back;
  }

  /** The wait that is configured with a poll; 0 stands for a second. */
  function Configured(p: Poll): nat {
    if p.debounce == 0 then 1000 else p.debounce
  }

  /** No event comes before the configured wait is over. */
  lemma EventWaitsAsConfigured(initial: bv8, polls: seq<Poll>, e: nat, k: nat)
    requires Due(initial, polls, e, k)
    ensures Elapsed(polls[e].now, polls[k].now) >= Configured(polls[k])
    ensures forall j: nat :: e < j < k ==> Elapsed(polls[e].now, polls[j].now) < Configured(polls[j])
  {
    assert !Early(polls, e, k);
    forall j: nat | e < j < k ensures Elapsed(polls[e].now, polls[j].now) < Configured(polls[j]) {
      assert Early(polls, e, j);
    }
  }

  /** And if the inputs, not all off, hold until it is over, one has come. */
  lemma HeldAsConfiguredIsSent(initial: bv8, polls: seq<Poll>, e: nat, k: nat) returns (sent: nat)
    requires EdgeAt(initial, polls, e) && e < k < |polls| && Holds(polls, e, k + 1) && polls[e].raw != 0
    requires Elapsed(polls[e].now, polls[k].now) >= Configured(polls[k])
    ensures e < sent <= k && SentAt(initial, polls, sent) == [Event(polls[e].raw, polls[sent].now)]
    ensures Elapsed(polls[e].now, polls[sent].now) >= Configured(polls[sent])
  {
    sent := HeldEdgeIsSent(initial, polls, e, k);
    EventWaitsAsConfigured(initial, polls, e, sent);
  }

  // ---------------------------------------------------------------- the input code

  predicate Bit(mask: bv8, i: nat)
    requires i < 8
  {
    mask & (1 << i) != 0
  }

  function Popcount(mask: bv8): nat {
    One(Bit(mask, 0)) + One(Bit(mask, 1)) + One(Bit(mask, 2)) + One(Bit(mask, 3))
    + One(Bit(mask, 4)) + One(Bit(mask, 5)) + One(Bit(mask, 6)) + One(Bit(mask, 7))
  }

  /** A single input has its number; any other combination has its mask. */
  function ActionCode(mask: bv8): bv8 {
    if mask == 1 then 0 else if mask == 2 then 1 else if mask == 4 then 2 else if mask == 8 then 3
    else if mask == 16 then 4 else if mask == 32 then 5 else if mask == 64 then 6 else if mask == 128 then 7
    else mask
  }

  /** Several inputs whose mask spells the number of a single input. */
  predicate Collide(several: bv8, single: bv8) {
    (several == 3 && single == 8) || (several == 5 && single == 32) || (several == 6 && single == 64) || (several == 7 && single == 128)
  }

  lemma SingleIsSingle(mask: bv8)
    ensures Popcount(mask) == 1 <==> ActionCode(mask) != mask && ActionCode(mask) < 8
  {
  }

  lemma BankAndSlot(mask: bv8)
    ensures ((if mask & 0x80 != 0 then 2 else 0) + (if mask & 0x40 != 0 then 1 else 0)) * 64 + (mask & 0x3F) == mask
  {
  }

  lemma SlotOfSingle(mask: bv8, slot: bv8)
    requires slot < 8 && ActionCode(mask) != mask
    ensures mask == 1 << slot <==> ActionCode(mask) == slot
  {
  }

  /** Bank and slot of a mask that is sent. */
  method Resolve(mask: bv8) returns (bank: bv8, slot: bv8, action: bv8)
    requires mask != 0
    ensures action == bank * 64 + slot == ActionCode(mask)
    ensures bank < 4 && slot < 64
  {
    hide ActionCode, Popcount;
    SingleIsSingle(mask);
    if Popcount(mask) == 1 {
      bank := 0;
      slot := 0;
      while slot < 8
        invariant slot <= ActionCode(mask) < 8
        decreases 8 - slot as int
      {
        SlotOfSingle(mask, slot);
        if mask == 1 << slot {
          break;
        }
        slot := slot + 1;
      }
    } else {
      SeveralKeepTheirMask(mask);
      BankAndSlot(mask);
      slot := mask & 0x3F;
      bank := (if mask & 0x80 != 0 then 2 else 0) + (if mask & 0x40 != 0 then 1 else 0);
    }
    action := bank * 64 + slot;
  }

  lemma SeveralKeepTheirMask(mask: bv8)
    requires mask != 0 && Popcount(mask) != 1
    ensures ActionCode(mask) == mask
  {
  }

  /** Input i alone has code i, any other combination its mask. */
  lemma CodeOfInputs(mask: bv8, i: bv8)
    requires i < 8
    ensures ActionCode(1 << i) == i
    ensures mask !in {1, 2, 4, 8, 16, 32, 64, 128} ==> ActionCode(mask) == mask
  {
  }

  /** Two different masks share a code iff one is a single input and the other, of several, spells its number. */
  lemma SharedCodes(a: bv8, b: bv8)
    requires a != 0 && b != 0 && a != b
    ensures ActionCode(a) == ActionCode(b) <==> Collide(a, b) || Collide(b, a)
  {
  }
}
