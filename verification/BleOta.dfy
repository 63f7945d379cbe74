/**
 Firmware updates over the BLE link (main/BLE_Actor.c, the OTA.Chunk branch of bsp_handle_json):
 numbered chunks with hexadecimal payloads. What the flash driver answers is part of each message.
 */
module BleOta {
  import opened Common
  import opened Hex

  datatype Message =
    | Malformed  // seq, total or data missing or of the wrong type
    | Chunk(number: int, total: int, data: string,
            partition: bool,  // there is a partition to update
            begins: bool,     // esp_ota_begin succeeds
            writes: bool,     // esp_ota_write succeeds
            ends: bool,       // esp_ota_end accepts the image
            boots: bool)      // esp_ota_set_boot_partition succeeds

  datatype Error = NoPartition | BeginFailed | NotActive | OutOfOrder | HexFailed | WriteFailed

  datatype Output = Ack(number: int, error: Option<Error>) | Boot(image: seq<byte>) | BootAsBefore

  /** `s_ota_active`, `s_ota_seq_expected` and what the open session has written to the partition. */
  datatype State = State(active: bool, expected: nat, written: seq<byte>)

  const INITIAL := State(false, 0, [])

  const CHUNK_BUFFER := 200

  /** Chunk 0 opens a session, even in the middle of another one. */
  function Opened(s: State, m: Message): State
    requires m.Chunk?
  {
    if m.number != 0 then s
    else if m.partition && m.begins then State(true, 0, [])
    else s.(active := false)
  }

  ghost function Problem(s: State, m: Message): Option<Error>
    requires m.Chunk?
  {
    if m.number == 0 && !m.partition then Some(NoPartition)
    else if m.number == 0 && !m.begins then Some(BeginFailed)
    else if !Opened(s, m).active then Some(NotActive)
    else if m.number != Opened(s, m).expected then Some(OutOfOrder)
    else if !Decodable(m.data, CHUNK_BUFFER) then Some(HexFailed)
    else if !m.writes then Some(WriteFailed)
    else None
  }

  ghost function Written(s: State, m: Message): State
    requires m.Chunk? && Problem(s, m).None?
  {
    State(true, Opened(s, m).expected + 1, Opened(s, m).written + Decode(m.data))
  }

  ghost function Step(s: State, m: Message): State {
    if m.Malformed? then s
    else if Problem(s, m).Some? then Opened(s, m).(active := false)
    else if m.number != m.total - 1 then Written(s, m)
    else if m.ends then INITIAL  // the device restarts
    else Written(s, m).(active := false)
  }

  ghost function Outputs(s: State, m: Message): seq<Output> {
    if m.Malformed? then []
    else
      [Ack(m.number, Problem(s, m))]
      + if Problem(s, m).Some? || m.number != m.total - 1 || !m.ends then []
        else if m.boots then [Boot(Written(s, m).written)]
        else [BootAsBefore]  // the result of setting the boot partition is not looked at
  }

  class Updater {
    var active: bool
    var expected: nat
    var partition: seq<byte>
    const chunkBuffer: array<byte>
    var outputs: seq<Output>

    ghost function Abstract(): State
      reads this
    {
      State(active, expected, partition)
    }

    ghost predicate Valid() {
      chunkBuffer.Length == CHUNK_BUFFER
    }

    constructor ()
      ensures Valid() && fresh(chunkBuffer) && Abstract() == INITIAL && outputs == []
    {
      active, expected, partition, outputs := false, 0, [], [];
      chunkBuffer := new byte[CHUNK_BUFFER];
    }

    method HandleChunk(m: Message)
      requires Valid()
      modifies this, chunkBuffer
      ensures Abstract() == Step(old(Abstract()), m)
      ensures outputs == old(outputs) + Outputs(old(Abstract()), m)
    {
      if m.Malformed? {
        return;
      }
      var error: Option<Error> := None;
      if m.number == 0 {
        active := false;
        if !m.partition {
          error := Some(NoPartition);
        } else if !m.begins {
          error := Some(BeginFailed);
        } else {
          active, expected, partition := true, 0, [];
        }
      }
      if error.None? {
        error := WriteChunk(m);
      }
      outputs := outputs + [Ack(m.number, error)];
      if error.Some? {
        active := false;
      } else if m.number == m.total - 1 {
        if m.ends {
          outputs := outputs + [if m.boots then Boot(partition) else BootAsBefore];
          expected, partition := 0, [];
        }
        active := false;
      }
    }

    method WriteChunk(m: Message) returns (error: Option<Error>)
      requires Valid() && m.Chunk?
      modifies this`expected, this`partition, chunkBuffer
      ensures error == if !active then Some(NotActive)
                       else if m.number != old(expected) then Some(OutOfOrder)
                       else if !Decodable(m.data, CHUNK_BUFFER) then Some(HexFailed)
                       else if !m.writes then Some(WriteFailed)
                       else None
      ensures error.Some? ==> expected == old(expected) && partition == old(partition)
      ensures error.None? ==> expected == old(expected) + 1 && partition == old(partition) + Decode(m.data)
    {
      if !active {
        return Some(NotActive);
      }
      if m.number != expected {
        return Some(OutOfOrder);
      }
      var n := HexDecode(m.data, chunkBuffer);
      if n < 0 {
        return Some(HexFailed);
      }
      if !m.writes {
        return Some(WriteFailed);
      }
      partition := partition + chunkBuffer[..n];
      expected := expected + 1;
      return None;
    }
  }

  // ---------------------------------------------------------------- what one message does

  /** A chunk is acknowledged without error iff it is the next of an open session, or a first one that opens it, and is decoded and written. */
  lemma AcceptedIff(s: State, m: Message)
    requires m.Chunk?
    ensures Ack(m.number, None) in Outputs(s, m)
            <==> (if m.number == 0 then m.partition && m.begins else s.active && m.number == s.expected)
                 && Decodable(m.data, 200) && m.writes
    ensures Outputs(s, m)[0] == Ack(m.number, Problem(s, m))
  {
    hide Decodable;
  }

  /** The answer tells why a chunk is refused. */
  lemma ErrorTellsWhy(s: State, m: Message)
    requires m.Chunk?
    ensures var error := Outputs(s, m)[0].error;
            && (error == Some(NoPartition) <==> m.number == 0 && !m.partition)
            && (error == Some(BeginFailed) <==> m.number == 0 && m.partition && !m.begins)
            && (error == Some(NotActive) <==> m.number != 0 && !s.active)
            && (error == Some(OutOfOrder) <==> m.number != 0 && s.active && m.number != s.expected)
            && (error == Some(HexFailed) ==> !Decodable(m.data, 200))
            && (error == Some(WriteFailed) ==> Decodable(m.data, 200) && !m.writes)
  {
    hide Decodable;
  }

  /** What an accepted chunk leaves: the session goes on, or the last chunk, by its own count, ends it. */
  lemma AcceptedChunk(s: State, m: Message)
    requires m.Chunk? && Ack(m.number, None) in Outputs(s, m)
    ensures var written := (if m.number == 0 then [] else s.written) + Decode(m.data);
            && (m.number != m.total - 1 ==> Step(s, m) == State(true, m.number + 1, written) && |Outputs(s, m)| == 1)
            && (m.number == m.total - 1 ==> !Step(s, m).active)
            && (Boot(written) in Outputs(s, m) <==> m.number == m.total - 1 && m.ends && m.boots)
  {
    hide Decodable, Decode;
  }

  // ---------------------------------------------------------------- runs

  ghost function Run(s: State, messages: seq<Message>): State
    decreases |messages|
  {
    if messages == [] then s else Step(Run(s, messages[..|messages| - 1]), messages[|messages| - 1])
  }

  /** What message `k` of a run causes. */
  ghost function Caused(s: State, messages: seq<Message>, k: nat): seq<Output>
    requires k < |messages|
  {
    Outputs(Run(s, messages[..k]), messages[k])
  }

  function WellFormed(messages: seq<Message>): (chunks: seq<Message>)
    ensures forall i :: 0 <= i < |chunks| ==> chunks[i].Chunk?
  {
    if messages == [] then []
    else
      WellFormed(messages[..|messages| - 1])
      + if messages[|messages| - 1].Chunk? then [messages[|messages| - 1]] else []
  }

  lemma RunSnoc(s: State, messages: seq<Message>, m: Message)
    ensures Run(s, messages + [m]) == Step(Run(s, messages), m)
  {
    assert (messages + [m])[..|messages|] == messages;
  }

  /** Messages without the three fields change nothing, and are not even answered. */
  lemma {:induction false} MalformedMessagesAreInvisible(s: State, messages: seq<Message>)
    ensures Run(s, messages) == Run(s, WellFormed(messages))
    ensures forall k :: 0 <= k < |messages| && messages[k].Malformed? ==> Caused(s, messages, k) == []
    decreases |messages|
  {
    hide Problem, Opened, Written;
    if messages != [] {
      var n := |messages| - 1;
      MalformedMessagesAreInvisible(s, messages[..n]);
      var chunks := WellFormed(messages[..n]);
      if messages[n].Chunk? {
        RunSnoc(s, chunks, messages[n]);
      } else {
        assert chunks + [] == chunks;
      }
    }
  }

  // ---------------------------------------------------------------- sessions

  /** Chunks 0, 1, 2, .. in order, each with a payload that fits. */
  ghost predicate Consecutive(chunks: seq<Message>) {
    forall j :: 0 <= j < |chunks| ==> chunks[j].Chunk? && chunks[j].number == j && Decodable(chunks[j].data, CHUNK_BUFFER)
  }

  ghost function Payloads(chunks: seq<Message>): seq<byte>
    requires Consecutive(chunks)
  {
    if chunks == [] then [] else Payloads(chunks[..|chunks| - 1]) + Decode(chunks[|chunks| - 1].data)
  }

  function Last(chunks: seq<Message>, e: nat): seq<Message>
    requires e <= |chunks|
  {
    chunks[|chunks| - e..]
  }

  /** The last `e` chunks are 0 .. e - 1 and `written` is what they carry. */
  ghost predicate IsSession(chunks: seq<Message>, e: nat, written: seq<byte>) {
    0 < e <= |chunks| && Consecutive(Last(chunks, e)) && written == Payloads(Last(chunks, e))
  }

  lemma SessionGrows(chunks: seq<Message>, e: nat, written: seq<byte>, m: Message)
    requires if e == 0 then written == [] else IsSession(chunks, e, written)
    requires m.Chunk? && m.number == e && Decodable(m.data, CHUNK_BUFFER)
    ensures IsSession(chunks + [m], e + 1, written + Decode(m.data))
  {
    hide Decode;
    var shorter, longer := Last(chunks, e), Last(chunks + [m], e + 1);
    assert longer == shorter + [m];
    assert longer[..e] == shorter;
    assert written == Payloads(shorter);
  }

  /** A chunk that is accepted ends a run of chunks 0 .. `number` without gap or duplicate. */
  lemma AcceptedEndsSession(chunks: seq<Message>, m: Message)
    requires m.Chunk? && Problem(Run(INITIAL, chunks), m).None?
    requires Run(INITIAL, chunks).active ==> IsSession(chunks, Run(INITIAL, chunks).expected, Run(INITIAL, chunks).written)
    ensures var w := Written(Run(INITIAL, chunks), m); w.expected == m.number + 1 && IsSession(chunks + [m], w.expected, w.written)
  {
    hide Decodable, Decode, IsSession, Run;
    var s := Run(INITIAL, chunks);
    SessionGrows(chunks, Opened(s, m).expected, Opened(s, m).written, m);
  }

  /** In every run the open session has written exactly chunks 0 .. expected - 1, the last ones received. */
  lemma {:induction false} OpenSessionIsConsecutive(chunks: seq<Message>)
    requires forall i :: 0 <= i < |chunks| ==> chunks[i].Chunk?
    ensures var s := Run(INITIAL, chunks); s.active ==> IsSession(chunks, s.expected, s.written)
    decreases |chunks|
  {
    hide Decodable, Decode, IsSession;
    if chunks != [] {
      var n := |chunks| - 1;
      OpenSessionIsConsecutive(chunks[..n]);
      if Run(INITIAL, chunks).active {
        AcceptedEndsSession(chunks[..n], chunks[n]);
        assert chunks[..n] + [chunks[n]] == chunks;
      }
    }
  }

  /**
   The device boots an image only after chunk total - 1, by that chunk's own count, and the image is
   what the last `total` well-formed messages carry, which are chunks 0 .. total - 1 in order.
   */
  lemma BootedImageIsComplete(messages: seq<Message>, k: nat, image: seq<byte>)
    requires k < |messages| && Boot(image) in Caused(INITIAL, messages, k)
    ensures messages[k].Chunk? && messages[k].total > 0
    ensures IsSession(WellFormed(messages[..k + 1]), messages[k].total, image)
  {
    hide Decodable, Decode, IsSession, Run;
    MalformedMessagesAreInvisible(INITIAL, messages[..k]);
    var chunks := WellFormed(messages[..k]);
    OpenSessionIsConsecutive(chunks);
    AcceptedEndsSession(chunks, messages[k]);
    assert messages[..k + 1][..k] == messages[..k];
  }

  /** After the last chunk of an image, valid or not, every chunk is refused until a chunk 0 arrives. */
  lemma LastChunkClosesTheSession(s: State, last: Message, chunks: seq<Message>, k: nat)
    requires last.Chunk? && last.number == last.total - 1
    requires k < |chunks| && forall i :: 0 <= i <= k ==> chunks[i].Chunk? && chunks[i].number != 0
    ensures Caused(Step(s, last), chunks, k) == [Ack(chunks[k].number, Some(NotActive))]
  {
    StaysClosed(Step(s, last), chunks[..k]);
  }

  /** `i` is the last chunk 0. */
  ghost predicate LastStart(chunks: seq<Message>, i: nat) {
    && i < |chunks| && chunks[i].Chunk? && chunks[i].number == 0
    && forall j :: i < j < |chunks| ==> chunks[j].Chunk? && chunks[j].number != 0
  }

  lemma SessionStartsLast(chunks: seq<Message>, e: nat, written: seq<byte>, i: nat)
    requires IsSession(chunks, e, written) && LastStart(chunks, i)
    ensures i + e == |chunks| && chunks[i..] == Last(chunks, e)
  {
    hide Decodable, Decode, Payloads;
    var start := |chunks| - e;
    assert Last(chunks, e)[0] == chunks[start];
    forall j | start <= j < |chunks| ensures chunks[j].number == j - start {
      assert Last(chunks, e)[j - start] == chunks[j];
    }
  }

  /**
   The count in chunk 0 is not remembered: a booted image has as many chunks as its chunk 0 announced
   iff that count is the one of the chunk that boots it.
   */
  lemma AnnouncedLengthIff(messages: seq<Message>, k: nat, image: seq<byte>, i: nat)
    requires k < |messages| && Boot(image) in Caused(INITIAL, messages, k)
    requires LastStart(WellFormed(messages[..k + 1]), i)
    ensures var session := WellFormed(messages[..k + 1])[i..];
            messages[k].Chunk? && Consecutive(session) && image == Payloads(session)
            && (|session| == session[0].total <==> session[0].total == messages[k].total)
  {
    hide Decodable, Decode, Payloads, Problem, LastStart, WellFormed, Caused, Consecutive;
    BootedImageIsComplete(messages, k, image);
    SessionStartsLast(WellFormed(messages[..k + 1]), messages[k].total, image, i);
  }

  lemma {:induction false} StaysClosed(s: State, chunks: seq<Message>)
    requires !s.active && forall i :: 0 <= i < |chunks| ==> chunks[i].Chunk? && chunks[i].number != 0
    ensures !Run(s, chunks).active
    decreases |chunks|
  {
    if chunks != [] { StaysClosed(s, chunks[..|chunks| - 1]); }
  }

  /** After a chunk that was answered with an error every chunk is refused until a chunk 0 arrives. */
  lemma ErrorsForceRestart(s: State, bad: Message, chunks: seq<Message>, k: nat)
    requires bad.Chunk? && Problem(s, bad).Some?
    requires k < |chunks| && forall i :: 0 <= i <= k ==> chunks[i].Chunk? && chunks[i].number != 0
    ensures Caused(Step(s, bad), chunks, k) == [Ack(chunks[k].number, Some(NotActive))]
  {
    StaysClosed(Step(s, bad), chunks[..k]);
  }

  // ---------------------------------------------------------------- a whole update

  /** The pieces as chunks, in hexadecimal of either case, and a driver that never fails. */
  ghost predicate Sends(messages: seq<Message>, pieces: seq<seq<byte>>) {
    && |messages| == |pieces| > 0
    && forall j :: 0 <= j < |pieces| ==> SendsPiece(messages[j], pieces[j], j, |pieces|)
  }

  ghost predicate SendsPiece(m: Message, piece: seq<byte>, j: nat, total: nat) {
    && |piece| <= CHUNK_BUFFER
    && m.Chunk? && m.number == j && m.total == total && Lowercase(m.data) == Encode(piece)
    && m.partition && m.begins && m.writes && m.ends && m.boots
  }

  lemma PieceDecodes(m: Message, piece: seq<byte>, j: nat, total: nat)
    requires SendsPiece(m, piece, j, total)
    ensures Decodable(m.data, CHUNK_BUFFER) && Decode(m.data) == piece
  {
    DecodesToIff(m.data, piece);
  }

  lemma {:induction false} SentSoFar(s: State, messages: seq<Message>, pieces: seq<seq<byte>>, k: nat)
    requires Sends(messages, pieces) && 0 < k < |pieces|
    ensures Run(s, messages[..k]) == State(true, k, Flatten(pieces[..k]))
    decreases k
  {
    hide Lowercase, Encode, Decodable, Decode;
    var j := k - 1;
    assert messages[..k][..j] == messages[..j] && pieces[..k][..j] == pieces[..j];
    PieceDecodes(messages[j], pieces[j], j, |pieces|);
    if j > 0 {
      SentSoFar(s, messages, pieces, j);
    } else {
      assert Flatten<byte>([]) == [] && [] + pieces[0] == pieces[0];
      assert pieces[..k] == [pieces[0]];
    }
  }

  /** Whatever went before, sending an image in order boots exactly that image, and nothing before the last chunk. */
  lemma SendingAnImageBootsIt(s: State, messages: seq<Message>, pieces: seq<seq<byte>>, k: nat)
    requires Sends(messages, pieces) && k < |pieces|
    ensures Caused(s, messages, k)
            == [Ack(k, None)] + if k == |pieces| - 1 then [Boot(Flatten(pieces))] else []
    ensures Run(s, messages) == INITIAL
  {
    hide Lowercase, Encode, Decodable, Decode;
    var last := |pieces| - 1;
    forall j | 0 <= j < |pieces| ensures Caused(s, messages, j) == [Ack(j, None)] + if j == last then [Boot(Flatten(pieces))] else [] {
      PieceDecodes(messages[j], pieces[j], j, |pieces|);
      if j > 0 {
        SentSoFar(s, messages, pieces, j);
      } else {
        assert Flatten<byte>([]) == [] && [] + pieces[0] == pieces[0];
      }
    }
    PieceDecodes(messages[last], pieces[last], last, |pieces|);
    if last > 0 { SentSoFar(s, messages, pieces, last); }
  }

  /** Such a difference is possible: chunk 1 may finish an image that was announced longer. */
  lemma TotalIsNotRemembered(announced: int, a: seq<byte>, b: seq<byte>)
    requires announced > 2 && |a| <= CHUNK_BUFFER && |b| <= CHUNK_BUFFER
    ensures var first, second := Chunk(0, announced, Encode(a), true, true, true, true, true), Chunk(1, 2, Encode(b), true, true, true, true, true);
            Outputs(Run(INITIAL, [first]), second) == [Ack(1, None), Boot(a + b)]
  {
    hide Encode, Decodable, Decode;
    var first := Chunk(0, announced, Encode(a), true, true, true, true, true);
    RunSnoc(INITIAL, [], first);
    assert [] + [first] == [first] && [] + a == a;
    DecodesTo(a);
    DecodesTo(b);
  }

  lemma DecodesTo(bytes: seq<byte>)
    requires |bytes| <= CHUNK_BUFFER
    ensures Decodable(Encode(bytes), CHUNK_BUFFER) && Decode(Encode(bytes)) == bytes
  {
    DecodeUndoesEncode(bytes);
  }
}
