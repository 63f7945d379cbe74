/**
 The firmware update that arrives as a stream of write requests (main/JFS_FLASH_Actor.c,
 Write_Bin_File_OTA). The session lives in three variables that survive from call to call; what the
 flash driver and the allocator answer is part of each call.
 */
module OtaStream {
  import opened Common
  import opened Crc
  import Checksums

  /** What the application description in the first chunk turns out to be. */
  datatype Header = WrongProject | KnownInvalid | SameVersion | Acceptable

  datatype Call = Call(
    data: seq<bv8>,
    fileSize: int,
    header: Header,
    begins: bool,     // esp_ota_begin succeeds
    writes: bool,     // esp_ota_write succeeds
    replyRoom: bool)  // the reply object can be allocated

  datatype Reply = Terminate | Ok | Err | Checksum(crc: bv32, fileSize: int)

  /** `image_header_was_checked`, `File_length` and `CRC_OTA`. */
  datatype State = State(checked: bool, length: nat, crc: bv32)

  const INITIAL := State(false, 0, 0)

  /** The image header, the segment header and the application description. */
  const HEADERS_LENGTH := 24 + 8 + 256

  predicate Opens(call: Call) {
    |call.data| > HEADERS_LENGTH && call.header == Acceptable && call.begins
  }

  predicate Accepts(call: Call) {
    call.writes && call.replyRoom
  }

  /** The session after the chunk of a call, before the test for the end. */
  function Written(s: State, call: Call): (w: State)
    ensures w.checked
  {
    var length := if s.checked then s.length else 0;
    if Accepts(call) then
      State(true, (length + |call.data|) % 0x1_0000_0000, Update(CRC16_POLYNOMIAL, s.crc, call.data))
    else
      State(true, length, s.crc)
  }

  function Step(s: State, call: Call): State {
    if !s.checked && !Opens(call) then State(false, 0, s.crc)
    else if Written(s, call).length >= call.fileSize then INITIAL
    else Written(s, call)
  }

  function Replies(s: State, call: Call): seq<Reply> {
    if !s.checked && !Opens(call) then [Terminate]
    else
      var w := Written(s, call);
      (if !call.replyRoom then [] else if call.writes then [Ok] else [Err])
      + (if w.length >= call.fileSize then [Checksum(w.crc, call.fileSize)] else [])
  }

  // ---------------------------------------------------------------- what one call does

  /** Without a session nothing but an image of this device, new and valid, with all its headers, opens one. */
  lemma RefusedWithoutSession(s: State, call: Call)
    requires !s.checked
    requires call.header != Acceptable || |call.data| <= 288 || !call.begins
    ensures Step(s, call) == State(false, 0, s.crc) && Replies(s, call) == [Terminate]
  {
  }

  /** A chunk counts iff it was written and could be answered; the call that reaches the size reports and closes. */
  lemma ChunkInSession(s: State, call: Call)
    requires s.checked || (call.header == Acceptable && |call.data| > 288 && call.begins)
    ensures var before := if s.checked then s.length else 0;
            var counts := call.writes && call.replyRoom;
            var length := if counts then (before + |call.data|) % 0x1_0000_0000 else before;
            var crc := if counts then Update(CRC16_POLYNOMIAL, s.crc, call.data) else s.crc;
            && Step(s, call) == (if length >= call.fileSize then State(false, 0, 0) else State(true, length, crc))
            && Replies(s, call) == (if counts then [Ok] else if call.replyRoom then [Err] else [])
                                   + if length >= call.fileSize then [Checksum(crc, call.fileSize)] else []
  {
    hide Update;
  }

  class Session {
    var imageHeaderWasChecked: bool
    var fileLength: nat
    var crcOta: bv16
    var replies: seq<Reply>

    ghost function Abstract(): State
      reads this
    {
      State(imageHeaderWasChecked, fileLength, Wide(crcOta))
    }

    constructor ()
      ensures Abstract() == INITIAL && replies == []
    {
      imageHeaderWasChecked, fileLength, crcOta, replies := false, 0, 0, [];
    }

    method WriteBinFileOta(call: Call)
      requires |call.data| < 0x8000  // the length is an int16_t
      modifies this
      ensures Abstract() == Step(old(Abstract()), call)
      ensures replies == old(replies) + Replies(old(Abstract()), call)
    {
      hide Update, Wide;
      if !imageHeaderWasChecked {
        fileLength := 0;
        if |call.data| <= HEADERS_LENGTH || call.header != Acceptable {
          replies := replies + [Terminate];
          return;
        }
        imageHeaderWasChecked := true;
        if !call.begins {
          imageHeaderWasChecked := false;
          replies := replies + [Terminate];
          return;
        }
      }
      if call.replyRoom {
        if call.writes {
          fileLength := (fileLength + |call.data|) % 0x1_0000_0000;
          replies := replies + [Ok];
          crcOta := GenCrc161(crcOta, call.data);
        } else {
          replies := replies + [Err];
        }
      }
      if fileLength >= call.fileSize {
        replies := replies + [Checksum(Wide(crcOta), call.fileSize)];
        imageHeaderWasChecked, fileLength, crcOta := false, 0, 0;
        ZeroIsWide();
      }
    }
  }

  lemma ZeroIsWide()
    ensures Wide(0) == 0
  {
  }

  // ---------------------------------------------------------------- runs

  function Run(s: State, calls: seq<Call>): State {
    if calls == [] then s else Step(Run(s, calls[..|calls| - 1]), calls[|calls| - 1])
  }

  /** The bytes of the accepted chunks. */
  function AcceptedBytes(calls: seq<Call>): seq<bv8> {
    if calls == [] then []
    else AcceptedBytes(calls[..|calls| - 1]) + (if Accepts(calls[|calls| - 1]) then calls[|calls| - 1].data else [])
  }

  lemma CountedBytes(calls: seq<Call>, call: Call)
    ensures AcceptedBytes(calls + [call]) == AcceptedBytes(calls) + if call.writes && call.replyRoom then call.data else []
  {
    assert (calls + [call])[..|calls|] == calls;
  }

  /** Before call `i` there is no session, call `i` opens one, and it is still open after each later call. */
  ghost predicate OpenSince(calls: seq<Call>, i: nat) {
    && i < |calls|
    && !Run(INITIAL, calls[..i]).checked
    && Opens(calls[i])
    && forall k :: i < k <= |calls| ==> Run(INITIAL, calls[..k]).checked
  }

  /** The session variables of a run describe exactly the bytes accepted since the session was opened. */
  ghost predicate Describes(s: State, bytes: seq<bv8>) {
    s.length == |bytes| % 0x1_0000_0000 && s.crc == Update(CRC16_POLYNOMIAL, 0, bytes)
  }

  /** Without a session the checksum is zero; with one, the variables cover exactly the bytes accepted in it. */
  ghost predicate Covered(calls: seq<Call>) {
    var s := Run(INITIAL, calls);
    if s.checked then exists i: nat :: OpenSince(calls, i) && Describes(s, AcceptedBytes(calls[i..])) else s.crc == 0
  }

  lemma WrittenDescribes(s: State, call: Call, bytes: seq<bv8>)
    requires s.checked && Describes(s, bytes)
    ensures Describes(Written(s, call), bytes + if Accepts(call) then call.data else [])
  {
    hide Update;
    UpdateConcat(CRC16_POLYNOMIAL, 0, bytes, call.data);
    assert bytes + [] == bytes;
  }

  lemma FirstChunkDescribes(s: State, call: Call)
    requires !s.checked && s.crc == 0
    ensures Describes(Written(s, call), if Accepts(call) then call.data else [])
  {
  }

  lemma Prefixes(calls: seq<Call>, k: nat)
    requires 0 < k <= |calls|
    ensures calls[..k][..k - 1] == calls[..k - 1] && calls[..k][k - 1] == calls[k - 1]
  {
  }

  lemma {:induction false} SessionInvariant(calls: seq<Call>)
    ensures Covered(calls)
    decreases |calls|
  {
    hide Describes, Written, Opens, Accepts, Update;
    if calls != [] {
      var n := |calls| - 1;
      var s := Run(INITIAL, calls);
      SessionInvariant(calls[..n]);
      if s.checked {
        var i := LastWritten(calls);
        assert OpenSince(calls, i) by {
          forall k | i < k <= |calls| ensures Run(INITIAL, calls[..k]).checked {
            if k <= n {
              assert calls[..n][..k] == calls[..k];
            } else {
              assert calls[..k] == calls;
            }
          }
        }
      }
    }
  }

  /** What the last call leaves in the variables covers the accepted bytes since the session was opened. */
  lemma LastWritten(calls: seq<Call>) returns (i: nat)
    requires calls != [] && Covered(calls[..|calls| - 1])
    requires Run(INITIAL, calls[..|calls| - 1]).checked || Opens(calls[|calls| - 1])
    ensures i < |calls| && Opens(calls[i]) && !Run(INITIAL, calls[..i]).checked
    ensures i == |calls| - 1 || OpenSince(calls[..|calls| - 1], i)
    ensures Describes(Written(Run(INITIAL, calls[..|calls| - 1]), calls[|calls| - 1]), AcceptedBytes(calls[i..]))
  {
    hide Describes, Written, Opens, Accepts, Update, Run;
    var n := |calls| - 1;
    var before := Run(INITIAL, calls[..n]);
    if before.checked {
      i :| OpenSince(calls[..n], i) && Describes(before, AcceptedBytes(calls[..n][i..]));
      assert calls[..n][..i] == calls[..i];
      assert calls[i..][..|calls[i..]| - 1] == calls[..n][i..];
      WrittenDescribes(before, calls[n], AcceptedBytes(calls[..n][i..]));
    } else {
      i := n;
      FirstChunkDescribes(before, calls[n]);
      assert calls[n..] == [calls[n]] && calls[n..][..0] == [];
      assert AcceptedBytes([]) == [];
      var last := if Accepts(calls[n]) then calls[n].data else [];
      assert [] + last == last;
    }
  }

  /** The reported checksum is the one `Calculate_CRC16_File_From_JFS` computes for a file with the accepted bytes. */
  lemma ReportCoversTheSession(calls: seq<Call>, crc: bv32, size: int)
    requires calls != []
    requires Checksum(crc, size) in Replies(Run(INITIAL, calls[..|calls| - 1]), calls[|calls| - 1])
    ensures exists i: nat :: i < |calls| && Opens(calls[i]) && !Run(INITIAL, calls[..i]).checked
              && (i == |calls| - 1 || OpenSince(calls[..|calls| - 1], i))
              && crc == Update(CRC16_POLYNOMIAL, 0, AcceptedBytes(calls[i..]))
              && size == calls[|calls| - 1].fileSize <= |AcceptedBytes(calls[i..])| % 0x1_0000_0000
    ensures Run(INITIAL, calls) == INITIAL
  {
    hide Update, Opens, Accepts, Written;
    var n := |calls| - 1;
    SessionInvariant(calls[..n]);
    var i := LastWritten(calls);
  }

  /** In every run an open session was opened by an image with a good header, and every other call without a session was refused. */
  lemma SessionsHaveGoodHeaders(calls: seq<Call>)
    ensures Run(INITIAL, calls).checked
            ==> exists i: nat :: OpenSince(calls, i) && calls[i].header == Acceptable && |calls[i].data| > 288
    ensures forall k: nat ::
              k < |calls| && !Run(INITIAL, calls[..k]).checked
              && (calls[k].header != Acceptable || |calls[k].data| <= 288 || !calls[k].begins)
              ==> RepliesAt(INITIAL, calls, k) == [Terminate] && !Run(INITIAL, calls[..k + 1]).checked
  {
    hide Describes, Written, Accepts, Update, Replies, Run, Step;
    SessionInvariant(calls);
    if Run(INITIAL, calls).checked {
      var i: nat :| OpenSince(calls, i) && Describes(Run(INITIAL, calls), AcceptedBytes(calls[i..]));
      assert calls[i].header == Acceptable && |calls[i].data| > 288;
    }
    forall k: nat | k < |calls| && !Run(INITIAL, calls[..k]).checked
                    && (calls[k].header != Acceptable || |calls[k].data| <= 288 || !calls[k].begins)
      ensures RepliesAt(INITIAL, calls, k) == [Terminate] && !Run(INITIAL, calls[..k + 1]).checked
    {
      RefusedWithoutSession(Run(INITIAL, calls[..k]), calls[k]);
      RunPrefix(INITIAL, calls, k);
    }
  }

  // ---------------------------------------------------------------- a whole transfer

  /** The pieces that calls carry. */
  function Pieces(calls: seq<Call>): (pieces: seq<seq<bv8>>)
    ensures |pieces| == |calls|
  {
    seq(|calls|, k requires 0 <= k < |calls| => calls[k].data)
  }

  lemma {:induction false} AllAccepted(calls: seq<Call>)
    requires forall k :: 0 <= k < |calls| ==> Accepts(calls[k])
    ensures AcceptedBytes(calls) == Flatten(Pieces(calls))
    decreases |calls|
  {
    hide Accepts;
    if calls != [] {
      var n := |calls| - 1;
      AllAccepted(calls[..n]);
      assert Pieces(calls)[..n] == Pieces(calls[..n]);
    }
  }

  /** All requests of one undisturbed transfer of `size` bytes. */
  ghost predicate Undisturbed(calls: seq<Call>, size: nat) {
    && calls != [] && |calls[0].data| > 288 && calls[0].header == Acceptable && calls[0].begins
    && (forall k :: 0 <= k < |calls| ==>
          calls[k].data != [] && calls[k].fileSize == size && calls[k].writes && calls[k].replyRoom)
  }

  lemma NothingYet()
    ensures Update(CRC16_POLYNOMIAL, 0, []) == 0
  {
  }

  /** A request with which the image is not yet complete. */
  lemma FallsShort(s: State, before: seq<bv8>, call: Call)
    requires s == State(true, |before|, Update(CRC16_POLYNOMIAL, 0, before)) || (s == INITIAL && before == [] && Opens(call))
    requires Accepts(call) && |before + call.data| < call.fileSize < 0x1_0000_0000
    ensures Replies(s, call) == [Ok]
    ensures Step(s, call)
            == State(true, |before + call.data|, Update(CRC16_POLYNOMIAL, 0, before + call.data))
  {
    hide Update, Opens;
    UpdateConcat(CRC16_POLYNOMIAL, 0, before, call.data);
    if before == [] {
      assert before + call.data == call.data;
      NothingYet();
    }
  }

  /** A transfer that is not complete leaves its bytes described and was answered with Ok. */
  lemma {:induction false} TransferSoFar(calls: seq<Call>, size: nat)
    requires Undisturbed(calls, size) && |AcceptedBytes(calls)| < size < 0x1_0000_0000
    ensures Run(INITIAL, calls) == State(true, |AcceptedBytes(calls)|, Update(CRC16_POLYNOMIAL, 0, AcceptedBytes(calls)))
    ensures Replies(Run(INITIAL, calls[..|calls| - 1]), calls[|calls| - 1]) == [Ok]
    decreases |calls|
  {
    hide Update, Replies, Step;
    var n := |calls| - 1;
    if n > 0 { TransferSoFar(calls[..n], size); }
    FallsShort(Run(INITIAL, calls[..n]), AcceptedBytes(calls[..n]), calls[n]);
  }

  /** A proper prefix of a transfer carries fewer bytes. */
  lemma {:induction false} TransferGrows(calls: seq<Call>, k: nat)
    requires k < |calls| && forall j :: 0 <= j < |calls| ==> calls[j].data != [] && Accepts(calls[j])
    ensures |AcceptedBytes(calls[..k])| < |AcceptedBytes(calls)|
    decreases |calls|
  {
    var n := |calls| - 1;
    if k < n {
      TransferGrows(calls[..n], k);
      assert calls[..n][..k] == calls[..k];
    }
  }

  /** The request with which the image is complete. */
  lemma Completes(s: State, before: seq<bv8>, call: Call, image: seq<bv8>)
    requires s == State(true, |before|, Update(CRC16_POLYNOMIAL, 0, before)) || (s == INITIAL && before == [] && Opens(call))
    requires Accepts(call) && image == before + call.data && call.fileSize == |image| < 0x1_0000_0000
    ensures Replies(s, call) == [Ok, Checksum(Update(CRC16_POLYNOMIAL, 0, image), |image|)]
    ensures Step(s, call) == INITIAL
  {
    hide Update, Opens;
    UpdateConcat(CRC16_POLYNOMIAL, 0, before, call.data);
    if before == [] {
      assert image == call.data;
      NothingYet();
    }
  }

  lemma LastRequest(calls: seq<Call>, image: seq<bv8>)
    requires Undisturbed(calls, |image|) && AcceptedBytes(calls) == image && |image| < 0x1_0000_0000
    ensures Replies(Run(INITIAL, calls[..|calls| - 1]), calls[|calls| - 1])
            == [Ok, Checksum(Update(CRC16_POLYNOMIAL, 0, image), |image|)]
    ensures Run(INITIAL, calls) == INITIAL
  {
    hide Update, Replies, Step;
    var n := |calls| - 1;
    if n > 0 {
      TransferGrows(calls, n);
      TransferSoFar(calls[..n], |image|);
    }
    Completes(Run(INITIAL, calls[..n]), AcceptedBytes(calls[..n]), calls[n], image);
  }

  lemma EarlierReply(calls: seq<Call>, k: nat, size: nat)
    requires Undisturbed(calls, size) && |AcceptedBytes(calls)| == size < 0x1_0000_0000 && k < |calls| - 1
    ensures Replies(Run(INITIAL, calls[..k]), calls[k]) == [Ok]
  {
    var sofar := calls[..k + 1];
    assert Undisturbed(sofar, size);
    assert forall j :: 0 <= j < |calls| ==> calls[j].data != [] && Accepts(calls[j]);
    hide *;
    TransferGrows(calls, k + 1);
    TransferSoFar(sofar, size);
    Prefixes(calls, k + 1);
  }

  /** However an image is cut into requests, the last one, and no earlier one, reports the checksum of the image. */
  lemma TransferReportsTheImage(calls: seq<Call>, image: seq<bv8>)
    requires Undisturbed(calls, |image|) && Flatten(Pieces(calls)) == image && |image| < 0x1_0000_0000
    ensures Replies(Run(INITIAL, calls[..|calls| - 1]), calls[|calls| - 1])
            == [Ok, Checksum(Update(CRC16_POLYNOMIAL, 0, image), |image|)]
    ensures forall k :: 0 <= k < |calls| - 1 ==> Replies(Run(INITIAL, calls[..k]), calls[k]) == [Ok]
    ensures Run(INITIAL, calls) == INITIAL
  {
    assert forall k :: 0 <= k < |calls| ==> Accepts(calls[k]);
    hide *;
    AllAccepted(calls);
    LastRequest(calls, image);
    forall k | 0 <= k < |calls| - 1 ensures Replies(Run(INITIAL, calls[..k]), calls[k]) == [Ok] {
      EarlierReply(calls, k, |image|);
    }
  }

  // ---------------------------------------------------------------- an abandoned transfer

  /*
   A transfer that stops, or whose write fails, leaves its session open. The requests of the next
   image are then not looked at before they are written, whatever the header says.
   */

  ghost predicate AllFor(calls: seq<Call>, size: nat) {
    forall k :: 0 <= k < |calls| ==> calls[k].fileSize == size
  }

  /** The bytes of an open session after the first `k` of further calls. */
  function Total(abandoned: seq<bv8>, calls: seq<Call>, k: nat): (bytes: seq<bv8>)
    requires k <= |calls|
  {
    abandoned + AcceptedBytes(calls[..k])
  }

  lemma TotalGrows(abandoned: seq<bv8>, calls: seq<Call>, k: nat)
    requires k < |calls|
    ensures Total(abandoned, calls, k + 1)
            == Total(abandoned, calls, k) + if Accepts(calls[k]) then calls[k].data else []
  {
    hide Accepts;
    Prefixes(calls, k + 1);
    var last := if Accepts(calls[k]) then calls[k].data else [];
    assert AcceptedBytes(calls[..k + 1]) == AcceptedBytes(calls[..k]) + last;
    assert abandoned + (AcceptedBytes(calls[..k]) + last) == abandoned + AcceptedBytes(calls[..k]) + last;
  }

  lemma {:induction false} TotalIsMonotone(abandoned: seq<bv8>, calls: seq<Call>, j: nat, k: nat)
    requires j <= k <= |calls|
    ensures |Total(abandoned, calls, j)| <= |Total(abandoned, calls, k)|
    decreases k
  {
    hide Total;
    if j < k {
      TotalIsMonotone(abandoned, calls, j, k - 1);
      TotalGrows(abandoned, calls, k - 1);
    }
  }

  lemma NothingAdded(abandoned: seq<bv8>, calls: seq<Call>)
    ensures Total(abandoned, calls, 0) == abandoned
  {
    assert calls[..0] == [];
  }

  lemma RunPrefix(s: State, calls: seq<Call>, k: nat)
    requires k < |calls|
    ensures Run(s, calls[..k + 1]) == Step(Run(s, calls[..k]), calls[k])
  {
    hide Step;
    Prefixes(calls, k + 1);
  }

  /** Below the size the session stays open, through failed writes too, and describes all its bytes. */
  lemma {:induction false} OpenSessionRun(s: State, abandoned: seq<bv8>, calls: seq<Call>, size: nat, k: nat)
    requires s.checked && Describes(s, abandoned) && AllFor(calls, size) && k <= |calls|
    requires |Total(abandoned, calls, k)| < 0x1_0000_0000 && (k > 0 ==> |Total(abandoned, calls, k)| < size)
    ensures Run(s, calls[..k]).checked && Describes(Run(s, calls[..k]), Total(abandoned, calls, k))
    decreases k
  {
    hide Total, Run, Written, Update, Accepts, Replies;
    if k == 0 {
      NothingAdded(abandoned, calls);
      NoCalls(s, calls);
    } else {
      TotalIsMonotone(abandoned, calls, k - 1, k);
      OpenSessionRun(s, abandoned, calls, size, k - 1);
      TotalGrows(abandoned, calls, k - 1);
      RunPrefix(s, calls, k - 1);
      WrittenDescribes(Run(s, calls[..k - 1]), calls[k - 1], Total(abandoned, calls, k - 1));
    }
  }

  lemma NoCalls(s: State, calls: seq<Call>)
    ensures Run(s, calls[..0]) == s
  {
  }

  predicate HasReport(replies: seq<Reply>) {
    replies != [] && replies[|replies| - 1].Checksum?
  }

  function RepliesAt(s: State, calls: seq<Call>, k: nat): seq<Reply>
    requires k < |calls|
  {
    Replies(Run(s, calls[..k]), calls[k])
  }

  /** Call `k` reports a checksum and no earlier call does. */
  ghost predicate FirstReport(s: State, calls: seq<Call>, k: nat) {
    k < |calls| && HasReport(RepliesAt(s, calls, k)) && forall j: nat :: j < k ==> !HasReport(RepliesAt(s, calls, j))
  }

  lemma ReplyInSession(s: State, bytes: seq<bv8>, call: Call)
    requires s.checked && Describes(s, bytes)
    requires |bytes + if Accepts(call) then call.data else []| < 0x1_0000_0000
    ensures var total := bytes + if Accepts(call) then call.data else [];
            Replies(s, call) == (if !call.replyRoom then [] else if call.writes then [Ok] else [Err])
                                + if |total| >= call.fileSize then [Checksum(Update(CRC16_POLYNOMIAL, 0, total), call.fileSize)] else []
  {
    hide Update, Written;
    WrittenDescribes(s, call, bytes);
  }

  lemma ReportsWhenFull(s: State, abandoned: seq<bv8>, calls: seq<Call>, size: nat, k: nat)
    requires s.checked && Describes(s, abandoned) && AllFor(calls, size) && k < |calls|
    requires |Total(abandoned, calls, k + 1)| < 0x1_0000_0000 && (k > 0 ==> |Total(abandoned, calls, k)| < size)
    ensures HasReport(RepliesAt(s, calls, k)) <==> |Total(abandoned, calls, k + 1)| >= size
    ensures RepliesAt(s, calls, k)
            == (if !calls[k].replyRoom then [] else if calls[k].writes then [Ok] else [Err])
               + if |Total(abandoned, calls, k + 1)| >= size
                 then [Checksum(Update(CRC16_POLYNOMIAL, 0, Total(abandoned, calls, k + 1)), size)] else []
  {
    hide Total, Run, Update, Replies, Describes;
    TotalIsMonotone(abandoned, calls, k, k + 1);
    OpenSessionRun(s, abandoned, calls, size, k);
    TotalGrows(abandoned, calls, k);
    ReplyInSession(Run(s, calls[..k]), Total(abandoned, calls, k), calls[k]);
  }

  lemma FirstFull(abandoned: seq<bv8>, calls: seq<Call>, size: nat, k: nat) returns (m: nat)
    requires 0 < k <= |calls| && |Total(abandoned, calls, k)| >= size
    ensures m < k && |Total(abandoned, calls, m + 1)| >= size && (m > 0 ==> |Total(abandoned, calls, m)| < size)
  {
    hide Total;
    m := k - 1;
    while m > 0 && |Total(abandoned, calls, m)| >= size
      invariant m < k && |Total(abandoned, calls, m + 1)| >= size
    {
      m := m - 1;
    }
  }

  /**
   In an open session the first report comes with the call that brings all its bytes, those of the
   abandoned transfer included, to the size that is asked for, and covers all of them. Writes that
   fail on the way count for nothing.
   */
  lemma FirstReportIff(s: State, abandoned: seq<bv8>, calls: seq<Call>, size: nat, k: nat)
    requires s.checked && Describes(s, abandoned) && AllFor(calls, size) && k < |calls|
    requires |Total(abandoned, calls, k + 1)| < 0x1_0000_0000
    ensures FirstReport(s, calls, k)
            <==> |Total(abandoned, calls, k + 1)| >= size && (k > 0 ==> |Total(abandoned, calls, k)| < size)
    ensures FirstReport(s, calls, k)
            ==> Checksum(Update(CRC16_POLYNOMIAL, 0, Total(abandoned, calls, k + 1)), size) in RepliesAt(s, calls, k)
  {
    hide Total, RepliesAt, Update, HasReport, Describes, AllFor;
    TotalIsMonotone(abandoned, calls, k, k + 1);
    if k > 0 && |Total(abandoned, calls, k)| >= size {
      var m := FirstFull(abandoned, calls, size, k);
      TotalIsMonotone(abandoned, calls, m + 1, k);
      ReportsWhenFull(s, abandoned, calls, size, m);
    } else {
      ReportsWhenFull(s, abandoned, calls, size, k);
      forall j: nat | j < k ensures !HasReport(RepliesAt(s, calls, j)) {
        TotalIsMonotone(abandoned, calls, j, k);
        TotalIsMonotone(abandoned, calls, j + 1, k);
        ReportsWhenFull(s, abandoned, calls, size, j);
      }
    }
  }

  /** All requests of an image are accepted, whatever their header. */
  ghost predicate Sends(calls: seq<Call>, image: seq<bv8>) {
    && calls != [] && Flatten(Pieces(calls)) == image && AllFor(calls, |image|)
    && forall k :: 0 <= k < |calls| ==> calls[k].writes && calls[k].replyRoom && calls[k].data != []
  }

  /** The last request and no earlier one reports, and it reports the checksum of the image. */
  ghost predicate ReportsTheImage(s: State, calls: seq<Call>, image: seq<bv8>) {
    && calls != [] && FirstReport(s, calls, |calls| - 1)
    && Checksum(Update(CRC16_POLYNOMIAL, 0, image), |image|) in RepliesAt(s, calls, |calls| - 1)
  }

  /** What the session has after all requests of the image, and before the last one. */
  lemma TotalOfImage(abandoned: seq<bv8>, calls: seq<Call>, image: seq<bv8>)
    requires Sends(calls, image)
    ensures Total(abandoned, calls, |calls|) == abandoned + image
    ensures |Total(abandoned, calls, |calls| - 1)| == |abandoned| + |image| - |calls[|calls| - 1].data|
  {
    hide AcceptedBytes, Pieces;
    assert calls[..|calls|] == calls;
    AllAccepted(calls);
    TotalGrows(abandoned, calls, |calls| - 1);
  }

  /**
   An image sent into an open session, however it is cut, is reported as it should be iff the session
   held fewer bytes than its last request carries, or there is only one, and those bytes happened to
   have checksum zero.
   */
  lemma AbandonedSessionTaintsTheNext(s: State, abandoned: seq<bv8>, calls: seq<Call>, image: seq<bv8>)
    requires s.checked && Describes(s, abandoned) && Sends(calls, image) && |abandoned| + |image| < 0x1_0000_0000
    ensures ReportsTheImage(s, calls, image)
            <==> (|calls| == 1 || |abandoned| < |calls[|calls| - 1].data|) && Update(CRC16_POLYNOMIAL, 0, abandoned) == 0
  {
    hide Update, Describes, Total, RepliesAt, Pieces;
    var n := |calls| - 1;
    TotalOfImage(abandoned, calls, image);
    FirstReportIff(s, abandoned, calls, |image|, n);
    if FirstReport(s, calls, n) {
      LastReply(s, abandoned, calls, image);
      Checksums.Crc16KeepsRegistersApart(abandoned, image);
    }
  }

  /** The reply to the last request, if it is the first report. */
  lemma LastReply(s: State, abandoned: seq<bv8>, calls: seq<Call>, image: seq<bv8>)
    requires s.checked && Describes(s, abandoned) && Sends(calls, image) && |abandoned| + |image| < 0x1_0000_0000
    requires FirstReport(s, calls, |calls| - 1)
    ensures RepliesAt(s, calls, |calls| - 1)
            == [Ok] + [Checksum(Update(CRC16_POLYNOMIAL, 0, abandoned + image), |image|)]
  {
    hide Update, Describes, Total, RepliesAt, FirstReport, Pieces;
    var n := |calls| - 1;
    TotalOfImage(abandoned, calls, image);
    FirstReportIff(s, abandoned, calls, |image|, n);
    ReportsWhenFull(s, abandoned, calls, |image|, n);
    assert Accepts(calls[n]);
  }
}
