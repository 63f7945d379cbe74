/**
 The download as three interleaved processes: the HTTP task reads a chunk into the shared buffer and
 asks for it to be written (main/HTTP_Actor.c, http_stream_reader), the file actor copies, writes and
 answers (main/File_Manager_Actor.c, main/JFS_FLASH_Actor.c), and the HTTP actor's monitor turns the
 answer into `JFS_Response`. Each event is one step of one of them.
 */
module Download {
  import opened Common

  type Bytes = seq<bv8>

  /** What is downloaded, how the file is asked to be opened, and what it holds before. */
  datatype Job = Job(body: Bytes, mode: string, before: Bytes)

  datatype Response = Wait | Err | Ok

  datatype Pc =
    | Loop                // before the test of the loop
    | Reading             // response set to Wait, about to read
    | Sending(n: nat)     // n bytes in the buffer, about to send the request
    | Updating(n: nat)    // request sent, about to update the counters
    | Checking            // about to look for an error
    | Draining            // after the loop, waiting for the last answer
    | Finished
    | GaveUp              // no data after all retries

  datatype Request = Request(size: nat, mode: string)

  datatype Writer = Idle | Copied(chunk: Bytes, mode: string) | Answering(ok: bool)

  datatype State = State(
    pc: Pc, buffer: Bytes, response: Response, remaining: nat, downloaded: nat, mode: string,
    requests: seq<Request>, writer: Writer, replies: seq<bool>, file: Bytes,
    done: seq<Bytes>)  // history: the chunks whose write succeeded

  /** One step; the parameters are what the environment decides. */
  datatype Event =
    | Turn                                            // the loop test, or the end of the drain loop
    | Read(n: int)                                    // bytes read, after reconnecting if need be
    | Send(delivered: bool)
    | Update
    | Check
    | Copy
    | Write(opens: bool, count: nat, closes: bool)
    | Answer(room: bool)
    | Monitor

  /** A mode that starts with neither letter is replaced. */
  function InitialMode(mode: string): string {
    if mode != [] && (mode[0] == 'w' || mode[0] == 'a') then mode else "w"
  }

  predicate Truncates(mode: string) {
    mode != [] && mode[0] == 'w'
  }

  function Init(job: Job): State {
    State(Loop, [], Ok, |job.body|, 0, InitialMode(job.mode), [], Idle, [], job.before, [])
  }

  predicate Enabled(job: Job, s: State, e: Event) {
    match e
    case Turn => s.pc.Loop? || (s.pc.Draining? && !s.response.Wait?)
    case Read(n) => s.pc.Reading? && n <= BUFFER_SIZE && n <= |job.body| - s.downloaded
    case Send(_) => s.pc.Sending?
    case Update => s.pc.Updating? && s.pc.n <= s.remaining
    case Check => s.pc.Checking?
    case Copy => s.requests != [] && s.writer.Idle?
    case Write(_, count, _) => s.writer.Copied? && count <= |s.writer.chunk|
    case Answer(_) => s.writer.Answering?
    case Monitor => s.replies != []
  }

  function Effect(job: Job, s: State, e: Event): State
    requires Enabled(job, s, e)
  {
    match e
    case Turn =>
      if s.pc.Draining? then s.(pc := Finished)
      else if s.remaining == 0 then s.(pc := Draining)
      else if s.response.Ok? then s.(pc := Reading, response := Wait)
      else s.(pc := Checking)
    case Read(n) =>
      if n <= 0 then s.(pc := GaveUp)
      else if s.downloaded <= |job.body| then s.(pc := Sending(n), buffer := job.body[s.downloaded..s.downloaded + n])
      else s
    case Send(delivered) =>
      s.(pc := Updating(s.pc.n), requests := s.requests + if delivered then [Request(s.pc.n, s.mode)] else [])
    case Update =>
      var remaining := s.remaining - s.pc.n;
      s.(pc := Checking, remaining := remaining, downloaded := s.downloaded + s.pc.n,
         mode := if job.mode == "w" && remaining > 0 then "a" else s.mode)
    case Check => s.(pc := if s.response.Err? then Draining else Loop)
    case Copy =>
      var r := s.requests[0];
      s.(requests := s.requests[1..],
         writer := Copied(if r.size <= |s.buffer| then s.buffer[..r.size] else s.buffer, r.mode))
    case Write(opens, count, closes) =>
      var chunk := s.writer.chunk;
      if !opens then s.(writer := Answering(false))
      else
        var ok := count == |chunk| && closes;
        s.(writer := Answering(ok),
           file := (if Truncates(s.writer.mode) then [] else s.file) + chunk[..count],
           done := if ok then s.done + [chunk] else s.done)
    case Answer(room) =>
      s.(writer := Idle, replies := if room then s.replies + [s.writer.ok] else s.replies)
    case Monitor =>
      s.(replies := s.replies[1..], response := if s.replies[0] then Ok else Err)
  }

  /** An event whose process is not there yet does not happen. */
  function Step(job: Job, s: State, e: Event): State {
    if Enabled(job, s, e) then Effect(job, s, e) else s
  }

  function RunFrom(job: Job, s: State, events: seq<Event>): State {
    if events == [] then s else Step(job, RunFrom(job, s, events[..|events| - 1]), events[|events| - 1])
  }

  function Run(job: Job, events: seq<Event>): State {
    RunFrom(job, Init(job), events)
  }

  // ---------------------------------------------------------------- what the file should hold

  predicate Appends(mode: string) {
    mode != [] && mode[0] == 'a'
  }

  /** What the next chunk is appended to. */
  function Base(job: Job, done: seq<Bytes>): Bytes {
    if Appends(job.mode) then job.before + Flatten(done)
    else if job.mode == "w" then Flatten(done)
    else []
  }

  /** The file after the chunks `done`. */
  function Content(job: Job, done: seq<Bytes>): Bytes {
    if done == [] then job.before else Base(job, done[..|done| - 1]) + done[|done| - 1]
  }

  /** The mode that goes with the chunk at position `at`. */
  function ModeAt(job: Job, at: nat): string {
    if job.mode == "w" then (if at == 0 then "w" else "a") else InitialMode(job.mode)
  }

  // ---------------------------------------------------------------- the invariant

  /** Chunks on their way from the buffer to the response. */
  function Outstanding(s: State): nat {
    |s.requests| + One(!s.writer.Idle?) + |s.replies|
  }

  /** Bytes sent to the file actor. */
  function Sent(s: State): nat {
    s.downloaded + if s.pc.Updating? then s.pc.n else 0
  }

  /** The last chunk sent is not done and never will be. */
  predicate Failed(s: State) {
    |Flatten(s.done)| < Sent(s) && s.requests == [] && !s.writer.Copied?
  }

  /** The counters, the single outstanding chunk and the response agree. */
  predicate Protocol(job: Job, s: State) {
    && s.downloaded + s.remaining == |job.body|
    && (s.pc.Sending? || s.pc.Updating? ==> 0 < s.pc.n <= s.remaining)
    && (s.pc.Reading? ==> s.remaining > 0)
    && Outstanding(s) <= 1
    && (Outstanding(s) == 1 ==> s.response.Wait?)
    && (s.pc.Reading? || s.pc.Sending? || s.pc.GaveUp? ==> s.response.Wait? && Outstanding(s) == 0)
    && (s.pc.Draining? || s.pc.Finished? ==> s.remaining == 0 || s.response.Err?)
    && (s.pc.Finished? ==> !s.response.Wait?)
  }

  /** The chunk that is being written, cut from the body after the ones that are done. */
  predicate InFlight(job: Job, s: State)
    requires Protocol(job, s)
  {
    var f := |Flatten(s.done)|;
    && f <= Sent(s) <= |job.body|
    && Flatten(s.done) == job.body[..f]
    && (forall i :: 0 <= i < |s.done| ==> s.done[i] != [])
    && (s.response.Ok? || s.pc.Reading? || s.pc.Sending? || s.pc.GaveUp? ==> f == Sent(s))
    && (s.pc.Sending? ==> s.buffer == job.body[s.downloaded..s.downloaded + s.pc.n])
    && (s.requests != [] ==>
          s.requests[0] == Request(Sent(s) - f, ModeAt(job, f)) && s.buffer == job.body[f..Sent(s)] && f < Sent(s))
    && (s.writer.Copied? ==> s.writer == Copied(job.body[f..Sent(s)], ModeAt(job, f)) && f < Sent(s))
    && (s.writer == Answering(true) || true in s.replies ==> f == Sent(s))
  }

  predicate Modes(job: Job, s: State) {
    (if s.pc.Updating? then s.remaining >= s.pc.n else s.remaining > 0) ==> s.mode == ModeAt(job, s.downloaded)
  }

  /** After a failure the file may hold part of the next chunk. */
  ghost predicate FileHolds(job: Job, s: State) {
    || s.file == Content(job, s.done)
    || (Failed(s) && exists k: nat :: Partly(job, s, k))
  }

  predicate Partly(job: Job, s: State, k: nat) {
    var f := |Flatten(s.done)|;
    f + k <= |job.body| && s.file == Base(job, s.done) + job.body[f..f + k]
  }

  ghost predicate Inv(job: Job, s: State) {
    Protocol(job, s) && InFlight(job, s) && Modes(job, s) && FileHolds(job, s)
  }

  lemma InitInv(job: Job)
    ensures Inv(job, Init(job))
  {
  }

  lemma FlattenSnoc(chunks: seq<Bytes>, chunk: Bytes)
    ensures Flatten(chunks + [chunk]) == Flatten(chunks) + chunk
  {
    assert (chunks + [chunk])[..|chunks|] == chunks;
  }

  /** The file and what is known of it do not change. */
  lemma FileKept(job: Job, s: State, t: State)
    requires FileHolds(job, s) && t.file == s.file && t.done == s.done && (Failed(s) ==> Failed(t))
    ensures FileHolds(job, t)
  {
    hide Flatten, Base, Content, Failed;
    if s.file != Content(job, s.done) {
      var k: nat :| Partly(job, s, k);
      assert Partly(job, t, k);
    }
  }

  lemma TurnStep(job: Job, s: State)
    requires Inv(job, s) && Enabled(job, s, Turn)
    ensures Inv(job, Effect(job, s, Turn))
  {
    hide Flatten, FileHolds, ModeAt;
    FileKept(job, s, Effect(job, s, Turn));
  }

  lemma ReadStep(job: Job, s: State, n: int)
    requires Inv(job, s) && Enabled(job, s, Read(n))
    ensures Inv(job, Effect(job, s, Read(n)))
  {
    hide Flatten, FileHolds, ModeAt;
    FileKept(job, s, Effect(job, s, Read(n)));
  }

  lemma SendStep(job: Job, s: State, delivered: bool)
    requires Inv(job, s) && Enabled(job, s, Send(delivered))
    ensures Inv(job, Effect(job, s, Send(delivered)))
  {
    hide Flatten, FileHolds, ModeAt;
    FileKept(job, s, Effect(job, s, Send(delivered)));
  }

  lemma UpdateStep(job: Job, s: State)
    requires Inv(job, s) && Enabled(job, s, Update)
    ensures Inv(job, Effect(job, s, Update))
  {
    hide Flatten, FileHolds, InitialMode;
    FileKept(job, s, Effect(job, s, Update));
  }

  lemma CheckStep(job: Job, s: State)
    requires Inv(job, s) && Enabled(job, s, Check)
    ensures Inv(job, Effect(job, s, Check))
  {
    hide Flatten, FileHolds, ModeAt;
    FileKept(job, s, Effect(job, s, Check));
  }

  lemma CopyStep(job: Job, s: State)
    requires Inv(job, s) && Enabled(job, s, Copy)
    ensures Inv(job, Effect(job, s, Copy))
  {
    hide Flatten, FileHolds, ModeAt;
    FileKept(job, s, Effect(job, s, Copy));
  }

  lemma AnswerStep(job: Job, s: State, room: bool)
    requires Inv(job, s) && Enabled(job, s, Answer(room))
    ensures Inv(job, Effect(job, s, Answer(room)))
  {
    hide Flatten, FileHolds, ModeAt;
    FileKept(job, s, Effect(job, s, Answer(room)));
  }

  lemma MonitorStep(job: Job, s: State)
    requires Inv(job, s) && Enabled(job, s, Monitor)
    ensures Inv(job, Effect(job, s, Monitor))
  {
    hide Flatten, FileHolds, ModeAt;
    FileKept(job, s, Effect(job, s, Monitor));
  }

  lemma FlattenNonEmpty(done: seq<Bytes>)
    requires forall i :: 0 <= i < |done| ==> done[i] != []
    ensures Flatten(done) == [] <==> done == []
  {
    if done != [] {
      assert done[|done| - 1] != [];
    }
  }

  /** Opening the file for the next chunk leaves what the chunk is to be appended to. */
  lemma Opened(job: Job, done: seq<Bytes>)
    requires forall i :: 0 <= i < |done| ==> done[i] != []
    ensures (if Truncates(ModeAt(job, |Flatten(done)|)) then [] else Content(job, done)) == Base(job, done)
  {
    FlattenNonEmpty(done);
    if done != [] {
      assert Flatten(done) == Flatten(done[..|done| - 1]) + done[|done| - 1];
      assert job.before + (Flatten(done[..|done| - 1]) + done[|done| - 1]) == job.before + Flatten(done[..|done| - 1]) + done[|done| - 1];
    } else {
      assert job.before + Flatten(done) == job.before;
    }
  }

  lemma ContentSnoc(job: Job, done: seq<Bytes>, chunk: Bytes)
    ensures Content(job, done + [chunk]) == Base(job, done) + chunk
  {
    hide Base;
    assert (done + [chunk])[..|done|] == done;
  }

  lemma WriteOk(job: Job, s: State)
    requires Inv(job, s) && s.writer.Copied?
    ensures var t := Effect(job, s, Write(true, |s.writer.chunk|, true));
            Inv(job, t) && t.file == Content(job, t.done) && |Flatten(t.done)| == Sent(t)
  {
    hide Flatten, Base, Content, ModeAt, Truncates;
    var t := Effect(job, s, Write(true, |s.writer.chunk|, true));
    var chunk := s.writer.chunk;
    var f := |Flatten(s.done)|;
    assert chunk[..|chunk|] == chunk;
    FlattenSnoc(s.done, chunk);
    assert job.body[..f] + job.body[f..Sent(s)] == job.body[..Sent(s)];
    Opened(job, s.done);
    ContentSnoc(job, s.done, chunk);
  }

  lemma SliceOfSlice(b: Bytes, from: nat, to: nat, count: nat)
    requires from + count <= to <= |b|
    ensures b[from..to][..count] == b[from..from + count]
  {
  }

  lemma WriteFails(job: Job, s: State, opens: bool, count: nat, closes: bool)
    requires Inv(job, s) && Enabled(job, s, Write(opens, count, closes))
    requires !opens || count < |s.writer.chunk| || !closes
    ensures Inv(job, Effect(job, s, Write(opens, count, closes)))
  {
    hide Flatten, Base, Content, ModeAt, Truncates;
    var t := Effect(job, s, Write(opens, count, closes));
    var f := |Flatten(s.done)|;
    Opened(job, s.done);
    SliceOfSlice(job.body, f, Sent(s), count);
    if opens {
      assert Partly(job, t, count);
    }
  }

  lemma StepInv(job: Job, s: State, e: Event)
    requires Inv(job, s)
    ensures Inv(job, Step(job, s, e))
  {
    hide Inv, Effect;
    if Enabled(job, s, e) {
      match e {
        case Turn => TurnStep(job, s);
        case Read(n) => ReadStep(job, s, n);
        case Send(delivered) => SendStep(job, s, delivered);
        case Update => UpdateStep(job, s);
        case Check => CheckStep(job, s);
        case Copy => CopyStep(job, s);
        case Write(opens, count, closes) =>
          if opens && count == |s.writer.chunk| && closes {
            WriteOk(job, s);
          } else {
            WriteFails(job, s, opens, count, closes);
          }
        case Answer(room) => AnswerStep(job, s, room);
        case Monitor => MonitorStep(job, s);
      }
    }
  }

  lemma {:induction false} RunInv(job: Job, events: seq<Event>)
    ensures Inv(job, Run(job, events))
    decreases |events|
  {
    hide Inv, Step, Init;
    if events == [] {
      InitInv(job);
    } else {
      RunInv(job, events[..|events| - 1]);
      StepInv(job, Run(job, events[..|events| - 1]), events[|events| - 1]);
    }
  }

  // ---------------------------------------------------------------- what holds in every run

  /** At most one chunk is outstanding, the counters add up, and the reader never touches the buffer meanwhile. */
  lemma StopAndWait(job: Job, events: seq<Event>)
    ensures var s := Run(job, events);
            Outstanding(s) <= 1 && s.downloaded + s.remaining == |job.body|
            && (s.pc.Reading? || s.pc.Sending? || s.response.Ok? ==> Outstanding(s) == 0)
  {
    RunInv(job, events);
  }

  predicate IsPrefix(a: Bytes, b: Bytes) { |a| <= |b| && b[..|a|] == a }

  predicate PrefixState(job: Job, s: State) {
    && (s.file == job.before || IsPrefix(s.file, job.body))
    && s.downloaded <= |job.body|
    && (s.response.Ok? && s.downloaded > 0 && !s.pc.Updating? ==> s.file == job.body[..s.downloaded])
  }

  lemma PartIsAPrefix(job: Job, s: State, k: nat)
    requires job.mode == "w" && Protocol(job, s) && InFlight(job, s) && Partly(job, s, k)
    ensures IsPrefix(s.file, job.body)
  {
    hide Flatten, ModeAt;
    var f := |Flatten(s.done)|;
    assert job.body[..f] + job.body[f..f + k] == job.body[..f + k];
  }

  lemma InvariantStateIsPrefixState(job: Job, s: State)
    requires job.mode == "w" && Inv(job, s)
    ensures PrefixState(job, s)
  {
    hide Flatten, ModeAt, Content, Modes, Partly;
    Written(job, s.done);
    NothingDone();
    if s.file != Content(job, s.done) {
      var k: nat :| Partly(job, s, k);
      PartIsAPrefix(job, s, k);
    }
  }

  lemma NothingDone()
    ensures Flatten<bv8>([]) == []
  {
  }

  /** In mode "w" the file is untouched or a prefix of the body; with the last chunk acknowledged, the bytes downloaded. */
  lemma FileIsAPrefix(job: Job, events: seq<Event>)
    requires job.mode == "w"
    ensures PrefixState(job, Run(job, events))
  {
    hide *;
    RunInv(job, events);
    InvariantStateIsPrefixState(job, Run(job, events));
  }

  /** Event `k` of a run opens the file. */
  predicate OpensAt(job: Job, events: seq<Event>, k: nat) {
    && k < |events| && events[k].Write? && events[k].opens
    && Enabled(job, RunFrom(job, Init(job), events[..k]), events[k])
  }

  /** The file is untouched until it could be opened, in every mode. */
  lemma {:induction false} UntouchedUntilOpened(job: Job, events: seq<Event>, n: nat)
    requires n <= |events| && forall k: nat :: k < n ==> !OpensAt(job, events, k)
    ensures Run(job, events[..n]).file == job.before
    decreases n
  {
    if n > 0 {
      UntouchedUntilOpened(job, events, n - 1);
      assert !OpensAt(job, events, n - 1);
      assert events[..n][..n - 1] == events[..n - 1];
    }
  }

  /** The file after complete chunks, by mode. */
  lemma Written(job: Job, done: seq<Bytes>)
    ensures job.mode == "w" ==> Content(job, done) == if done == [] then job.before else Flatten(done)
    ensures Appends(job.mode) ==> Content(job, done) == job.before + Flatten(done)
    ensures job.mode != "w" && !Appends(job.mode) && done != [] ==> Content(job, done) == done[|done| - 1]
  {
    if done != [] {
      assert job.before + (Flatten(done[..|done| - 1]) + done[|done| - 1]) == job.before + Flatten(done[..|done| - 1]) + done[|done| - 1];
      assert [] + done[|done| - 1] == done[|done| - 1];
    } else {
      assert job.before + [] == job.before;
    }
  }

  /** All chunks were read and the last answer was not an error. */
  predicate Succeeded(s: State) {
    s.pc.Finished? && s.response.Ok?
  }

  lemma SuccessIsComplete(job: Job, events: seq<Event>)
    requires Succeeded(Run(job, events))
    ensures var s := Run(job, events);
            s.remaining == 0 && Flatten(s.done) == job.body && s.file == Content(job, s.done)
            && (forall i :: 0 <= i < |s.done| ==> s.done[i] != [])
  {
    hide Run, Content, Base;
    RunInv(job, events);
    assert job.body[..|job.body|] == job.body;
  }

  /** A download that succeeds leaves exactly the body, unless the mode is neither "w" nor an append to nothing and there were several chunks. */
  lemma SuccessLeavesTheBodyIff(job: Job, events: seq<Event>)
    requires job.body != [] && Succeeded(Run(job, events))
    ensures var s := Run(job, events);
            s.file == job.body
            <==> job.mode == "w" || (if Appends(job.mode) then job.before == [] else |s.done| == 1)
  {
    hide Run, Content, Base, Succeeded;
    var s := Run(job, events);
    SuccessIsComplete(job, events);
    Written(job, s.done);
    FlattenNonEmpty(s.done);
    if Appends(job.mode) {
      assert |s.file| == |job.before| + |job.body|;
      assert job.before == [] ==> job.before + job.body == job.body;
    } else if job.mode != "w" {
      LastOfSeveral(s.done);
    }
  }

  lemma LastOfSeveral(done: seq<Bytes>)
    requires done != [] && forall i :: 0 <= i < |done| ==> done[i] != []
    ensures done[|done| - 1] == Flatten(done) <==> |done| == 1
  {
    var rest := done[..|done| - 1];
    FlattenNonEmpty(rest);
    if |done| == 1 {
      assert [] + done[0] == done[0];
    }
  }

  // ---------------------------------------------------------------- lost messages

  /** The response is awaited, and nothing is on its way. */
  predicate Hangs(s: State) {
    Waiting(s) && Outstanding(s) == 0
  }

  /** The reader cannot go on, or will not be able to, before the response comes. */
  predicate Waiting(s: State) {
    (s.pc.Loop? || s.pc.Updating? || s.pc.Checking? || s.pc.Draining?) && s.response.Wait?
  }

  predicate Loses(job: Job, s: State, e: Event) {
    (e == Send(false) || e == Answer(false)) && Enabled(job, s, e)
  }

  /** Event `k` of a run loses a request or an answer. */
  predicate LostAt(job: Job, events: seq<Event>, k: nat) {
    k < |events| && Loses(job, Run(job, events[..k]), events[k])
  }

  lemma HangingStep(job: Job, s: State, e: Event)
    requires Inv(job, s)
    ensures Hangs(s) || Loses(job, s, e) ==> Hangs(Step(job, s, e))
    ensures Hangs(Step(job, s, e)) ==> Hangs(s) || Loses(job, s, e)
  {
    hide InFlight, FileHolds, Modes;
  }

  lemma Snoc(job: Job, events: seq<Event>, k: nat)
    requires k < |events|
    ensures Run(job, events[..k + 1]) == Step(job, Run(job, events[..k]), events[k])
  {
    hide Step, Init;
    assert events[..k + 1][..k] == events[..k];
  }

  lemma {:induction false} HangsAfterLoss(job: Job, events: seq<Event>, n: nat)
    requires n <= |events|
    ensures Hangs(Run(job, events[..n])) <==> exists k: nat :: k < n && LostAt(job, events, k)
    decreases n
  {
    hide Inv, Run, Hangs, Loses, Step;
    if n == 0 {
      StartsRunning(job, events);
    } else {
      HangsAfterLoss(job, events, n - 1);
      RunInv(job, events[..n - 1]);
      HangingStep(job, Run(job, events[..n - 1]), events[n - 1]);
      Snoc(job, events, n - 1);
      assert LostAt(job, events, n - 1) <==> Loses(job, Run(job, events[..n - 1]), events[n - 1]);
    }
  }

  lemma StartsRunning(job: Job, events: seq<Event>)
    ensures !Hangs(Run(job, events[..0]))
  {
  }

  /** The reader waits for an answer that will never come iff a request or an answer was lost on the way. */
  lemma HangsIffMessageLost(job: Job, events: seq<Event>)
    ensures Hangs(Run(job, events)) <==> exists k: nat :: LostAt(job, events, k)
  {
    hide Hangs, Run, LostAt;
    HangsAfterLoss(job, events, |events|);
    assert events[..|events|] == events;
    LossIsInside(job, events);
  }

  lemma LossIsInside(job: Job, events: seq<Event>)
    ensures forall k: nat :: LostAt(job, events, k) ==> k < |events|
  {
  }

  lemma {:induction false} HangsForEver(job: Job, s: State, events: seq<Event>)
    requires Hangs(s)
    ensures Hangs(RunFrom(job, s, events))
    decreases |events|
  {
    if events != [] {
      HangsForEver(job, s, events[..|events| - 1]);
    }
  }

  /** And then it waits for ever. */
  lemma LostMessageHangs(job: Job, events: seq<Event>, lost: Event, later: seq<Event>)
    requires Loses(job, Run(job, events), lost)
    ensures Hangs(RunFrom(job, Step(job, Run(job, events), lost), later))
  {
    hide Run, RunFrom, Hangs, Loses, Inv;
    RunInv(job, events);
    HangingStep(job, Run(job, events), lost);
    HangsForEver(job, Step(job, Run(job, events), lost), later);
  }

  // ---------------------------------------------------------------- an undisturbed download

  /** Reads bring data, nothing is lost and writes succeed. */
  predicate Kind(s: State, e: Event) {
    match e
    case Read(n) => n > 0
    case Send(delivered) => delivered
    case Write(opens, count, closes) => s.writer.Copied? ==> opens && count == |s.writer.chunk| && closes
    case Answer(room) => room
    case _ => true
  }

  /** In whatever order the three processes take their steps. */
  ghost predicate Undisturbed(job: Job, events: seq<Event>) {
    forall k: nat :: k < |events| ==> Allowed(job, Run(job, events[..k]), events[k])
  }

  predicate Allowed(job: Job, s: State, e: Event) {
    Enabled(job, s, e) ==> Kind(s, e)
  }

  predicate Healthy(s: State) {
    !s.response.Err? && !s.pc.GaveUp? && s.writer != Answering(false) && false !in s.replies && !Hangs(s)
  }

  lemma HealthyStep(job: Job, s: State, e: Event)
    requires Inv(job, s) && Healthy(s) && Allowed(job, s, e)
    ensures Healthy(Step(job, s, e))
  {
    hide InFlight, FileHolds, Modes;
    HangingStep(job, s, e);
  }

  lemma StartsHealthy(job: Job)
    ensures Healthy(Init(job))
  {
  }

  lemma {:induction false} StaysHealthy(job: Job, events: seq<Event>, n: nat)
    requires Undisturbed(job, events) && n <= |events|
    ensures Healthy(Run(job, events[..n]))
    decreases n
  {
    hide Inv, Healthy, Allowed, Step, Init;
    if n == 0 {
      StartsHealthy(job);
    } else {
      StaysHealthy(job, events, n - 1);
      RunInv(job, events[..n - 1]);
      assert Allowed(job, Run(job, events[..n - 1]), events[n - 1]);
      HealthyStep(job, Run(job, events[..n - 1]), events[n - 1]);
      Snoc(job, events, n - 1);
    }
  }

  /** In every undisturbed interleaving there is no error, the reader never gives up, and finishing is succeeding. */
  lemma UndisturbedRunsAreHealthy(job: Job, events: seq<Event>)
    requires Undisturbed(job, events)
    ensures var s := Run(job, events);
            !s.response.Err? && !s.pc.GaveUp? && !Hangs(s) && (s.pc.Finished? ==> Succeeded(s))
  {
    hide Run, Hangs, InFlight, FileHolds, Modes;
    StaysHealthy(job, events, |events|);
    assert events[..|events|] == events;
    RunInv(job, events);
  }

  function Left(s: State): int {
    s.remaining - if s.pc.Updating? then s.pc.n else 0
  }

  function ReaderWork(s: State): nat {
    match s.pc
    case Updating(_) => 5
    case Checking => if s.response.Wait? then 3 else 4
    case Loop => if s.response.Err? then 5 else 3
    case Reading => 2
    case Sending(_) => 1
    case Draining => 1
    case Finished => 0
    case GaveUp => 0
  }

  function WriterWork(s: State): nat {
    40 * |s.requests| + (if s.writer.Copied? then 30 else if s.writer.Answering? then 20 else 0) + 10 * |s.replies|
  }

  /** What is still to be done: bytes to send, then the way of the last chunk, then the reader's own steps. */
  function Work(s: State): int {
    100 * Left(s) + WriterWork(s) + ReaderWork(s)
  }

  /** A turn of the loop that finds the response still awaited. */
  predicate Spins(s: State, e: Event) {
    s.response.Wait? && ((e.Turn? && s.pc.Loop? && s.remaining > 0) || (e.Check? && s.pc.Checking?))
  }

  predicate Progresses(job: Job, s: State, e: Event) {
    Enabled(job, s, e) && !Spins(s, e)
  }

  lemma WorkDecreases(job: Job, s: State, e: Event)
    requires Inv(job, s) && Enabled(job, s, e)
    ensures Work(Step(job, s, e)) <= Work(s) - if Spins(s, e) then 0 else 1
    ensures Work(s) >= 0
  {
    hide InFlight, FileHolds, Modes;
  }

  /** The reader has ended, with or without success. */
  predicate Ended(s: State) {
    s.pc.Finished? || s.pc.GaveUp?
  }

  /** Until the reader ends, and unless a message was lost, some process has a step that makes progress. */
  lemma SomethingIsLeftToDo(job: Job, s: State) returns (e: Event)
    requires Inv(job, s) && !Hangs(s) && !Ended(s)
    ensures Progresses(job, s, e) && Kind(s, e)
  {
    hide InFlight, FileHolds, Modes;
    if s.requests != [] {
      e := Copy;
    } else if s.writer.Copied? {
      e := Write(true, |s.writer.chunk|, true);
    } else if s.writer.Answering? {
      e := Answer(true);
    } else if s.replies != [] {
      e := Monitor;
    } else if s.pc.Reading? {
      e := Read(1);
    } else if s.pc.Sending? {
      e := Send(true);
    } else if s.pc.Updating? {
      e := Update;
    } else if s.pc.Checking? {
      e := Check;
    } else {
      e := Turn;
    }
  }

  /** The steps of a run that make progress. */
  function ProgressSteps(job: Job, events: seq<Event>, n: nat): nat
    requires n <= |events|
  {
    if n == 0 then 0
    else ProgressSteps(job, events, n - 1) + One(Progresses(job, Run(job, events[..n - 1]), events[n - 1]))
  }

  /** In every run, whatever reads, writes and messages meet, so many steps make progress and no more. */
  lemma {:induction false} ProgressIsBounded(job: Job, events: seq<Event>, n: nat)
    requires n <= |events|
    ensures ProgressSteps(job, events, n) + Work(Run(job, events[..n])) <= 100 * |job.body| + 3
    decreases n
  {
    hide Inv, Enabled, Init, Work, Run, Spins, Effect;
    if n == 0 {
      WorkAtStart(job, events);
    } else {
      var s, e := Run(job, events[..n - 1]), events[n - 1];
      ProgressIsBounded(job, events, n - 1);
      RunInv(job, events[..n - 1]);
      Snoc(job, events, n - 1);
      if Enabled(job, s, e) {
        WorkDecreases(job, s, e);
      }
    }
  }

  lemma WorkAtStart(job: Job, events: seq<Event>)
    ensures Work(Run(job, events[..0])) == 100 * |job.body| + 3
  {
  }

  lemma WorkIsPositive(job: Job, s: State)
    requires Inv(job, s)
    ensures Work(s) >= 0
  {
    hide InFlight, FileHolds, Modes;
  }

  /**
   Every run without a lost message ends, however reads and writes turn out: the reader has finished or
   given up, or some process has a step that makes progress and loses nothing, and no run has more than
   so many of these.
   */
  lemma EveryDownloadEnds(job: Job, events: seq<Event>)
    requires forall k: nat :: !LostAt(job, events, k)
    ensures Ended(Run(job, events))
            || exists e :: Progresses(job, Run(job, events), e) && !Loses(job, Run(job, events), e)
    ensures ProgressSteps(job, events, |events|) <= 100 * |job.body| + 3
  {
    hide Run, Inv, Work, Progresses, Kind, Hangs, LostAt, Enabled;
    var s := Run(job, events);
    assert events[..|events|] == events;
    HangsIffMessageLost(job, events);
    RunInv(job, events);
    WorkIsPositive(job, s);
    ProgressIsBounded(job, events, |events|);
    if !Ended(s) {
      var e := SomethingIsLeftToDo(job, s);
      KindLosesNothing(job, s, e);
    }
  }

  lemma KindLosesNothing(job: Job, s: State, e: Event)
    requires Kind(s, e)
    ensures !Loses(job, s, e)
  {
  }

  /**
   An undisturbed download succeeds in every interleaving: it is finished and has succeeded, or some
   process has a step that makes progress, and no run has more than so many of these.
   */
  lemma UndisturbedDownloadSucceeds(job: Job, events: seq<Event>)
    requires Undisturbed(job, events)
    ensures Succeeded(Run(job, events))
            || exists e :: Progresses(job, Run(job, events), e) && Kind(Run(job, events), e)
    ensures ProgressSteps(job, events, |events|) <= 100 * |job.body| + 3
  {
    hide Run, Healthy, Inv, Work, Progresses, Kind, Succeeded, Hangs;
    var s := Run(job, events);
    assert events[..|events|] == events;
    UndisturbedRunsAreHealthy(job, events);
    StaysHealthy(job, events, |events|);
    RunInv(job, events);
    WorkIsPositive(job, s);
    ProgressIsBounded(job, events, |events|);
    if !s.pc.Finished? {
      var e := SomethingIsLeftToDo(job, s);
    }
  }

  // ---------------------------------------------------------------- how a download ends

  predicate FailsToWrite(s: State, e: Event) {
    e.Write? && s.writer.Copied? && !(e.opens && e.count == |s.writer.chunk| && e.closes)
  }

  /** A failed write is on its way to the reader or has arrived, or a message was lost. */
  predicate Doomed(s: State) {
    s.response.Err? || s.writer == Answering(false) || false in s.replies || Hangs(s)
  }

  /** A write fails or a message is lost. */
  predicate Disturbs(job: Job, s: State, e: Event) {
    Loses(job, s, e) || (Enabled(job, s, e) && FailsToWrite(s, e))
  }

  /** A read brings nothing, reconnecting included. */
  predicate ReadsNothing(job: Job, s: State, e: Event) {
    e.Read? && e.n <= 0 && Enabled(job, s, e)
  }

  lemma DoomedStep(job: Job, s: State, e: Event)
    requires Inv(job, s)
    ensures Doomed(Step(job, s, e)) <==> Doomed(s) || Disturbs(job, s, e)
    ensures Step(job, s, e).pc.GaveUp? <==> s.pc.GaveUp? || ReadsNothing(job, s, e)
  {
    hide InFlight, FileHolds, Modes;
    HangingStep(job, s, e);
  }

  predicate DisturbedAt(job: Job, events: seq<Event>, k: nat) {
    k < |events| && Disturbs(job, Run(job, events[..k]), events[k])
  }

  predicate NothingReadAt(job: Job, events: seq<Event>, k: nat) {
    k < |events| && ReadsNothing(job, Run(job, events[..k]), events[k])
  }

  lemma StartsUndoomed(job: Job)
    ensures !Doomed(Init(job)) && !Init(job).pc.GaveUp?
  {
  }

  lemma {:induction false} DoomedUpTo(job: Job, events: seq<Event>, n: nat)
    requires n <= |events|
    ensures Doomed(Run(job, events[..n])) <==> exists k: nat :: k < n && DisturbedAt(job, events, k)
    ensures Run(job, events[..n]).pc.GaveUp? <==> exists k: nat :: k < n && NothingReadAt(job, events, k)
    decreases n
  {
    hide Inv, Doomed, Disturbs, ReadsNothing, Step, Init;
    if n == 0 {
      StartsUndoomed(job);
    } else {
      var s, e := Run(job, events[..n - 1]), events[n - 1];
      DoomedUpTo(job, events, n - 1);
      RunInv(job, events[..n - 1]);
      DoomedStep(job, s, e);
      Snoc(job, events, n - 1);
      assert DisturbedAt(job, events, n - 1) <==> Disturbs(job, s, e);
      assert NothingReadAt(job, events, n - 1) <==> ReadsNothing(job, s, e);
    }
  }

  /**
   A download that has ended has succeeded iff nothing went wrong: every write succeeded, no message was
   lost and every read brought data. The reader has given up iff a read brought none.
   */
  lemma SucceedsIffUndisturbed(job: Job, events: seq<Event>)
    requires Ended(Run(job, events))
    ensures Succeeded(Run(job, events))
            <==> forall k: nat :: !DisturbedAt(job, events, k) && !NothingReadAt(job, events, k)
    ensures Run(job, events).pc.GaveUp? <==> exists k: nat :: NothingReadAt(job, events, k)
  {
    hide Run, InFlight, FileHolds, Modes, Disturbs, ReadsNothing;
    RunInv(job, events);
    DoomedUpTo(job, events, |events|);
    assert events[..|events|] == events;
    forall k: nat | DisturbedAt(job, events, k) || NothingReadAt(job, events, k) ensures k < |events| {
    }
  }

  // ---------------------------------------------------------------- one such schedule

  function HandOver(job: Job, s: State, n: nat): State {
    Step(job, Step(job, Step(job, s, Turn), Read(n)), Send(true))
  }

  function WriteOut(job: Job, s: State, n: nat): State {
    Step(job, Step(job, Step(job, Step(job, s, Copy), Write(true, n, true)), Answer(true)), Monitor)
  }

  /** The reader hands over a chunk of `n` bytes, and the other two answer before it goes on. */
  function Round(job: Job, s: State, n: nat): State {
    Step(job, Step(job, WriteOut(job, HandOver(job, s, n), n), Update), Check)
  }

  function Rounds(job: Job, s: State, sizes: seq<nat>): State
    decreases |sizes|
  {
    if sizes == [] then s else Rounds(job, Round(job, s, sizes[0]), sizes[1..])
  }

  function Sum(sizes: seq<nat>): nat {
    if sizes == [] then 0 else sizes[0] + Sum(sizes[1..])
  }

  predicate Ready(job: Job, s: State) {
    && s.pc.Loop? && s.response.Ok? && s.requests == [] && s.writer.Idle? && s.replies == []
    && s.downloaded + s.remaining == |job.body|
  }

  lemma HandOverDelivers(job: Job, s: State, n: nat)
    requires Ready(job, s) && 0 < n <= BUFFER_SIZE && n <= s.remaining
    ensures var t := HandOver(job, s, n);
            t == s.(pc := Updating(n), response := Wait, buffer := job.body[s.downloaded..s.downloaded + n],
                    requests := [Request(n, s.mode)])
  {
    var t := Step(job, Step(job, s, Turn), Read(n));
    assert [] + [Request(n, s.mode)] == [Request(n, s.mode)];
    assert t.requests == [];
  }

  lemma WriteOutDelivers(job: Job, s: State, n: nat)
    requires s.requests == [Request(n, s.mode)] && |s.buffer| == n && s.writer.Idle? && s.replies == []
    ensures var t := WriteOut(job, s, n);
            t == s.(requests := [], response := Ok, file := t.file, done := t.done)
  {
    var copied := Step(job, s, Copy);
    assert s.buffer[..n] == s.buffer;
    assert copied == s.(requests := [], writer := Copied(s.buffer, s.mode));
    var answered := Step(job, Step(job, copied, Write(true, n, true)), Answer(true));
    assert [] + [true] == [true] && [true][1..] == [];
    assert answered.replies == [true];
  }

  lemma RoundDelivers(job: Job, s: State, n: nat)
    requires Ready(job, s) && 0 < n <= BUFFER_SIZE && n <= s.remaining
    ensures Ready(job, Round(job, s, n)) && Round(job, s, n).remaining == s.remaining - n
  {
    hide HandOver, WriteOut;
    HandOverDelivers(job, s, n);
    WriteOutDelivers(job, HandOver(job, s, n), n);
  }

  lemma {:induction false} RoundsDeliver(job: Job, s: State, sizes: seq<nat>)
    requires Ready(job, s) && Sum(sizes) == s.remaining && forall i :: 0 <= i < |sizes| ==> 0 < sizes[i] <= BUFFER_SIZE
    ensures Ready(job, Rounds(job, s, sizes)) && Rounds(job, s, sizes).remaining == 0
    decreases |sizes|
  {
    hide Round;
    if sizes != [] {
      RoundDelivers(job, s, sizes[0]);
      RoundsDeliver(job, Round(job, s, sizes[0]), sizes[1..]);
    }
  }

  /** However the connection cuts the body, there is an undisturbed schedule that succeeds. */
  lemma InTurnScheduleSucceeds(job: Job, sizes: seq<nat>)
    requires Sum(sizes) == |job.body| && forall i :: 0 <= i < |sizes| ==> 0 < sizes[i] <= BUFFER_SIZE
    ensures Succeeded(Step(job, Step(job, Rounds(job, Init(job), sizes), Turn), Turn))
  {
    hide Rounds, Sum;
    RoundsDeliver(job, Init(job), sizes);
  }
}
