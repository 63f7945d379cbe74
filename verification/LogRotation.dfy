/**
 The two-file logs (main/JFS_FLASH_Actor.c, Save_Audit_log and Save_Event_log): when the current log
 is over its limit it becomes the old log, and then the entry is appended. Every file operation may
 fail; an append writes the whole entry or nothing.
 */
module LogRotation {
  datatype RemoveResult = Removed | NotFound | RemoveError

  datatype RenameResult = Renamed | IsOpen | RenameError

  /** One request and what the file system answers to it. */
  datatype Request =
    | Save(entry: string, found: bool, lowSpace: bool, remove: RemoveResult, rename: nat -> RenameResult, appends: bool)
    | DropOld(dropped: bool)  // a firmware download makes room by deleting the old audit log

  /** The entries of the old and of the current log. */
  datatype State = State(previous: seq<string>, current: seq<string>)

  const EMPTY := State([], [])

  const MAX_RETRIES := 3

  function Size(entries: seq<string>): nat {
    if entries == [] then 0 else Size(entries[..|entries| - 1]) + |entries[|entries| - 1]|
  }

  /** The size the search of the directory reports; a search that fails reports none. */
  predicate NeedsRotation(s: State, r: Request, limit: nat)
    requires r.Save?
  {
    (r.found && Size(s.current) > limit) || r.lowSpace
  }

  /** The first answer to renaming other than "file is open", which is retried; `IsOpen` if there is none in time. */
  function RenameOutcome(rename: nat -> RenameResult, attempt: nat): RenameResult
    requires attempt <= MAX_RETRIES
    decreases MAX_RETRIES - attempt
  {
    if attempt == MAX_RETRIES then IsOpen
    else if rename(attempt) == IsOpen then RenameOutcome(rename, attempt + 1)
    else rename(attempt)
  }

  function Rotated(s: State, r: Request): State
    requires r.Save?
  {
    var t := if r.remove.Removed? then State([], s.current) else s;
    if RenameOutcome(r.rename, 0).Renamed? then State(t.current, []) else t
  }

  /** The entry is given up if the old log cannot be removed, or the current one stays open. */
  predicate GivesUp(r: Request)
    requires r.Save?
  {
    r.remove.RemoveError? || RenameOutcome(r.rename, 0).IsOpen?
  }

  predicate Accepts(s: State, r: Request, limit: nat) {
    r.Save? && r.appends && !(NeedsRotation(s, r, limit) && GivesUp(r))
  }

  function Step(s: State, r: Request, limit: nat): State {
    if r.DropOld? then if r.dropped then State([], s.current) else s
    else
      var t := if !NeedsRotation(s, r, limit) || r.remove.RemoveError? then s else Rotated(s, r);
      if Accepts(s, r, limit) then State(t.previous, t.current + [r.entry]) else t
  }

  class LogFiles {
    const limit: nat
    var previous: seq<string>
    var current: seq<string>

    ghost function Abstract(): State
      reads this
    {
      State(previous, current)
    }

    constructor (limit: nat)
      ensures this.limit == limit && Abstract() == EMPTY
    {
      this.limit := limit;
      previous, current := [], [];
    }

    method SaveLog(r: Request)
      requires r.Save?
      modifies this
      ensures Abstract() == Step(old(Abstract()), r, limit)
    {
      var fileSize := 0;
      if r.found {
        fileSize := Size(current);
      }
      if fileSize > limit || r.lowSpace {
        if r.remove.RemoveError? {
          return;
        }
        if r.remove.Removed? {
          previous := [];
        }
        var retries, renamed, failed := 0, false, false;
        while retries < MAX_RETRIES && !renamed && !failed
          invariant retries <= MAX_RETRIES && !(renamed && failed)
          invariant renamed || failed ==> retries < MAX_RETRIES
          invariant RenameOutcome(r.rename, 0) == if renamed then Renamed else if failed then RenameError else RenameOutcome(r.rename, retries)
          decreases MAX_RETRIES - retries, !renamed && !failed
        {
          match r.rename(retries) {
            case Renamed => renamed := true;
            case IsOpen => retries := retries + 1;
            case RenameError => failed := true;
          }
        }
        if renamed {
          previous, current := current, [];
        }
        if retries >= MAX_RETRIES {
          return;
        }
      }
      if r.appends {
        current := current + [r.entry];
      }
    }

    method DropOldLog(dropped: bool)
      modifies this
      ensures Abstract() == Step(old(Abstract()), DropOld(dropped), limit)
    {
      if dropped {
        previous := [];
      }
    }
  }

  // ---------------------------------------------------------------- runs

  function Run(s: State, requests: seq<Request>, limit: nat): State {
    if |requests| == 0 then s else Step(Run(s, requests[..|requests| - 1], limit), requests[|requests| - 1], limit)
  }

  /** The entries that were appended, in order. */
  function Accepted(s: State, requests: seq<Request>, limit: nat): seq<string> {
    if |requests| == 0 then []
    else
      var n := |requests| - 1;
      Accepted(s, requests[..n], limit)
      + if Accepts(Run(s, requests[..n], limit), requests[n], limit) then [requests[n].entry] else []
  }

  predicate IsSuffix(a: seq<string>, b: seq<string>) {
    |a| <= |b| && b[|b| - |a|..] == a
  }

  function Entries(s: State): seq<string> { s.previous + s.current }

  /** Three attempts find the current log open. */
  predicate OpenThroughout(rename: nat -> RenameResult) {
    rename(0) == IsOpen && rename(1) == IsOpen && rename(2) == IsOpen
  }

  lemma ThreeAttempts(rename: nat -> RenameResult)
    ensures RenameOutcome(rename, 0)
            == if rename(0) != IsOpen then rename(0) else if rename(1) != IsOpen then rename(1) else rename(2)
  {
    assert RenameOutcome(rename, 2) == rename(2);
    assert RenameOutcome(rename, 1) == if rename(1) != IsOpen then rename(1) else rename(2);
  }

  /** The append fails, or the log is too long or the space too low and the old log cannot be removed or the current one stays open. */
  predicate Refuses(s: State, r: Request, limit: nat)
    requires r.Save?
  {
    || !r.appends
    || (((r.found && Size(s.current) > limit) || r.lowSpace) && (r.remove == RemoveError || OpenThroughout(r.rename)))
  }

  /** An entry is added to the current log, rotated before or not, iff it is not refused; otherwise nothing is added. */
  lemma AddedIffNotRefused(s: State, r: Request, limit: nat)
    requires r.Save?
    ensures Accepts(s, r, limit) <==> !Refuses(s, r, limit)
    ensures !Refuses(s, r, limit)
            ==> Step(s, r, limit).current == s.current + [r.entry] || Step(s, r, limit) == State(s.current, [r.entry])
                || Step(s, r, limit) == State([], s.current + [r.entry])
    ensures Refuses(s, r, limit)
            ==> Step(s, r, limit).current == s.current || Step(s, r, limit) == State(s.current, [])
  {
    hide Size, RenameOutcome;
    ThreeAttempts(r.rename);
    assert [] + [r.entry] == [r.entry];
  }

  /** A log within its limit, with space left, takes the entry and keeps everything. */
  lemma SmallLogTakesTheEntry(s: State, r: Request, limit: nat)
    requires r.Save? && r.appends && Size(s.current) <= limit && !r.lowSpace
    ensures Step(s, r, limit) == State(s.previous, s.current + [r.entry])
  {
    hide Size, RenameOutcome;
  }

  /** A log that is too long, or one with too little space left, becomes the old log iff that can be removed and the renaming succeeds. */
  lemma FullLogIsRotated(s: State, r: Request, limit: nat)
    requires r.Save? && ((r.found && Size(s.current) > limit) || r.lowSpace) && r.remove != RemoveError
    requires r.rename(0) == Renamed || (r.rename(0) == IsOpen && r.rename(1) == Renamed)
             || (r.rename(0) == IsOpen && r.rename(1) == IsOpen && r.rename(2) == Renamed)
    ensures Step(s, r, limit) == State(s.current, if r.appends then [r.entry] else [])
  {
    hide Size, RenameOutcome;
    ThreeAttempts(r.rename);
    assert [] + [r.entry] == [r.entry];
  }

  /** Without a rotation the old log stays unless it was removed for one, or dropped for a download. */
  lemma OldLogStaysUnlessRemoved(s: State, r: Request, limit: nat)
    requires r.Save? ==> r.remove == RemoveError || RenameOutcome(r.rename, 0) != Renamed
    ensures Step(s, r, limit).previous
            == if (if r.DropOld? then r.dropped
                   else ((r.found && Size(s.current) > limit) || r.lowSpace) && r.remove == Removed) then [] else s.previous
  {
    hide Size, RenameOutcome;
  }

  lemma SuffixOfSum(a: seq<string>, b: seq<string>)
    ensures IsSuffix(b, a + b) && IsSuffix(b, b)
  {
  }

  lemma SuffixChain(a: seq<string>, b: seq<string>, c: seq<string>, more: seq<string>)
    requires IsSuffix(a, b + more) && IsSuffix(b, c)
    ensures IsSuffix(a, c + more)
  {
    var d := c + more;
    assert d[|c| - |b|..] == b + more;
    assert d[|d| - |a|..] == (b + more)[|b + more| - |a|..];
  }

  function Added(s: State, r: Request, limit: nat): seq<string> {
    if Accepts(s, r, limit) then [r.entry] else []
  }

  /** One request keeps a suffix, and at least the current log with what it adds. */
  lemma StepKeeps(s: State, r: Request, limit: nat)
    ensures IsSuffix(Entries(Step(s, r, limit)), Entries(s) + Added(s, r, limit))
    ensures IsSuffix(s.current + Added(s, r, limit), Entries(Step(s, r, limit)))
  {
    hide Size, RenameOutcome;
    var added := Added(s, r, limit);
    assert Entries(s) + added == s.previous + (s.current + added);
    SuffixOfSum(s.previous, s.current + added);
    assert [] + (s.current + added) == s.current + added;
    assert s.current + ([] + added) == s.current + added;
    assert Entries(Step(s, r, limit)) == Entries(s) + added || Entries(Step(s, r, limit)) == s.current + added;
  }

  /** Under any failures, the old log followed by the current one is what was accepted last, without a gap. */
  lemma {:induction false} LogsAreASuffix(requests: seq<Request>, limit: nat)
    ensures IsSuffix(Entries(Run(EMPTY, requests, limit)), Accepted(EMPTY, requests, limit))
    decreases |requests|
  {
    hide Step, IsSuffix, Entries;
    if |requests| == 0 {
      EmptyIsSuffix();
    } else {
      var n := |requests| - 1;
      var s := Run(EMPTY, requests[..n], limit);
      LogsAreASuffix(requests[..n], limit);
      StepKeeps(s, requests[n], limit);
      SuffixChain(Entries(Step(s, requests[n], limit)), Entries(s), Accepted(EMPTY, requests[..n], limit), Added(s, requests[n], limit));
    }
  }

  /** The entries of all requests. */
  function AllEntries(requests: seq<Request>): seq<string> {
    if |requests| == 0 then []
    else AllEntries(requests[..|requests| - 1]) + if requests[|requests| - 1].Save? then [requests[|requests| - 1].entry] else []
  }

  /** Removing, renaming and appending succeed, the renaming perhaps not at once. */
  predicate Succeeds(r: Request) {
    r.Save? ==> r.appends && r.remove != RemoveError && !OpenThroughout(r.rename)
  }

  lemma {:induction false} AllAreAccepted(requests: seq<Request>, limit: nat)
    requires forall k :: 0 <= k < |requests| ==> Succeeds(requests[k])
    ensures Accepted(EMPTY, requests, limit) == AllEntries(requests)
    decreases |requests|
  {
    hide Accepts, Run;
    if |requests| > 0 {
      var n := |requests| - 1;
      AllAreAccepted(requests[..n], limit);
      assert Succeeds(requests[n]);
      if requests[n].Save? {
        AddedIffNotRefused(Run(EMPTY, requests[..n], limit), requests[n], limit);
      } else {
        OnlySavesAreAccepted(Run(EMPTY, requests[..n], limit), requests[n], limit);
      }
    }
  }

  /** In a run whose file operations succeed the two logs hold the last of all entries that were sent. */
  lemma NothingIsRefused(requests: seq<Request>, limit: nat)
    requires forall k :: 0 <= k < |requests| ==> Succeeds(requests[k])
    ensures IsSuffix(Entries(Run(EMPTY, requests, limit)), AllEntries(requests))
  {
    hide *;
    LogsAreASuffix(requests, limit);
    AllAreAccepted(requests, limit);
  }

  lemma EmptyIsSuffix()
    ensures IsSuffix(Entries(EMPTY), [])
  {
  }

  // ---------------------------------------------------------------- the size of the current log

  lemma SizeGrows(entries: seq<string>, entry: string)
    ensures Size(entries + [entry]) == Size(entries) + |entry|
  {
    assert (entries + [entry])[..|entries|] == entries;
  }

  lemma NothingIsEmpty()
    ensures Size([]) == 0
  {
  }

  /** The log is not found, or renaming it fails for good; a file that stays open is not such a failure. */
  predicate KeepsFullLog(r: Request)
    requires r.Save?
  {
    (!r.found && !r.lowSpace) || RenameOutcome(r.rename, 0).RenameError?
  }

  /** An entry leaves the current log more than itself over the limit iff the log was over it before and is not rotated. */
  lemma OverrunIff(s: State, r: Request, limit: nat)
    requires Accepts(s, r, limit)
    ensures Size(Step(s, r, limit).current) > limit + |r.entry| <==> Size(s.current) > limit && KeepsFullLog(r)
  {
    hide RenameOutcome, Size;
    NothingIsEmpty();
    SizeGrows(s.current, r.entry);
    SizeGrows([], r.entry);
  }

  /** Request `k` adds to a current log that is over the limit. */
  predicate OverrunsAt(requests: seq<Request>, limit: nat, k: nat) {
    && k < |requests| && Accepts(Run(EMPTY, requests[..k], limit), requests[k], limit)
    && Size(Run(EMPTY, requests[..k], limit).current) > limit && KeepsFullLog(requests[k])
  }

  lemma RunPrefix(s: State, requests: seq<Request>, limit: nat, k: nat)
    requires k < |requests|
    ensures Run(s, requests[..k + 1], limit) == Step(Run(s, requests[..k], limit), requests[k], limit)
  {
    hide Step;
    assert requests[..k + 1][..k] == requests[..k];
  }

  lemma StepSize(s: State, r: Request, limit: nat)
    ensures Size(Step(s, r, limit).current) <= Size(s.current) + if r.Save? then |r.entry| else 0
    ensures !Accepts(s, r, limit) ==> Size(Step(s, r, limit).current) <= Size(s.current)
    ensures Accepts(s, r, limit) && !(Size(s.current) > limit && KeepsFullLog(r))
            ==> Size(Step(s, r, limit).current) <= limit + |r.entry|
  {
    hide RenameOutcome, Size;
    NothingIsEmpty();
    if r.Save? {
      SizeGrows(s.current, r.entry);
      SizeGrows([], r.entry);
    }
  }

  ghost predicate EntriesAtMost(requests: seq<Request>, longest: nat) {
    forall k :: 0 <= k < |requests| && requests[k].Save? ==> |requests[k].entry| <= longest
  }

  /** In every run, unless some request overran it, the current log exceeds the limit by at most one entry. */
  lemma {:induction false} BoundedUpTo(requests: seq<Request>, limit: nat, longest: nat, n: nat)
    requires n <= |requests| && EntriesAtMost(requests, longest)
    requires forall k: nat :: k < n ==> !OverrunsAt(requests, limit, k)
    ensures Size(Run(EMPTY, requests[..n], limit).current) <= limit + longest
    decreases n
  {
    hide Size, Step, Accepts, KeepsFullLog;
    if n == 0 {
      NothingIsEmpty();
    } else {
      BoundedUpTo(requests, limit, longest, n - 1);
      RunPrefix(EMPTY, requests, limit, n - 1);
      StepSize(Run(EMPTY, requests[..n - 1], limit), requests[n - 1], limit);
      assert !OverrunsAt(requests, limit, n - 1);
      OnlySavesAreAccepted(Run(EMPTY, requests[..n - 1], limit), requests[n - 1], limit);
    }
  }

  lemma OnlySavesAreAccepted(s: State, r: Request, limit: nat)
    ensures Accepts(s, r, limit) ==> r.Save?
  {
  }

  lemma CurrentLogIsBounded(requests: seq<Request>, limit: nat, longest: nat)
    requires EntriesAtMost(requests, longest)
    ensures Size(Run(EMPTY, requests, limit).current) <= limit + longest
            || exists k: nat :: OverrunsAt(requests, limit, k)
  {
    if forall k: nat :: k < |requests| ==> !OverrunsAt(requests, limit, k) {
      BoundedUpTo(requests, limit, longest, |requests|);
      assert requests[..|requests|] == requests;
    }
  }

  // ---------------------------------------------------------------- growing without bound

  /** The request rotates a log that is over its limit. */
  predicate RotatesFull(r: Request) {
    r.Save? && (r.found || r.lowSpace) && !r.remove.RemoveError? && RenameOutcome(r.rename, 0).Renamed?
  }

  lemma UnrotatedStep(s: State, r: Request, limit: nat)
    requires Size(s.current) > limit && !RotatesFull(r)
    ensures Step(s, r, limit).current == s.current + Added(s, r, limit)
    ensures Size(Step(s, r, limit).current) > limit
  {
    hide RenameOutcome, Size;
    assert s.current + [] == s.current;
    if r.Save? { SizeGrows(s.current, r.entry); }
  }

  /** What a rotation leaves is shorter than what was there and what was added. */
  lemma RotatedStep(s: State, r: Request, limit: nat)
    requires Size(s.current) > limit && RotatesFull(r)
    ensures |Step(s, r, limit).current| < |s.current| + |Added(s, r, limit)|
  {
    hide RenameOutcome;
    if s.current == [] { NothingIsEmpty(); }
  }

  lemma StepLength(s: State, r: Request, limit: nat)
    ensures |Step(s, r, limit).current| <= |s.current| + |Added(s, r, limit)|
  {
    hide RenameOutcome, Size;
  }

  lemma AcceptedPrefix(s: State, requests: seq<Request>, limit: nat, k: nat)
    requires k < |requests|
    ensures Accepted(s, requests[..k + 1], limit)
            == Accepted(s, requests[..k], limit) + Added(Run(s, requests[..k], limit), requests[k], limit)
  {
    hide Run, Accepts;
    assert requests[..k + 1][..k] == requests[..k];
  }

  lemma NoRequests(s: State, requests: seq<Request>, limit: nat)
    ensures Run(s, requests[..0], limit) == s && Accepted(s, requests[..0], limit) == []
  {
  }

  lemma {:induction false} GrowsUpTo(s: State, requests: seq<Request>, limit: nat, n: nat)
    requires Size(s.current) > limit && n <= |requests|
    ensures var t, added := Run(s, requests[..n], limit), Accepted(s, requests[..n], limit);
            if forall k: nat :: k < n ==> !RotatesFull(requests[k])
            then t.current == s.current + added && Size(t.current) > limit
            else |t.current| < |s.current| + |added|
    decreases n
  {
    hide Run, Accepted, Added, Step, RotatesFull, Size;
    if n == 0 {
      NoRequests(s, requests, limit);
      assert s.current + [] == s.current;
    } else {
      var before, r := Run(s, requests[..n - 1], limit), requests[n - 1];
      var added := Accepted(s, requests[..n - 1], limit);
      GrowsUpTo(s, requests, limit, n - 1);
      RunPrefix(s, requests, limit, n - 1);
      AcceptedPrefix(s, requests, limit, n - 1);
      StepLength(before, r, limit);
      if forall k: nat :: k < n - 1 ==> !RotatesFull(requests[k]) {
        if RotatesFull(r) {
          RotatedStep(before, r, limit);
        } else {
          UnrotatedStep(before, r, limit);
          assert s.current + added + Added(before, r, limit) == s.current + (added + Added(before, r, limit));
        }
      }
    }
  }

  /**
   A current log that is over its limit keeps everything and takes every accepted entry, so it grows
   without bound, iff no request finds it (or finds too little space), removes the old log and renames it.
   A renaming that fails for good and a search that fails are no reason to give an entry up.
   */
  lemma GrowsWithoutBoundIff(s: State, requests: seq<Request>, limit: nat)
    requires Size(s.current) > limit
    ensures Run(s, requests, limit).current == s.current + Accepted(s, requests, limit)
            <==> forall k: nat :: k < |requests| ==> !RotatesFull(requests[k])
  {
    hide Run, Accepted, RotatesFull, Size;
    GrowsUpTo(s, requests, limit, |requests|);
    assert requests[..|requests|] == requests;
  }

  /** If the old log was removed before each failed renaming, it is gone, and no entry was refused. */
  lemma {:induction false} FailedRenamingGrowsWithoutBound(s: State, requests: seq<Request>, limit: nat)
    requires Size(s.current) > limit && |requests| > 0
    requires forall k :: 0 <= k < |requests| ==> StuckRequest(requests[k])
    ensures Run(s, requests, limit).previous == []
    ensures Size(Run(s, requests, limit).current) == Size(s.current) + Size(Accepted(s, requests, limit))
    ensures |Accepted(s, requests, limit)| == |requests|
    decreases |requests|
  {
    hide RenameOutcome, Size;
    var n := |requests| - 1;
    var before, r := Run(s, requests[..n], limit), requests[n];
    if n == 0 {
      assert |requests[..0]| == 0;
      NothingIsEmpty();
    } else {
      FailedRenamingGrowsWithoutBound(s, requests[..n], limit);
    }
    assert StuckRequest(r);
    SizeGrows(before.current, r.entry);
    SizeGrows(Accepted(s, requests[..n], limit), r.entry);
  }

  predicate StuckRequest(r: Request) {
    r.Save? && r.found && r.remove.Removed? && RenameOutcome(r.rename, 0).RenameError? && r.appends
  }
}
