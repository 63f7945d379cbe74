/**
 Copying all files to the SD card (main/File_Manager_Actor.c, CpyAllFiles_JFS_To_SD): one request per
 file, and after an error again from the first file, at most three times.
 */
module CopyAll {
  datatype Outcome =
    | Completed
    | GivenUp   // a fourth error
    | CardLost  // the SD card did not come back after an error

  const MAX_RETRIES := 3

  /** How many of the first `k` replies are errors. */
  function Errors(replies: nat -> bool, k: nat): nat {
    if k == 0 then 0 else Errors(replies, k - 1) + if replies(k - 1) then 0 else 1
  }

  /** The requests before `k` whose reply is an error. */
  ghost function Failures(replies: nat -> bool, k: nat): set<nat> {
    set j: nat | j < k && !replies(j)
  }

  lemma {:induction false} ErrorsAreFailures(replies: nat -> bool, k: nat)
    ensures Errors(replies, k) == |Failures(replies, k)|
  {
    if k == 0 {
      assert Failures(replies, 0) == {};
    } else {
      ErrorsAreFailures(replies, k - 1);
      var before := Failures(replies, k - 1);
      assert Failures(replies, k) == if replies(k - 1) then before else before + {k - 1};
    }
  }

  /** The file that request `k` asks for. */
  function File(replies: nat -> bool, k: nat): nat {
    if k == 0 || !replies(k - 1) then 0 else File(replies, k - 1) + 1
  }

  /** Request `k` is made. */
  predicate Continues(n: nat, replies: nat -> bool, card: nat -> bool, k: nat) {
    && File(replies, k) < n && Errors(replies, k) <= MAX_RETRIES
    && (k > 0 && !replies(k - 1) ==> card(Errors(replies, k)))
  }

  lemma AtStart(replies: nat -> bool)
    ensures Errors(replies, 0) == File(replies, 0) == 0
  {
  }

  lemma AfterReply(replies: nat -> bool, k: nat)
    ensures Errors(replies, k + 1) == Errors(replies, k) + if replies(k) then 0 else 1
    ensures File(replies, k + 1) == if replies(k) then File(replies, k) + 1 else 0
  {
  }

  /** When file `n` would be next, the last `n` replies were successes, for files 0 .. n - 1 in order. */
  lemma {:induction false} LastRepliesWereSuccesses(replies: nat -> bool, k: nat, n: nat)
    requires n <= File(replies, k)
    ensures n <= k && forall j: nat :: k - n <= j < k ==> replies(j) && File(replies, j) == File(replies, k) - (k - j)
    decreases n
  {
    if n > 0 { LastRepliesWereSuccesses(replies, k - 1, n - 1); }
  }

  /** And only then. */
  lemma {:induction false} SuccessesCount(replies: nat -> bool, k: nat, n: nat)
    requires n <= k && File(replies, k - n) == 0 && forall j: nat :: k - n <= j < k ==> replies(j)
    ensures File(replies, k) == n
    decreases n
  {
    if n > 0 { SuccessesCount(replies, k - 1, n - 1); }
  }

  /** From request `start` on, which asks for file 0, all `n` files were copied. */
  predicate RoundSucceeds(n: nat, replies: nat -> bool, requests: nat, start: nat) {
    && start + n <= requests && File(replies, start) == 0
    && forall j: nat :: start <= j < start + n ==> replies(j)
  }

  /** After the last request file `n` would be next iff some round copied all files. */
  lemma CompletesIff(n: nat, replies: nat -> bool, card: nat -> bool, requests: nat)
    requires n > 0 && forall k: nat :: k < requests ==> Continues(n, replies, card, k)
    ensures File(replies, requests) == n <==> exists start: nat :: RoundSucceeds(n, replies, requests, start)
  {
    hide Errors, File;
    if File(replies, requests) == n {
      LastRepliesWereSuccesses(replies, requests, n);
      assert RoundSucceeds(n, replies, requests, requests - n);
    }
    if start: nat :| RoundSucceeds(n, replies, requests, start) {
      SuccessesCount(replies, start + n, n);
      assert start + n < requests ==> Continues(n, replies, card, start + n);
    }
  }

  /** Each round asks at most for `n` files. */
  lemma {:induction false} RequestsAreBounded(n: nat, replies: nat -> bool, card: nat -> bool, k: nat)
    requires forall j: nat :: j < k ==> Continues(n, replies, card, j)
    ensures k <= Errors(replies, k) * n + File(replies, k)
    ensures k <= (MAX_RETRIES + 1) * n
    decreases k
  {
    if k > 0 {
      RequestsAreBounded(n, replies, card, k - 1);
      assert Continues(n, replies, card, k - 1);
      RoundsAreBounded(n, Errors(replies, k - 1));
    } else {
      assert 0 * n == 0;
    }
  }

  lemma RoundsAreBounded(n: nat, e: nat)
    requires e <= MAX_RETRIES
    ensures (e + 1) * n == e * n + n && (e + 1) * n <= (MAX_RETRIES + 1) * n
  {
  }

  lemma Finish(n: nat, replies: nat -> bool, card: nat -> bool, requests: nat)
    requires n > 0 && forall k: nat :: k < requests ==> Continues(n, replies, card, k)
    ensures requests <= (MAX_RETRIES + 1) * n
    ensures File(replies, requests) == n <==> exists start: nat :: RoundSucceeds(n, replies, requests, start)
    ensures forall k: nat :: 0 < k < requests && !replies(k - 1) ==> card(Errors(replies, k))
    ensures File(replies, requests) == n ==> requests > 0 && replies(requests - 1)
    ensures Errors(replies, requests) == |Failures(replies, requests)| <= 4
    ensures File(replies, requests) == n ==> Errors(replies, requests) <= 3
  {
    ErrorsAreFailures(replies, requests);
    if requests > 0 {
      assert Continues(n, replies, card, requests - 1);
      AfterReply(replies, requests - 1);
    }
    forall k: nat | 0 < k < requests && !replies(k - 1) ensures card(Errors(replies, k)) {
      assert Continues(n, replies, card, k);
    }
    RequestsAreBounded(n, replies, card, requests);
    CompletesIff(n, replies, card, requests);
  }

  /**
   `replies(k)` tells whether the file of request `k` was copied, `card(e)` whether the card comes
   back after error `e`. The loop counts retries down first and files left second.
   */
  method CopyAllFiles(n: nat, replies: nat -> bool, card: nat -> bool) returns (outcome: Outcome, requests: seq<nat>)
    requires n > 0
    ensures forall k: nat :: k < |requests| ==> requests[k] == File(replies, k) && Continues(n, replies, card, k)
    ensures !Continues(n, replies, card, |requests|)
    ensures outcome == if File(replies, |requests|) == n then Completed
                       else if Errors(replies, |requests|) > MAX_RETRIES then GivenUp
                       else CardLost
    ensures outcome.GivenUp? <==> |Failures(replies, |requests|)| == 4
    ensures outcome.CardLost? <==>
              && 0 < |requests| && !replies(|requests| - 1)
              && Errors(replies, |requests|) <= MAX_RETRIES && !card(Errors(replies, |requests|))
    ensures forall k: nat :: 0 < k < |requests| && !replies(k - 1) ==> card(Errors(replies, k))
    ensures outcome.Completed? <==> exists start: nat :: RoundSucceeds(n, replies, |requests|, start)
    ensures |requests| <= (MAX_RETRIES + 1) * n
  {
    hide Errors, File, RoundSucceeds, Failures;
    AtStart(replies);
    requests := [];
    var i, retries := 0, 0;
    while i < n
      invariant i <= n
      invariant i == File(replies, |requests|)
      invariant retries == Errors(replies, |requests|) <= MAX_RETRIES
      invariant i < n ==> Continues(n, replies, card, |requests|)
      invariant forall k: nat :: k < |requests| ==> requests[k] == File(replies, k) && Continues(n, replies, card, k)
      decreases MAX_RETRIES - retries, n - i
    {
      AfterReply(replies, |requests|);
      var copied := replies(|requests|);
      requests := requests + [i];
      i := i + 1;
      if !copied {
        retries := retries + 1;
        if retries > MAX_RETRIES {
          Finish(n, replies, card, |requests|);
          return GivenUp, requests;
        }
        i := 0;
        if !card(retries) {
          Finish(n, replies, card, |requests|);
          return CardLost, requests;
        }
      }
    }
    Finish(n, replies, card, |requests|);
    return Completed, requests;
  }
}
