/**
 Reading the next chunk of a download (main/HTTP_Actor.c, http_stream_reader): if the connection has
 no data it is opened again, and the bytes that were already delivered are read once more and dropped.
 The remote body does not change.
 */
module HttpReader {
  import opened Common

  const RETRIES := 5

  /** What the network answers while reconnecting: in attempt `r`, and there to read `i`. */
  datatype Network = Network(
    inits: nat -> bool, opens: nat -> bool, status: nat -> int,
    skips: (nat, nat) -> int, last: nat -> int)

  /** How much the code asks for while it skips, with `count` bytes to go. */
  function SkipRequest(count: nat, remaining: nat): (n: nat)
    requires count > 0 && remaining > 0
    ensures 0 < n <= count && n <= BUFFER_SIZE
    ensures n < count <= BUFFER_SIZE ==> n == count - remaining
    ensures n == count ==> count <= remaining
  {
    if count > BUFFER_SIZE then BUFFER_SIZE
    else if count > remaining then count - remaining
    else count
  }

  /** Attempt `r` reaches the body and has data to read. */
  predicate Connects(network: Network, r: nat) {
    network.inits(r) && network.opens(r) && network.status(r) == 200 && network.last(r) > 0
  }

  /** And it never stalls on the way to where it left off. */
  ghost predicate Flows(network: Network, r: nat) {
    Connects(network, r) && forall i: nat :: network.skips(r, i) > 0
  }

  class Reader {
    const body: seq<bv8>
    const buffer: array<bv8>
    var position: nat  // bytes taken from the current connection

    ghost predicate Valid()
      reads this
    {
      buffer.Length == BUFFER_SIZE && position <= |body|
    }

    constructor (body: seq<bv8>)
      ensures Valid() && this.body == body && fresh(buffer) && position == 0
    {
      this.body := body;
      buffer := new bv8[BUFFER_SIZE];
      position := 0;
    }

    /** `answer` is what the connection has to give; it is cut to what was asked for and what there is. */
    method Read(max: nat, answer: int) returns (n: int)
      requires Valid() && max <= BUFFER_SIZE
      modifies this`position, buffer
      ensures Valid() && n <= max
      ensures n <= 0 ==> position == old(position)
      ensures n > 0 <==> answer > 0 && max > 0 && old(position) < |body|
      ensures n > 0 ==> position == old(position) + n && buffer[..n] == body[old(position)..position]
    {
      n := if answer > max then max else answer;
      if n > |body| - position {
        n := |body| - position;
      }
      if n <= 0 {
        return;
      }
      for i := 0 to n
        invariant position == old(position)
        invariant forall j :: 0 <= j < i ==> buffer[j] == body[position + j]
      {
        buffer[i] := body[position + i];
      }
      position := position + n;
    }

    /** Reads what was already delivered. It never reads beyond, and leaves nothing iff it arrives exactly there. */
    method Skip(downloaded: nat, remaining: nat, answers: nat -> int) returns (left: nat)
      requires Valid() && position == 0 && remaining > 0 && downloaded <= |body|
      modifies this`position, buffer
      ensures Valid() && left <= downloaded && position == downloaded - left
      ensures (forall i: nat :: answers(i) > 0) ==> left == 0
    {
      left := downloaded;
      var i := 0;
      while left > 0
        invariant Valid() && left <= downloaded && position == downloaded - left && downloaded <= |body|
      {
        var n := Read(SkipRequest(left, remaining), answers(i));
        if n <= 0 {
          break;
        }
        left := left - n;
        i := i + 1;
      }
    }

    /** One attempt to go on with a new connection. */
    method Reconnect(downloaded: nat, remaining: nat, network: Network, retry: nat) returns (n: int)
      requires Valid() && downloaded + remaining == |body| && remaining > 0
      modifies this`position, buffer
      ensures Valid() && n <= remaining && n <= BUFFER_SIZE
      ensures n > 0 ==> position == downloaded + n && buffer[..n] == body[downloaded..downloaded + n]
      ensures n > 0 ==> Connects(network, retry)
      ensures Flows(network, retry) ==> n > 0
    {
      n := 0;
      if !network.inits(retry) || !network.opens(retry) {
        return;
      }
      position := 0;
      if network.status(retry) == 200 {
        var left := Skip(downloaded, remaining, (i: nat) => network.skips(retry, i));
        if left == 0 {
          n := Read(BUFFER_SIZE, network.last(retry));
        }
      }
    }

    /** The next chunk of the body, or no more than 0 after the last retry. */
    method ReadChunk(downloaded: nat, remaining: nat, first: int, network: Network) returns (n: int)
      requires Valid() && position == downloaded && downloaded + remaining == |body| && remaining > 0
      modifies this`position, buffer
      ensures Valid() && n <= remaining && n <= BUFFER_SIZE
      ensures n > 0 ==> position == downloaded + n && buffer[..n] == body[downloaded..downloaded + n]
      ensures first > 0 || (exists r: nat :: r < RETRIES && Flows(network, r)) ==> n > 0
      ensures n > 0 ==> first > 0 || exists r: nat :: r < RETRIES && Connects(network, r)
    {
      n := Read(BUFFER_SIZE, first);
      var retry := 0;
      while n <= 0 && retry < RETRIES
        invariant Valid() && retry <= RETRIES && n <= remaining && n <= BUFFER_SIZE
        invariant n > 0 ==> position == downloaded + n && buffer[..n] == body[downloaded..downloaded + n]
        invariant first > 0 ==> n > 0
        invariant n <= 0 ==> forall r: nat :: r < retry ==> !Flows(network, r)
        invariant n > 0 ==> first > 0 || exists r: nat :: r < retry && Connects(network, r)
        decreases RETRIES - retry
      {
        n := Reconnect(downloaded, remaining, network, retry);
        retry := retry + 1;
      }
    }
  }
}
