/**
 Non-blocking sockets as adversaries.

 The operating system decides how much every call transfers and when a call
 blocks, is interrupted or fails.  Its decisions are a finite plan, one step a
 call; once the plan is used up every call would block.  A theorem that holds for
 every plan holds on every schedule.
 */
module Sockets {
  import opened Bytes

  datatype ReadStep = Deliver(n: nat) | ReadBlock | ReadInterrupt | ReadReset

  /** What recv() reports: a count, 0, or -1 with errno EAGAIN, EINTR or anything else. */
  datatype Received = Octets(n: nat) | EndOfStream | WouldBlock | Interrupted | Broken

  /** The receiving half: the peer sends `stream` and then shuts its side down. */
  class Inbound {
    const stream: Octets
    var taken: nat
    var plan: seq<ReadStep>

    ghost predicate Valid()
      reads this
    {
      taken <= |stream|
    }

    constructor (stream: Octets, plan: seq<ReadStep>)
      ensures Valid() && this.stream == stream && taken == 0 && this.plan == plan
    {
      this.stream, this.taken, this.plan := stream, 0, plan;
    }

    method Recv(buf: array<byte>, at: nat, want: nat) returns (r: Received)
      requires Valid() && 0 < want && at + want <= buf.Length
      modifies this, buf
      ensures Valid()
      ensures plan == if old(plan) == [] then [] else old(plan)[1..]
      ensures r.Octets? ==> 0 < r.n <= want && taken == old(taken) + r.n
      ensures r.Octets? ==> buf[..] == old(buf[..at]) + stream[old(taken)..taken] + old(buf[at + r.n..])
      ensures !r.Octets? ==> taken == old(taken) && buf[..] == old(buf[..])
      ensures old(plan) == [] ==> r.WouldBlock?
      ensures old(plan) != [] ==> Agrees(old(plan)[0], r)
      ensures r.EndOfStream? ==> taken == |stream|
    {
      if plan == [] {
        return WouldBlock;
      }
      var step := plan[0];
      plan := plan[1..];
      match step
      case ReadBlock => return WouldBlock;
      case ReadInterrupt => return Interrupted;
      case ReadReset => return Broken;
      case Deliver(k) =>
        if taken == |stream| {
          return EndOfStream;
        }
        var left := |stream| - taken;
        var n := if k == 0 then 1 else k;
        n := if n < want then n else want;
        n := if n < left then n else left;
        forall i | 0 <= i < n {
          buf[at + i] := stream[taken + i];
        }
        taken := taken + n;
        return Received.Octets(n);
    }
  }

  predicate Agrees(step: ReadStep, r: Received)
  {
    match step
    case Deliver(_) => r.Octets? || r.EndOfStream?
    case ReadBlock => r.WouldBlock?
    case ReadInterrupt => r.Interrupted?
    case ReadReset => r.Broken?
  }

  /** The plan went from `before` to `after`. */
  ghost predicate Consumed(before: seq<ReadStep>, after: seq<ReadStep>)
  {
    |after| <= |before| && after == before[|before| - |after|..]
  }

  /** The last decision taken was `step`. */
  ghost predicate LastWas(before: seq<ReadStep>, after: seq<ReadStep>, step: ReadStep)
  {
    Consumed(before, after) && after != before && before[|before| - |after| - 1] == step
  }

  /** Reading stopped because the socket had nothing: it said so, or the plan is over. */
  ghost predicate Starved(before: seq<ReadStep>, after: seq<ReadStep>)
  {
    Consumed(before, after) && (after == [] || LastWas(before, after, ReadBlock))
  }

  /** Reading stopped because the stream is over or the connection was reset. */
  ghost predicate Ended(before: seq<ReadStep>, after: seq<ReadStep>, atEnd: bool)
  {
    Consumed(before, after) && (atEnd || LastWas(before, after, ReadReset))
  }

  /** At some point the socket had nothing. */
  ghost predicate HasBlocked(before: seq<ReadStep>, after: seq<ReadStep>)
  {
    Consumed(before, after) && (after == [] || ReadBlock in before[..|before| - |after|])
  }

  lemma BlockedOnTheWay(before: seq<ReadStep>, middle: seq<ReadStep>, after: seq<ReadStep>)
    requires Consumed(before, middle) && Consumed(middle, after)
    ensures Consumed(before, after)
    ensures HasBlocked(before, middle) || Starved(middle, after) ==> HasBlocked(before, after)
  {
    var k, m := |before| - |middle|, |before| - |after|;
    assert before[..k] <= before[..m];
    if Starved(middle, after) && after != [] {
      assert middle[|middle| - |after| - 1] == before[m - 1] == before[..m][m - 1];
    }
  }

  lemma ConsumedInTwoSteps(before: seq<ReadStep>, middle: seq<ReadStep>, after: seq<ReadStep>, step: ReadStep)
    requires Consumed(before, middle) && Consumed(middle, after)
    ensures Consumed(before, after)
    ensures LastWas(middle, after, step) ==> LastWas(before, after, step)
  {
    if LastWas(middle, after, step) {
      assert middle[|middle| - |after| - 1] == before[|before| - |after| - 1];
    }
  }

  datatype WriteStep = Accept(n: nat) | WriteBlock | WriteInterrupt | WriteReset

  datatype Sent = Count(n: nat) | SendBlocked | SendInterrupted | SendFailed
  {
    /** errno is EAGAIN, EWOULDBLOCK or EINTR: nothing was sent and nothing is wrong. */
    predicate Retry() { SendBlocked? || SendInterrupted? }
  }

  /** Linux moves at most this many octets in one call, so the count fits an int. */
  const MAX_TRANSFER: nat := 0x7fff_f000

  /** The operating system's answer to an attempt to send `len` octets. */
  function Decide(plan: seq<WriteStep>, len: nat): (r: Sent)
    ensures r.Count? ==> r.n <= len
  {
    if plan == [] then SendBlocked
    else match plan[0]
      case WriteBlock => SendBlocked
      case WriteInterrupt => SendInterrupted
      case WriteReset => SendFailed
      case Accept(k) =>
        var n := if k < len then k else len;
        Count(if n < MAX_TRANSFER then n else MAX_TRANSFER)
  }

  /** The sending half: `wire` is everything the operating system has taken. */
  class Outbound {
    var wire: Octets
    var plan: seq<WriteStep>

    constructor (plan: seq<WriteStep>)
      ensures wire == [] && this.plan == plan
    {
      this.wire, this.plan := [], plan;
    }

    method Send(buf: array<byte>, at: nat, len: nat) returns (r: Sent)
      requires at + len <= buf.Length
      modifies this
      ensures r == Decide(old(plan), len)
      ensures plan == if old(plan) == [] then [] else old(plan)[1..]
      ensures wire == old(wire) + if r.Count? then buf[at..at + r.n] else []
    {
      r := Decide(plan, len);
      plan := if plan == [] then [] else plan[1..];
      if r.Count? {
        wire := wire + buf[at..at + r.n];
      }
    }
  }
}
