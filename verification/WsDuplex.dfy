/**
 Both directions of one WebSocket over one socket: ws_read, ws_write, ws_dprintf and the
 event loop's flushes in any order.  A Close that ws_read sends goes past the write queue.
 */
module WsDuplex {
  import opened Bytes
  import opened HostOrder
  import opened FrameFormat
  import opened Sockets
  import opened WsFlags
  import opened WsReader
  import opened WriteQueue
  import opened WireEnd
  import opened WsRuns
  import WsWriter

  datatype Act = Reading | Writing(op: Op)

  /** How a run ends: it is still open, the write side has died, or ws_read has sent a Close. */
  datatype End = Open | Died | Closed(status: nat)

  /** The status of the Close that may stand at the end of the wire. */
  function Status(e: End): nat
  {
    if e.Closed? then e.status else 1008
  }

  function Writes(acts: seq<Act>): (ops: seq<Op>)
  {
    if acts == [] then []
    else Writes(acts[..|acts| - 1]) + if acts[|acts| - 1].Writing? then [acts[|acts| - 1].op] else []
  }

  predicate Modest(acts: seq<Act>)
  {
    forall a :: a in acts && a.Writing? && a.op.Send? ==> |a.op.payload| < TWO_TO_THE_64
  }

  lemma {:induction false} BoundedWrites(acts: seq<Act>)
    requires Modest(acts)
    ensures Bounded(Writes(acts))
  {
    if acts != [] {
      BoundedWrites(acts[..|acts| - 1]);
    }
  }

  /** The reader and the queue of one connection. */
  ghost predicate Joined(c: Connection, d: Descriptor)
    reads c, c.head, c.len, c.mk, c.data, c.inbound, c.flags, d, d.remaining, d.flags, d.outbound
  {
    && c.outbound == d.outbound && c.flags == d.flags && c.Valid() && d.Valid()
    && d.remaining != c.head && d.remaining != c.len && d.remaining != c.mk
    && (d.remaining != null ==> d.remaining != c.data)
  }

  /** The write side so far, on a WebSocket that has sent no Close. */
  ghost predicate Sending(d: Descriptor, host: Host, ops: seq<Op>, first: byte)
    reads d, d.remaining, d.flags, d.outbound
  {
    Written(d, host, ops, first, true, false, true)
  }

  /** One write or flush leaves the reader where it was. */
  method WriteOne(c: Connection, d: Descriptor, op: Op, ghost ops: seq<Op>, ghost first: byte,
                  ghost from: nat, ghost outcomes: seq<ReadResult>, ghost room: nat)
    requires Joined(c, d) && Sending(d, c.host, ops, first) && d.live
    requires Bounded(ops) && (op.Send? ==> |op.payload| < TWO_TO_THE_64)
    requires Reported(c, from, outcomes, room, false)
    modifies d, d.remaining, d.heap, d.flags, d.outbound
    ensures Joined(c, d) && Sending(d, c.host, ops + [op], first) && Reported(c, from, outcomes, room, false)
    ensures d.remaining == null || d.remaining == old(d.remaining) || fresh(d.remaining)
    ensures d.live ==> d.Farewell() == []
  {
    hide ParseAll, Written;
    DoNext(d, c.host, op, ops, first, true, false, true);
  }

  /** One call of ws_read leaves the queue where it was, and sends at most a Close. */
  method ReadOne(c: Connection, d: Descriptor, dest: array<byte>, room: nat, ghost ops: seq<Op>, ghost first: byte,
                 ghost from: nat, ghost outcomes: seq<ReadResult>)
    returns (r: ReadResult, end: End)
    requires Joined(c, d) && Sending(d, c.host, ops, first) && d.live
    requires Reported(c, from, outcomes, room, false) && 0 < room <= dest.Length
    requires dest != c.head && dest != c.len && dest != c.mk && dest != c.data && dest != d.remaining
    modifies c, c.flags, c.inbound, c.outbound, c.head, c.len, c.mk, c.data, dest
    ensures old(c.inbound.taken) <= c.inbound.taken && (c.data == null || c.data == old(c.data) || fresh(c.data))
    ensures Reported(c, from, if r.Again? then outcomes else outcomes + [r], room, r.Hangup?)
    ensures end == if r.ProtocolError? then Closed(1002) else if r.PeerClosed? then Closed(1000) else Open
    ensures end.Open? ==> Joined(c, d) && Sending(d, c.host, ops, first)
    ensures end.Closed? ==>
      d.outbound.wire == d.base + d.sent + Attempt(CloseFrame(end.status), old(c.outbound.plan))
  {
    hide ParseAll, FramesOf, Sendable, EncodeServerAll;
    r := Pass(c, dest, room, from, outcomes);
    end := if r.ProtocolError? then Closed(1002) else if r.PeerClosed? then Closed(1000) else Open;
  }

  /** What is on the wire: part of the frames, and behind it part of the Close that ended the run. */
  ghost predicate OnTheWire(d: Descriptor, host: Host, ops: seq<Op>, first: byte, end: End, tail: Octets)
    reads d, d.outbound
  {
    && Sendable(FramesOf(ops, first)) && d.sent <= EncodeServerAll(host, FramesOf(ops, first))
    && CloseStatus(Status(end)) && tail <= CloseFrame(Status(end)) && (end.Open? ==> tail == [])
    && d.outbound.wire == d.base + d.sent + tail
    && (d.live && d.len == 0 ==> d.sent == EncodeServerAll(host, FramesOf(ops, first)))
  }

  /** The last outcome decides which Close ends the run, and a dead queue any other end. */
  ghost predicate EndsAs(outcomes: seq<ReadResult>, end: End, live: bool)
  {
    && (end == Closed(1000) <==> outcomes != [] && outcomes[|outcomes| - 1].PeerClosed?)
    && (end == Closed(1002) <==> outcomes != [] && outcomes[|outcomes| - 1].ProtocolError?)
    && (end.Closed? ==> end.status in {1000, 1002}) && (end == Died <==> !live)
  }

  lemma StillOpen(d: Descriptor, host: Host, ops: seq<Op>, first: byte, end: End)
    requires Sending(d, host, ops, first) && (d.live ==> end.Open?) && (!d.live ==> end == Died)
    ensures OnTheWire(d, host, ops, first, end, d.Farewell())
  {
    hide EncodeServerAll, FramesOf, Sendable, CloseFrame;
  }

  /** One act. */
  method ActOne(c: Connection, d: Descriptor, act: Act, dest: array<byte>, room: nat,
                ghost ops: seq<Op>, ghost first: byte, ghost from: nat, outcomes: seq<ReadResult>)
    returns (all: seq<ReadResult>, hungUp: bool, end: End, ghost done: seq<Op>, ghost tail: Octets)
    requires Joined(c, d) && Sending(d, c.host, ops, first) && d.live && Bounded(ops)
    requires act.Writing? && act.op.Send? ==> |act.op.payload| < TWO_TO_THE_64
    requires Reported(c, from, outcomes, room, false) && 0 < room <= dest.Length
    requires dest != c.head && dest != c.len && dest != c.mk && dest != c.data && dest != d.remaining
    modifies c, c.inbound, c.head, c.len, c.mk, c.data, dest, d, d.remaining, d.heap, d.flags, d.outbound
    ensures done == ops + if act.Writing? then [act.op] else []
    ensures Reported(c, from, all, room, hungUp)
    ensures OnTheWire(d, c.host, done, first, end, tail)
    ensures end.Open? ==> Joined(c, d) && Sending(d, c.host, done, first) && d.live
    ensures EndsAs(outcomes, Open, true) ==> EndsAs(all, end, d.live)
    ensures c.data == null || c.data == old(c.data) || fresh(c.data)
    ensures d.remaining == null || d.remaining == old(d.remaining) || fresh(d.remaining)
  {
    hide ParseAll, FramesOf, Sendable, EncodeServerAll, CloseFrame, Reported;
    all, hungUp, end, done, tail := outcomes, false, Open, ops, [];
    match act
    case Writing(op) =>
      WriteOne(c, d, op, ops, first, from, outcomes, room);
      done := ops + [op];
      end := if d.live then Open else Died;
      StillOpen(d, c.host, done, first, end);
      tail := d.Farewell();
    case Reading =>
      ghost var plan := c.outbound.plan;
      StillOpen(d, c.host, ops, first, Open);
      var r;
      r, end := ReadOne(c, d, dest, room, ops, first, from, outcomes);
      hungUp := r.Hangup?;
      if !r.Again? {
        all := outcomes + [r];
      }
      assert ops + [] == ops;
      if end.Open? {
        StillOpen(d, c.host, ops, first, end);
        tail := d.Farewell();
      } else {
        tail := Attempt(CloseFrame(end.status), plan);
      }
  }

  /**
     Any order of reads, writes and flushes, up to the first Close or the end of the stream.
     What was read is exactly the client's frames, and its last outcome decides how the run ends;
     what is on the wire is part of the server's frames and then part of at most one Close.  The
     client reads it as `Seen` says: in order exactly when no frame is spoiled, the Close as one
     exactly when it went out whole and at a frame boundary, and everything once the queue of a
     live connection is empty.
   */
  method DuplexRun(c: Connection, d: Descriptor, acts: seq<Act>, dest: array<byte>, room: nat)
    returns (outcomes: seq<ReadResult>, hungUp: bool, end: End, ghost k: nat, ghost tail: Octets)
    requires Joined(c, d) && d.live && d.websocket && !d.flags.closeSent && d.offered == []
    requires c.start == c.inbound.taken && Modest(acts) && 0 < room <= dest.Length
    requires dest != c.head && dest != c.len && dest != c.mk && dest != c.data && dest != d.remaining
    modifies c, c.inbound, c.head, c.len, c.mk, c.data, dest, d, d.remaining, d.heap, d.flags, d.outbound
    ensures Reported(c, old(c.inbound.taken), outcomes, room, hungUp)
    ensures k <= |acts| && (end.Open? && !hungUp ==> k == |acts|)
    ensures OnTheWire(d, c.host, Writes(acts[..k]), old(d.flags.FirstOctet()), end, tail)
    ensures EndsAs(outcomes, end, d.live)
    ensures var fs := FramesOf(Writes(acts[..k]), old(d.flags.FirstOctet()));
      AllTold(c.host, fs) ==>
        var read := ClientReads(d.sent + tail);
        && read == Seen(c.host, fs, |d.sent|, Status(end), |tail|)
        && (InOrder(fs, read, Status(end)) <==> !Spoiled(c.host, fs, |d.sent|, Status(end), |tail|))
        && (CloseSeen(Status(end)) in read <==> |tail| == 4 && AtBoundary(c.host, fs, |d.sent|))
        && (d.live && d.len == 0 ==> read == fs + if |tail| == 4 then [CloseSeen(Status(end))] else [])
  {
    hide ClientReads, Seen, Spoiled, InOrder, CloseFrame, AtBoundary, AllTold;
    ghost var first, from := d.flags.FirstOctet(), c.inbound.taken;
    outcomes, hungUp, end, k, tail := [], false, Open, 0, [];
    assert c.inbound.stream[from..from] == [] && acts[..0] == [];
    var i := 0;
    ghost var ops: seq<Op> := [];
    StillOpen(d, c.host, ops, first, Open);
    while i < |acts| && end.Open? && !hungUp
      invariant i <= |acts| && ops == Writes(acts[..i])
      invariant Reported(c, from, outcomes, room, hungUp)
      invariant OnTheWire(d, c.host, ops, first, end, tail) && EndsAs(outcomes, end, d.live)
      invariant end.Open? ==> Joined(c, d) && Sending(d, c.host, ops, first) && d.live
      invariant c.data == null || c.data == old(c.data) || fresh(c.data)
      invariant d.remaining == null || d.remaining == old(d.remaining) || fresh(d.remaining)
    {
      hide ParseAll, FramesOf, Sendable, EncodeServerAll, CloseFrame, Reported, Sending, OnTheWire, EndsAs;
      NextAct(acts, i);
      outcomes, hungUp, end, ops, tail := ActOne(c, d, acts[i], dest, room, ops, first, from, outcomes);
      i := i + 1;
    }
    k := i;
    Verdict(d, c.host, ops, first, end, tail);
  }

  lemma Verdict(d: Descriptor, host: Host, ops: seq<Op>, first: byte, end: End, tail: Octets)
    requires OnTheWire(d, host, ops, first, end, tail) && first in {0, 2, 128, 130}
    ensures var fs := FramesOf(ops, first);
      AllTold(host, fs) ==>
        var read := ClientReads(d.sent + tail);
        && read == Seen(host, fs, |d.sent|, Status(end), |tail|)
        && (InOrder(fs, read, Status(end)) <==> !Spoiled(host, fs, |d.sent|, Status(end), |tail|))
        && (CloseSeen(Status(end)) in read <==> |tail| == 4 && AtBoundary(host, fs, |d.sent|))
        && (d.live && d.len == 0 ==> read == fs + if |tail| == 4 then [CloseSeen(Status(end))] else [])
  {
    hide ClientReads, Seen, Spoiled, InOrder, CloseFrame, AtBoundary, FramesOf, EncodeServerAll, Sendable;
    if AllTold(host, FramesOf(ops, first)) {
      RunVerdict(host, ops, first, d.sent, Status(end), tail);
      SeenAll(host, FramesOf(ops, first), Status(end), |tail|);
    }
  }

  lemma NextAct(acts: seq<Act>, i: nat)
    requires i < |acts| && Modest(acts)
    ensures Bounded(Writes(acts[..i]))
    ensures acts[i].Writing? && acts[i].op.Send? ==> |acts[i].op.payload| < TWO_TO_THE_64
    ensures Writes(acts[..i + 1]) == Writes(acts[..i]) + if acts[i].Writing? then [acts[i].op] else []
  {
    assert acts[i] in acts && forall a :: a in acts[..i] ==> a in acts;
    BoundedWrites(acts[..i]);
    assert acts[..i + 1][..i] == acts[..i];
  }
}
