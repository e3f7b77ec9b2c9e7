/**
 Whole runs of a WebSocket connection: any number of ws_read calls on any read
 schedule, any sequence of ws_write, ws_dprintf and event-loop flushes on any write
 schedule.
 */
module WsRuns {
  import opened Bytes
  import opened HostOrder
  import opened FrameFormat
  import opened Sockets
  import opened WsFlags
  import opened WsReader
  import opened WriteQueue
  import opened WireEnd
  import WsWriter

  /** What a caller with a buffer of that room is told about each frame. */
  function Reports(frames: seq<Parsed>, room: Room): (rs: seq<ReadResult>)
    requires NeedMore !in frames
    ensures |rs| == |frames|
    ensures forall i :: 0 <= i < |rs| ==> rs[i] == Report(frames[i], room)
  {
    seq(|frames|, i requires 0 <= i < |frames| => Report(frames[i], room))
  }

  /** One call's frame joins those before it. */
  lemma OneMore(host: Host, before: Octets, more: Octets)
    requires var p := ParseClient(host, Unfinished(host, before) + more);
             !p.NeedMore? ==> p.Used() == |Unfinished(host, before) + more|
    ensures var p := ParseClient(host, Unfinished(host, before) + more);
      && ParseAll(host, before + more) == ParseAll(host, before) + (if p.NeedMore? then [] else [p])
      && Unfinished(host, before + more) == if p.NeedMore? then Unfinished(host, before) + more else []
  {
    ParseResumes(host, before, more);
    var s := Unfinished(host, before) + more;
    var p := ParseClient(host, s);
    if !p.NeedMore? {
      assert s[p.Used()..] == [];
      NothingParses(host);
    }
  }

  lemma Extended(s: Octets, from: nat, at: nat, now: nat)
    requires from <= at <= now <= |s|
    ensures s[from..now] == s[from..at] + s[at..now]
  {
  }

  /** The outcomes so far are the frames of the octets so far, and the rest is held. */
  ghost predicate Reported(c: Connection, from: nat, outcomes: seq<ReadResult>, room: nat, hungUp: bool)
    reads c, c.head, c.len, c.mk, c.data, c.inbound, c.flags
  {
    && c.Valid() && from <= c.inbound.taken
    && var s := c.inbound.stream[from..c.inbound.taken];
       && outcomes == Reports(ParseAll(c.host, s), Room(room)) + (if hungUp then [Hangup] else [])
       && (!hungUp ==> c.Arrived(c.start) == Unfinished(c.host, s))
  }

  /** One call: EAGAIN or a hang-up adds no frame, anything else reports the one it adds. */
  method Pass(c: Connection, dest: array<byte>, room: nat, ghost from: nat, ghost outcomes: seq<ReadResult>)
    returns (r: ReadResult)
    requires Reported(c, from, outcomes, room, false) && 0 < room <= dest.Length
    requires dest != c.head && dest != c.len && dest != c.mk && dest != c.data
    modifies c, c.flags, c.inbound, c.outbound, c.head, c.len, c.mk, c.data, dest
    ensures old(c.inbound.taken) <= c.inbound.taken
    ensures c.data == null || c.data == old(c.data) || fresh(c.data)
    ensures Reported(c, from, if r.Again? then outcomes else outcomes + [r], room, r.Hangup?)
    ensures Consumed(old(c.inbound.plan), c.inbound.plan)
    ensures r.Again? ==> Starved(old(c.inbound.plan), c.inbound.plan)
    ensures r.Hangup? ==> Ended(old(c.inbound.plan), c.inbound.plan, c.inbound.taken == |c.inbound.stream|)
    ensures c.flags.binary == old(c.flags.binary) && c.flags.fin == old(c.flags.fin)
    ensures c.Closes(Return(r), old(c.flags.closeSent), old(c.outbound.wire), old(c.outbound.plan))
  {
    ghost var at, begun := c.inbound.taken, c.start;
    r := c.Read(dest, room);
    Joins(c.host, c.inbound.stream, from, begun, at, c.inbound.taken, Room(room), outcomes, r);
  }

  /** What a call reports of its own octets, it adds to what the whole stream has shown. */
  lemma Joins(host: Host, s: Octets, from: nat, begun: nat, at: nat, now: nat, room: Room,
              outcomes: seq<ReadResult>, r: ReadResult)
    requires from <= at <= now <= |s| && begun <= at && s[begun..at] == Unfinished(host, s[from..at])
    requires outcomes == Reports(ParseAll(host, s[from..at]), room)
    requires var p := ParseClient(host, s[begun..now]);
      if r.Again? || r.Hangup? then p.NeedMore? else !p.NeedMore? && p.Used() == now - begun && r == Report(p, room)
    ensures var t := s[from..now];
      && Reports(ParseAll(host, t), room) == outcomes + (if r.Again? || r.Hangup? then [] else [r])
      && Unfinished(host, t) == if r.Again? || r.Hangup? then s[begun..now] else []
  {
    Extended(s, from, at, now);
    Extended(s, begun, at, now);
    OneMore(host, s[from..at], s[at..now]);
    ReportsOneMore(ParseAll(host, s[from..at]), ParseClient(host, s[begun..now]), room);
  }

  lemma ReportsOneMore(frames: seq<Parsed>, p: Parsed, room: Room)
    requires NeedMore !in frames
    ensures !p.NeedMore? ==>
      NeedMore !in frames + [p] && Reports(frames + [p], room) == Reports(frames, room) + [Report(p, room)]
  {
  }

  /**
     Call ws_read again and again.  The outcomes, EAGAIN left out, are exactly the frames of
     the octets read so far, then a hang-up if there was one: where reads were cut short
     makes no difference, no octet is lost, and none is read twice.
   */
  method ReadRun(c: Connection, passes: nat, dest: array<byte>, room: nat)
    returns (outcomes: seq<ReadResult>, hungUp: bool)
    requires c.Valid() && c.start == c.inbound.taken && 0 < room <= dest.Length
    requires dest != c.head && dest != c.len && dest != c.mk && dest != c.data
    modifies c, c.flags, c.inbound, c.outbound, c.head, c.len, c.mk, c.data, dest
    ensures c.Valid() && old(c.inbound.taken) <= c.inbound.taken && c.flags.closes <= 1
    ensures var frames := ParseAll(c.host, c.inbound.stream[old(c.inbound.taken)..c.inbound.taken]);
            outcomes == Reports(frames, Room(room)) + (if hungUp then [Hangup] else [])
    ensures !hungUp ==>
      c.Arrived(c.start) == Unfinished(c.host, c.inbound.stream[old(c.inbound.taken)..c.inbound.taken])
    ensures !hungUp && |outcomes| < passes ==> HasBlocked(old(c.inbound.plan), c.inbound.plan)
  {
    outcomes, hungUp := [], false;
    ghost var from, before := c.inbound.taken, c.inbound.plan;
    assert c.inbound.stream[from..from] == [];
    var i := 0;
    while i < passes && !hungUp
      invariant Reported(c, from, outcomes, room, hungUp)
      invariant c.data == null || c.data == old(c.data) || fresh(c.data)
      invariant Consumed(before, c.inbound.plan) && i <= passes
      invariant !hungUp && |outcomes| < i ==> HasBlocked(before, c.inbound.plan)
    {
      ghost var middle := c.inbound.plan;
      var r := Pass(c, dest, room, from, outcomes);
      BlockedOnTheWay(before, middle, c.inbound.plan);
      hungUp := r.Hangup?;
      if !r.Again? {
        outcomes := outcomes + [r];
      }
      i := i + 1;
    }
  }

  /**
     Two runs over one stream, scheduled differently: the one that read less has reported a
     prefix of what the other has.
   */
  lemma SchedulesAgree(host: Host, stream: Octets, m: nat, n: nat, room: Room)
    requires m <= n <= |stream|
    ensures Reports(ParseAll(host, stream[..m]), room) <= Reports(ParseAll(host, stream[..n]), room)
  {
    SegmentationIndependence(host, stream, m, n);
  }

  /**
     End to end from a masking client: whatever the schedule, the calls report the client's
     payloads, in order and each once, and all of them when its whole stream has been read.
     (A big-endian host must be one that reads the client's lengths right.)
   */
  method ServerRun(c: Connection, passes: nat, dest: array<byte>, room: nat, ghost ms: seq<ClientMessage>)
    returns (outcomes: seq<ReadResult>, hungUp: bool)
    requires c.Valid() && c.start == c.inbound.taken == 0 && 0 < room <= dest.Length
    requires AllWellFormed(ms) && AllReadable(c.host, ms) && c.inbound.stream == EncodeClientAll(ms)
    requires dest != c.head && dest != c.len && dest != c.mk && dest != c.data
    modifies c, c.flags, c.inbound, c.outbound, c.head, c.len, c.mk, c.data, dest
    ensures c.Valid()
    ensures var n := if hungUp then |outcomes| - 1 else |outcomes|;
      && 0 <= n <= |ms| && (hungUp ==> outcomes[n] == Hangup)
      && (c.inbound.taken == |c.inbound.stream| ==> n == |ms|)
      && forall i :: 0 <= i < n ==>
           outcomes[i] == if |ms[i].payload| < room then Payload(ms[i].payload) else NoRoom
  {
    outcomes, hungUp := ReadRun(c, passes, dest, room);
    ghost var s, k := c.inbound.stream, c.inbound.taken;
    assert s[0..k] == s[..k];
    hide ParseAll, Reports;
    PayloadsReported(c.host, ms, k, room);
  }

  lemma PayloadsReported(host: Host, ms: seq<ClientMessage>, k: nat, room: nat)
    requires AllWellFormed(ms) && AllReadable(host, ms) && k <= |EncodeClientAll(ms)|
    ensures var rs := Reports(ParseAll(host, EncodeClientAll(ms)[..k]), Room(room));
      && |rs| <= |ms| && (k == |EncodeClientAll(ms)| ==> |rs| == |ms|)
      && forall i :: 0 <= i < |rs| ==> rs[i] == if |ms[i].payload| < room then Payload(ms[i].payload) else NoRoom
  {
    hide ParseAll, Messages;
    ParseAllPrefix(host, ms, k);
    if k == |EncodeClientAll(ms)| {
      assert EncodeClientAll(ms)[..k] == EncodeClientAll(ms);
      ParseAllIff(host, ms);
    }
  }

  /** What a caller is told of a client's messages. */
  function Told(ms: seq<ClientMessage>, room: nat): (rs: seq<ReadResult>)
    ensures |rs| == |ms|
    ensures forall i :: 0 <= i < |ms| ==> rs[i] == if |ms[i].payload| < room then Payload(ms[i].payload) else NoRoom
  {
    seq(|ms|, i requires 0 <= i < |ms| => if |ms[i].payload| < room then Payload(ms[i].payload) else NoRoom)
  }

  /** The outcome of a header that is refused or closes, and the status of the answer. */
  function EndOf(a: byte, b: byte): ReadResult
  {
    if Closing(a, b) then PeerClosed else ProtocolError
  }

  predicate Ending(r: ReadResult)
  {
    r.PeerClosed? || r.ProtocolError?
  }

  /** The client's stream: messages, and then the two octets of a header. */
  predicate EndsWith(s: Octets, ms: seq<ClientMessage>, a: byte, b: byte)
    requires AllWellFormed(ms)
  {
    (Refused(a, b) || Closing(a, b)) && EncodeClientAll(ms) + [a, b] <= s
  }

  /** Messages and then a masked Close, whatever its body and whatever follows, are such a stream. */
  lemma CloseEnds(ms: seq<ClientMessage>, fin: bool, key: Octets, body: Octets, rest: Octets)
    requires AllWellFormed(ms) && |key| == 4 && |body| <= 125
    ensures var f := ClientFrame(fin, 8, key, body);
      Closing(f[0], f[1]) && EndsWith(EncodeClientAll(ms) + (f + rest), ms, f[0], f[1])
  {
    var f := ClientFrame(fin, 8, key, body);
    ClientClose(fin, key, body, []);
    assert f + [] == f;
    hide ClientFrame, EncodeClientAll;
    assert f == [f[0], f[1]] + f[2..];
    assert EncodeClientAll(ms) + (f + rest) == EncodeClientAll(ms) + [f[0], f[1]] + (f[2..] + rest);
  }

  /** What any part of such a stream comes to. */
  lemma EndReported(host: Host, s: Octets, ms: seq<ClientMessage>, a: byte, b: byte, k: nat, room: nat)
    requires AllWellFormed(ms) && AllReadable(host, ms) && EndsWith(s, ms, a, b) && k <= |s|
    ensures var n, rs := |EncodeClientAll(ms)|, Reports(ParseAll(host, s[..k]), Room(room));
      && (k < n + 2 ==> rs <= Told(ms, room))
      && (n + 2 <= k ==> Told(ms, room) + [EndOf(a, b)] <= rs)
  {
    hide Reports, ParseAll, EncodeClientAll, Told, EndOf, Closing, Refused, AllReadable;
    var n := |EncodeClientAll(ms)|;
    if k < n + 2 {
      NotYetEnded(host, s, ms, a, b, k, room);
    } else {
      EndFirst(host, s, ms, a, b, room);
      SchedulesAgree(host, s, n + 2, k, Room(room));
    }
  }

  /** Before the header is there, only messages have been found. */
  lemma NotYetEnded(host: Host, s: Octets, ms: seq<ClientMessage>, a: byte, b: byte, k: nat, room: nat)
    requires AllWellFormed(ms) && AllReadable(host, ms) && EndsWith(s, ms, a, b) && k < |EncodeClientAll(ms)| + 2
    ensures Reports(ParseAll(host, s[..k]), Room(room)) <= Told(ms, room)
  {
    var one := EncodeClientAll(ms);
    EndParses(host, a, b);
    MessagesTold(ms, room);
    hide ParseAll, EncodeClientAll, Messages, Told, Closing, Refused;
    assert s[..|one| + 2] == one + [a, b];
    if k <= |one| {
      assert s[..k] == one[..k];
      ParseAllPrefix(host, ms, k);
    } else {
      assert s[..k] == one + [a];
      TailFound(host, ms, [a]);
      assert Messages(ms) + [] == Messages(ms);
    }
    ReportsPrefix(ParseAll(host, s[..k]), Messages(ms), Room(room));
  }

  /** With the header the end has been found. */
  lemma EndFirst(host: Host, s: Octets, ms: seq<ClientMessage>, a: byte, b: byte, room: nat)
    requires AllWellFormed(ms) && AllReadable(host, ms) && EndsWith(s, ms, a, b)
    ensures Reports(ParseAll(host, s[..|EncodeClientAll(ms)| + 2]), Room(room)) == Told(ms, room) + [EndOf(a, b)]
  {
    var one, found := EncodeClientAll(ms), ParseAll(host, [a, b]);
    assert one + [a, b] <= s;
    EndAlone(host, a, b, room);
    MessagesTold(ms, room);
    TailFound(host, ms, [a, b]);
    hide *;
    assert s[..|one| + 2] == one + [a, b];
    ReportsJoin(Messages(ms), found, Room(room));
  }

  lemma EndAlone(host: Host, a: byte, b: byte, room: nat)
    requires Refused(a, b) || Closing(a, b)
    ensures Reports(ParseAll(host, [a, b]), Room(room)) == [EndOf(a, b)]
  {
    EndParses(host, a, b);
    hide ParseAll, Closing, Refused;
  }

  lemma ReportsJoin(p: seq<Parsed>, q: seq<Parsed>, room: Room)
    requires NeedMore !in p && NeedMore !in q
    ensures Reports(p + q, room) == Reports(p, room) + Reports(q, room)
  {
  }

  lemma MessagesTold(ms: seq<ClientMessage>, room: nat)
    requires AllWellFormed(ms)
    ensures Reports(Messages(ms), Room(room)) == Told(ms, room)
  {
  }

  lemma ReportsPrefix(p: seq<Parsed>, q: seq<Parsed>, room: Room)
    requires p <= q && NeedMore !in q
    ensures NeedMore !in p && Reports(p, room) <= Reports(q, room)
  {
  }

  /** No call but perhaps the last has ended the connection. */
  ghost predicate Finished(outcomes: seq<ReadResult>, ended: bool)
  {
    && (ended ==> outcomes != [] && Ending(outcomes[|outcomes| - 1]))
    && forall j :: 0 <= j < |outcomes| && !(ended && j == |outcomes| - 1) ==> !Ending(outcomes[j])
  }

  /** What the answer to the last outcome puts on the wire. */
  function Answer(outcomes: seq<ReadResult>, ended: bool, sentBefore: bool, plan: seq<WriteStep>): Octets
  {
    if !ended || sentBefore || outcomes == [] then []
    else Attempt(CloseFrame(if outcomes[|outcomes| - 1].PeerClosed? then 1000 else 1002), plan)
  }

  /** Where such a run stands. */
  ghost predicate Going(c: Connection, outcomes: seq<ReadResult>, room: nat, hungUp: bool, ended: bool,
                        sent: bool, plan: seq<WriteStep>, wire: Octets)
    reads c, c.head, c.len, c.mk, c.data, c.inbound, c.flags, c.outbound
  {
    && Reported(c, 0, outcomes, room, hungUp) && Finished(outcomes, ended) && !(ended && hungUp)
    && (!ended ==> c.flags.closeSent == sent && c.outbound.plan == plan)
    && c.outbound.wire == wire + Answer(outcomes, ended, sent, plan)
  }

  /** One more call. */
  method EndPass(c: Connection, dest: array<byte>, room: nat, outcomes: seq<ReadResult>,
                 ghost sent: bool, ghost plan: seq<WriteStep>, ghost wire: Octets)
    returns (all: seq<ReadResult>, hungUp: bool, ended: bool)
    requires Going(c, outcomes, room, false, false, sent, plan, wire) && 0 < room <= dest.Length
    requires dest != c.head && dest != c.len && dest != c.mk && dest != c.data
    modifies c, c.flags, c.inbound, c.outbound, c.head, c.len, c.mk, c.data, dest
    ensures Going(c, all, room, hungUp, ended, sent, plan, wire)
    ensures c.data == null || c.data == old(c.data) || fresh(c.data)
    ensures Consumed(old(c.inbound.plan), c.inbound.plan)
    ensures !hungUp && |all| < |outcomes| + 1 ==> Starved(old(c.inbound.plan), c.inbound.plan)
    ensures |outcomes| <= |all|
  {
    hide Reported, CloseFrame, Attempt, Finished;
    var r := Pass(c, dest, room, 0, outcomes);
    hungUp, ended := r.Hangup?, Ending(r);
    all := if r.Again? then outcomes else outcomes + [r];
    StillFinished(outcomes, r, all);
  }

  lemma StillFinished(outcomes: seq<ReadResult>, r: ReadResult, all: seq<ReadResult>)
    requires Finished(outcomes, false) && all == if r.Again? then outcomes else outcomes + [r]
    ensures Finished(all, Ending(r))
  {
  }

  /**
     A client that closes, or breaks the protocol: calls up to the one that ends the connection.
     On every schedule its payloads are reported in order, and then, as soon as the two header
     octets have been read, PeerClosed with a Close of 1000 for a masked Close, or ProtocolError
     with a Close of 1002.
   */
  method EndRun(c: Connection, passes: nat, dest: array<byte>, room: nat,
                ghost ms: seq<ClientMessage>, ghost a: byte, ghost b: byte)
    returns (outcomes: seq<ReadResult>, hungUp: bool)
    requires c.Valid() && c.start == c.inbound.taken == 0 && 0 < room <= dest.Length
    requires AllWellFormed(ms) && AllReadable(c.host, ms) && EndsWith(c.inbound.stream, ms, a, b)
    requires dest != c.head && dest != c.len && dest != c.mk && dest != c.data
    modifies c, c.flags, c.inbound, c.outbound, c.head, c.len, c.mk, c.data, dest
    ensures c.Valid() && (hungUp ==> outcomes != [] && outcomes[|outcomes| - 1] == Hangup)
    ensures if |EncodeClientAll(ms)| + 2 <= c.inbound.taken then
        && !hungUp && outcomes == Told(ms, room) + [if Closing(a, b) then PeerClosed else ProtocolError]
        && c.outbound.wire == old(c.outbound.wire) + if old(c.flags.closeSent) then []
             else Attempt(CloseFrame(if Closing(a, b) then 1000 else 1002), old(c.outbound.plan))
      else
        && outcomes[..if hungUp then |outcomes| - 1 else |outcomes|] <= Told(ms, room)
        && c.outbound.wire == old(c.outbound.wire)
        && (!hungUp && |outcomes| < passes ==> HasBlocked(old(c.inbound.plan), c.inbound.plan))
  {
    hide Reports, ParseAll, Going, CloseFrame, Attempt, Closing, Refused, Told, EndsWith, AllReadable;
    outcomes, hungUp := [], false;
    ghost var before, plan, sent, wire := c.inbound.plan, c.outbound.plan, c.flags.closeSent, c.outbound.wire;
    StartsGoing(c, room);
    var ended, i := false, 0;
    while i < passes && !hungUp && !ended
      invariant Going(c, outcomes, room, hungUp, ended, sent, plan, wire) && i <= passes
      invariant c.data == null || c.data == old(c.data) || fresh(c.data)
      invariant Consumed(before, c.inbound.plan)
      invariant !hungUp && |outcomes| < i ==> HasBlocked(before, c.inbound.plan)
    {
      ghost var middle := c.inbound.plan;
      outcomes, hungUp, ended := EndPass(c, dest, room, outcomes, sent, plan, wire);
      BlockedOnTheWay(before, middle, c.inbound.plan);
      i := i + 1;
    }
    GoingReports(c, outcomes, room, hungUp, ended, sent, plan, wire);
    EndVerdict(c.host, c.inbound.stream, ms, a, b, c.inbound.taken, room, outcomes, hungUp, ended);
  }

  lemma StartsGoing(c: Connection, room: nat)
    requires c.Valid() && c.start == c.inbound.taken == 0
    ensures Going(c, [], room, false, false, c.flags.closeSent, c.outbound.plan, c.outbound.wire)
  {
    assert c.inbound.stream[0..0] == [];
    NothingParses(c.host);
  }

  lemma GoingReports(c: Connection, outcomes: seq<ReadResult>, room: nat, hungUp: bool, ended: bool,
                     sent: bool, plan: seq<WriteStep>, wire: Octets)
    requires Going(c, outcomes, room, hungUp, ended, sent, plan, wire)
    ensures c.Valid() && Finished(outcomes, ended) && !(ended && hungUp)
    ensures outcomes == Reports(ParseAll(c.host, c.inbound.stream[..c.inbound.taken]), Room(room))
                        + (if hungUp then [Hangup] else [])
    ensures c.outbound.wire == wire + Answer(outcomes, ended, sent, plan)
  {
    hide ParseAll, Reports;
    assert c.inbound.stream[0..c.inbound.taken] == c.inbound.stream[..c.inbound.taken];
  }

  /** The call that ends the connection is the one that has read the header. */
  lemma EndVerdict(host: Host, s: Octets, ms: seq<ClientMessage>, a: byte, b: byte, k: nat, room: nat,
                   outcomes: seq<ReadResult>, hungUp: bool, ended: bool)
    requires AllWellFormed(ms) && AllReadable(host, ms) && EndsWith(s, ms, a, b) && k <= |s|
    requires outcomes == Reports(ParseAll(host, s[..k]), Room(room)) + (if hungUp then [Hangup] else [])
    requires Finished(outcomes, ended) && !(ended && hungUp)
    ensures ended <==> |EncodeClientAll(ms)| + 2 <= k
    ensures ended ==> outcomes == Told(ms, room) + [EndOf(a, b)]
    ensures !ended ==> outcomes[..if hungUp then |outcomes| - 1 else |outcomes|] <= Told(ms, room)
  {
    EndReported(host, s, ms, a, b, k, room);
    hide ParseAll, Reports, EncodeClientAll;
    var rs := Reports(ParseAll(host, s[..k]), Room(room));
    assert rs == outcomes[..|rs|];
    if |EncodeClientAll(ms)| + 2 <= k {
      assert Ending(rs[|ms|]) && outcomes[|ms|] == rs[|ms|];
    } else {
      NoEndTold(ms, room, rs);
    }
  }

  lemma NoEndTold(ms: seq<ClientMessage>, room: nat, rs: seq<ReadResult>)
    requires rs <= Told(ms, room)
    ensures forall j :: 0 <= j < |rs| ==> !Ending(rs[j])
  {
  }

  /** The int ws_read returns cannot tell an empty message from the end of the connection. */
  lemma EmptyMessageLooksLikeTheEnd(host: Host, s: Octets, room: Room)
    requires !ParseClient(host, s).NeedMore?
    ensures ReturnValue(Report(ParseClient(host, s), room)) == ReturnValue(Hangup)
      <==> ParseClient(host, s).Close? ||
           (ParseClient(host, s).Message? && ParseClient(host, s).payload == [] && room != Room(0))
  {
  }

  /** A client reads the Close frame as one: FIN, opcode 8, and the status in network order. */
  lemma CloseFrameReads(status: nat, rest: Octets)
    requires status < 0x1_0000
    ensures var s := CloseFrame(status) + rest;
      && Opcode(s) == OP_CLOSE && s[0] >= 128
      && exists body ::
        ClientReads(s) == [ServerFrame(s[0], body)] + ClientReads(rest) && |body| == 2 && FromBigEndian(body) == status
  {
    var s, body := CloseFrame(status) + rest, [status / 256, status % 256];
    assert s[2..4] == body && s[4..] == rest && !Masked(s) && ExtendedSize(s) == 0;
    TwoOctets(body);
  }

  // ----- writing --------------------------------------------------------------

  datatype Op = Send(payload: Octets) | Print(text: Octets) | Flush

  /** The frame an operation adds to the stream. */
  function FrameOf(op: Op, first: byte): seq<ServerFrame>
  {
    match op
    case Send(p) => [ServerFrame(first, p)]
    case Print(t) => [ServerFrame(130, Clamp(t))]
    case Flush => []
  }

  function Clamp(text: Octets): (t: Octets)
    ensures t <= text && |t| == if |text| < BUFSIZ - 1 then |text| else BUFSIZ - 1
  {
    if |text| >= BUFSIZ then text[..BUFSIZ - 1] else text
  }

  /** The first octet in force after an operation. */
  function FirstAfter(op: Op, first: byte): byte
  {
    if op.Print? then 130 else first
  }

  function FramesOf(ops: seq<Op>, first: byte): (fs: seq<ServerFrame>)
  {
    if ops == [] then [] else FrameOf(ops[0], first) + FramesOf(ops[1..], FirstAfter(ops[0], first))
  }

  predicate Bounded(ops: seq<Op>)
  {
    forall op :: op in ops && op.Send? ==> |op.payload| < TWO_TO_THE_64
  }

  /** ws_write of a payload, from a buffer of its own. */
  method DoSend(d: Descriptor, host: Host, payload: Octets)
    requires d.Valid() && |payload| < TWO_TO_THE_64
    modifies d, d.remaining, d.heap, d.flags, d.outbound
    ensures d.Valid() && (d.remaining == null || d.remaining == old(d.remaining) || fresh(d.remaining))
    ensures d.flags.FirstOctet() == old(d.flags.FirstOctet())
    ensures Extends(d, old(d.live), old(d.offered),
                    EncodeServerAll(host, [ServerFrame(old(d.flags.FirstOctet()), payload)]))
    ensures d.live ==> d.toClose == old(d.toClose)
    ensures d.intact ==> old(d.intact) && (old(d.live) && !old(d.toClose) ==> d.live)
    ensures WsWriter.LeavesBehind(d, old(d.live), old(d.websocket), old(d.flags.closeSent), old(d.Farewell()))
  {
    OneFrame(host, ServerFrame(d.flags.FirstOctet(), payload));
    var data := new byte[|payload|](i requires 0 <= i < |payload| => payload[i]);
    assert data[..|payload|] == payload;
    var _ := WsWriter.Write(d, host, data, |payload|);
  }

  /** A live connection has been offered `more`, a dying one part of it, a dead one nothing. */
  ghost predicate Extends(d: Descriptor, wasLive: bool, before: Octets, more: Octets)
    reads d
  {
    && before <= d.offered <= before + more
    && (d.live ==> wasLive && d.offered == before + more)
    && (!wasLive ==> d.offered == before)
  }

  method Do(d: Descriptor, host: Host, op: Op)
    requires d.Valid() && (op.Send? ==> |op.payload| < TWO_TO_THE_64)
    modifies d, d.remaining, d.heap, d.flags, d.outbound
    ensures d.Valid() && (d.remaining == null || d.remaining == old(d.remaining) || fresh(d.remaining))
    ensures d.flags.FirstOctet() == FirstAfter(op, old(d.flags.FirstOctet()))
    ensures Extends(d, old(d.live), old(d.offered), EncodeServerAll(host, FrameOf(op, old(d.flags.FirstOctet()))))
    ensures d.live ==> d.toClose == old(d.toClose)
    ensures d.intact ==> old(d.intact) && (old(d.live) && !old(d.toClose) ==> d.live)
    ensures WsWriter.LeavesBehind(d, old(d.live), old(d.websocket), old(d.flags.closeSent), old(d.Farewell()))
  {
    match op
    case Flush =>
      var _ := d.Flush();
    case Send(p) =>
      DoSend(d, host, p);
    case Print(t) =>
      d.flags.MarkFormatted();
      DoSend(d, host, Clamp(t));
  }

  lemma OneFrame(host: Host, f: ServerFrame)
    requires |f.payload| < TWO_TO_THE_64
    ensures EncodeServerAll(host, [f]) == EncodeServer(host, f)
  {
    assert EncodeServerAll(host, [f][1..]) == [];
  }

  lemma {:induction false} FramesOfSnoc(ops: seq<Op>, first: byte, op: Op)
    ensures FramesOf(ops + [op], first) == FramesOf(ops, first) + FrameOf(op, Latest(ops, first))
    ensures Latest(ops + [op], first) == FirstAfter(op, Latest(ops, first))
  {
    if ops == [] {
      assert ops + [op] == [op];
      assert FramesOf([op][1..], FirstAfter(op, first)) == [];
    } else {
      assert (ops + [op])[1..] == ops[1..] + [op];
      FramesOfSnoc(ops[1..], FirstAfter(ops[0], first), op);
    }
  }

  function Latest(ops: seq<Op>, first: byte): byte
  {
    if ops == [] then first else Latest(ops[1..], FirstAfter(ops[0], first))
  }

  lemma {:induction false} BoundedFrames(ops: seq<Op>, first: byte)
    requires Bounded(ops)
    ensures Sendable(FramesOf(ops, first))
  {
    if ops != [] {
      BoundedFrames(ops[1..], FirstAfter(ops[0], first));
    }
  }

  /**
     Any sequence of frames and flushes on a new connection.  The wire is part of the frames
     back to back, and behind it, when the connection has died, what the kernel took of the
     Close frame that a WebSocket sends which has sent none.  While the connection lives the
     queue holds the rest; it lives, if it was not marked for closing, unless a write fails or
     the queue cannot grow.
   */
  method WriteRun(d: Descriptor, host: Host, ops: seq<Op>)
    requires d.Valid() && d.live && d.offered == [] && Bounded(ops)
    modifies d, d.remaining, d.heap, d.flags, d.outbound
    ensures d.Valid() && Sendable(FramesOf(ops, old(d.flags.FirstOctet())))
    ensures var all := EncodeServerAll(host, FramesOf(ops, old(d.flags.FirstOctet())));
      && d.sent <= all && d.outbound.wire == d.base + d.sent + d.Farewell()
      && (d.live ==> d.sent + d.Queued() == all)
    ensures d.Farewell() != [] ==> !d.live && old(d.websocket) && !old(d.flags.closeSent)
    ensures d.intact && !old(d.toClose) ==> d.live
  {
    ghost var first, webSocket, closeSent, toClose := d.flags.FirstOctet(), d.websocket, d.flags.closeSent, d.toClose;
    hide EncodeServerAll, FramesOf, Sendable, Latest;
    StartsWritten(d, host);
    var i := 0;
    while i < |ops|
      invariant 0 <= i <= |ops| && Written(d, host, ops[..i], first, webSocket, closeSent, toClose)
      invariant d.remaining == null || d.remaining == old(d.remaining) || fresh(d.remaining)
    {
      assert ops[i] in ops && ops[..i + 1] == ops[..i] + [ops[i]];
      hide Written;
      DoNext(d, host, ops[i], ops[..i], first, webSocket, closeSent, toClose);
      i := i + 1;
    }
    assert ops[..i] == ops;
  }

  /**
     The write side of a connection after some operations: the queue has been offered exactly
     their frames while the connection lives, and what has gone out behind them is part of the
     Close of a WebSocket that had sent none.
   */
  ghost predicate Written(d: Descriptor, host: Host, ops: seq<Op>, first: byte,
                          webSocket: bool, closeSent: bool, toClose: bool)
    reads d, d.remaining, d.flags, d.outbound
  {
    && d.Valid() && d.flags.FirstOctet() == Latest(ops, first) && Sendable(FramesOf(ops, first))
    && d.offered <= EncodeServerAll(host, FramesOf(ops, first))
    && (d.live ==> d.offered == EncodeServerAll(host, FramesOf(ops, first)))
    && (d.live ==> d.websocket == webSocket && d.flags.closeSent == closeSent)
    && (d.Farewell() != [] ==> !d.live && webSocket && !closeSent)
    && (d.intact && !toClose ==> d.live && !d.toClose)
  }

  lemma StartsWritten(d: Descriptor, host: Host)
    requires d.Valid() && d.live && d.offered == []
    ensures Written(d, host, [], d.flags.FirstOctet(), d.websocket, d.flags.closeSent, d.toClose)
  {
  }

  /** One operation more. */
  method DoNext(d: Descriptor, host: Host, op: Op, ghost ops: seq<Op>, ghost first: byte,
                ghost webSocket: bool, ghost closeSent: bool, ghost toClose: bool)
    requires Written(d, host, ops, first, webSocket, closeSent, toClose)
    requires Bounded(ops) && (op.Send? ==> |op.payload| < TWO_TO_THE_64)
    modifies d, d.remaining, d.heap, d.flags, d.outbound
    ensures d.Valid() && Written(d, host, ops + [op], first, webSocket, closeSent, toClose)
    ensures d.remaining == null || d.remaining == old(d.remaining) || fresh(d.remaining)
  {
    hide FramesOf, FrameOf, EncodeServerAll, Latest, FirstAfter, Sendable, CloseFrame;
    ghost var all := ops + [op];
    assert all[..|ops|] == ops && all[..|ops| + 1] == all && all[|ops|] == op;
    Do(d, host, op);
    OneOp(host, all, |ops|, first);
  }

  /** The stream after one more operation. */
  lemma OneOp(host: Host, ops: seq<Op>, i: nat, first: byte)
    requires i < |ops| && Bounded(ops) && Sendable(FramesOf(ops[..i], first))
    ensures Sendable(FrameOf(ops[i], Latest(ops[..i], first))) && Sendable(FramesOf(ops[..i + 1], first))
    ensures EncodeServerAll(host, FramesOf(ops[..i + 1], first))
         == EncodeServerAll(host, FramesOf(ops[..i], first))
            + EncodeServerAll(host, FrameOf(ops[i], Latest(ops[..i], first)))
    ensures Latest(ops[..i + 1], first) == FirstAfter(ops[i], Latest(ops[..i], first))
  {
    assert ops[..i + 1] == ops[..i] + [ops[i]];
    assert ops[i] in ops;
    FramesOfSnoc(ops[..i], first, ops[i]);
    EncodeServerAllConcat(host, FramesOf(ops[..i], first), FrameOf(ops[i], Latest(ops[..i], first)));
  }

  /**
     End to end: whatever the operations and the write schedule, the frames a client reads from
     the wire are exactly `Seen`.  That is a prefix of the frames written, and at most one Close
     behind it, unless a frame was cut within its last four payload octets and completed by
     other octets of a Close; which can only be on a WebSocket that had sent no Close.
   */
  method ClientRun(d: Descriptor, host: Host, ops: seq<Op>)
    requires d.Valid() && d.live && d.offered == [] && Bounded(ops)
    requires AllTold(host, FramesOf(ops, d.flags.FirstOctet()))
    modifies d, d.remaining, d.heap, d.flags, d.outbound
    ensures d.Valid() && (d.intact && !old(d.toClose) ==> d.live) && d.base <= d.outbound.wire
    ensures var fs, t := FramesOf(ops, old(d.flags.FirstOctet())), |d.Farewell()|;
      var read := ClientReads(d.outbound.wire[|d.base|..]);
      && Sendable(fs) && d.sent <= EncodeServerAll(host, fs)
      && read == Seen(host, fs, |d.sent|, 1008, t)
      && (InOrder(fs, read, 1008) <==> !Spoiled(host, fs, |d.sent|, 1008, t))
      && (t != 0 ==> !d.live && old(d.websocket) && !old(d.flags.closeSent))
      && (t == 0 ==> read <= fs)
      && (d.live && d.len == 0 ==> read == fs)
  {
    ghost var first := d.flags.FirstOctet();
    WriteRun(d, host, ops);
    hide ClientReads, Seen, Spoiled, InOrder, CloseFrame, AllTold, AtBoundary, FramesOf, EncodeServerAll, Sendable;
    assert d.outbound.wire[|d.base|..] == d.sent + d.Farewell();
    assert d.live && d.len == 0 ==> d.Queued() == [];
    RunVerdict(host, ops, first, d.sent, 1008, d.Farewell());
  }

  /** What the client reads of the frames of some operations with part of a Close behind. */
  lemma RunVerdict(host: Host, ops: seq<Op>, first: byte, sent: Octets, status: nat, tail: Octets)
    requires first in {0, 2, 128, 130} && CloseStatus(status) && tail <= CloseFrame(status)
    requires Sendable(FramesOf(ops, first)) && sent <= EncodeServerAll(host, FramesOf(ops, first))
    requires AllTold(host, FramesOf(ops, first))
    ensures var fs, read := FramesOf(ops, first), ClientReads(sent + tail);
      && read == Seen(host, fs, |sent|, status, |tail|)
      && (InOrder(fs, read, status) <==> !Spoiled(host, fs, |sent|, status, |tail|))
      && (CloseSeen(status) in read <==> |tail| == 4 && AtBoundary(host, fs, |sent|))
      && (tail == [] ==> read <= fs && (sent == EncodeServerAll(host, fs) ==> read == fs))
  {
    hide *;
    var fs := FramesOf(ops, first);
    OrdinaryFrames(ops, first);
    WireVerdict(host, fs, sent, status, tail);
    PlainVerdict(host, fs, sent, tail);
  }

  /** No frame that is written looks like a Close. */
  lemma {:induction false} OrdinaryFrames(ops: seq<Op>, first: byte)
    requires first in {0, 2, 128, 130}
    ensures NoCloses(FramesOf(ops, first))
  {
    if ops != [] {
      OrdinaryFrames(ops[1..], FirstAfter(ops[0], first));
    }
  }

  /** An upgraded connection on a schedule of one's choice. */
  method Upgraded(plan: seq<WriteStep>) returns (d: Descriptor)
    ensures d.Valid() && d.live && d.websocket && d.len == 0 && d.base == [] && d.sent == []
    ensures d.outbound.plan == plan && d.flags.FirstOctet() == 130 && !d.flags.closeSent
    ensures fresh(d) && fresh(d.remaining) && fresh(d.heap) && fresh(d.flags) && fresh(d.outbound)
  {
    var outbound := new Outbound(plan);
    var heap := new Allocator([]);
    var flags := new Flags();
    d := new Descriptor(outbound, heap, flags);
    d.websocket := true;
  }

  /**
     Such a run: the kernel takes a header and no more, the write of the payload fails, and the
     Close that axil_close sends becomes the payload of a frame that nobody sent.
   */
  method CutFrameRun() returns (d: Descriptor)
    ensures d.Valid() && !d.live && d.base == [] && d.sent == [130, 4]
    ensures d.outbound.wire == [130, 4, 0x88, 2, 3, 0xf0]
    ensures ClientReads(d.outbound.wire) == [ServerFrame(130, [0x88, 2, 3, 0xf0])]
  {
    d := Upgraded([Accept(2), WriteReset, Accept(4)]);
    var data := new byte[4](i => i + 1);
    ThatPlan([Accept(2), WriteReset, Accept(4)]);
    CutFrameExample();
    hide ClientReads, ServerHeader, EncodeServer, EncodeServerAll, WsWriter.CutAfterHeader, Attempt;
    hide CloseFrame, Spoiled, Rest;
    var _ := WsWriter.Write(d, LittleEndian, data, 4);
  }

  lemma ThatPlan(plan: seq<WriteStep>)
    requires plan == [Accept(2), WriteReset, Accept(4)]
    ensures ServerHeader(LittleEndian, 130, 4) == [130, 4]
    ensures WsWriter.CutAfterHeader(plan, 2, 4) && Attempt(CloseFrame(1008), Rest(Rest(plan))) == CloseFrame(1008)
    ensures [130, 4] + CloseFrame(1008) == [130, 4, 0x88, 2, 3, 0xf0]
  {
    assert Rest(plan) == [WriteReset, Accept(4)] && Rest(Rest(plan)) == [Accept(4)];
    assert CloseFrame(1008)[..4] == CloseFrame(1008);
  }
}
