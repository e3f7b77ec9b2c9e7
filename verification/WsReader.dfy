/**
 The resumable frame reader of src/ws.c: ws_fill, ws_read, ws_frame_reset and
 ws_close_status over struct ws_frame.
 */
module WsReader {
  import opened Bytes
  import opened HostOrder
  import opened FrameFormat
  import opened Sockets
  import opened WsFlags

  datatype FillStatus = Filled | Blocked | HungUp

  datatype ReadResult =
    | Again                      // -1, EAGAIN: the frame is still arriving
    | BadDestination             // -1, EMSGSIZE: a buffer of no octets
    | Hangup                     //  0: end of stream or a read error
    | ProtocolError              // -1, EPROTO: unmasked, or an oversized control frame
    | PeerClosed                 //  0: a Close frame
    | Oversized                  // -1, EMSGSIZE: more than 64 MiB announced
    | NoRoom                     // -1, EMSGSIZE: payload and NUL exceed the destination
    | Payload(data: Octets)      //  its length

  /** The int the C function returns. */
  function ReturnValue(r: ReadResult): (v: int)
    ensures -1 <= v && (v < 0 <==> !r.Payload? && !r.Hangup? && !r.PeerClosed?)
  {
    match r
    case Payload(d) => |d|
    case Hangup => 0
    case PeerClosed => 0
    case _ => -1
  }

  /** What a caller offering `room` octets (None: the frame is discarded) sees of a parsed frame. */
  function Report(p: Parsed, room: Room): ReadResult
    requires !p.NeedMore?
  {
    match p
    case Unmasked => ProtocolError
    case OversizedControl => ProtocolError
    case Close => PeerClosed
    case TooLong(_) => Oversized
    case Message(d, _) => if room.Room? && |d| + 1 > room.octets then NoRoom else Payload(d)
  }

  datatype Room = Discard | Room(octets: nat)

  /** What the octets since a frame's start say of a call that ends at its header. */
  predicate ByHeader(host: Host, r: ReadResult, s: Octets)
  {
    && (r.ProtocolError? <==> 2 <= |s| && Refused(s[0], s[1]))
    && (r.PeerClosed? <==> 2 <= |s| && Closing(s[0], s[1]))
    && (r.Oversized? <==> 2 <= |s| && Excessive(host, s))
  }

  lemma FrameParts(s: Octets, front: Octets, key: Octets, payload: Octets)
    requires s == front + key + payload
    ensures var n, m := |front|, |front| + |key|;
      s[n..m] == key && s[m..m + |payload|] == payload
  {
  }

  class Connection {
    const host: Host
    const inbound: Inbound
    const outbound: Outbound

    const flags: Flags

    const head: array<byte>
    var hread: nat
    const len: array<byte>
    var lread: nat
    const mk: array<byte>
    var mread: nat
    var xread: nat
    var plSet: bool
    var pl: nat
    var data: array?<byte>

    /** Where in the stream the current frame starts. */
    ghost var start: nat

    ghost predicate Separate()
      reads this
    {
      && head.Length == 2 && len.Length == 8 && mk.Length == 4
      && head != len && len != mk && mk != head
      && (data != null ==> data != head && data != len && data != mk)
    }

    /** The octets of the current frame that have been read. */
    ghost function Held(): Octets
      reads this, head, len, mk, data
      requires Separate() && hread <= 2 && lread <= 8 && mread <= 4
      requires data != null ==> xread <= data.Length
    {
      head[..hread] + len[..lread] + mk[..mread] + if data == null then [] else data[..xread]
    }

    ghost predicate HeaderDone()
      reads this, head
      requires head.Length == 2
    {
      hread == 2 && HeaderAccepted(head[..])
    }

    ghost predicate LengthDone()
      reads this, head, len
      requires Separate()
    {
      && HeaderDone() && plSet && lread == ExtendedSize(head[..])
      && pl == DeclaredLength(host, head[..] + len[..lread]) <= MAX_PAYLOAD
    }

    ghost predicate InHeader()
      reads this
    {
      hread <= 2 && lread == 0 && !plSet && mread == 0 && xread == 0 && data == null
    }

    ghost predicate InLength()
      reads this, head
      requires head.Length == 2
    {
      HeaderDone() && lread <= ExtendedSize(head[..]) && !plSet && mread == 0 && xread == 0 && data == null
    }

    ghost predicate InKey()
      reads this, head, len
      requires Separate()
    {
      LengthDone() && mread <= 4 && xread == 0 && data == null
    }

    ghost predicate InPayload()
      reads this, head, len
      requires Separate()
    {
      LengthDone() && mread == 4 && data != null && data.Length == pl + 1 && xread <= pl
    }

    /** The frame state is the part of the stream between `start` and the read position. */
    ghost predicate Tracks()
      reads this, head, len, mk, data, inbound, flags
    {
      && Separate() && inbound.Valid() && flags.Valid()
      && (InHeader() || InLength() || InKey() || InPayload())
      && start <= inbound.taken && Held() == inbound.stream[start..inbound.taken]
    }

    /** Between calls no stage is complete: a finished one would have gone on to the next. */
    ghost predicate Valid()
      reads this, head, len, mk, data, inbound, flags
    {
      && Tracks()
      && (hread == 2 ==> HeaderDone())
      && (if InHeader() && hread < 2 then true
          else if InLength() then lread < ExtendedSize(head[..])
          else if InKey() then mread < 4
          else InPayload() && xread < pl)
    }

    /** ws_init, after the handshake is written: the flags, an empty frame. */
    constructor (host: Host, inbound: Inbound, outbound: Outbound, flags: Flags)
      requires inbound.Valid() && flags.Valid()
      ensures Valid() && start == inbound.taken
      ensures this.host == host && this.inbound == inbound && this.outbound == outbound && this.flags == flags
      ensures fresh(head) && fresh(len) && fresh(mk) && data == null
    {
      this.host, this.inbound, this.outbound, this.flags := host, inbound, outbound, flags;
      head, len, mk := new byte[2], new byte[8], new byte[4];
      hread, lread, mread, xread, plSet, pl, data := 0, 0, 0, 0, false, 0, null;
      start := inbound.taken;
    }

    /** Why a stage stopped where it did. */
    ghost predicate Stopped(before: seq<ReadStep>, status: FillStatus)
      reads inbound
    {
      && Consumed(before, inbound.plan)
      && (status.Blocked? ==> Starved(before, inbound.plan))
      && (status.HungUp? ==> Ended(before, inbound.plan, inbound.taken == |inbound.stream|))
    }

    /** Consume up to `need` octets into buf; `got` of them are there already. */
    method Fill(buf: array<byte>, got: nat, need: nat) returns (now: nat, status: FillStatus)
      requires inbound.Valid() && got <= need <= buf.Length
      modifies inbound, buf
      ensures inbound.Valid() && got <= now <= need && (status.Filled? <==> now == need)
      ensures inbound.taken == old(inbound.taken) + now - got
      ensures buf[..now] == old(buf[..got]) + inbound.stream[old(inbound.taken)..inbound.taken]
      ensures Stopped(old(inbound.plan), status)
      ensures got == need ==> inbound.plan == old(inbound.plan)
    {
      now := got;
      assert buf[..now] == old(buf[..got]) + inbound.stream[old(inbound.taken)..inbound.taken];
      while now < need
        invariant inbound.Valid() && got <= now <= need
        invariant inbound.taken == old(inbound.taken) + now - got
        invariant buf[..now] == old(buf[..got]) + inbound.stream[old(inbound.taken)..inbound.taken]
        invariant Consumed(old(inbound.plan), inbound.plan)
        invariant got == need ==> inbound.plan == old(inbound.plan)
        decreases |inbound.plan|, need - now
      {
        ghost var middle, before := inbound.plan, inbound.taken;
        var r := Pull(buf, now, need - now);
        ConsumedInTwoSteps(old(inbound.plan), middle, inbound.plan, if r.Broken? then ReadReset else ReadBlock);
        match r
        case EndOfStream => return now, HungUp;
        case Broken => return now, HungUp;
        case WouldBlock => return now, Blocked;
        case Interrupted =>
        case Octets(n) =>
          Extends(inbound.stream, old(inbound.taken), before, inbound.taken);
          now := now + n;
      }
      status := Filled;
    }

    lemma Extends(s: Octets, from: nat, at: nat, now: nat)
      requires from <= at <= now <= |s|
      ensures s[from..at] + s[at..now] == s[from..now]
    {
    }

    /** One recv() behind the octets that are there. */
    method Pull(buf: array<byte>, at: nat, want: nat) returns (r: Received)
      requires inbound.Valid() && 0 < want && at + want <= buf.Length
      modifies inbound, buf
      ensures inbound.Valid() && Consumed(old(inbound.plan), inbound.plan)
      ensures r.WouldBlock? || |inbound.plan| < |old(inbound.plan)|
      ensures r.Octets? ==> 0 < r.n <= want && inbound.taken == old(inbound.taken) + r.n
      ensures r.Octets? ==>
        buf[..at + r.n] == old(buf[..at]) + inbound.stream[old(inbound.taken)..inbound.taken]
      ensures !r.Octets? ==> inbound.taken == old(inbound.taken) && buf[..at] == old(buf[..at])
      ensures r.WouldBlock? ==> Starved(old(inbound.plan), inbound.plan)
      ensures r.Broken? ==> LastWas(old(inbound.plan), inbound.plan, ReadReset)
      ensures r.EndOfStream? ==> inbound.taken == |inbound.stream|
    {
      r := inbound.Recv(buf, at, want);
      assert r.Octets? ==> buf[..at + r.n] == buf[..][..at + r.n];
      assert !r.Octets? ==> buf[..at] == buf[..][..at];
    }

    method FillHeader() returns (status: FillStatus)
      requires Tracks() && InHeader()
      modifies this`hread, inbound, head
      ensures old(inbound.taken) <= inbound.taken
      ensures Tracks() && InHeader() && (status.Filled? <==> hread == 2)
      ensures Stopped(old(inbound.plan), status)
    {
      hide Stopped;
      ghost var held := Held();
      hread, status := Fill(head, hread, 2);
      assert Held() == held + inbound.stream[old(inbound.taken)..inbound.taken];
    }

    method FillLength(need: nat) returns (status: FillStatus)
      requires Tracks() && InLength() && need == ExtendedSize(head[..])
      modifies this`lread, inbound, len
      ensures old(inbound.taken) <= inbound.taken
      ensures Tracks() && InLength() && (status.Filled? <==> lread == need)
      ensures Stopped(old(inbound.plan), status)
    {
      ghost var held := Held();
      lread, status := Fill(len, lread, need);
      assert Held() == held + inbound.stream[old(inbound.taken)..inbound.taken];
    }

    method FillKey() returns (status: FillStatus)
      requires Tracks() && InKey()
      modifies this`mread, inbound, mk
      ensures old(inbound.taken) <= inbound.taken
      ensures Tracks() && InKey() && (status.Filled? <==> mread == 4)
      ensures Stopped(old(inbound.plan), status)
    {
      ghost var held := Held();
      mread, status := Fill(mk, mread, 4);
      assert Held() == held + inbound.stream[old(inbound.taken)..inbound.taken];
    }

    method FillPayload() returns (status: FillStatus)
      requires Tracks() && InPayload()
      modifies this`xread, inbound, data
      ensures old(inbound.taken) <= inbound.taken
      ensures Tracks() && InPayload() && (status.Filled? <==> xread == pl)
      ensures Stopped(old(inbound.plan), status)
    {
      ghost var held := Held();
      xread, status := Fill(data, xread, pl);
      assert Held() == held + inbound.stream[old(inbound.taken)..inbound.taken];
    }

    /** ws_frame_reset: the next octet read starts a frame. */
    method Reset()
      requires Separate() && inbound.Valid() && flags.Valid()
      modifies this`hread, this`lread, this`mread, this`xread, this`plSet, this`pl, this`data, this`start
      modifies head, len, mk
      ensures Valid() && InHeader() && hread == 0 && start == inbound.taken
      ensures forall a, i :: a in {head, len, mk} && 0 <= i < a.Length ==> a[i] == 0
    {
      data := null;
      Zero(head);
      Zero(len);
      Zero(mk);
      hread, lread, mread, xread, plSet, pl := 0, 0, 0, 0, false, 0;
      start := inbound.taken;
    }

    /** ws_close_status: a Close frame unless one has gone out, and a fresh frame. */
    method CloseStatus(status: nat)
      requires Separate() && inbound.Valid() && flags.Valid() && status < 0x1_0000
      modifies this`hread, this`lread, this`mread, this`xread, this`plSet, this`pl, this`data, this`start
      modifies head, len, mk, flags, outbound
      ensures Valid() && InHeader() && hread == 0 && start == inbound.taken
      ensures flags.closeSent && flags.binary == old(flags.binary) && flags.fin == old(flags.fin)
      ensures outbound.wire == old(outbound.wire)
        + if old(flags.closeSent) then [] else Attempt(CloseFrame(status), old(outbound.plan))
    {
      flags.CloseOnce(outbound, status);
      Reset();
    }

    /** The octets of the current frame that have been read, as the stream has them. */
    ghost function Arrived(from: nat): Octets
      reads inbound
      requires inbound.Valid() && from <= inbound.taken
    {
      inbound.stream[from..inbound.taken]
    }

    /** A resting reader never sits on a complete frame. */
    lemma RestingIsIncomplete()
      requires Valid()
      ensures ParseClient(host, Arrived(start)).NeedMore?
    {
      var s := Held();
      if hread == 2 {
        assert s[..2] == head[..];
        var ext := ExtendedSize(head[..]);
        if plSet {
          assert s[..2 + ext] == head[..] + len[..lread];
          SameLength(host, s, head[..] + len[..lread]);
        }
      }
    }

    /** With all five stages complete the octets held are one whole frame. */
    lemma CompleteIsMessage()
      requires Tracks() && InPayload() && xread == pl
      ensures ParseClient(host, Arrived(start)) == Message(Mask(mk[..], data[..pl]), inbound.taken - start)
    {
      hide Mask, DeclaredLength;
      var s := Held();
      var body := 2 + ExtendedSize(head[..]);
      assert s[..2] == head[..];
      assert s[..body] == head[..] + len[..lread];
      SameLength(host, s, head[..] + len[..lread]);
      assert s == head[..] + len[..lread] + mk[..] + data[..pl];
      FrameParts(s, head[..] + len[..lread], mk[..], data[..pl]);
    }

    /** The header and extended length are complete, and announce too much. */
    lemma TooLongIsParsed(n: nat)
      requires Tracks() && InLength() && lread == ExtendedSize(head[..])
      requires n == DeclaredLength(host, head[..] + len[..lread]) > MAX_PAYLOAD
      ensures ParseClient(host, Arrived(start)) == TooLong(inbound.taken - start)
    {
      hide DeclaredLength, Mask;
      var s := Held();
      assert s == head[..] + len[..lread];
      assert s[..2] == head[..];
    }

    /** The loop that unmasks the payload where it lies, and its terminator. */
    method Unmask()
      requires Separate() && data != null && data.Length == pl + 1
      modifies data
      ensures data[..pl] == Mask(mk[..], old(data[..pl])) && data[pl] == 0
    {
      var i := 0;
      while i < pl
        invariant 0 <= i <= pl
        invariant forall k :: 0 <= k < i ==> data[k] == Xor(old(data[k]), mk[k % 4])
        invariant forall k :: i <= k <= pl ==> data[k] == old(data[k])
        invariant mk[..] == old(mk[..])
      {
        data[i] := Xor(data[i], mk[i % 4]);
        i := i + 1;
      }
      data[pl] := 0;
    }

    /**
     What a call that ends with `r` has done: kept a partial frame for want of octets,
     dropped it with the connection, or finished exactly the frame that one-shot parsing
     finds in the octets since `from`.
     */
    ghost predicate Concludes(r: ReadResult, from: nat, before: seq<ReadStep>, room: Room)
      reads this, head, len, mk, data, inbound, flags
    {
      && Valid() && Consumed(before, inbound.plan) && from <= inbound.taken
      && var p := ParseClient(host, Arrived(from));
         match r
         case BadDestination => false
         case Again => start == from && p.NeedMore? && Starved(before, inbound.plan)
         case Hangup =>
           start == inbound.taken && p.NeedMore? && Ended(before, inbound.plan, inbound.taken == |inbound.stream|)
         case _ =>
           start == inbound.taken && !p.NeedMore? && p.Used() == inbound.taken - from && r == Report(p, room)
    }

    /** A stage stopped short: keep the partial frame, or drop it with the connection. */
    method GiveUp(status: FillStatus, ghost middle: seq<ReadStep>, ghost before: seq<ReadStep>, ghost room: Room)
      returns (r: ReadResult)
      requires Valid() && !status.Filled? && Consumed(before, middle) && Stopped(middle, status)
      modifies this`hread, this`lread, this`mread, this`xread, this`plSet, this`pl, this`data, this`start
      modifies head, len, mk
      ensures Concludes(r, old(start), before, room) && (r.Again? || r.Hangup?)
      ensures data == old(data) || data == null
    {
      RestingIsIncomplete();
      ConsumedInTwoSteps(before, middle, inbound.plan, if status.HungUp? then ReadReset else ReadBlock);
      if status.HungUp? {
        Reset();
        return Hangup;
      }
      return Again;
    }

    /** A Close frame goes out for a protocol error or a Close, once; nothing else is written here. */
    ghost predicate Closes(stop: Stop, sentBefore: bool, wireBefore: Octets, planBefore: seq<WriteStep>)
      reads this, flags, outbound
    {
      if stop.Return? && (stop.r.ProtocolError? || stop.r.PeerClosed?) then
        && flags.closeSent
        && outbound.wire == wireBefore + if sentBefore then []
             else Attempt(CloseFrame(if stop.r.PeerClosed? then 1000 else 1002), planBefore)
      else flags.closeSent == sentBefore && outbound.wire == wireBefore && outbound.plan == planBefore
    }

    /** The two header octets. */
    method ReadHeader(ghost room: Room) returns (stop: Stop)
      requires Valid()
      modifies this`hread, this`lread, this`mread, this`xread, this`plSet, this`pl, this`data, this`start
      modifies inbound, head, len, mk
      ensures old(inbound.taken) <= inbound.taken
      ensures stop.On? ==> Tracks() && hread == 2 && Consumed(old(inbound.plan), inbound.plan) && start == old(start)
      ensures stop.On? ==> (InHeader() || HeaderDone())
      ensures data == old(data) || data == null
      ensures stop.Return? ==> Concludes(stop.r, old(start), old(inbound.plan), room) && stop.r in {Again, Hangup}
    {
      if hread < 2 {
        var status := FillHeader();
        if !status.Filled? {
          var r := GiveUp(status, old(inbound.plan), old(inbound.plan), room);
          return Return(r);
        }
      }
      return On;
    }

    /** The three tests on the header: masked, no oversized control frame, not a Close. */
    method TestHeader(ghost before: seq<ReadStep>, ghost room: Room) returns (stop: Stop)
      requires Tracks() && hread == 2 && (InHeader() || HeaderDone()) && Consumed(before, inbound.plan)
      modifies this`hread, this`lread, this`mread, this`xread, this`plSet, this`pl, this`data, this`start
      modifies flags, outbound, head, len, mk
      ensures flags.binary == old(flags.binary) && flags.fin == old(flags.fin) && (data == old(data) || data == null)
      ensures stop.On? ==> Tracks() && HeaderDone() && start == old(start)
      ensures stop.On? ==> plSet == old(plSet) && mread == old(mread) && data == old(data)
      ensures stop.Return? ==> Concludes(stop.r, old(start), before, room)
      ensures var a, b := old(head[0]), old(head[1]);
        stop == if Refused(a, b) then Return(ProtocolError) else if Closing(a, b) then Return(PeerClosed) else On
      ensures Closes(stop, old(flags.closeSent), old(outbound.wire), old(outbound.plan))
    {
      assert !HeaderAccepted(head[..]) ==>
        Held() == head[..] && ParseClient(host, Arrived(start)) == ParseClient(host, head[..]);
      if !Masked(head[..]) {
        CloseStatus(1002);
        return Return(ProtocolError);
      }
      if IsControl(Opcode(head[..])) && ShortLength(head[..]) >= 126 {
        CloseStatus(1002);
        return Return(ProtocolError);
      }
      if Opcode(head[..]) == OP_CLOSE {
        CloseStatus(1000);
        return Return(PeerClosed);
      }
      return On;
    }

    /** The extended length octets, if the header asks for any. */
    method FetchLength(ghost before: seq<ReadStep>, ghost room: Room) returns (stop: Stop)
      requires Tracks() && InLength() && Consumed(before, inbound.plan)
      modifies this`hread, this`lread, this`mread, this`xread, this`plSet, this`pl, this`data, this`start
      modifies inbound, head, len, mk
      ensures old(inbound.taken) <= inbound.taken
      ensures stop.On? ==> Tracks() && InLength() && lread == ExtendedSize(head[..])
      ensures stop.On? ==> Consumed(before, inbound.plan) && start == old(start)
      ensures stop.Return? ==> Concludes(stop.r, old(start), before, room) && stop.r in {Again, Hangup}
      ensures data == null
    {
      var n := ShortLength(head[..]);
      if n == 126 || n == 127 {
        ghost var middle := inbound.plan;
        var status := FillLength(if n == 126 then 2 else 8);
        if !status.Filled? {
          var r := GiveUp(status, middle, before, room);
          return Return(r);
        }
        ConsumedInTwoSteps(before, middle, inbound.plan, ReadBlock);
      }
      return On;
    }

    /** The payload length, and the limit on it. */
    method ReadLength(ghost before: seq<ReadStep>, ghost room: Room) returns (stop: Stop)
      requires Tracks() && InLength() && Consumed(before, inbound.plan)
      modifies this`hread, this`lread, this`mread, this`xread, this`plSet, this`pl, this`data, this`start
      modifies inbound, head, len, mk
      ensures old(inbound.taken) <= inbound.taken
      ensures stop.On? ==> Tracks() && InKey() && mread == 0 && Consumed(before, inbound.plan) && start == old(start)
      ensures stop.Return? ==> Concludes(stop.r, old(start), before, room) && stop.r in {Again, Hangup, Oversized}
      ensures data == null
    {
      hide ParseClient;
      stop := FetchLength(before, room);
      if stop.Return? {
        return;
      }
      assert (head[..] + len[..lread])[2..2 + lread] == len[..lread];
      var n: nat := ShortLength(head[..]);
      if n == 126 {
        n := DecodeLength16(host, len[..2]);
      } else if n == 127 {
        n := DecodeLength64(host, len[..8]);
      }
      assert n == DeclaredLength(host, head[..] + len[..lread]);
      if n > MAX_PAYLOAD {
        TooLongIsParsed(n);
        Reset();
        return Return(Oversized);
      }
      ghost var held := Held();
      pl := n;
      plSet := true;
      assert Held() == held;
      return On;
    }

    method ReadKey(ghost before: seq<ReadStep>, ghost room: Room) returns (stop: Stop)
      requires Tracks() && InKey() && Consumed(before, inbound.plan)
      modifies this`hread, this`lread, this`mread, this`xread, this`plSet, this`pl, this`data, this`start
      modifies inbound, head, len, mk
      ensures old(inbound.taken) <= inbound.taken
      ensures stop.On? ==> Tracks() && InKey() && mread == 4 && Consumed(before, inbound.plan) && start == old(start)
      ensures data == null
      ensures stop.Return? ==> Concludes(stop.r, old(start), before, room) && stop.r in {Again, Hangup}
    {
      if mread < 4 {
        ghost var middle := inbound.plan;
        var status := FillKey();
        if !status.Filled? {
          var r := GiveUp(status, middle, before, room);
          return Return(r);
        }
        ConsumedInTwoSteps(before, middle, inbound.plan, ReadBlock);
      }
      return On;
    }

    method ReadPayload(ghost before: seq<ReadStep>, ghost room: Room) returns (stop: Stop)
      requires Tracks() && Consumed(before, inbound.plan)
      requires InPayload() || (InKey() && mread == 4)
      modifies this`hread, this`lread, this`mread, this`xread, this`plSet, this`pl, this`data, this`start
      modifies inbound, head, len, mk, data
      ensures old(inbound.taken) <= inbound.taken
      ensures stop.On? ==>
        Tracks() && InPayload() && xread == pl && Consumed(before, inbound.plan) && start == old(start)
      ensures data == null || data == old(data) || fresh(data)
      ensures stop.Return? ==> Concludes(stop.r, old(start), before, room) && stop.r in {Again, Hangup}
    {
      if data == null {
        data := new byte[pl + 1];
        assert Tracks();
      }
      ghost var middle := inbound.plan;
      var status := FillPayload();
      if !status.Filled? {
        var r := GiveUp(status, middle, before, room);
        return Return(r);
      }
      ConsumedInTwoSteps(before, middle, inbound.plan, ReadBlock);
      return On;
    }

    /** The stages after the header, each entered where the last call left off. */
    method ReadBody(ghost before: seq<ReadStep>, ghost room: Room) returns (stop: Stop)
      requires Tracks() && HeaderDone() && Consumed(before, inbound.plan)
      modifies this`hread, this`lread, this`mread, this`xread, this`plSet, this`pl, this`data, this`start
      modifies inbound, head, len, mk, data
      ensures old(inbound.taken) <= inbound.taken
      ensures stop.On? ==>
        Tracks() && InPayload() && xread == pl && Consumed(before, inbound.plan) && start == old(start)
      ensures data == null || data == old(data) || fresh(data)
      ensures stop.Return? ==> Concludes(stop.r, old(start), before, room) && stop.r in {Again, Hangup, Oversized}
    {
      if !plSet {
        stop := ReadLength(before, room);
        if stop.Return? {
          return;
        }
      }
      if mread < 4 {
        stop := ReadKey(before, room);
        if stop.Return? {
          return;
        }
      }
      stop := ReadPayload(before, room);
    }

    /** memcpy of the payload and its terminator. */
    method CopyOut(dest: array<byte>)
      requires data != null && data.Length == pl + 1 <= dest.Length && data[pl] == 0 && dest != data
      modifies dest
      ensures dest[..] == data[..pl] + [0] + old(dest[..])[pl + 1..]
    {
      forall i | 0 <= i <= pl {
        dest[i] := data[i];
      }
    }

    /** Unmask in place, hand the payload and a NUL to the caller, start afresh. */
    method Deliver(dest: array?<byte>, room: nat, ghost before: seq<ReadStep>) returns (r: ReadResult)
      requires Tracks() && InPayload() && xread == pl && Consumed(before, inbound.plan)
      requires dest != null ==> 0 < room <= dest.Length
      requires dest != null ==> dest != head && dest != len && dest != mk && dest != data
      modifies this`hread, this`lread, this`mread, this`xread, this`plSet, this`pl, this`data, this`start
      modifies head, len, mk, data, dest
      ensures Concludes(r, old(start), before, if dest == null then Discard else Room(room))
      ensures (r.Payload? || r.NoRoom?) && data == null
      ensures dest != null ==> r.Payload? ==> |r.data| < room
      ensures dest != null ==>
        dest[..] == if r.Payload? then r.data + [0] + old(dest[..])[|r.data| + 1..] else old(dest[..])
    {
      hide ParseClient, Mask, DeclaredLength, HeaderAccepted;
      CompleteIsMessage();
      ghost var payload := Mask(mk[..], data[..pl]);
      Unmask();
      if dest != null && pl + 1 > room {
        Reset();
        return NoRoom;
      }
      if dest != null {
        CopyOut(dest);
      }
      r := Payload(data[..pl]);
      Reset();
    }

    /** Everything up to a whole frame in hand. */
    method Advance(ghost room: Room) returns (stop: Stop)
      requires Valid()
      modifies this`hread, this`lread, this`mread, this`xread, this`plSet, this`pl, this`data, this`start
      modifies flags, inbound, outbound, head, len, mk, data
      ensures old(inbound.taken) <= inbound.taken
      ensures flags.binary == old(flags.binary) && flags.fin == old(flags.fin)
      ensures stop.On? ==> Tracks() && InPayload() && xread == pl && start == old(start)
      ensures stop.On? ==> Consumed(old(inbound.plan), inbound.plan)
      ensures stop.Return? ==> Concludes(stop.r, old(start), old(inbound.plan), room) && !stop.r.Payload?
      ensures Closes(stop, old(flags.closeSent), old(outbound.wire), old(outbound.plan))
      ensures data == null || data == old(data) || fresh(data)
    {
      hide ParseClient, Concludes, Held;
      stop := ReadHeader(room);
      if stop.Return? {
        return;
      }
      stop := TestHeader(old(inbound.plan), room);
      if stop.Return? {
        return;
      }
      stop := ReadBody(old(inbound.plan), room);
    }

    /** A call with somewhere to put the payload, or none asked for. */
    method Receive(dest: array?<byte>, room: nat) returns (r: ReadResult)
      requires Valid() && (dest != null ==> 0 < room <= dest.Length)
      requires dest != null ==> dest != head && dest != len && dest != mk && dest != data
      modifies this, flags, inbound, outbound, head, len, mk, data, dest
      ensures old(inbound.taken) <= inbound.taken
      ensures flags.binary == old(flags.binary) && flags.fin == old(flags.fin)
      ensures Concludes(r, old(start), old(inbound.plan), if dest == null then Discard else Room(room))
      ensures dest != null ==> r.Payload? ==> |r.data| < room
      ensures dest != null ==>
        dest[..] == if r.Payload? then r.data + [0] + old(dest[..])[|r.data| + 1..] else old(dest[..])
      ensures Closes(Return(r), old(flags.closeSent), old(outbound.wire), old(outbound.plan))
      ensures data == null || data == old(data) || fresh(data)
    {
      hide ParseClient, Held;
      ghost var view := if dest == null then Discard else Room(room);
      var stop := Advance(view);
      if stop.Return? {
        return stop.r;
      }
      r := Deliver(dest, room, old(inbound.plan));
    }

    /**
     ws_read.  Whatever the schedule, a call that returns anything but EAGAIN reports what
     parsing in one go finds in the octets between the frame's start and the read position.
     */
    method Read(dest: array?<byte>, room: nat) returns (r: ReadResult)
      requires Valid()
      requires dest != null ==> room <= dest.Length && dest != head && dest != len && dest != mk && dest != data
      modifies this, flags, inbound, outbound, head, len, mk, data, dest
      ensures old(inbound.taken) <= inbound.taken
      ensures Valid() && flags.binary == old(flags.binary) && flags.fin == old(flags.fin)
      ensures r.BadDestination? <==> dest != null && room == 0
      ensures r.BadDestination? ==> start == old(start) && inbound.taken == old(inbound.taken)
      ensures !r.BadDestination? ==>
        Concludes(r, old(start), old(inbound.plan), if dest == null then Discard else Room(room))
      ensures !r.BadDestination? ==> ByHeader(host, r, inbound.stream[old(start)..inbound.taken])
      ensures dest != null ==> r.Payload? ==> |r.data| < room
      ensures dest != null ==>
        dest[..] == if r.Payload? then r.data + [0] + old(dest[..])[|r.data| + 1..] else old(dest[..])
      ensures Closes(Return(r), old(flags.closeSent), old(outbound.wire), old(outbound.plan))
      ensures data == null || data == old(data) || fresh(data)
    {
      hide ParseClient, Held;
      if dest != null && room == 0 {
        return BadDestination;
      }
      r := Receive(dest, room);
      ConcludesByHeader(r, old(start), old(inbound.plan), if dest == null then Discard else Room(room));
    }

    /** One-shot parsing and the header octets agree on how a call ends. */
    lemma ConcludesByHeader(r: ReadResult, from: nat, before: seq<ReadStep>, room: Room)
      requires Concludes(r, from, before, room)
      ensures ByHeader(host, r, inbound.stream[from..inbound.taken])
    {
      var s := Arrived(from);
      if 2 <= |s| {
        HeaderDecides(host, s);
      }
    }
  }

  datatype Stop = On | Return(r: ReadResult)

  /** memset to zero. */
  method Zero(a: array<byte>)
    modifies a
    ensures forall i :: 0 <= i < a.Length ==> a[i] == 0
  {
    forall i | 0 <= i < a.Length {
      a[i] := 0;
    }
  }
}
