/**
 The descriptor table of src/libaxil.c as a value: slots that are reused, proxy pairs
 that share a fate, and the steps of the event loop that change them.
 */
module DescriptorTable {
  import opened Bytes
  import opened Sockets
  import opened Text

  const FD_SETSIZE: nat := 1024

  /** One entry of descr_map. */
  datatype Slot = Slot(
    live: bool,             // d->fd == fd
    waiting: bool,          // DF_WS_WAITING
    pending: bool,          // DF_WS_PROXY_PENDING
    tunnel: bool,           // DF_TUNNEL
    toClose: bool,          // DF_TO_CLOSE
    generation: nat,
    queue: Octets,          // what remaining[] holds
    sent: Octets,           // what the kernel has taken since the pair was made
    prior: Octets,          // what was queued when the pair was made
    readAll: Octets)        // what has been read from it since, and relayed
  {
    predicate Flagged() { waiting || pending || tunnel }
  }

  const EMPTY: Slot := Slot(false, false, false, false, false, 0, [], [], [], [])

  datatype Table = Table(
    slots: seq<Slot>,             // descr_map
    pair: seq<Option<nat>>,       // tunnel_pair, None for INVALID_SOCKET
    active: set<nat>,             // fds_active
    generations: nat,             // conn_generation
    hooked: seq<nat>)             // the generations axil_disconnect was called for

  // ----- teardown ---------------------------------------------------------------

  /** axil_raw_descr_reset. */
  function RawReset(t: Table, fd: nat): (r: Table)
    requires Sized(t) && fd < FD_SETSIZE
    ensures Sized(r)
  {
    t.(slots := t.slots[fd := EMPTY], pair := t.pair[fd := None], active := t.active - {fd})
  }

  predicate Sized(t: Table)
  {
    |t.slots| == FD_SETSIZE && |t.pair| == FD_SETSIZE
  }

  /** The descriptor a teardown takes along. */
  function Companion(t: Table, fd: nat): Option<nat>
    requires Sized(t) && fd < FD_SETSIZE
  {
    var p := t.pair[fd];
    if p.Some? && p.value < FD_SETSIZE && p.value != fd then p else None
  }

  /** axil_tunnel_close_raw: both ends. */
  function TunnelClose(t: Table, fd: nat): (r: Table)
    requires Sized(t) && fd < FD_SETSIZE
    ensures Sized(r)
  {
    var c := Companion(t, fd);
    var r := RawReset(t, fd);
    if c.Some? then RawReset(r, c.value) else r
  }

  /** axil_close. */
  function Close(t: Table, fd: nat): (r: Table)
    requires Sized(t) && fd < FD_SETSIZE
    ensures Sized(r)
  {
    if !t.slots[fd].live then t
    else if t.slots[fd].Flagged() then TunnelClose(t, fd)
    else RawReset(t, fd).(hooked := t.hooked + [t.slots[fd].generation])
  }

  // ----- birth --------------------------------------------------------------------

  /** descr_new for the number the kernel accepted. */
  function AcceptOn(t: Table, fd: nat): (r: Table)
    requires Sized(t) && fd < FD_SETSIZE
    ensures Sized(r)
  {
    t.(slots := t.slots[fd := EMPTY.(live := true, generation := t.generations + 1)],
       active := t.active + {fd}, generations := t.generations + 1)
  }

  /** A WebSocket proxy request: the upstream descriptor, the pending pair, and the request to it. */
  function StartProxy(t: Table, fd: nat, upstream: nat, requestSent: bool): (r: Table)
    requires Sized(t) && fd < FD_SETSIZE && upstream < FD_SETSIZE && fd != upstream
    ensures Sized(r)
  {
    var d := t.slots[fd];
    var r := t.(
      slots := t.slots[fd := d.(pending := true, sent := [], prior := d.queue, readAll := [])]
                      [upstream := EMPTY.(live := true, waiting := true, pending := true)],
      pair := t.pair[fd := Some(upstream)][upstream := Some(fd)],
      active := t.active + {upstream});
    if requestSent then r else TunnelClose(r, upstream)
  }

  /** axil_ws_tunnel. */
  function EnterTunnel(t: Table, a: nat, b: nat): (r: Table)
    requires Sized(t) && a < FD_SETSIZE && b < FD_SETSIZE && a != b
    ensures Sized(r)
  {
    t.(slots := t.slots[a := t.slots[a].(waiting := false, pending := false, tunnel := true)]
                       [b := t.slots[b].(waiting := false, pending := false, tunnel := true)],
       pair := t.pair[a := Some(b)][b := Some(a)],
       active := t.active + {a, b})
  }

  // ----- writing ------------------------------------------------------------------

  /** What the queue is after the kernel answered `w` to an attempt on all of it. */
  function AfterSend(d: Slot, w: Sent): Slot
  {
    if w.Count? && w.n <= |d.queue| then d.(queue := d.queue[w.n..], sent := d.sent + d.queue[..w.n]) else d
  }

  /** axil_low_write and axil_write_remaining, as the write queue is specified: offer, attempt, close. */
  function Write(t: Table, fd: nat, data: Octets, w: Sent): (r: Table)
    requires Sized(t) && fd < FD_SETSIZE
    ensures Sized(r)
  {
    var d := t.slots[fd];
    var full := d.(queue := d.queue + data);
    var offered := t.(slots := t.slots[fd := full]);
    if w.SendFailed? then Close(offered, fd)
    else
      var now := AfterSend(full, w);
      var r := t.(slots := t.slots[fd := now]);
      if d.queue != [] && now.queue == [] && d.toClose then Close(r, fd) else r
  }

  // ----- reading ------------------------------------------------------------------

  /** read_result: 1, 0 or -1. */
  function ReadResult(r: Received): (n: int)
  {
    match r
    case Octets(_) => 1
    case WouldBlock => -1
    case _ => 0
  }

  const SWITCHING: Octets := [72, 84, 84, 80, 47, 49, 46, 49, 32, 49, 48, 49]     // "HTTP/1.1 101"

  predicate Is101(data: Octets)
  {
    SWITCHING <= data
  }

  /** The status line of an answer that switches protocols. */
  lemma SwitchingText(data: Octets)
    ensures Is101(data) <==> Ascii("HTTP/1.1 101") <= data
  {
    assert SWITCHING == Ascii("HTTP/1.1 101");
  }

  /** The checks on the peer of a descriptor that waits for its 101. */
  predicate PeerPending(t: Table, i: nat)
    requires Sized(t) && i < FD_SETSIZE
  {
    var p := Companion(t, i);
    p.Some? && t.slots[p.value].live && t.pair[p.value] == Some(i) && t.slots[p.value].pending
  }

  predicate PeerLive(t: Table, i: nat)
    requires Sized(t) && i < FD_SETSIZE
  {
    var p := Companion(t, i);
    p.Some? && t.slots[p.value].live
  }

  /** Data read from `i` joins what has been read from it. */
  function NoteRead(t: Table, i: nat, data: Octets): (r: Table)
    requires Sized(t) && i < FD_SETSIZE
    ensures Sized(r)
  {
    t.(slots := t.slots[i := t.slots[i].(readAll := t.slots[i].readAll + data)])
  }

  /** The upstream answered: relay the answer, and tunnel if it is a 101. */
  function RelayAnswer(t: Table, i: nat, data: Octets, w: Sent): (r: Table)
    requires Sized(t) && i < FD_SETSIZE && PeerPending(t, i)
    ensures Sized(r)
  {
    var peer := Companion(t, i).value;
    var r := Write(NoteRead(t, i, data), peer, data, w);
    if Is101(data) then EnterTunnel(r, peer, i) else TunnelClose(r, i)
  }

  /** descr_proc_reads for one descriptor of a pair. */
  function ReadPaired(t: Table, i: nat, got: Received, data: Octets, w: Sent): (r: Table)
    requires Sized(t) && i < FD_SETSIZE
    ensures Sized(r)
  {
    var d := t.slots[i];
    if !d.live || !d.Flagged() then t
    else if d.waiting then
      if ReadResult(got) < 0 then t
      else if ReadResult(got) == 0 then TunnelClose(t, i)
      else if !PeerPending(t, i) then TunnelClose(t, i)
      else RelayAnswer(t, i, data, w)
    else if d.pending then t
    else
      if ReadResult(got) < 0 then t
      else if ReadResult(got) == 0 then TunnelClose(t, i)
      else if !PeerLive(t, i) then TunnelClose(t, i)
      else Write(NoteRead(t, i, data), Companion(t, i).value, data, w)
  }

  // ----- runs ---------------------------------------------------------------------

  datatype Event =
    | Connection(fd: nat)                                                // a socket was accepted
    | Proxy(fd: nat, upstream: nat, requestSent: bool)                   // a handler returned an upstream
    | Readable(fd: nat, got: Received, data: Octets, w: Sent)            // select reported a paired descriptor
    | Output(fd: nat, data: Octets, w: Sent)                             // a handler wrote to a plain connection
    | Flush(fd: nat, w: Sent)                                            // the event loop flushed a queue
    | Finish(fd: nat)                                                    // a response set DF_TO_CLOSE
    | Closing(fd: nat)                                                   // anything called axil_close

  /** What the kernel and the caller guarantee: new numbers are not in use, 0 is none, counts are in range. */
  predicate Possible(t: Table, e: Event)
    requires Sized(t)
  {
    match e
    case Connection(fd) => 0 < fd < FD_SETSIZE && !t.slots[fd].live
    case Proxy(fd, up, _) =>
      && 0 < fd < FD_SETSIZE && 0 < up < FD_SETSIZE && fd != up
      && t.slots[fd].live && !t.slots[fd].Flagged() && !t.slots[up].live
    case Readable(fd, got, data, _) => 0 < fd < FD_SETSIZE && (got.Octets? ==> |data| == got.n && 0 < got.n <= 4096)
    case Output(fd, _, _) => 0 < fd < FD_SETSIZE && !t.slots[fd].Flagged()
    case Flush(fd, _) => 0 < fd < FD_SETSIZE
    case Finish(fd) => 0 < fd < FD_SETSIZE
    case Closing(fd) => 0 < fd < FD_SETSIZE
  }

  function Step(t: Table, e: Event): (r: Table)
    requires Sized(t) && Possible(t, e)
    ensures Sized(r)
  {
    match e
    case Connection(fd) => AcceptOn(t, fd)
    case Proxy(fd, up, ok) => StartProxy(t, fd, up, ok)
    case Readable(fd, got, data, w) => ReadPaired(t, fd, got, data, w)
    case Output(fd, data, w) => if t.slots[fd].live then Write(t, fd, data, w) else t
    case Flush(fd, w) => if t.slots[fd].queue == [] then t else Write(t, fd, [], w)
    case Finish(fd) => t.(slots := t.slots[fd := t.slots[fd].(toClose := true)])
    case Closing(fd) => Close(t, fd)
  }

  // ----- the pair invariant ---------------------------------------------------------

  /** A pair is symmetric, of two live descriptors at the same stage, one of them waiting while pending. */
  predicate Paired(t: Table, i: nat, j: nat)
    requires Sized(t) && i < FD_SETSIZE
  {
    && j < FD_SETSIZE && j != i && t.pair[j] == Some(i)
    && var a, b := t.slots[i], t.slots[j];
       && a.live && b.live && a.tunnel == b.tunnel && a.pending == b.pending && a.tunnel != a.pending
       && (a.pending ==> a.waiting != b.waiting) && (a.waiting ==> a.pending)
  }

  /** What the peer has been sent, and still has queued, is what was queued before and what was read from `i`. */
  predicate Faithful(t: Table, i: nat, j: nat)
    requires Sized(t) && i < FD_SETSIZE && j < FD_SETSIZE
  {
    t.slots[j].sent + t.slots[j].queue == t.slots[j].prior + t.slots[i].readAll
  }

  /**
     What holds of a slot at every point of every run: a live one is watched; a live flagged one
     has a live peer at the same stage and has lost nothing; a dead one has no generation and no
     queue.
   */
  predicate SlotCore(t: Table, i: nat)
    requires Sized(t) && i < FD_SETSIZE
  {
    var d := t.slots[i];
    && (d.live ==> i in t.active)
    && (d.live && d.Flagged() ==> t.pair[i].Some? && Paired(t, i, t.pair[i].value) && Faithful(t, i, t.pair[i].value))
    && (!d.live ==> d.generation == 0 && d.queue == [])
    && d.generation <= t.generations
    && (d.live && d.generation == 0 ==> d.Flagged())
    && (d.generation != 0 ==> d.generation !in t.hooked)
  }

  /** A peer is recorded just for flagged slots; a dead slot has no flag and is not watched. */
  predicate SlotClean(t: Table, i: nat)
    requires Sized(t) && i < FD_SETSIZE
  {
    && (t.pair[i].Some? <==> t.slots[i].Flagged())
    && (!t.slots[i].live ==> !t.slots[i].Flagged() && i !in t.active)
  }

  ghost predicate Core(t: Table)
  {
    && Sized(t)
    && (forall i :: 0 <= i < FD_SETSIZE ==> SlotCore(t, i))
    && (forall i, j :: 0 <= i < FD_SETSIZE && 0 <= j < FD_SETSIZE && i != j && t.slots[i].generation != 0
          ==> t.slots[i].generation != t.slots[j].generation)
    && (forall k :: 0 <= k < |t.hooked| ==> 0 < t.hooked[k] <= t.generations)
    && (forall k, l :: 0 <= k < l < |t.hooked| ==> t.hooked[k] != t.hooked[l])
  }

  ghost predicate Inv(t: Table)
  {
    Core(t) && forall i :: 0 <= i < FD_SETSIZE ==> SlotClean(t, i)
  }

  /** A live descriptor of a pair. */
  predicate InPair(t: Table, i: nat)
    requires Sized(t) && i < FD_SETSIZE
  {
    t.slots[i].live && t.slots[i].Flagged()
  }

  /** The event loop watches every live descriptor, and under the whole invariant no other. */
  lemma WatchedIff(t: Table, i: nat)
    requires Core(t) && i < FD_SETSIZE
    ensures t.slots[i].live ==> i in t.active
    ensures Inv(t) ==> (t.slots[i].live <==> i in t.active)
  {
    assert SlotCore(t, i) && (Inv(t) ==> SlotClean(t, i));
  }

  /** A closed slot has no peer, no flag and generation 0, whatever happened to it. */
  lemma ClosedSlotIsClean(t: Table, i: nat)
    requires Inv(t) && i < FD_SETSIZE && !t.slots[i].live
    ensures t.pair[i].None? && t.slots[i].generation == 0 && i !in t.active
    ensures forall j :: 0 <= j < FD_SETSIZE ==> t.pair[j] != Some(i)
  {
    assert SlotCore(t, i) && SlotClean(t, i);
    forall j | 0 <= j < FD_SETSIZE
      ensures t.pair[j] != Some(i)
    {
      assert SlotCore(t, j) && SlotClean(t, j);
    }
  }

  /** An unflagged or dead slot is the peer of no live descriptor of a pair. */
  lemma NobodysPeer(t: Table, i: nat, k: nat)
    requires Core(t) && i < FD_SETSIZE && !InPair(t, i)
    requires k < FD_SETSIZE && InPair(t, k)
    ensures t.pair[k] != Some(i) && k != i
  {
    assert SlotCore(t, k);
  }

  lemma RawResetPair(t: Table, i: nat, j: nat)
    requires Core(t) && i < FD_SETSIZE && InPair(t, i) && t.pair[i] == Some(j)
    ensures j < FD_SETSIZE && Core(RawReset(RawReset(t, i), j))
    ensures Inv(t) ==> Inv(RawReset(RawReset(t, i), j))
  {
    assert SlotCore(t, i);
    var r := RawReset(RawReset(t, i), j);
    forall k | 0 <= k < FD_SETSIZE
      ensures SlotCore(r, k) && (Inv(t) ==> SlotClean(r, k))
    {
      assert SlotCore(t, k) && (Inv(t) ==> SlotClean(t, k));
    }
  }

  lemma TunnelCloseKeeps(t: Table, fd: nat)
    requires Core(t) && fd < FD_SETSIZE && InPair(t, fd)
    ensures Core(TunnelClose(t, fd)) && t.pair[fd].Some?
    ensures Inv(t) ==> Inv(TunnelClose(t, fd))
    ensures var j := t.pair[fd].value;
      && j < FD_SETSIZE && TunnelClose(t, fd) == RawReset(RawReset(t, fd), j)
      && TunnelClose(t, fd).slots[fd] == TunnelClose(t, fd).slots[j] == EMPTY
      && TunnelClose(t, fd).pair[fd] == TunnelClose(t, fd).pair[j] == None
  {
    assert SlotCore(t, fd);
    RawResetPair(t, fd, t.pair[fd].value);
  }

  /** A slot that is no live part of a pair can be emptied alone. */
  lemma RawResetKeeps(t: Table, fd: nat, hook: bool)
    requires Core(t) && fd < FD_SETSIZE && !InPair(t, fd) && (hook ==> t.slots[fd].live)
    ensures var r := RawReset(t, fd).(hooked := t.hooked + if hook then [t.slots[fd].generation] else []);
      Core(r) && (Inv(t) ==> Inv(r))
  {
    var r := RawReset(t, fd).(hooked := t.hooked + if hook then [t.slots[fd].generation] else []);
    assert SlotCore(t, fd);
    forall k | 0 <= k < FD_SETSIZE
      ensures SlotCore(r, k) && (Inv(t) ==> SlotClean(r, k))
    {
      assert SlotCore(t, k) && (Inv(t) ==> SlotClean(t, k));
      if InPair(t, k) {
        NobodysPeer(t, fd, k);
      }
    }
  }

  /** Tearing down what is down already, and has no peer, changes nothing that matters. */
  lemma TunnelCloseDead(t: Table, fd: nat)
    requires Core(t) && fd < FD_SETSIZE && !t.slots[fd].live && t.pair[fd].None?
    ensures Core(TunnelClose(t, fd)) && (Inv(t) ==> Inv(TunnelClose(t, fd)))
  {
    RawResetKeeps(t, fd, false);
    assert t.hooked + [] == t.hooked;
  }

  lemma CloseKeeps(t: Table, fd: nat)
    requires Core(t) && fd < FD_SETSIZE
    ensures Core(Close(t, fd)) && !Close(t, fd).slots[fd].live && (Inv(t) ==> Inv(Close(t, fd)))
  {
    if InPair(t, fd) {
      TunnelCloseKeeps(t, fd);
    } else if t.slots[fd].live {
      RawResetKeeps(t, fd, true);
    }
  }

  lemma AcceptKeeps(t: Table, fd: nat)
    requires Core(t) && fd < FD_SETSIZE && !t.slots[fd].live
    ensures Core(AcceptOn(t, fd)) && (Inv(t) ==> Inv(AcceptOn(t, fd)))
  {
    var r := AcceptOn(t, fd);
    forall k | 0 <= k < FD_SETSIZE
      ensures SlotCore(r, k) && (Inv(t) ==> SlotClean(r, k))
    {
      assert SlotCore(t, k) && (Inv(t) ==> SlotClean(t, k) && SlotClean(t, fd));
      if InPair(t, k) {
        NobodysPeer(t, fd, k);
      }
    }
    forall i, j | 0 <= i < FD_SETSIZE && 0 <= j < FD_SETSIZE && i != j && r.slots[i].generation != 0
      ensures r.slots[i].generation != r.slots[j].generation
    {
      assert SlotCore(t, i) && SlotCore(t, j);
    }
  }

  lemma StartProxyKeeps(t: Table, fd: nat, up: nat, ok: bool)
    requires Core(t) && Possible(t, Proxy(fd, up, ok))
    ensures Core(StartProxy(t, fd, up, ok)) && (Inv(t) ==> Inv(StartProxy(t, fd, up, ok)))
  {
    assert SlotCore(t, fd) && SlotCore(t, up);
    var r := StartProxy(t, fd, up, true);
    forall k | 0 <= k < FD_SETSIZE
      ensures SlotCore(r, k) && (Inv(t) ==> SlotClean(r, k))
    {
      assert SlotCore(t, k) && (Inv(t) ==> SlotClean(t, k));
      if InPair(t, k) {
        NobodysPeer(t, fd, k);
        NobodysPeer(t, up, k);
      }
    }
    assert Core(r) && (Inv(t) ==> Inv(r));
    if !ok {
      TunnelCloseKeeps(r, up);
    }
  }

  lemma EnterTunnelKeeps(t: Table, a: nat, b: nat)
    requires Core(t) && a < FD_SETSIZE && InPair(t, a) && t.pair[a] == Some(b)
    ensures b < FD_SETSIZE && a != b && Core(EnterTunnel(t, a, b)) && (Inv(t) ==> Inv(EnterTunnel(t, a, b)))
  {
    assert SlotCore(t, a);
    assert SlotCore(t, b);
    var r := EnterTunnel(t, a, b);
    forall k | 0 <= k < FD_SETSIZE
      ensures SlotCore(r, k) && (Inv(t) ==> SlotClean(r, k))
    {
      assert SlotCore(t, k) && (Inv(t) ==> SlotClean(t, k));
      EnterTunnelSlot(t, a, b, k);
    }
    hide SlotCore, SlotClean, Paired;
  }

  lemma EnterTunnelSlot(t: Table, a: nat, b: nat, k: nat)
    requires Sized(t) && a < FD_SETSIZE && InPair(t, a) && t.pair[a] == Some(b)
    requires SlotCore(t, a) && b < FD_SETSIZE && SlotCore(t, b) && k < FD_SETSIZE && SlotCore(t, k)
    ensures a != b && SlotCore(EnterTunnel(t, a, b), k)
    ensures SlotClean(t, k) ==> SlotClean(EnterTunnel(t, a, b), k)
  {
  }

  /** Of two dead slots it leaves dead slots with flags and peers: live pairs stay, cleanness goes. */
  lemma EnterTunnelDead(t: Table, a: nat, b: nat)
    requires Core(t) && a < FD_SETSIZE && b < FD_SETSIZE && a != b && !t.slots[a].live && !t.slots[b].live
    ensures Core(EnterTunnel(t, a, b)) && !Inv(EnterTunnel(t, a, b))
  {
    var r := EnterTunnel(t, a, b);
    forall k | 0 <= k < FD_SETSIZE
      ensures SlotCore(r, k)
    {
      assert SlotCore(t, k);
      if InPair(t, k) {
        NobodysPeer(t, a, k);
        NobodysPeer(t, b, k);
      }
    }
    assert !SlotClean(r, a);
  }

  /** The table once `data` is read from `i` and the kernel has answered for its peer's queue. */
  function Relayed(t: Table, i: nat, j: nat, data: Octets, w: Sent): (r: Table)
    requires Sized(t) && i < FD_SETSIZE && j < FD_SETSIZE && i != j
    ensures Sized(r)
  {
    var d := t.slots[j];
    NoteRead(t, i, data).(slots := NoteRead(t, i, data).slots[j := AfterSend(d.(queue := d.queue + data), w)])
  }

  lemma RelayedKeeps(t: Table, i: nat, j: nat, data: Octets, w: Sent)
    requires Core(t) && i < FD_SETSIZE && InPair(t, i) && t.pair[i] == Some(j)
    ensures j < FD_SETSIZE && i != j && Core(Relayed(t, i, j, data, w)) && (Inv(t) ==> Inv(Relayed(t, i, j, data, w)))
  {
    assert SlotCore(t, i) && Paired(t, i, j);
    assert SlotCore(t, j);
    var r := Relayed(t, i, j, data, w);
    MoveQueue(t.slots[j], data, w);
    var a, b := t.slots[j].prior, t.slots[i].readAll;
    assert a + b + data == a + (b + data);
    assert Faithful(r, i, j) && Faithful(r, j, i);
    assert SlotCore(r, i) && SlotCore(r, j);
    forall k | 0 <= k < FD_SETSIZE && k != i && k != j
      ensures SlotCore(r, k)
    {
      assert SlotCore(t, k);
    }
    forall k | 0 <= k < FD_SETSIZE && Inv(t)
      ensures SlotClean(r, k)
    {
      assert SlotClean(t, k);
    }
  }

  lemma MoveQueue(d: Slot, data: Octets, w: Sent)
    ensures var e := AfterSend(d.(queue := d.queue + data), w);
      e.sent + e.queue == d.sent + d.queue + data
  {
    var q := d.queue + data;
    if w.Count? && w.n <= |q| {
      assert q == q[..w.n] + q[w.n..];
    }
  }

  /** Whether a write takes the descriptor, and with it the pair, down. */
  predicate WriteCloses(t: Table, fd: nat, data: Octets, w: Sent)
    requires Sized(t) && fd < FD_SETSIZE
  {
    var d := t.slots[fd];
    w.SendFailed? || (d.queue != [] && d.toClose && w.Count? && w.n == |d.queue + data|)
  }

  lemma RelayKeeps(t: Table, i: nat, data: Octets, w: Sent)
    requires Core(t) && i < FD_SETSIZE && InPair(t, i)
    ensures t.pair[i].Some? && var j := t.pair[i].value;
      && j < FD_SETSIZE && i != j
      && var r := Write(NoteRead(t, i, data), j, data, w);
         && Core(r) && (Inv(t) ==> Inv(r)) && r.hooked == t.hooked
         && (WriteCloses(t, j, data, w) ==> r.slots[i] == r.slots[j] == EMPTY && r.pair[i] == r.pair[j] == None)
         && (!WriteCloses(t, j, data, w) ==> r == Relayed(t, i, j, data, w))
  {
    assert SlotCore(t, i);
    var j := t.pair[i].value;
    assert Paired(t, i, j);
    RelayedKeeps(t, i, j, data, w);
    RelayedKeeps(t, i, j, data, SendBlocked);
    var u := if w.SendFailed? then SendBlocked else w;
    if WriteCloses(t, j, data, w) {
      RelayedKeeps(t, i, j, data, u);
      var r := Relayed(t, i, j, data, u);
      assert Write(NoteRead(t, i, data), j, data, w) == Close(r, j);
      assert SlotCore(r, j) && InPair(r, j);
      TunnelCloseKeeps(r, j);
    }
  }

  /** The outcome a pair does not survive, and yet enters tunnel mode after. */
  predicate BreaksPair(t: Table, e: Event)
    requires Sized(t)
  {
    && e.Readable? && e.fd < FD_SETSIZE && t.slots[e.fd].live && t.slots[e.fd].waiting
    && ReadResult(e.got) > 0 && Is101(e.data) && PeerPending(t, e.fd)
    && WriteCloses(t, Companion(t, e.fd).value, e.data, e.w)
  }

  /**
     Relaying the upstream's answer keeps the invariant exactly when it is not a 101 whose
     relay closes the client: axil_ws_tunnel would then flag and pair two dead slots.  What is
     left of live pairs is right in any case.
   */
  lemma RelayAnswerIff(t: Table, i: nat, data: Octets, w: Sent)
    requires Core(t) && i < FD_SETSIZE && t.slots[i].live && t.slots[i].waiting && PeerPending(t, i)
    ensures var r, closes := RelayAnswer(t, i, data, w), WriteCloses(t, Companion(t, i).value, data, w);
      && Core(r) && r.hooked == t.hooked && (Inv(t) ==> (Inv(r) <==> !(Is101(data) && closes)))
      && !r.slots[i].live == !r.slots[Companion(t, i).value].live == (closes || !Is101(data))
  {
    assert SlotCore(t, i);
    var j := Companion(t, i).value;
    RelayKeeps(t, i, data, w);
    var r := Write(NoteRead(t, i, data), j, data, w);
    if WriteCloses(t, j, data, w) {
      if Is101(data) {
        EnterTunnelDead(r, j, i);
      } else {
        TunnelCloseDead(r, i);
      }
    } else {
      assert InPair(r, i) && r.pair[i] == Some(j);
      assert SlotCore(r, i) && SlotCore(r, j);
      if Is101(data) {
        EnterTunnelKeeps(r, j, i);
      } else {
        TunnelCloseKeeps(r, i);
      }
    }
  }

  lemma ReadPairedKeeps(t: Table, i: nat, got: Received, data: Octets, w: Sent)
    requires Core(t) && i < FD_SETSIZE
    ensures Core(ReadPaired(t, i, got, data, w)) && ReadPaired(t, i, got, data, w).hooked == t.hooked
    ensures Inv(t) ==> (Inv(ReadPaired(t, i, got, data, w)) <==> !BreaksPair(t, Readable(i, got, data, w)))
  {
    assert SlotCore(t, i);
    if InPair(t, i) {
      TunnelCloseKeeps(t, i);
      if t.slots[i].waiting && ReadResult(got) > 0 && PeerPending(t, i) {
        RelayAnswerIff(t, i, data, w);
      }
      RelayKeeps(t, i, data, w);
    }
  }

  /** The kernel takes part of a queue. */
  lemma SendKeeps(t: Table, fd: nat, w: Sent)
    requires Core(t) && fd < FD_SETSIZE && t.slots[fd].live
    ensures var r := t.(slots := t.slots[fd := AfterSend(t.slots[fd], w)]); Core(r) && (Inv(t) ==> Inv(r))
  {
    var d := t.slots[fd];
    var r := t.(slots := t.slots[fd := AfterSend(d, w)]);
    MoveQueue(d, [], w);
    assert d.queue + [] == d.queue && d.sent + d.queue + [] == d.sent + d.queue;
    forall k | 0 <= k < FD_SETSIZE
      ensures SlotCore(r, k) && (Inv(t) ==> SlotClean(r, k))
    {
      assert SlotCore(t, k) && (Inv(t) ==> SlotClean(t, k));
    }
  }

  /** Flushing a queue: a slot gains and loses nothing but its own octets. */
  lemma FlushKeeps(t: Table, fd: nat, w: Sent)
    requires Core(t) && fd < FD_SETSIZE && t.slots[fd].queue != []
    ensures Core(Write(t, fd, [], w)) && (Inv(t) ==> Inv(Write(t, fd, [], w)))
  {
    assert SlotCore(t, fd);
    var d := t.slots[fd];
    assert d.(queue := d.queue + []) == d && t.(slots := t.slots[fd := d]) == t;
    if w.SendFailed? {
      CloseKeeps(t, fd);
    } else {
      SendKeeps(t, fd, w);
      CloseKeeps(t.(slots := t.slots[fd := AfterSend(d, w)]), fd);
    }
  }

  /** The queue of an unpaired descriptor is its own. */
  lemma RequeueKeeps(t: Table, fd: nat, d: Slot)
    requires Core(t) && fd < FD_SETSIZE && t.slots[fd].live && !t.slots[fd].Flagged()
    requires d == t.slots[fd].(queue := d.queue, sent := d.sent)
    ensures var r := t.(slots := t.slots[fd := d]); Core(r) && (Inv(t) ==> Inv(r))
  {
    var r := t.(slots := t.slots[fd := d]);
    forall k | 0 <= k < FD_SETSIZE
      ensures SlotCore(r, k) && (Inv(t) ==> SlotClean(r, k))
    {
      assert SlotCore(t, k) && (Inv(t) ==> SlotClean(t, k));
    }
  }

  /** Writing to a plain connection disturbs no pair. */
  lemma OutputKeeps(t: Table, fd: nat, data: Octets, w: Sent)
    requires Core(t) && fd < FD_SETSIZE && t.slots[fd].live && !t.slots[fd].Flagged()
    ensures Core(Write(t, fd, data, w)) && (Inv(t) ==> Inv(Write(t, fd, data, w)))
  {
    var full := t.slots[fd].(queue := t.slots[fd].queue + data);
    RequeueKeeps(t, fd, full);
    RequeueKeeps(t, fd, AfterSend(full, w));
    CloseKeeps(t.(slots := t.slots[fd := full]), fd);
    CloseKeeps(t.(slots := t.slots[fd := AfterSend(full, w)]), fd);
  }

  lemma FinishKeeps(t: Table, fd: nat)
    requires Core(t) && 0 < fd < FD_SETSIZE
    ensures Core(Step(t, Finish(fd))) && (Inv(t) ==> Inv(Step(t, Finish(fd))))
  {
    var r := Step(t, Finish(fd));
    forall k | 0 <= k < FD_SETSIZE
      ensures SlotCore(r, k) && (Inv(t) ==> SlotClean(r, k))
    {
      assert SlotCore(t, k) && (Inv(t) ==> SlotClean(t, k));
    }
  }

  /** Every event keeps live pairs right, and the whole invariant exactly when it does not break a pair. */
  lemma StepKeepsIff(t: Table, e: Event)
    requires Core(t) && Possible(t, e)
    ensures Core(Step(t, e))
    ensures Inv(t) ==> (Inv(Step(t, e)) <==> !BreaksPair(t, e))
  {
    match e
    case Connection(fd) => AcceptKeeps(t, fd);
    case Proxy(fd, up, ok) => StartProxyKeeps(t, fd, up, ok);
    case Readable(fd, got, data, w) => ReadPairedKeeps(t, fd, got, data, w);
    case Output(fd, data, w) => if t.slots[fd].live { OutputKeeps(t, fd, data, w); }
    case Flush(fd, w) => if t.slots[fd].queue != [] { FlushKeeps(t, fd, w); }
    case Finish(fd) => FinishKeeps(t, fd);
    case Closing(fd) => CloseKeeps(t, fd);
  }

  // ----- whole runs -------------------------------------------------------------------

  predicate PossibleRun(t: Table, es: seq<Event>)
    requires Sized(t)
    decreases |es|
  {
    es == [] || (Possible(t, es[0]) && PossibleRun(Step(t, es[0]), es[1..]))
  }

  /** No event of the run is a 101 whose relay closes the client. */
  predicate Unbroken(t: Table, es: seq<Event>)
    requires Sized(t) && PossibleRun(t, es)
    decreases |es|
  {
    es == [] || (!BreaksPair(t, es[0]) && Unbroken(Step(t, es[0]), es[1..]))
  }

  function Run(t: Table, es: seq<Event>): (r: Table)
    requires Sized(t) && PossibleRun(t, es)
    ensures Sized(r)
    decreases |es|
  {
    if es == [] then t else Run(Step(t, es[0]), es[1..])
  }

  /** What axil_pre_init leaves. */
  const START: Table := Table(seq(FD_SETSIZE, _ => EMPTY), seq(FD_SETSIZE, _ => None), {}, 0, [])

  lemma StartInv()
    ensures Inv(START)
  {
    forall k | 0 <= k < FD_SETSIZE
      ensures SlotCore(START, k) && SlotClean(START, k)
    {
    }
  }

  ghost predicate InvThroughout(t: Table, es: seq<Event>)
    requires Sized(t) && PossibleRun(t, es)
    decreases |es|
  {
    Inv(t) && (es == [] || InvThroughout(Step(t, es[0]), es[1..]))
  }

  /**
     Over every run: live pairs are right at its end whatever happened, and the invariant holds
     at every point of it exactly when no event breaks a pair.
   */
  lemma {:induction false} RunKeepsIff(t: Table, es: seq<Event>)
    requires Core(t) && PossibleRun(t, es)
    ensures Core(Run(t, es))
    ensures Inv(t) ==> (InvThroughout(t, es) <==> Unbroken(t, es))
    ensures Inv(t) && Unbroken(t, es) ==> Inv(Run(t, es))
    decreases |es|
  {
    if es != [] {
      StepKeepsIff(t, es[0]);
      RunKeepsIff(Step(t, es[0]), es[1..]);
    }
  }

  /** Generation `g` has been handed out and no slot holds it. */
  ghost predicate Gone(t: Table, g: nat)
    requires Sized(t)
  {
    0 < g <= t.generations && forall i :: 0 <= i < FD_SETSIZE ==> t.slots[i].generation != g
  }

  /** No generation is handed out; some may leave. */
  ghost predicate Tame(t: Table, r: Table)
  {
    && Sized(t) && Sized(r) && r.generations == t.generations && t.hooked <= r.hooked
    && forall k :: 0 <= k < FD_SETSIZE ==> r.slots[k].generation == 0 || r.slots[k].generation == t.slots[k].generation
  }

  lemma CloseTame(t: Table, fd: nat)
    requires Sized(t) && fd < FD_SETSIZE
    ensures Tame(t, Close(t, fd)) && Tame(t, TunnelClose(t, fd))
  {
  }

  lemma WriteTame(t: Table, fd: nat, data: Octets, w: Sent)
    requires Sized(t) && fd < FD_SETSIZE
    ensures Tame(t, Write(t, fd, data, w))
  {
    var d := t.slots[fd];
    var full := d.(queue := d.queue + data);
    CloseTame(t.(slots := t.slots[fd := full]), fd);
    CloseTame(t.(slots := t.slots[fd := AfterSend(full, w)]), fd);
  }

  lemma TameTwice(t: Table, m: Table, r: Table)
    requires Tame(t, m) && Tame(m, r)
    ensures Tame(t, r)
  {
  }

  lemma RelayTame(t: Table, i: nat, data: Octets, w: Sent)
    requires Sized(t) && i < FD_SETSIZE && PeerPending(t, i)
    ensures Tame(t, RelayAnswer(t, i, data, w))
  {
    var j := Companion(t, i).value;
    var n := NoteRead(t, i, data);
    WriteTame(n, j, data, w);
    var m := Write(n, j, data, w);
    TameTwice(t, n, m);
    CloseTame(m, i);
    TameTwice(t, m, RelayAnswer(t, i, data, w));
  }

  lemma ReadTame(t: Table, i: nat, got: Received, data: Octets, w: Sent)
    requires Sized(t) && i < FD_SETSIZE
    ensures Tame(t, ReadPaired(t, i, got, data, w))
  {
    CloseTame(t, i);
    var c := Companion(t, i);
    if PeerPending(t, i) {
      RelayTame(t, i, data, w);
    }
    if c.Some? {
      var n := NoteRead(t, i, data);
      WriteTame(n, c.value, data, w);
      TameTwice(t, n, Write(n, c.value, data, w));
    }
  }

  /** Only an accepted connection gets a generation, and it is a new one. */
  lemma StepMonotone(t: Table, e: Event)
    requires Sized(t) && Possible(t, e)
    ensures e.Connection? ==>
      var r := Step(t, e);
      && r.generations == t.generations + 1 == r.slots[e.fd].generation && r.hooked == t.hooked
      && forall k :: 0 <= k < FD_SETSIZE && k != e.fd ==> r.slots[k] == t.slots[k]
    ensures !e.Connection? ==> Tame(t, Step(t, e))
  {
    match e
    case Readable(fd, got, data, w) => ReadTame(t, fd, got, data, w);
    case Output(fd, data, w) => WriteTame(t, fd, data, w);
    case Flush(fd, w) => WriteTame(t, fd, [], w);
    case Closing(fd) => CloseTame(t, fd);
    case Proxy(fd, up, ok) => CloseTame(StartProxy(t, fd, up, true), up);
    case _ =>
  }

  /** A generation that has left the table never comes back. */
  lemma {:induction false} GoneForGood(t: Table, es: seq<Event>, g: nat)
    requires Sized(t) && PossibleRun(t, es) && Gone(t, g)
    ensures Gone(Run(t, es), g) && t.hooked <= Run(t, es).hooked
    decreases |es|
  {
    if es != [] {
      StepMonotone(t, es[0]);
      GoneForGood(Step(t, es[0]), es[1..], g);
    }
  }

  // ----- consequences -----------------------------------------------------------------

  /** EAGAIN never tears a pair down, nor does anything else happen. */
  lemma WouldBlockKeepsPair(t: Table, i: nat, data: Octets, w: Sent)
    requires Sized(t) && i < FD_SETSIZE
    ensures ReadPaired(t, i, WouldBlock, data, w) == t
  {
  }

  /** EINTR does: read_result takes it for the end of the stream, and both ends are closed. */
  lemma InterruptTearsPair(t: Table, i: nat, got: Received, data: Octets, w: Sent)
    requires Core(t) && i < FD_SETSIZE && t.slots[i].live && (t.slots[i].tunnel || t.slots[i].waiting)
    requires got.Interrupted? || got.EndOfStream? || got.Broken?
    ensures t.pair[i].Some? && t.pair[i].value < FD_SETSIZE
    ensures var r, j := ReadPaired(t, i, got, data, w), t.pair[i].value;
      r.slots[i] == r.slots[j] == EMPTY && r.pair[i] == r.pair[j] == None && r.hooked == t.hooked
  {
    assert SlotCore(t, i);
    TunnelCloseKeeps(t, i);
  }

  /**
     Reading from a pair, exactly: both ends live or die together, and they die when the read
     is at its end, failed or was interrupted, when relaying closes the peer, or when the
     upstream's answer is no 101.  No hook is called in any case.
   */
  lemma PairReadIff(t: Table, i: nat, got: Received, data: Octets, w: Sent)
    requires Core(t) && i < FD_SETSIZE && t.slots[i].live && (t.slots[i].tunnel || t.slots[i].waiting)
    ensures t.pair[i].Some? && t.pair[i].value < FD_SETSIZE
    ensures var r, j := ReadPaired(t, i, got, data, w), t.pair[i].value;
      && r.hooked == t.hooked && r.slots[i].live == r.slots[j].live
      && (!r.slots[i].live <==>
            || ReadResult(got) == 0
            || (ReadResult(got) > 0 && (WriteCloses(t, j, data, w) || (t.slots[i].waiting && !Is101(data)))))
  {
    assert SlotCore(t, i);
    var j := t.pair[i].value;
    TunnelCloseKeeps(t, i);
    RelayKeeps(t, i, data, w);
    if t.slots[i].waiting && PeerPending(t, i) {
      RelayAnswerIff(t, i, data, w);
    }
    assert SlotCore(t, j);
  }

  // ----- the disconnect hook ------------------------------------------------------------

  /**
     When a generation leaves the table at one event, the hook is called exactly if its slot
     was no part of a pair and did not become one.
   */
  lemma HookIff(t: Table, e: Event, i: nat)
    requires Core(t) && Possible(t, e) && i < FD_SETSIZE
    requires t.slots[i].generation != 0 && Gone(Step(t, e), t.slots[i].generation)
    ensures t.slots[i].generation in Step(t, e).hooked <==> !t.slots[i].Flagged() && !e.Proxy?
  {
    var g := t.slots[i].generation;
    assert SlotCore(t, i) && SlotCore(t, e.fd);
    match e
    case Readable(fd, got, data, w) =>
      ReadPairedKeeps(t, fd, got, data, w);
      ReadLeaves(t, fd, got, data, w, i);
    case Output(fd, data, w) => if t.slots[fd].live { WriteLeaves(t, fd, data, w, i); } else { Unchanged(t, e, i); }
    case Flush(fd, w) => if t.slots[fd].queue != [] { WriteLeaves(t, fd, [], w, i); } else { Unchanged(t, e, i); }
    case Closing(fd) => CloseLeaves(t, fd, i);
    case Proxy(fd, up, ok) =>
    case _ => Unchanged(t, e, i);
  }

  lemma Unchanged(t: Table, e: Event, i: nat)
    requires Core(t) && Possible(t, e) && i < FD_SETSIZE && t.slots[i].generation != 0
    requires e.Connection? || e.Finish? || (e.Output? && !t.slots[e.fd].live) || (e.Flush? && t.slots[e.fd].queue == [])
    ensures Step(t, e).slots[i].generation == t.slots[i].generation
  {
    assert SlotCore(t, i) && SlotCore(t, e.fd);
  }

  /** Closing takes a generation off the table: its own, with the hook, or that of a pair, without. */
  lemma CloseLeaves(t: Table, fd: nat, i: nat)
    requires Core(t) && fd < FD_SETSIZE && i < FD_SETSIZE && t.slots[i].generation != 0
    ensures var r, g := Close(t, fd), t.slots[i].generation;
      r.slots[i].generation != g ==> (g in r.hooked <==> !t.slots[i].Flagged())
  {
    assert SlotCore(t, i) && SlotCore(t, fd);
    if InPair(t, fd) {
      TunnelCloseKeeps(t, fd);
      assert SlotCore(t, t.pair[fd].value);
    }
  }

  /** The same once the queue has moved. */
  lemma MovedLeaves(t: Table, fd: nat, d: Slot, i: nat)
    requires Sized(t) && fd < FD_SETSIZE && i < FD_SETSIZE && t.slots[i].generation != 0
    requires d == t.slots[fd].(queue := d.queue, sent := d.sent) && Core(t.(slots := t.slots[fd := d]))
    ensures var m, g := t.(slots := t.slots[fd := d]), t.slots[i].generation;
      && m.slots[i].generation == g
      && (Close(m, fd).slots[i].generation != g ==> (g in Close(m, fd).hooked <==> !t.slots[i].Flagged()))
  {
    hide Core, Close;
    CloseLeaves(t.(slots := t.slots[fd := d]), fd, i);
  }

  /** Writing offers, moves the queue, and closes. */
  lemma MovedKeeps(t: Table, fd: nat, data: Octets, w: Sent)
    requires Core(t) && fd < FD_SETSIZE && t.slots[fd].live && (t.slots[fd].Flagged() ==> data == [])
    ensures Sized(t)
    ensures var full := t.slots[fd].(queue := t.slots[fd].queue + data);
      Core(t.(slots := t.slots[fd := full])) && Core(t.(slots := t.slots[fd := AfterSend(full, w)]))
  {
    var d := t.slots[fd];
    var full := d.(queue := d.queue + data);
    if d.Flagged() {
      assert d.queue + [] == d.queue;
      assert full == d && t.(slots := t.slots[fd := full]) == t;
      hide Core, SlotCore, AfterSend;
      SendKeeps(t, fd, w);
    } else {
      assert Sized(t);
      hide Core, SlotCore;
      RequeueKeeps(t, fd, full);
      RequeueKeeps(t, fd, AfterSend(full, w));
    }
  }

  lemma WriteLeaves(t: Table, fd: nat, data: Octets, w: Sent, i: nat)
    requires Core(t) && fd < FD_SETSIZE && i < FD_SETSIZE && t.slots[i].generation != 0
    requires t.slots[fd].live && (t.slots[fd].Flagged() ==> data == [])
    ensures var r, g := Write(t, fd, data, w), t.slots[i].generation;
      r.slots[i].generation != g ==> (g in r.hooked <==> !t.slots[i].Flagged())
  {
    hide Core, SlotCore, Close;
    MovedKeeps(t, fd, data, w);
    var full := t.slots[fd].(queue := t.slots[fd].queue + data);
    MovedLeaves(t, fd, full, i);
    MovedLeaves(t, fd, AfterSend(full, w), i);
  }

  /** Tearing down one end touches no other slot than its peer's. */
  lemma TunnelCloseSpares(t: Table, fd: nat, i: nat)
    requires Sized(t) && fd < FD_SETSIZE && i < FD_SETSIZE && i != fd && t.pair[fd] != Some(i)
    ensures TunnelClose(t, fd).slots[i] == t.slots[i]
    ensures forall k :: 0 <= k < FD_SETSIZE ==> TunnelClose(t, fd).pair[k] in {t.pair[k], None}
  {
  }

  /** Nor does a write. */
  lemma WriteSpares(t: Table, fd: nat, data: Octets, w: Sent, i: nat)
    requires Sized(t) && fd < FD_SETSIZE && i < FD_SETSIZE && i != fd && t.pair[fd] != Some(i)
    ensures Write(t, fd, data, w).slots[i] == t.slots[i]
    ensures forall k :: 0 <= k < FD_SETSIZE ==> Write(t, fd, data, w).pair[k] in {t.pair[k], None}
  {
    hide TunnelClose, AfterSend;
    var full := t.slots[fd].(queue := t.slots[fd].queue + data);
    TunnelCloseSpares(t.(slots := t.slots[fd := full]), fd, i);
    TunnelCloseSpares(t.(slots := t.slots[fd := AfterSend(full, w)]), fd, i);
  }

  /** Reading takes off only generations of pairs. */
  lemma ReadLeaves(t: Table, fd: nat, got: Received, data: Octets, w: Sent, i: nat)
    requires Core(t) && fd < FD_SETSIZE && i < FD_SETSIZE && t.slots[i].generation != 0
    ensures ReadPaired(t, fd, got, data, w).slots[i].generation != t.slots[i].generation ==> t.slots[i].Flagged()
  {
    assert Sized(t) && SlotCore(t, fd);
    if InPair(t, fd) && !t.slots[i].Flagged() {
      var j := t.pair[fd].value;
      var n := NoteRead(t, fd, data);
      assert j != i && fd != i && j != fd && n.pair[j] == Some(fd) && n.slots[i] == t.slots[i];
      hide Core, Inv, SlotCore, TunnelClose, Write, NoteRead;
      TunnelCloseSpares(t, fd, i);
      WriteSpares(n, j, data, w, i);
      TunnelCloseSpares(Write(n, j, data, w), fd, i);
    }
  }

  /** At this event the generation leaves a slot outside any pair. */
  ghost predicate LeavesPlainly(t: Table, e: Event, g: nat)
    requires Sized(t) && Possible(t, e)
  {
    && Gone(Step(t, e), g) && !e.Proxy?
    && exists i :: 0 <= i < FD_SETSIZE && t.slots[i].generation == g && !t.slots[i].Flagged()
  }

  ghost predicate EverLeavesPlainly(t: Table, es: seq<Event>, g: nat)
    requires Sized(t) && PossibleRun(t, es)
    decreases |es|
  {
    es != [] && (LeavesPlainly(t, es[0], g) || EverLeavesPlainly(Step(t, es[0]), es[1..], g))
  }

  /** The hook is called only for generations that were in the table. */
  lemma HookedWasHeld(t: Table, e: Event, g: nat)
    requires Core(t) && Possible(t, e) && g in Step(t, e).hooked && g !in t.hooked
    ensures exists i :: 0 <= i < FD_SETSIZE && t.slots[i].generation == g
  {
    if e.Readable? {
      ReadPairedKeeps(t, e.fd, e.got, e.data, e.w);
    } else {
      assert e.Output? || e.Flush? || e.Closing?;
      assert t.slots[e.fd].generation == g;
    }
  }

  lemma HookAtStep(t: Table, e: Event, g: nat)
    requires Core(t) && Possible(t, e) && 0 < g && g !in t.hooked
    ensures g in Step(t, e).hooked <==> LeavesPlainly(t, e, g)
  {
    var r := Step(t, e);
    StepKeepsIff(t, e);
    if g in r.hooked {
      HookedWasHeld(t, e, g);
      var i :| 0 <= i < FD_SETSIZE && t.slots[i].generation == g;
      var k :| 0 <= k < |r.hooked| && r.hooked[k] == g;
      forall l | 0 <= l < FD_SETSIZE
        ensures r.slots[l].generation != g
      {
        assert SlotCore(r, l);
      }
      HookIff(t, e, i);
    }
    if LeavesPlainly(t, e, g) {
      var i :| 0 <= i < FD_SETSIZE && t.slots[i].generation == g && !t.slots[i].Flagged();
      HookIff(t, e, i);
    }
  }

  /**
     Over every run: the hook has been called for a generation exactly when it has left the
     table from a slot outside any pair.  A connection that was torn down as half of a pair, or
     because its proxy request could not be sent, is never reported.
   */
  lemma {:induction false} HookIffRun(t: Table, es: seq<Event>, g: nat)
    requires Core(t) && PossibleRun(t, es) && 0 < g && g !in t.hooked
    ensures g in Run(t, es).hooked <==> EverLeavesPlainly(t, es, g)
    decreases |es|
  {
    if es != [] {
      var r := Step(t, es[0]);
      HookAtStep(t, es[0], g);
      StepKeepsIff(t, es[0]);
      if g in r.hooked {
        HookedStays(r, es[1..]);
      } else {
        HookIffRun(r, es[1..], g);
      }
    }
  }

  lemma {:induction false} HookedStays(t: Table, es: seq<Event>)
    requires Sized(t) && PossibleRun(t, es)
    ensures t.hooked <= Run(t, es).hooked
    decreases |es|
  {
    if es != [] {
      StepMonotone(t, es[0]);
      HookedStays(Step(t, es[0]), es[1..]);
    }
  }

  /** The disconnect hook: a closed connection's generation is logged once and for all. */
  lemma HookFiresOnce(t: Table, fd: nat, es: seq<Event>)
    requires Core(t) && fd < FD_SETSIZE && t.slots[fd].live && !t.slots[fd].Flagged()
    requires PossibleRun(Close(t, fd), es)
    ensures var g, r := t.slots[fd].generation, Run(Close(t, fd), es);
      && g !in t.hooked && multiset(r.hooked)[g] == 1 && Gone(r, g)
  {
    var g, c := t.slots[fd].generation, Close(t, fd);
    assert SlotCore(t, fd);
    CloseKeeps(t, fd);
    forall i | 0 <= i < FD_SETSIZE
      ensures c.slots[i].generation != g
    {
      if i != fd {
        assert t.slots[i].generation != g;
      }
    }
    GoneForGood(c, es, g);
    RunKeepsIff(c, es);
    var h := Run(c, es).hooked;
    assert c.hooked[|t.hooked|] == g && h[|t.hooked|] == g;
    CountOnce(h, |t.hooked|);
  }

  lemma CountOnce(h: seq<nat>, k: nat)
    requires k < |h| && forall i, j :: 0 <= i < j < |h| ==> h[i] != h[j]
    ensures multiset(h)[h[k]] == 1
  {
    var a, b := h[..k], h[k + 1..];
    assert h == a + [h[k]] + b;
    assert multiset(h) == multiset(a) + multiset{h[k]} + multiset(b);
    assert h[k] !in a && h[k] !in b;
  }

  lemma FirstEvent(t: Table, e: Event, es: seq<Event>)
    requires Sized(t) && Possible(t, e) && PossibleRun(Step(t, e), es)
    ensures PossibleRun(t, [e] + es) && Run(t, [e] + es) == Run(Step(t, e), es)
    ensures Unbroken(t, [e] + es) <==> !BreaksPair(t, e) && Unbroken(Step(t, e), es)
  {
    hide Step, Possible, BreaksPair;
    assert ([e] + es)[1..] == es && ([e] + es)[0] == e;
  }

  lemma ThreeEvents(t: Table, e: Event, f: Event, g: Event)
    requires Sized(t) && Possible(t, e) && Possible(Step(t, e), f) && Possible(Step(Step(t, e), f), g)
    ensures PossibleRun(t, [e, f, g]) && Run(t, [e, f, g]) == Step(Step(Step(t, e), f), g)
    ensures BreaksPair(Step(Step(t, e), f), g) ==> !Unbroken(t, [e, f, g])
  {
    hide Step, Possible, BreaksPair;
    var a, b := Step(t, e), Step(Step(t, e), f);
    FirstEvent(b, g, []);
    FirstEvent(a, f, [g]);
    FirstEvent(t, e, [f, g]);
    assert [g] + [] == [g] && [f] + [g] == [f, g] && [e] + [f, g] == [e, f, g];
  }

  /** A proxied connection whose upstream hangs up: its generation is gone, and no hook was called. */
  lemma SilentRun()
    ensures var es := [Connection(5), Proxy(5, 6, true), Readable(6, EndOfStream, [], SendBlocked)];
      PossibleRun(START, es) && Gone(Run(START, es), 1) && Run(START, es).hooked == []
  {
    var es := [Connection(5), Proxy(5, 6, true), Readable(6, EndOfStream, [], SendBlocked)];
    var a := Step(START, es[0]);
    var b := Step(a, es[1]);
    var c := Step(b, es[2]);
    assert b.pair[6] == Some(5) && b.slots[6].live && b.slots[6].waiting;
    assert c.slots[5] == c.slots[6] == EMPTY && c.hooked == [];
    forall k | 0 <= k < FD_SETSIZE
      ensures c.slots[k].generation != 1
    {
      assert k != 5 && k != 6 ==> c.slots[k] == START.slots[k];
    }
    ThreeEvents(START, es[0], es[1], es[2]);
  }

  /** Closing a live descriptor leaves it dead and unwatched: with its peer and no hook, or alone and with its hook. */
  lemma ClosingStep(t: Table, fd: nat)
    requires Core(t) && 0 < fd < FD_SETSIZE && t.slots[fd].live
    ensures var r := Step(t, Closing(fd));
      && !r.slots[fd].live && fd !in r.active && r.pair[fd] == None
      && (if t.slots[fd].Flagged() then
            t.pair[fd].Some? && t.pair[fd].value < FD_SETSIZE && !r.slots[t.pair[fd].value].live && r.hooked == t.hooked
          else r.hooked == t.hooked + [t.slots[fd].generation])
  {
    assert SlotCore(t, fd);
  }

  /**
     A response on a plain connection: queued when the socket blocks, marked, flushed in two
     parts, and closed, with its hook, by the flush that empties the queue and by no earlier one.
   */
  lemma ResponseSteps(t: Table, fd: nat, data: Octets, n: nat)
    requires Sized(t) && 0 < fd < FD_SETSIZE && t.slots[fd].live && !t.slots[fd].Flagged() && t.slots[fd].queue == []
    requires 0 < n < |data|
    ensures var a := Step(t, Output(fd, data, SendBlocked));
      && a.slots[fd].live && a.slots[fd].queue == data && Possible(a, Finish(fd))
      && var b := Step(a, Finish(fd));
         && b.slots[fd].live && b.slots[fd].queue == data && Possible(b, Flush(fd, Count(n)))
         && var c := Step(b, Flush(fd, Count(n)));
            && c.slots[fd].live && c.slots[fd].queue == data[n..] && c.slots[fd].sent == t.slots[fd].sent + data[..n]
            && Possible(c, Flush(fd, Count(|data| - n)))
            && var r := Step(c, Flush(fd, Count(|data| - n)));
               !r.slots[fd].live && fd !in r.active && r.hooked == t.hooked + [t.slots[fd].generation]
  {
    var d := t.slots[fd];
    assert d.queue + data == data && data + [] == data && data[n..] + [] == data[n..];
    var a := Step(t, Output(fd, data, SendBlocked));
    assert a.slots[fd] == d.(queue := data);
    var b := Step(a, Finish(fd));
    assert b.slots[fd] == d.(queue := data, toClose := true);
    var c := Step(b, Flush(fd, Count(n)));
    assert c.slots[fd] == d.(queue := data[n..], sent := d.sent + data[..n], toClose := true);
    var r := Step(c, Flush(fd, Count(|data| - n)));
    assert r.hooked == c.hooked + [d.generation];
  }

  // ----- what the excluded event leads to -------------------------------------------------

  /** A client, its upstream, and a 101 whose relay fails. */
  const BREAK: seq<Event> :=
    [Connection(5), Proxy(5, 6, true), Readable(6, Received.Octets(12), SWITCHING, SendFailed)]

  /** Such a run is possible, and leaves dead slots in tunnel mode. */
  lemma BreakRun()
    ensures PossibleRun(START, BREAK) && !Unbroken(START, BREAK)
    ensures var r := Run(START, BREAK);
      && !r.slots[5].live && !r.slots[6].live && r.slots[5].tunnel && r.slots[6].tunnel
      && r.pair[5] == Some(6) && r.pair[6] == Some(5) && {5, 6} <= r.active && r.hooked == []
  {
    var a := Step(START, BREAK[0]);
    var b := Step(a, BREAK[1]);
    assert b.pair[5] == Some(6) && b.pair[6] == Some(5) && b.slots[5].pending && b.slots[6].waiting;
    assert PeerPending(b, 6) && WriteCloses(b, 5, SWITCHING, SendFailed);
    var w := Write(NoteRead(b, 6, SWITCHING), 5, SWITCHING, SendFailed);
    assert w == Close(w, 5) && w.slots[5] == w.slots[6] == EMPTY;
    var c := Step(b, BREAK[2]);
    assert c == EnterTunnel(w, 5, 6);
    ThreeEvents(START, BREAK[0], BREAK[1], BREAK[2]);
    assert BREAK == [BREAK[0], BREAK[1], BREAK[2]];
  }

  /** The next connection on the number has the other number for a peer. */
  lemma BreakIsInherited()
    ensures PossibleRun(START, BREAK) && Possible(Run(START, BREAK), Connection(5))
    ensures var r := Step(Run(START, BREAK), Connection(5)); r.slots[5].live && r.pair[5] == Some(6)
  {
    BreakRun();
  }

  /** Closing again, or tearing the pair down again, does nothing. */
  lemma CloseTwice(t: Table, fd: nat)
    requires Core(t) && fd < FD_SETSIZE
    ensures Close(Close(t, fd), fd) == Close(t, fd)
  {
    CloseKeeps(t, fd);
  }

  /** A slot number that is handed out again inherits no peer, no stage and no queue. */
  lemma ReusedSlotIsFresh(t: Table, fd: nat)
    requires Inv(t) && Possible(t, Connection(fd))
    ensures var r := Step(t, Connection(fd));
      && r.pair[fd] == None && !r.slots[fd].Flagged() && r.slots[fd].queue == []
      && r.slots[fd].generation > t.generations
      && forall i :: 0 <= i < FD_SETSIZE ==> r.pair[i] != Some(fd)
  {
    ClosedSlotIsClean(t, fd);
  }

  /** Tunnel fidelity, over every run: a live pair has delivered or queued all it read, in order. */
  lemma TunnelFidelity(es: seq<Event>, i: nat)
    requires PossibleRun(START, es) && i < FD_SETSIZE && InPair(Run(START, es), i)
    ensures var t := Run(START, es);
      && t.pair[i].Some? && t.pair[i].value < FD_SETSIZE && var j := t.pair[i].value;
      && t.pair[j] == Some(i) && InPair(t, j)
      && t.slots[j].sent + t.slots[j].queue == t.slots[j].prior + t.slots[i].readAll
      && t.slots[i].sent + t.slots[i].queue == t.slots[i].prior + t.slots[j].readAll
  {
    StartInv();
    RunKeepsIff(START, es);
    var t := Run(START, es);
    assert SlotCore(t, i);
    assert SlotCore(t, t.pair[i].value);
  }
}
