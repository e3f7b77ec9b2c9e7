/**
 The event loop's descriptor steps as src/libaxil.c performs them, in place on
 descr_map, tunnel_pair and fds_active, each proved against the table functions.
 */
module EventLoop {
  import opened Bytes
  import opened Sockets
  import opened Text
  import opened DescriptorTable

  class Server {
    const slots: array<Slot>
    const pair: array<Option<nat>>
    var active: set<nat>
    var generations: nat
    ghost var hooked: seq<nat>

    ghost predicate Shaped()
      reads this, slots, pair
    {
      Sized(State())
    }

    ghost function State(): Table
      reads this, slots, pair
    {
      Table(slots[..], pair[..], active, generations, hooked)
    }

    /** axil_pre_init. */
    constructor ()
      ensures State() == START && Inv(State())
      ensures fresh(slots) && fresh(pair)
    {
      slots := new Slot[FD_SETSIZE](_ => EMPTY);
      pair := new Option<nat>[FD_SETSIZE](_ => None);
      active, generations, hooked := {}, 0, [];
      new;
      assert slots[..] == START.slots && pair[..] == START.pair;
      StartInv();
    }

    /** axil_raw_descr_reset. */
    method RawDescrReset(fd: nat)
      requires Shaped() && fd < FD_SETSIZE
      modifies this`active, slots, pair
      ensures State() == RawReset(old(State()), fd)
    {
      active := active - {fd};
      pair[fd] := None;
      slots[fd] := EMPTY;
      assert slots[..] == old(slots[..])[fd := EMPTY] && pair[..] == old(pair[..])[fd := None];
    }

    /** axil_tunnel_close_raw: both entries first, then both descriptors. */
    method TunnelCloseRaw(fd: nat)
      requires Shaped() && fd < FD_SETSIZE
      modifies this`active, slots, pair
      ensures State() == TunnelClose(old(State()), fd)
    {
      var peer := pair[fd];
      pair[fd] := None;
      if peer.Some? && peer.value < FD_SETSIZE && peer.value != fd {
        pair[peer.value] := None;
      }
      RawDescrReset(fd);
      if peer.Some? && peer.value < FD_SETSIZE && peer.value != fd {
        RawDescrReset(peer.value);
      }
      assert pair[..] == TunnelClose(old(State()), fd).pair;
      assert slots[..] == TunnelClose(old(State()), fd).slots;
      assert active == TunnelClose(old(State()), fd).active;
    }

    /** axil_close: nothing twice, pairs together, anything else with the disconnect hook. */
    method AxilClose(fd: nat)
      requires Shaped() && fd < FD_SETSIZE
      modifies this`active, this`hooked, slots, pair
      ensures State() == Close(old(State()), fd)
    {
      if !slots[fd].live {
        return;
      }
      if slots[fd].Flagged() {
        TunnelCloseRaw(fd);
        return;
      }
      hooked := hooked + [slots[fd].generation];
      active := active - {fd};
      pair[fd] := None;
      slots[fd] := EMPTY;
      assert slots[..] == old(slots[..])[fd := EMPTY] && pair[..] == old(pair[..])[fd := None];
    }

    /** descr_new, with the number accept() returned. */
    method DescrNew(fd: nat)
      requires Shaped() && fd < FD_SETSIZE
      modifies this`active, this`generations, slots
      ensures State() == AcceptOn(old(State()), fd)
    {
      active := active + {fd};
      generations := generations + 1;
      slots[fd] := EMPTY.(generation := generations);
      slots[fd] := slots[fd].(live := true);
      assert slots[..] == AcceptOn(old(State()), fd).slots;
    }

    /** The WebSocket branch of request_handle, from axil_upstream_descr_init on. */
    method RequestProxy(fd: nat, upstream: nat, requestSent: bool)
      requires Shaped() && fd < FD_SETSIZE && upstream < FD_SETSIZE && fd != upstream
      modifies this`active, slots, pair
      ensures State() == StartProxy(old(State()), fd, upstream, requestSent)
    {
      slots[upstream] := EMPTY.(live := true);
      pair[fd] := Some(upstream);
      pair[upstream] := Some(fd);
      slots[fd] := slots[fd].(pending := true, sent := [], prior := slots[fd].queue, readAll := []);
      slots[upstream] := slots[upstream].(waiting := true, pending := true);
      active := active + {upstream};
      assert slots[..] == StartProxy(old(State()), fd, upstream, true).slots;
      assert pair[..] == StartProxy(old(State()), fd, upstream, true).pair;
      assert State() == StartProxy(old(State()), fd, upstream, true);
      if !requestSent {
        TunnelCloseRaw(upstream);
      }
    }

    /** axil_ws_tunnel. */
    method WsTunnel(a: nat, b: nat)
      requires Shaped() && a < FD_SETSIZE && b < FD_SETSIZE && a != b
      modifies this`active, slots, pair
      ensures State() == EnterTunnel(old(State()), a, b)
    {
      active := active + {a};
      active := active + {b};
      slots[a] := slots[a].(waiting := false, pending := false);
      slots[b] := slots[b].(waiting := false, pending := false);
      slots[a] := slots[a].(tunnel := true);
      slots[b] := slots[b].(tunnel := true);
      pair[a] := Some(b);
      pair[b] := Some(a);
      var r := EnterTunnel(old(State()), a, b);
      assert slots[..] == r.slots && pair[..] == r.pair && active == r.active;
    }

    /** axil_low_write, or axil_write_remaining when `data` is empty, given the kernel's answer. */
    method WriteTo(fd: nat, data: Octets, w: Sent)
      requires Shaped() && fd < FD_SETSIZE
      modifies this`active, this`hooked, slots, pair
      ensures State() == Write(old(State()), fd, data, w)
    {
      var d := slots[fd];
      slots[fd] := d.(queue := d.queue + data);
      assert slots[..] == old(slots[..])[fd := d.(queue := d.queue + data)];
      if w.SendFailed? {
        AxilClose(fd);
        return;
      }
      slots[fd] := AfterSend(slots[fd], w);
      assert slots[..] == old(slots[..])[fd := AfterSend(d.(queue := d.queue + data), w)];
      if d.queue != [] && slots[fd].queue == [] && d.toClose {
        AxilClose(fd);
      }
    }

    /** The WAITING branch of descr_proc_reads. */
    method ReadWaiting(i: nat, got: Received, data: Octets, w: Sent)
      requires Shaped() && i < FD_SETSIZE && slots[i].live && slots[i].waiting
      modifies this`active, this`hooked, slots, pair
      ensures State() == ReadPaired(old(State()), i, got, data, w)
    {
      var rr := ReadResult(got);
      if rr < 0 {
        return;
      }
      if rr == 0 {
        TunnelCloseRaw(i);
        return;
      }
      var peer := pair[i];
      if peer.None? || peer.value == i || peer.value >= FD_SETSIZE || !slots[peer.value].live
         || pair[peer.value] != Some(i) || !slots[peer.value].pending {
        TunnelCloseRaw(i);
        return;
      }
      slots[i] := slots[i].(readAll := slots[i].readAll + data);
      assert slots[..] == NoteRead(old(State()), i, data).slots;
      WriteTo(peer.value, data, w);
      if SWITCHING <= data {
        WsTunnel(peer.value, i);
      } else {
        TunnelCloseRaw(i);
      }
    }

    /** The TUNNEL branch. */
    method ReadTunnel(i: nat, got: Received, data: Octets, w: Sent)
      requires Shaped() && i < FD_SETSIZE && slots[i].live && !slots[i].waiting && !slots[i].pending && slots[i].tunnel
      modifies this`active, this`hooked, slots, pair
      ensures State() == ReadPaired(old(State()), i, got, data, w)
    {
      var rr := ReadResult(got);
      if rr < 0 {
        return;
      }
      if rr == 0 {
        TunnelCloseRaw(i);
        return;
      }
      var peer := pair[i];
      if peer.None? || peer.value == i || peer.value >= FD_SETSIZE || !slots[peer.value].live {
        TunnelCloseRaw(i);
        return;
      }
      slots[i] := slots[i].(readAll := slots[i].readAll + data);
      assert slots[..] == NoteRead(old(State()), i, data).slots;
      WriteTo(peer.value, data, w);
    }

    /** descr_proc_reads for one ready descriptor of a pair. */
    method ProcRead(i: nat, got: Received, data: Octets, w: Sent)
      requires Shaped() && i < FD_SETSIZE
      modifies this`active, this`hooked, slots, pair
      ensures State() == ReadPaired(old(State()), i, got, data, w)
    {
      if !slots[i].live {
        return;
      }
      if slots[i].waiting {
        ReadWaiting(i, got, data, w);
        return;
      }
      if slots[i].pending {
        return;
      }
      if slots[i].tunnel {
        ReadTunnel(i, got, data, w);
      }
    }

    /** One event of any kind. */
    method Handle(e: Event)
      requires Shaped() && Possible(State(), e)
      modifies this, slots, pair
      ensures State() == Step(old(State()), e)
    {
      match e
      case Connection(fd) => DescrNew(fd);
      case Proxy(fd, up, ok) => RequestProxy(fd, up, ok);
      case Readable(fd, got, data, w) => ProcRead(fd, got, data, w);
      case Output(fd, data, w) =>
        if slots[fd].live {
          WriteTo(fd, data, w);
        }
      case Flush(fd, w) =>
        if slots[fd].queue != [] {
          WriteTo(fd, [], w);
        }
      case Finish(fd) =>
        slots[fd] := slots[fd].(toClose := true);
        assert slots[..] == Step(old(State()), e).slots;
      case Closing(fd) => AxilClose(fd);
    }

    /**
       Any run of events: live pairs are right at its end, as at every point of it, and so is the
       whole table when no event has broken a pair.
     */
    method HandleAll(es: seq<Event>)
      requires Core(State()) && PossibleRun(State(), es)
      modifies this, slots, pair
      ensures State() == Run(old(State()), es) && Core(State())
      ensures old(Inv(State())) && Unbroken(old(State()), es) ==> Inv(State())
    {
      RunKeepsIff(State(), es);
      var i := 0;
      assert es[0..] == es;
      while i < |es|
        invariant 0 <= i <= |es| && Shaped() && PossibleRun(State(), es[i..])
        invariant Run(State(), es[i..]) == Run(old(State()), es)
      {
        assert es[i..][0] == es[i] && es[i..][1..] == es[i + 1..];
        Handle(es[i]);
        i := i + 1;
      }
    }
  }
}
