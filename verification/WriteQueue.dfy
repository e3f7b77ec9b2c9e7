/**
 The per-descriptor write queue of src/libaxil.c: axil_rem_may_inc,
 axil_low_write, axil_write_remaining and the part of axil_close they reach.
 */
module WriteQueue {
  import opened Bytes
  import opened Sockets
  import opened WsFlags

  const SIZE_MAX: nat := 0xffff_ffff_ffff_ffff
  const INITIAL_SIZE: nat := 8192 * 1024

  /** realloc() as an adversary, except that no request above SIZE_MAX/2 is ever granted. */
  class Allocator {
    var plan: seq<bool>
    ghost var refusals: nat

    constructor (plan: seq<bool>)
      ensures this.plan == plan
    {
      this.plan, refusals := plan, 0;
    }

    method Grant(size: nat) returns (ok: bool)
      modifies this
      ensures ok <==> size <= SIZE_MAX / 2 && (old(plan) == [] || old(plan)[0])
      ensures plan == if old(plan) == [] then [] else old(plan)[1..]
      ensures refusals == old(refusals) + if ok then 0 else 1
    {
      ok := size <= SIZE_MAX / 2 && (plan == [] || plan[0]);
      plan := if plan == [] then [] else plan[1..];
      if !ok {
        refusals := refusals + 1;
      }
    }
  }

  lemma MoveFront(base: Octets, sent: Octets, q: Octets, n: nat)
    requires n <= |q|
    ensures sent + q[..n] + q[n..] == sent + q
    ensures base + sent + q[..n] == base + (sent + q[..n])
  {
    assert q == q[..n] + q[n..];
  }

  /** What send() returns for it: the octets taken, or -1. */
  function Moved(r: Sent): (ret: int)
  {
    if r.Count? then r.n else -1
  }

  /** The decisions left after one attempt. */
  function Rest(plan: seq<WriteStep>): seq<WriteStep>
  {
    if plan == [] then [] else plan[1..]
  }

  class Descriptor {
    const outbound: Outbound
    const heap: Allocator
    const flags: Flags

    var live: bool          // d->fd == fd
    var toClose: bool       // DF_TO_CLOSE
    var websocket: bool     // DF_WEBSOCKET

    var remaining: array?<byte>
    var size: nat
    var len: nat
    var off: nat

    /** What the wire held before, what the queue has put there, and what it was given. */
    ghost const base: Octets
    ghost var sent: Octets
    ghost var offered: Octets
    /** No write has failed and no growth was refused. */
    ghost var intact: bool

    ghost predicate Shaped()
      reads this
    {
      if live then remaining != null && 0 < size <= remaining.Length && size <= SIZE_MAX && off + len <= size
      else remaining == null && size == 0 && len == 0 && off == 0
    }

    ghost function Queued(): Octets
      reads this, remaining
      requires Shaped()
    {
      if remaining == null then [] else remaining[off..off + len]
    }

    /** The queue is a lossless FIFO; only a failure may cut the stream short. */
    ghost predicate Valid()
      reads this, remaining, flags, outbound
    {
      && Shaped() && flags.Valid() && (len == 0 ==> off == 0)
      && sent <= offered
      && (live ==> intact && sent + Queued() == offered && outbound.wire == base + sent)
      && (!live && intact ==> sent == offered)
      && (!live ==> base + sent <= outbound.wire <= base + sent + CloseFrame(1008))
    }

    /** What has gone to the socket behind the queue's octets: part of a Close frame, from axil_close. */
    ghost function Farewell(): (s: Octets)
      reads this, remaining, flags, outbound
      requires Valid()
      ensures outbound.wire == base + sent + s && s <= CloseFrame(1008) && (live ==> s == [])
    {
      outbound.wire[|base + sent|..]
    }

    /** The descriptor was closed with that much of a plan left: a WebSocket that has sent no Close tries to. */
    ghost predicate Parted(webSocket: bool, closeSent: bool, plan: seq<WriteStep>)
      reads this, outbound
    {
      outbound.wire == base + sent + if webSocket && !closeSent then Attempt(CloseFrame(1008), plan) else []
    }

    /** descr_new, once the socket is accepted and the first buffer is there. */
    constructor (outbound: Outbound, heap: Allocator, flags: Flags)
      requires flags.Valid()
      ensures Valid() && live && !toClose && !websocket && intact
      ensures this.outbound == outbound && this.heap == heap && this.flags == flags && base == outbound.wire
      ensures sent == [] && offered == [] && size == INITIAL_SIZE && fresh(remaining)
    {
      this.outbound, this.heap, this.flags := outbound, heap, flags;
      live, toClose, websocket := true, false, false;
      remaining := new byte[INITIAL_SIZE];
      size, len, off := INITIAL_SIZE, 0, 0;
      base, sent, offered, intact := outbound.wire, [], [], true;
    }

    /** axil_close on a descriptor that is not half of a proxy pair. */
    method Close()
      requires Shaped() && flags.Valid() && (live ==> outbound.wire == base + sent)
      modifies this`live, this`toClose, this`websocket, this`remaining, this`size, this`len, this`off
      modifies flags, outbound
      ensures !live && Shaped() && flags.Valid() && flags.FirstOctet() == old(flags.FirstOctet())
      ensures old(live) ==> !toClose && !websocket && base + sent <= outbound.wire <= base + sent + CloseFrame(1008)
      ensures old(live) ==>
        outbound.wire == old(outbound.wire)
        + if old(websocket) && !old(flags.closeSent) then Attempt(CloseFrame(1008), old(outbound.plan)) else []
      ensures flags.closeSent == (old(flags.closeSent) || (old(live) && old(websocket)))
      ensures !old(live) ==> toClose == old(toClose) && outbound.wire == old(outbound.wire)
    {
      if !live {
        return;
      }
      remaining, size, len, off := null, 0, 0, 0;
      if websocket {
        flags.CloseOnce(outbound, 1008);
      }
      live, toClose, websocket := false, false, false;
    }

    /** realloc(d->remaining, size), with the size field already changed. */
    method Reallocate(keep: nat) returns (ok: bool)
      requires remaining != null && keep <= remaining.Length && keep <= size
      modifies this`remaining, heap
      ensures ok ==> remaining != null && fresh(remaining) && remaining.Length == size
                     && remaining[..keep] == old(remaining[..keep])
      ensures !ok ==> remaining == old(remaining)
      ensures size > SIZE_MAX / 2 ==> !ok
      ensures heap.refusals == old(heap.refusals) + if ok then 0 else 1
    {
      ok := heap.Grant(size);
      if ok {
        var tmp := new byte[size];
        forall i | 0 <= i < keep {
          tmp[i] := remaining[i];
        }
        remaining := tmp;
        assert remaining[..keep] == old(remaining[..keep]);
      }
    }

    /** memmove of the queue to the front of the buffer. */
    method Compact()
      requires Shaped() && live
      modifies this`off, remaining
      ensures Shaped() && off == 0 && Queued() == old(Queued())
    {
      ghost var was := Queued();
      forall i | 0 <= i < len {
        remaining[i] := remaining[off + i];
      }
      off := 0;
      assert Queued() == was;
    }

    /** The doubling loop: until the size exceeds `need`, or realloc refuses. */
    method Grow(need: nat) returns (ok: bool)
      requires Shaped() && live && off == 0 && size <= need <= SIZE_MAX && len <= need
      modifies this`remaining, this`size, heap
      ensures Shaped() && Queued() == old(Queued()) && (remaining == old(remaining) || fresh(remaining))
      ensures ok ==> need < size && 2 * old(size) <= size <= 2 * need && heap.refusals == old(heap.refusals)
      ensures !ok ==> size == old(size) && heap.refusals == old(heap.refusals) + 1
    {
      ghost var was := Queued();
      var oldSize := size;
      while need >= size
        invariant live && remaining != null && 0 < oldSize <= size <= remaining.Length && size <= SIZE_MAX
        invariant off == 0 && len <= oldSize && remaining[..len] == was
        invariant size == oldSize || 2 * oldSize <= size <= 2 * need
        invariant heap.refusals == old(heap.refusals)
        invariant remaining == old(remaining) || fresh(remaining)
        decreases need - size
      {
        if size > SIZE_MAX / 2 {
          size := need;
        } else {
          size := size * 2;
        }
        var granted := Reallocate(len);
        if !granted {
          size := oldSize;
          return false;
        }
      }
      return true;
    }

    /** axil_rem_may_inc: room for `n` more octets at the end of the queue. */
    method MakeRoom(n: nat) returns (ok: bool)
      requires Shaped() && live && (len == 0 ==> off == 0)
      modifies this`remaining, this`size, this`off, remaining, heap
      ensures Shaped() && (len == 0 ==> off == 0)
      ensures Queued() == old(Queued())
      ensures ok ==> n <= size - (off + len) && heap.refusals == old(heap.refusals)
      ensures ok ==> size == old(size) || (2 * old(size) <= size <= 2 * (len + n))
      ensures !ok ==> size == old(size) && (len + n > SIZE_MAX || heap.refusals == old(heap.refusals) + 1)
      ensures old(size - (off + len)) >= n ==> ok && remaining == old(remaining) && off == old(off)
      ensures remaining == old(remaining) || fresh(remaining)
    {
      if size - (off + len) >= n {
        return true;
      }
      if off != 0 {
        Compact();
        if size - len >= n {
          return true;
        }
      }
      if n > SIZE_MAX - len {
        return false;
      }
      ok := Grow(len + n);
    }

    /** The socket took `n` octets off the front of the queue. */
    method Taken(n: nat)
      requires Shaped() && live && n <= len && sent + Queued() == offered
      requires outbound.wire == base + sent + remaining[off..off + n]
      modifies this`off, this`len, this`sent
      ensures Shaped() && len == old(len) - n && off == old(off) + n
      ensures sent == old(sent) + old(Queued())[..n] && sent + Queued() == offered
      ensures outbound.wire == base + sent
    {
      ghost var q := Queued();
      MoveFront(base, sent, q, n);
      assert remaining[off..off + n] == q[..n];
      assert remaining[off + n..off + len] == q[n..];
      sent := sent + q[..n];
      off := off + n;
      len := len - n;
    }

    /** axil_write_remaining: one attempt to send what is queued. */
    method Flush() returns (ret: int)
      requires Valid()
      modifies this`live, this`toClose, this`websocket, this`remaining, this`size, this`len, this`off
      modifies this`sent, this`intact, flags, outbound
      ensures Valid() && old(sent) <= sent
      ensures remaining == old(remaining) || remaining == null
      ensures live ==> toClose == old(toClose) && websocket == old(websocket)
      ensures flags.FirstOctet() == old(flags.FirstOctet()) && (live ==> flags.closeSent == old(flags.closeSent))
      ensures old(live) && !live && intact ==> old(toClose)
      ensures old(len) == 0 ==> ret == 0 && sent == old(sent) && live == old(live) && intact == old(intact)
      ensures old(len) == 0 ==> outbound.wire == old(outbound.wire) && outbound.plan == old(outbound.plan)
      ensures old(live) && !live ==> Parted(old(websocket), old(flags.closeSent), Rest(old(outbound.plan)))
      ensures 0 <= ret ==> |sent| == |old(sent)| + ret
      ensures old(toClose) && old(len) != 0 && intact && sent == offered ==> !live
      ensures old(len) != 0 ==> Answered(Decide(old(outbound.plan), old(len)), ret, old(intact), old(sent))
      ensures old(len) != 0 && live ==> outbound.plan == Rest(old(outbound.plan))
    {
      if len == 0 {
        return 0;
      }
      ret := SendQueued();
      if len == 0 && ret > 0 {
        Drained();
      }
    }

    /** What the socket's answer to an attempt has led to. */
    ghost predicate Answered(r: Sent, ret: int, intactBefore: bool, sentBefore: Octets)
      reads this
    {
      match r
      case SendFailed => !live && !intact && sent == sentBefore && ret == -1
      case Count(n) => intact == intactBefore && ret == n
      case _ => live && ret == -1 && sent == sentBefore
    }

    /** The attempt itself: a queue emptied by it is left for Drained to see to. */
    method SendQueued() returns (ret: int)
      requires Valid() && len != 0
      modifies this`live, this`toClose, this`websocket, this`remaining, this`size, this`len, this`off
      modifies this`sent, this`intact, flags, outbound
      ensures flags.Valid() && flags.FirstOctet() == old(flags.FirstOctet())
      ensures Answered(Decide(old(outbound.plan), old(len)), ret, old(intact), old(sent)) && old(sent) <= sent
      ensures !live || len != 0 ==> Valid()
      ensures 0 <= ret ==> live && |sent| == |old(sent)| + ret && len == old(len) - ret
      ensures ret < 0 && live ==> len == old(len)
      ensures live ==> intact && Shaped() && sent + Queued() == offered && outbound.wire == base + sent
      ensures live ==> remaining == old(remaining) && toClose == old(toClose) && websocket == old(websocket)
      ensures live ==> flags.closeSent == old(flags.closeSent)
      ensures live ==> outbound.plan == Rest(old(outbound.plan))
      ensures !live ==> Parted(old(websocket), old(flags.closeSent), Rest(old(outbound.plan)))
      ensures !live ==> remaining == null && len == 0
    {
      var r := outbound.Send(remaining, off, len);
      if !r.Count? {
        if r.Retry() {
          return -1;
        }
        Fail();
        return -1;
      }
      ret := r.n;
      if ret == 0 {
        return 0;
      }
      Taken(ret);
    }

    /** The queue has run empty: a response that ends the connection is complete. */
    method Drained()
      requires Shaped() && flags.Valid() && live && intact && len == 0
      requires sent == offered && outbound.wire == base + sent
      modifies this`live, this`toClose, this`websocket, this`remaining, this`size, this`len, this`off, flags, outbound
      ensures Valid() && live == !old(toClose) && (remaining == old(remaining) || remaining == null)
      ensures live ==> outbound.plan == old(outbound.plan)
      ensures live ==> !toClose && websocket == old(websocket)
      ensures !live ==> Parted(old(websocket), old(flags.closeSent), old(outbound.plan))
      ensures flags.FirstOctet() == old(flags.FirstOctet()) && (live ==> flags.closeSent == old(flags.closeSent))
    {
      off := 0;
      assert Queued() == [];
      if toClose {
        Close();
      }
    }

    /** Append `n` octets of src, from `at`, to a queue with room for them. */
    method Enqueue(src: array<byte>, at: nat, n: nat)
      requires Shaped() && live && at + n <= src.Length && src != remaining
      requires n <= size - (off + len)
      modifies this`len, remaining
      ensures Shaped() && len == old(len) + n && Queued() == old(Queued()) + src[at..at + n]
    {
      ghost var was, tail := Queued(), src[at..at + n];
      forall i | 0 <= i < n {
        remaining[off + len + i] := src[at + i];
      }
      len := len + n;
      assert |Queued()| == |was + src[at..at + n]|;
      assert forall k :: 0 <= k < |was| ==> Queued()[k] == was[k];
      assert forall k :: |was| <= k < |was| + n ==> Queued()[k] == tail[k - |was|];
    }

    /** A queue that will not grow, or a write that failed, ends the connection. */
    method Fail()
      requires Shaped() && flags.Valid() && live && sent <= offered && outbound.wire == base + sent
      modifies this`live, this`toClose, this`websocket, this`remaining, this`size, this`len, this`off
      modifies this`intact, flags, outbound
      ensures Valid() && !live && !intact && flags.FirstOctet() == old(flags.FirstOctet())
      ensures Parted(old(websocket), old(flags.closeSent), old(outbound.plan))
    {
      intact := false;
      Close();
    }

    /** Queue what is left, when the queue will grow for it. */
    method Keep(src: array<byte>, at: nat, n: nat)
      requires Shaped() && flags.Valid() && (len == 0 ==> off == 0) && live && intact
      requires at + n <= src.Length && src != remaining
      requires sent <= offered && sent + Queued() + src[at..at + n] == offered && outbound.wire == base + sent
      modifies this`live, this`toClose, this`websocket, this`remaining, this`size, this`len, this`off
      modifies this`intact, remaining, heap, flags, outbound
      ensures Valid() && (live <==> intact)
      ensures live ==> toClose == old(toClose) && websocket == old(websocket)
      ensures flags.FirstOctet() == old(flags.FirstOctet()) && (live ==> flags.closeSent == old(flags.closeSent))
      ensures live ==> len == old(len) + n
      ensures !live ==> old(len) + n > SIZE_MAX || heap.refusals == old(heap.refusals) + 1
      ensures live ==> heap.refusals == old(heap.refusals) && outbound.plan == old(outbound.plan)
      ensures !live ==> Parted(old(websocket), old(flags.closeSent), old(outbound.plan))
      ensures remaining == null || remaining == old(remaining) || fresh(remaining)
    {
      ghost var tail, queued := src[at..at + n], Queued();
      var ok := MakeRoom(n);
      if !ok {
        Fail();
        return;
      }
      assert src[at..at + n] == tail && Queued() == queued;
      Enqueue(src, at, n);
      assert Queued() == queued + tail && sent + queued + tail == sent + (queued + tail);
    }

    /** The queue is not empty: the octets go behind it, and the queue gets an attempt. */
    method Append(src: array<byte>, n: nat)
      requires Valid() && live && len != 0 && n <= src.Length && src != remaining
      modifies this, remaining, heap, flags, outbound
      ensures Valid() && old(sent) <= sent && offered == old(offered) + src[..n]
      ensures remaining == null || remaining == old(remaining) || fresh(remaining)
      ensures live ==> toClose == old(toClose) && websocket == old(websocket)
      ensures flags.FirstOctet() == old(flags.FirstOctet()) && (live ==> flags.closeSent == old(flags.closeSent))
      ensures !live && intact ==> old(toClose)
      ensures live && old(toClose) ==> sent != offered
      ensures live ==> outbound.plan == Rest(old(outbound.plan))
      ensures !live ==> Parted(old(websocket), old(flags.closeSent), old(outbound.plan))
                        || Parted(old(websocket), old(flags.closeSent), Rest(old(outbound.plan)))
      ensures var r := Decide(old(outbound.plan), old(len) + n);
              && (!r.Count? ==> sent == old(sent)) && (r.SendFailed? ==> !live)
              && (r.Count? && intact ==> |sent| == |old(sent)| + r.n)
              && (!intact ==> r.SendFailed? || old(len) + n > SIZE_MAX || heap.refusals > old(heap.refusals))
    {
      hide Decide, Rest, Parted;
      ghost var bytes := src[..n];
      assert src[0..n] == bytes;
      offered := offered + bytes;
      Keep(src, 0, n);
      if !live {
        return;
      }
      assert len == old(len) + n && sent == old(sent) && outbound.plan == old(outbound.plan);
      var ret := Flush();
      assert Answered(Decide(old(outbound.plan), old(len) + n), ret, true, old(sent));
    }

    /** axil_low_write: send now, or queue what the socket will not take. */
    method LowWrite(src: array<byte>, n: nat) returns (ret: int)
      requires Valid() && n <= src.Length && src != remaining
      modifies this, remaining, heap, flags, outbound
      ensures Valid() && old(sent) <= sent
      ensures offered == if old(live) then old(offered) + src[..n] else old(offered)
      ensures remaining == null || remaining == old(remaining) || fresh(remaining)
      ensures live ==> old(live) && toClose == old(toClose) && websocket == old(websocket)
      ensures flags.FirstOctet() == old(flags.FirstOctet()) && (live ==> flags.closeSent == old(flags.closeSent))
      ensures old(live) && !live && intact ==> old(toClose) && old(len) != 0
      ensures live && old(toClose) && old(len) != 0 ==> sent != offered
      ensures 0 <= ret ==> live && old(len) == 0 && ret <= n && sent == old(sent) + src[..ret]
      ensures ret == if old(live) && old(len) == 0 && live then Moved(Decide(old(outbound.plan), n)) else -1
      ensures !old(live) ==>
        sent == old(sent) && intact == old(intact) && outbound.wire == old(outbound.wire)
      ensures live ==> outbound.plan == Rest(old(outbound.plan))
      ensures old(live) && !live ==>
        || Parted(old(websocket), old(flags.closeSent), Rest(old(outbound.plan)))
        || (old(len) != 0 && Parted(old(websocket), old(flags.closeSent), old(outbound.plan)))
      ensures old(live) && old(len) == 0 && Decide(old(outbound.plan), n) == Count(n) ==> live
      ensures old(live) ==>
        var r := Decide(old(outbound.plan), old(len) + n);
        && (!r.Count? ==> sent == old(sent)) && (r.SendFailed? ==> !live)
        && (r.Count? && intact ==> |sent| == |old(sent)| + r.n)
        && (!intact ==> r.SendFailed? || old(len) + n > SIZE_MAX || heap.refusals > old(heap.refusals))
    {
      if !live {
        return -1;      // send() on a number that is no longer open: EBADF
      }
      if len != 0 {
        Append(src, n);
        return -1;
      }
      ret := SendNow(src, n);
    }

    /** The queue is empty: the socket gets the octets first. */
    method SendNow(src: array<byte>, n: nat) returns (ret: int)
      requires Valid() && live && len == 0 && n <= src.Length && src != remaining
      modifies this, remaining, heap, flags, outbound
      ensures Valid() && old(sent) <= sent && (live <==> intact) && offered == old(offered) + src[..n]
      ensures remaining == null || remaining == old(remaining) || fresh(remaining)
      ensures live ==> toClose == old(toClose) && websocket == old(websocket)
      ensures flags.FirstOctet() == old(flags.FirstOctet()) && (live ==> flags.closeSent == old(flags.closeSent))
      ensures 0 <= ret ==> live && ret <= n && sent == old(sent) + src[..ret]
      ensures ret == if live then Moved(Decide(old(outbound.plan), n)) else -1
      ensures match Decide(old(outbound.plan), n)
              case SendFailed => !live && sent == old(sent)
              case Count(_) => true
              case _ => sent == old(sent)
      ensures live ==> outbound.plan == Rest(old(outbound.plan))
      ensures !live ==> Parted(old(websocket), old(flags.closeSent), Rest(old(outbound.plan)))
      ensures Decide(old(outbound.plan), n) == Count(n) ==> live
      ensures !live ==>
        Decide(old(outbound.plan), n).SendFailed? || n > SIZE_MAX || heap.refusals > old(heap.refusals)
    {
      ghost var bytes := src[..n];
      assert src[0..n] == bytes && Queued() == [];
      offered := offered + bytes;
      var r := outbound.Send(src, 0, n);
      if !r.Count? {
        if r.Retry() {
          Keep(src, 0, n);
        } else {
          Fail();
        }
        return -1;
      }
      ret := PartlySent(src, n, r.n);
    }

    /** The socket took `k` of the octets; the rest is queued. */
    method PartlySent(src: array<byte>, n: nat, k: nat) returns (ret: int)
      requires Shaped() && flags.Valid() && live && intact && len == 0 && off == 0
      requires k <= n <= src.Length && src != remaining
      requires sent + src[..n] == offered && outbound.wire == base + sent + src[0..k]
      modifies this, remaining, heap, flags, outbound
      ensures Valid() && old(sent) <= sent && (live <==> intact) && offered == old(offered)
      ensures remaining == null || remaining == old(remaining) || fresh(remaining)
      ensures live ==> toClose == old(toClose) && websocket == old(websocket)
      ensures flags.FirstOctet() == old(flags.FirstOctet()) && (live ==> flags.closeSent == old(flags.closeSent))
      ensures ret == if live then k else -1
      ensures live ==> sent == old(sent) + src[..k] && outbound.plan == old(outbound.plan)
      ensures !live ==> Parted(old(websocket), old(flags.closeSent), old(outbound.plan))
      ensures k == n ==> live
      ensures !live ==> n > SIZE_MAX || heap.refusals > old(heap.refusals)
    {
      ghost var bytes := src[..n];
      MoveFront(base, sent, bytes, k);
      assert src[0..k] == bytes[..k] && src[k..n] == bytes[k..];
      sent := sent + bytes[..k];
      if k < n {
        Keep(src, k, n - k);
        if !live {
          return -1;
        }
      }
      return k;
    }
  }
}
