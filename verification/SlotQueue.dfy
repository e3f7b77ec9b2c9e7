/**
 The queue of a table slot is what the buffered write queue amounts to: offering octets to
 the one moves the other exactly as the table says, kernel answer by kernel answer.
 */
module SlotQueue {
  import opened Bytes
  import opened Sockets
  import opened DescriptorTable
  import opened WriteQueue

  /** What the descriptor table sees of a descriptor's queue. */
  ghost function View(d: Descriptor): Slot
    reads d, d.remaining
    requires d.Shaped()
  {
    EMPTY.(live := d.live, toClose := d.toClose, queue := d.Queued(), sent := d.sent)
  }

  /** A table slot with more octets offered to it. */
  function Offered(s: Slot, data: Octets): Slot
  {
    s.(queue := s.queue + data)
  }

  /** When the table closes a slot for the kernel's answer. */
  predicate Ends(s: Slot, data: Octets, w: Sent)
  {
    w.SendFailed? || (s.queue != [] && s.toClose && AfterSend(Offered(s, data), w).queue == [])
  }

  /** So many octets further on, a stream is cut at one place only. */
  lemma OneCut(sent: Octets, queue: Octets, all: Octets, k: nat, sent': Octets, queue': Octets)
    requires sent + all == sent' + queue' && k <= |all| && |sent'| == |sent| + k
    ensures sent' == sent + all[..k] && queue' == all[k..]
  {
    var s := sent + all;
    assert sent' == s[..|sent| + k] && queue' == s[|sent| + k..];
    assert s[..|sent| + k] == sent + all[..k] && s[|sent| + k..] == all[k..];
  }

  /** From the queue's contract to the slot's step, for an answer that leaves the descriptor alive. */
  lemma Moves(sent: Octets, queue: Octets, data: Octets, w: Sent, sent': Octets, queue': Octets, toClose: bool)
    requires sent + queue + data == sent' + queue' && !w.SendFailed?
    requires |sent'| == |sent| + if w.Count? then w.n else 0
    requires w.Count? ==> w.n <= |queue + data|
    ensures var s := EMPTY.(live := true, toClose := toClose, queue := queue, sent := sent);
      AfterSend(Offered(s, data), w) == s.(queue := queue', sent := sent')
  {
    var all := queue + data;
    assert sent + all == sent + queue + data;
    OneCut(sent, queue, all, if w.Count? then w.n else 0, sent', queue');
    assert all[..0] == [] && all[0..] == all && sent + [] == sent;
  }

  /**
     axil_low_write on a live descriptor is the table's write, whatever the kernel answers and
     however the buffer is compacted and grown, as long as it can be grown.
   */
  method WriteIsStep(d: Descriptor, src: array<byte>, n: nat)
    requires d.Valid() && d.live && n <= src.Length && src != d.remaining
    modifies d, d.remaining, d.heap, d.flags, d.outbound
    ensures d.Valid() && View(d).live == d.live
    ensures var w := Decide(old(d.outbound.plan), old(d.len) + n);
      && (d.live ==> View(d) == AfterSend(Offered(old(View(d)), old(src[..n])), w))
      && (Ends(old(View(d)), old(src[..n]), w) ==> !d.live)
      && (!d.live ==> Ends(old(View(d)), old(src[..n]), w)
                      || old(d.len) + n > SIZE_MAX || d.heap.refusals > old(d.heap.refusals))
  {
    ghost var was, data, w := View(d), src[..n], Decide(d.outbound.plan, d.len + n);
    var _ := d.LowWrite(src, n);
    if d.live || d.intact {
      ghost var rest := if d.live then d.Queued() else [];
      if !w.SendFailed? {
        Moves(was.sent, was.queue, data, w, d.sent, rest, was.toClose);
      }
    }
  }

  /** The same with nothing offered. */
  lemma MovesAlone(s: Slot, w: Sent, sent': Octets, queue': Octets)
    requires s.sent + s.queue == sent' + queue' && !w.SendFailed?
    requires s == EMPTY.(live := true, toClose := s.toClose, queue := s.queue, sent := s.sent)
    requires |sent'| == |s.sent| + if w.Count? then w.n else 0
    requires w.Count? ==> w.n <= |s.queue|
    ensures Offered(s, []) == s && AfterSend(s, w) == s.(queue := queue', sent := sent')
  {
    assert s.queue + [] == s.queue && s.sent + s.queue + [] == s.sent + s.queue;
    Moves(s.sent, s.queue, [], w, sent', queue', s.toClose);
  }

  /** And axil_write_remaining is its flush. */
  method FlushIsStep(d: Descriptor)
    requires d.Valid() && d.live && d.len != 0
    modifies d, d.flags, d.outbound
    ensures d.Valid() && View(d).live == d.live
    ensures var w := Decide(old(d.outbound.plan), old(d.len));
      && (d.live ==> View(d) == AfterSend(old(View(d)), w))
      && (Ends(old(View(d)), [], w) <==> !d.live)
  {
    ghost var was, w := View(d), Decide(d.outbound.plan, d.len);
    assert was.sent + was.queue == d.offered && |was.queue| == d.len && was.live;
    var _ := d.Flush();
    hide AfterSend;
    if w.SendFailed? {
      assert !d.live;
    } else if d.live {
      MovesAlone(was, w, d.sent, d.Queued());
    } else {
      MovesAlone(was, w, d.sent, []);
    }
  }
}
