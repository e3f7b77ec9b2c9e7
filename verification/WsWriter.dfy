/** ws_write of src/ws.c over the write queue. */
module WsWriter {
  import opened Bytes
  import opened HostOrder
  import opened FrameFormat
  import opened Sockets
  import opened WriteQueue

  /** The frame header, in the ten octets ws_write sets aside for it. */
  method BuildHeader(host: Host, first: byte, n: nat) returns (hbuf: array<byte>, hlen: nat)
    requires n < TWO_TO_THE_64
    ensures fresh(hbuf) && hbuf.Length == 10 && 2 <= hlen <= 10
    ensures hbuf[..hlen] == ServerHeader(host, first, n)
  {
    hbuf := new byte[10];
    hbuf[0] := first;
    hlen := 2;
    if n < 126 {
      hbuf[1] := n;
    } else if n < TWO_TO_THE_16 {
      hbuf[1] := 126;
      var nn := EncodeLength16(host, n);
      forall i | 0 <= i < 2 { hbuf[2 + i] := nn[i]; }
      hlen := 4;
    } else {
      hbuf[1] := 127;
      var nn := EncodeLength64(host, n);
      forall i | 0 <= i < 8 { hbuf[2 + i] := nn[i]; }
      hlen := 10;
    }
    assert hbuf[..hlen] == ServerHeader(host, first, n);
  }

  /** The kernel takes the header and then fails. */
  predicate CutAfterHeader(plan: seq<WriteStep>, header: nat, payload: nat)
  {
    0 < payload && Decide(plan, header) == Count(header) && Decide(Rest(plan), payload).SendFailed?
  }

  /** A live connection has put only the queue on the wire; a dying one may add Close octets, a dead one nothing. */
  ghost predicate LeavesBehind(d: Descriptor, wasLive: bool, webSocket: bool, closeSent: bool, farewell: Octets)
    reads d, d.remaining, d.flags, d.outbound
    requires d.Valid()
  {
    && (d.live ==> d.websocket == webSocket && d.flags.closeSent == closeSent)
    && (wasLive && d.Farewell() != [] ==> webSocket && !closeSent)
    && (!wasLive ==> d.Farewell() == farewell)
  }

  /** The two writes, header and payload; an empty payload needs none. */
  method SendPieces(d: Descriptor, hbuf: array<byte>, hlen: nat, data: array<byte>, n: nat) returns (ok: bool)
    requires d.Valid() && hlen <= hbuf.Length && n <= data.Length && hbuf != d.remaining && data != d.remaining
    modifies d, d.remaining, d.heap, d.flags, d.outbound
    ensures d.Valid() && old(d.sent) <= d.sent && (ok <==> d.live)
    ensures d.remaining == null || d.remaining == old(d.remaining) || fresh(d.remaining)
    ensures d.flags.FirstOctet() == old(d.flags.FirstOctet())
    ensures d.live ==> old(d.live) && d.toClose == old(d.toClose)
    ensures d.live ==> d.offered == old(d.offered) + (old(hbuf[..hlen]) + old(data[..n]))
    ensures old(d.offered) <= d.offered <= old(d.offered) + (old(hbuf[..hlen]) + old(data[..n]))
    ensures !old(d.live) ==> d.offered == old(d.offered) && !d.live && d.intact == old(d.intact)
    ensures old(d.live) && d.intact && !old(d.toClose) ==> d.live
    ensures old(d.live) && old(d.len) == 0 && CutAfterHeader(old(d.outbound.plan), hlen, n) ==>
      && !d.live && d.sent == old(d.sent) + old(hbuf[..hlen])
      && d.Parted(old(d.websocket), old(d.flags.closeSent), Rest(Rest(old(d.outbound.plan))))
    ensures LeavesBehind(d, old(d.live), old(d.websocket), old(d.flags.closeSent), old(d.Farewell()))
  {
    hide Decide;
    ghost var header, payload := hbuf[..hlen], data[..n];
    Pieces(d.offered, header, payload);
    var r := d.LowWrite(hbuf, hlen);
    if r < 0 && !d.live {
      return false;
    }
    assert |d.Queued()| == d.len;
    if n != 0 {
      r := d.LowWrite(data, n);
      if r < 0 && !d.live {
        return false;
      }
    }
    return true;
  }

  /** ws_write: one unfragmented, unmasked frame through the queue, or a dead connection. */
  method Write(d: Descriptor, host: Host, data: array<byte>, n: nat) returns (ret: int)
    requires d.Valid() && n <= data.Length && n < TWO_TO_THE_64 && data != d.remaining
    modifies d, d.remaining, d.heap, d.flags, d.outbound
    ensures d.Valid() && old(d.sent) <= d.sent
    ensures d.remaining == null || d.remaining == old(d.remaining) || fresh(d.remaining)
    ensures ret == if d.live then |EncodeServer(host, ServerFrame(old(d.flags.FirstOctet()), old(data[..n])))| else -1
    ensures d.flags.FirstOctet() == old(d.flags.FirstOctet())
    ensures d.live ==> old(d.live) && d.toClose == old(d.toClose)
    ensures d.live ==>
      d.offered == old(d.offered) + EncodeServer(host, ServerFrame(old(d.flags.FirstOctet()), old(data[..n])))
    ensures old(d.offered) <= d.offered
      <= old(d.offered) + EncodeServer(host, ServerFrame(old(d.flags.FirstOctet()), old(data[..n])))
    ensures !old(d.live) ==> d.offered == old(d.offered) && !d.live && d.intact == old(d.intact)
    ensures old(d.live) && d.intact && !old(d.toClose) ==> d.live
    ensures old(d.live) && old(d.len) == 0
            && CutAfterHeader(old(d.outbound.plan), |ServerHeader(host, old(d.flags.FirstOctet()), n)|, n) ==>
      && !d.live && d.sent == old(d.sent) + ServerHeader(host, old(d.flags.FirstOctet()), n)
      && d.Parted(old(d.websocket), old(d.flags.closeSent), Rest(Rest(old(d.outbound.plan))))
    ensures LeavesBehind(d, old(d.live), old(d.websocket), old(d.flags.closeSent), old(d.Farewell()))
  {
    hide ServerHeader, CutAfterHeader, LeavesBehind;
    var hbuf, hlen := BuildHeader(host, d.flags.FirstOctet(), n);
    var ok := SendPieces(d, hbuf, hlen, data, n);
    return if ok then hlen + n else -1;
  }

  lemma Pieces(s: Octets, header: Octets, payload: Octets)
    ensures s + header + payload == s + (header + payload)
    ensures payload == [] ==> s + header == s + (header + payload)
    ensures s <= s + header <= s + (header + payload) && s <= s + (header + payload)
  {
  }
}
