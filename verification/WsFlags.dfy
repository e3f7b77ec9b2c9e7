/** ws_flags[fd] of src/ws.c, and the one Close frame a connection may send. */
module WsFlags {
  import opened Bytes
  import opened Sockets

  /** A complete Close frame carrying a status (sections 5.5.1 and 7.4.1 of RFC 6455). */
  function CloseFrame(status: nat): (s: Octets)
    requires status < 0x1_0000
    ensures |s| == 4
  {
    [0x88, 2, status / 256, status % 256]
  }

  /** What one attempt to send `s` puts on the wire. */
  function Attempt(s: Octets, plan: seq<WriteStep>): (t: Octets)
    ensures t <= s
  {
    var r := Decide(plan, |s|);
    if r.Count? then s[..r.n] else []
  }

  class Flags {
    var closeSent: bool     // WS_CLOSE_SENT
    var binary: bool        // WS_BINARY
    var fin: bool           // WS_FIN

    /** How many Close frames have been handed to the socket. */
    ghost var closes: nat

    /** At most one, and the flag says which. */
    ghost predicate Valid()
      reads this
    {
      closes == if closeSent then 1 else 0
    }

    /** What ws_init leaves. */
    constructor ()
      ensures Valid() && !closeSent && binary && fin && closes == 0
    {
      closeSent, binary, fin, closes := false, true, true, 0;
    }

    /** The first octet of a frame: FIN and the binary opcode, never the bookkeeping bit. */
    function FirstOctet(): (b: byte)
      reads this
      ensures b in {0, 2, 128, 130} && (b >= 128 <==> fin) && (b % 16 == 2 <==> binary)
    {
      (if fin then 128 else 0) + (if binary then 2 else 0)
    }

    /** The flag update of ws_dprintf keeps the record of a sent Close. */
    method MarkFormatted()
      requires Valid()
      modifies this
      ensures Valid() && binary && fin && closeSent == old(closeSent) && closes == old(closes)
    {
      binary, fin := true, true;
    }

    /** One attempt, straight to the socket, unless a Close has gone out already. */
    method CloseOnce(outbound: Outbound, status: nat)
      requires Valid() && status < 0x1_0000
      modifies this, outbound
      ensures Valid() && closeSent && closes == 1 && binary == old(binary) && fin == old(fin)
      ensures outbound.wire == old(outbound.wire)
        + if old(closeSent) then [] else Attempt(CloseFrame(status), old(outbound.plan))
    {
      var already := closeSent;
      closeSent := true;
      if !already {
        closes := closes + 1;
        var frame := new byte[4];
        frame[0], frame[1], frame[2], frame[3] := 0x88, 2, status / 256, status % 256;
        var r := outbound.Send(frame, 0, 4);
        assert frame[..] == CloseFrame(status);
        assert r.Count? ==> frame[0..r.n] == CloseFrame(status)[..r.n];
      }
    }
  }
}
