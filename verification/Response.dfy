/** axil_respond of src/libaxil.c on an idle plain descriptor, and the flushes after it. */
module Response {
  import opened Bytes
  import opened Sockets
  import opened WriteQueue

  const COMBINED_MAX: nat := 65536
  const HEADER_ROOM: nat := 4096

  /** What the buffer for the head holds of a text of at most its size: the last octet goes to the NUL. */
  function Kept(text: Octets): (s: Octets)
    requires |text| <= HEADER_ROOM
    ensures |s| == |text|
  {
    if |text| < HEADER_ROOM then text else text[..HEADER_ROOM - 1] + [0]
  }

  /** The head goes out as it was written exactly when it is shorter than the buffer. */
  lemma KeptIff(text: Octets)
    requires |text| <= HEADER_ROOM && 0 !in text
    ensures Kept(text) == text <==> |text| < HEADER_ROOM
  {
    if |text| == HEADER_ROOM {
      assert text[HEADER_ROOM - 1] in text && Kept(text)[HEADER_ROOM - 1] == 0;
    }
  }

  /** snprintf into the buffer: the text cut to it, a NUL, and the length the text has. */
  method FormatHead(text: Octets) returns (hdr: array<byte>, hlen: nat)
    ensures fresh(hdr) && hdr.Length == HEADER_ROOM && hlen == |text|
    ensures hlen <= HEADER_ROOM ==> hdr[..hlen] == Kept(text)
  {
    hdr, hlen := new byte[HEADER_ROOM], |text|;
    var n := if hlen < HEADER_ROOM then hlen else HEADER_ROOM - 1;
    forall i | 0 <= i < n { hdr[i] := text[i]; }
    hdr[n] := 0;
  }

  /** The two memcpy into one buffer. */
  method Combine(header: array<byte>, hlen: nat, body: array<byte>) returns (combined: array<byte>)
    requires hlen <= header.Length
    ensures fresh(combined) && combined[..] == header[..hlen] + body[..]
  {
    combined := new byte[hlen + body.Length];
    forall i | 0 <= i < hlen { combined[i] := header[i]; }
    forall i | 0 <= i < body.Length { combined[hlen + i] := body[i]; }
  }

  /** Header and body in one write. */
  method WriteCombined(d: Descriptor, header: array<byte>, hlen: nat, body: array<byte>)
    requires d.Valid() && d.live && d.len == 0 && hlen <= header.Length
    modifies d, d.remaining, d.heap, d.flags, d.outbound
    ensures d.Valid() && old(d.sent) <= d.sent && (d.live <==> d.intact)
    ensures d.offered == old(d.offered) + (old(header[..hlen]) + old(body[..]))
    ensures d.remaining == null || d.remaining == old(d.remaining) || fresh(d.remaining)
  {
    var combined := Combine(header, hlen, body);
    assert combined[..combined.Length] == combined[..];
    var _ := d.LowWrite(combined, combined.Length);
  }

  /** The header, and then the body behind it. */
  method WriteTwice(d: Descriptor, header: array<byte>, hlen: nat, body: array<byte>, bodyLen: nat)
    requires d.Valid() && d.live && d.len == 0 && hlen <= header.Length && bodyLen <= body.Length
    requires header != d.remaining && body != d.remaining
    modifies d, d.remaining, d.heap, d.flags, d.outbound
    ensures d.Valid() && old(d.sent) <= d.sent
    ensures d.intact ==> d.offered == old(d.offered) + (old(header[..hlen]) + old(body[..bodyLen]))
    ensures d.offered <= old(d.offered) + (old(header[..hlen]) + old(body[..bodyLen]))
    ensures d.remaining == null || d.remaining == old(d.remaining) || fresh(d.remaining)
  {
    Reassociate(d.offered, header[..hlen], body[..bodyLen]);
    var _ := d.LowWrite(header, hlen);
    if bodyLen > 0 {
      var _ := d.LowWrite(body, bodyLen);
    }
  }

  /**
     One or two writes, then the mark that makes an empty queue close the connection.  The code
     copies as many octets out of its buffer as the text has: for a longer text than the buffer
     that reads past it, and what goes out is not determined.
   */
  method Respond(d: Descriptor, text: Octets, body: array<byte>, headOnly: bool) returns (inside: bool)
    requires d.Valid() && d.live && d.len == 0 && text != [] && body != d.remaining
    modifies d, d.remaining, d.heap, d.flags, d.outbound
    ensures d.Valid() && old(d.sent) <= d.sent && (inside <==> |text| <= HEADER_ROOM)
    ensures inside && d.intact ==> d.offered == old(d.offered) + (Kept(text) + if headOnly then [] else old(body[..]))
    ensures inside ==> d.offered <= old(d.offered) + (Kept(text) + if headOnly then [] else old(body[..]))
    ensures inside && d.live ==> d.toClose && d.len != 0
    ensures inside && !d.live && d.intact ==> d.sent == d.offered
    ensures d.remaining == null || d.remaining == old(d.remaining) || fresh(d.remaining)
  {
    var hdr, hlen := FormatHead(text);
    if hlen > HEADER_ROOM {
      return false;
    }
    var bodyLen := if headOnly then 0 else body.Length;
    assert body[..bodyLen] == (if headOnly then [] else body[..]);
    if bodyLen > 0 && hlen + bodyLen <= COMBINED_MAX {
      WriteCombined(d, hdr, hlen, body);
    } else {
      WriteTwice(d, hdr, hlen, body, bodyLen);
    }
    Finish(d);
    return true;
  }

  lemma Reassociate(s: Octets, h: Octets, b: Octets)
    ensures s + h + b == s + (h + b)
    ensures s <= s + h <= s + (h + b)
    ensures b == [] ==> s + h == s + (h + b)
  {
  }

  /** DF_TO_CLOSE, and the close or the first attempt at the rest. */
  method Finish(d: Descriptor)
    requires d.Valid()
    modifies d, d.flags, d.outbound
    ensures d.Valid() && old(d.sent) <= d.sent && d.offered == old(d.offered)
    ensures d.intact ==> old(d.intact)
    ensures d.live ==> d.toClose && d.len != 0
    ensures d.remaining == null || d.remaining == old(d.remaining)
  {
    d.toClose := true;
    if d.len == 0 {
      assert d.live ==> d.Queued() == [];
      d.Close();
    } else {
      var _ := d.Flush();
    }
  }

  /**
     A response and the event loop's flushes, for as long as the schedule goes on: unless a
     write fails or the queue cannot grow, the client has a prefix of header and body while
     the connection is open, and exactly header and body, once, when it is closed.
   */
  method ResponseRun(d: Descriptor, text: Octets, body: array<byte>, headOnly: bool) returns (inside: bool)
    requires d.Valid() && d.live && d.len == 0 && text != [] && body != d.remaining
    modifies d, d.remaining, d.heap, d.flags, d.outbound
    ensures d.Valid() && (inside <==> |text| <= HEADER_ROOM)
    ensures inside ==>
      var all := old(d.offered) + (Kept(text) + if headOnly then [] else old(body[..]));
      && (!d.live || d.outbound.plan == []) && d.sent <= all
      && (d.intact && !d.live ==> d.sent == all)
      && (d.live ==> d.len != 0 && d.outbound.wire == d.base + d.sent && d.sent + d.Queued() == all)
  {
    ghost var before, bodyText := d.offered, body[..];
    inside := Respond(d, text, body, headOnly);
    if !inside {
      return;
    }
    ghost var all := before + (Kept(text) + if headOnly then [] else bodyText);
    while d.live && d.outbound.plan != []
      invariant d.Valid() && d.offered <= all && (d.intact ==> d.offered == all)
      invariant d.live ==> d.toClose && d.len != 0
      invariant d.remaining == null || d.remaining == old(d.remaining) || fresh(d.remaining)
      decreases d.live, |d.outbound.plan|
    {
      var _ := d.Flush();
    }
  }
}
