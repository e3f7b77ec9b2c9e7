/**
 How a client reads a wire that ends in Close octets.  A Close frame goes straight to the
 socket, past the write queue, so it may stand behind a frame that was cut off: the octets
 of the Close then complete that frame, or are lost in it.
 */
module WireEnd {
  import opened Bytes
  import opened HostOrder
  import opened FrameFormat
  import opened WsFlags

  /** The statuses the server closes with: 1000, 1002 and 1008. */
  predicate CloseStatus(status: nat)
  {
    status in {1000, 1002, 1008}
  }

  /** What a client is shown of a Close frame. */
  function CloseSeen(status: nat): ServerFrame
    requires CloseStatus(status)
  {
    ServerFrame(0x88, [status / 256, status % 256])
  }

  /** Only control frames carry that first octet. */
  predicate NoCloses(fs: seq<ServerFrame>)
  {
    forall f :: f in fs ==> f.first != 0x88
  }

  // ----- one frame ------------------------------------------------------------------

  lemma CloseOctets(status: nat)
    requires CloseStatus(status)
    ensures CloseFrame(status)[0] == 0x88 && CloseFrame(status)[1] == 2 && CloseFrame(status)[2] == 3
    ensures CloseFrame(status)[3] >= 232
  {
  }

  /** A whole Close reads as one; the rest of one whose first octets went elsewhere reads as nothing. */
  lemma CloseReads(status: nat, from: nat, to: nat)
    requires CloseStatus(status) && from <= to <= 4
    ensures ClientReads(CloseFrame(status)[from..to])
         == if from == 0 && to == 4 then [CloseSeen(status)] else []
  {
    var c := CloseFrame(status);
    CloseOctets(status);
    if from == 0 && to == 4 {
      assert c[0..4] == c == c[..2] + c[2..];
      ReadsBehind(c[..2], c[2..]);
      assert c[2..][..2] == [status / 256, status % 256] && c[2..][2..] == [];
      NothingReads();
    } else {
      var s := c[from..to];
      assert forall k :: 0 <= k < |s| ==> s[k] == c[from + k];
      ShortReads(s);
    }
  }

  lemma {:induction false} DigitBelow(s: Octets, i: nat)
    requires i < |s|
    ensures s[i] <= FromBigEndian(s)
  {
    if i < |s| - 1 {
      DigitBelow(s[..|s| - 1], i);
    }
  }

  /** Cut behind its first octet, a frame seems masked and eight octets long. */
  lemma CutAfterOne(first: byte, status: nat, t: nat)
    requires CloseStatus(status) && t <= 4
    ensures ClientReads([first] + CloseFrame(status)[..t]) == []
  {
    var s := [first] + CloseFrame(status)[..t];
    CloseOctets(status);
    assert t != 0 ==> s[1] == 0x88;
    ShortReads(s);
  }

  /** Cut inside its extended length, a frame seems longer than any Close. */
  lemma CutInLength(h: Octets, m: nat, status: nat, t: nat)
    requires 2 <= m < |h| && !Masked(h) && |h| == 2 + ExtendedSize(h)
    requires CloseStatus(status) && t <= 4
    ensures ClientReads(h[..m] + CloseFrame(status)[..t]) == []
  {
    var s := h[..m] + CloseFrame(status)[..t];
    assert s[1] == h[1] && ExtendedSize(s) == ExtendedSize(h);
    if |h| <= |s| {
      CloseOctets(status);
      assert s[2..|h|][m - 2] == s[m] == 0x88;
      DigitBelow(s[2..|h|], m - 2);
      assert AnnouncedLength(s) == FromBigEndian(s[2..|h|]);
    }
    ShortReads(s);
  }

  /** A frame cut inside its header reads as nothing: the Close octets make its length too large. */
  lemma CutHeader(host: Host, f: ServerFrame, m: nat, status: nat, t: nat)
    requires |f.payload| < TWO_TO_THE_64 && 0 < m < |ServerHeader(host, f.first, |f.payload|)|
    requires CloseStatus(status) && t <= 4
    ensures ClientReads(EncodeServer(host, f)[..m] + CloseFrame(status)[..t]) == []
  {
    hide ClientReads, CloseFrame;
    var h := ServerHeader(host, f.first, |f.payload|);
    assert EncodeServer(host, f)[..m] == h[..m];
    ServerHeaderReads(host, f.first, |f.payload|, []);
    assert h + [] == h;
    if m == 1 {
      assert h[..1] == [f.first];
      CutAfterOne(f.first, status, t);
    } else {
      CutInLength(h, m, status, t);
    }
  }

  /** A frame cut inside its payload is completed by the Close octets when they are enough. */
  lemma CutPayload(host: Host, f: ServerFrame, m: nat, status: nat, t: nat)
    requires |f.payload| < TWO_TO_THE_64 && RightOn(host, |f.payload|)
    requires |ServerHeader(host, f.first, |f.payload|)| <= m < |EncodeServer(host, f)|
    requires CloseStatus(status) && t <= 4
    ensures var missing, tail := |EncodeServer(host, f)| - m, CloseFrame(status)[..t];
      ClientReads(EncodeServer(host, f)[..m] + tail)
      == if missing <= t then [ServerFrame(f.first, f.payload[..|f.payload| - missing] + tail[..missing])] else []
  {
    hide RightOn, ClientReads, ServerHeader, CloseFrame;
    var tail := CloseFrame(status)[..t];
    var n, missing := |f.payload|, |EncodeServer(host, f)| - m;
    var rest := f.payload[..n - missing] + tail;
    assert EncodeServer(host, f)[..m] + tail == ServerHeader(host, f.first, n) + rest;
    ReadsBehindHeader(host, f.first, n, rest);
    if missing <= t {
      assert rest[..n] == f.payload[..n - missing] + tail[..missing];
      assert rest[n..] == CloseFrame(status)[missing..t];
      CloseReads(status, missing, t);
    }
  }

  // ----- the whole stream -----------------------------------------------------------

  /** What a client reads of the first `n` octets of the frames with `t` octets of a Close behind. */
  function Seen(host: Host, fs: seq<ServerFrame>, n: nat, status: nat, t: nat): seq<ServerFrame>
    requires Sendable(fs) && n <= |EncodeServerAll(host, fs)| && CloseStatus(status) && t <= 4
    decreases |fs|
  {
    if fs == [] || n == 0 then (if t == 4 then [CloseSeen(status)] else [])
    else
      var size := |EncodeServer(host, fs[0])|;
      if size <= n then [fs[0]] + Seen(host, fs[1..], n - size, status, t)
      else if Completed(host, fs[0], n, t) then [Patched(host, fs[0], n, status)]
      else []
  }

  /** The cut is in the payload, and no more is missing than octets of the Close have gone out. */
  predicate Completed(host: Host, f: ServerFrame, m: nat, t: nat)
    requires |f.payload| < TWO_TO_THE_64 && 0 < m < |EncodeServer(host, f)|
  {
    |ServerHeader(host, f.first, |f.payload|)| <= m && |EncodeServer(host, f)| - m <= t
  }

  /** The frame with octets of the Close in place of those that are missing. */
  function Patched(host: Host, f: ServerFrame, m: nat, status: nat): ServerFrame
    requires |f.payload| < TWO_TO_THE_64 && 0 < m < |EncodeServer(host, f)|
    requires CloseStatus(status) && Completed(host, f, m, 4)
  {
    var missing := |EncodeServer(host, f)| - m;
    ServerFrame(f.first, f.payload[..|f.payload| - missing] + CloseFrame(status)[..missing])
  }

  /** The octets end where a frame does. */
  predicate AtBoundary(host: Host, fs: seq<ServerFrame>, n: nat)
    requires Sendable(fs) && n <= |EncodeServerAll(host, fs)|
    decreases |fs|
  {
    || n == 0
    || (fs != [] && |EncodeServer(host, fs[0])| <= n && AtBoundary(host, fs[1..], n - |EncodeServer(host, fs[0])|))
  }

  /**
     A frame that was cut within its last four payload octets, of which the kernel has then
     taken as many octets of the Close as are missing, and other ones than are missing.
   */
  predicate Spoiled(host: Host, fs: seq<ServerFrame>, n: nat, status: nat, t: nat)
    requires Sendable(fs) && n <= |EncodeServerAll(host, fs)| && CloseStatus(status) && t <= 4
    decreases |fs|
  {
    if fs == [] || n == 0 then false
    else
      var size := |EncodeServer(host, fs[0])|;
      if size <= n then Spoiled(host, fs[1..], n - size, status, t)
      else
        && Completed(host, fs[0], n, t)
        && fs[0].payload[|fs[0].payload| - (size - n)..] != CloseFrame(status)[..size - n]
  }

  /** When all frames have gone out they are read, and then the Close if it went out whole. */
  lemma {:induction false} SeenAll(host: Host, fs: seq<ServerFrame>, status: nat, t: nat)
    requires Sendable(fs) && CloseStatus(status) && t <= 4
    ensures Seen(host, fs, |EncodeServerAll(host, fs)|, status, t) == fs + if t == 4 then [CloseSeen(status)] else []
    decreases |fs|
  {
    var close := if t == 4 then [CloseSeen(status)] else [];
    if fs == [] {
      assert [] + close == close;
    } else {
      var one := EncodeServer(host, fs[0]);
      assert 0 < |one| && fs[0] in fs;
      hide EncodeServer, CloseSeen;
      SeenAll(host, fs[1..], status, t);
      assert EncodeServerAll(host, fs) == one + EncodeServerAll(host, fs[1..]);
      assert [fs[0]] + (fs[1..] + close) == fs + close;
    }
  }

  /** The exact reading of every such wire. */
  lemma {:induction false} WireReads(host: Host, fs: seq<ServerFrame>, n: nat, status: nat, t: nat)
    requires Sendable(fs) && AllTold(host, fs) && n <= |EncodeServerAll(host, fs)| && CloseStatus(status) && t <= 4
    ensures ClientReads(EncodeServerAll(host, fs)[..n] + CloseFrame(status)[..t]) == Seen(host, fs, n, status, t)
    decreases |fs|
  {
    hide ClientReads, EncodeServer, ServerHeader, RightOn, CloseFrame;
    var tail := CloseFrame(status)[..t];
    var s := EncodeServerAll(host, fs)[..n] + tail;
    if n == 0 {
      assert s == tail == CloseFrame(status)[0..t];
      CloseReads(status, 0, t);
      return;
    }
    var one, more := EncodeServer(host, fs[0]), EncodeServerAll(host, fs[1..]);
    if |one| <= n {
      var rest := more[..n - |one|] + tail;
      assert s == one + rest;
      ClientReadsOne(host, fs[0], rest);
      WireReads(host, fs[1..], n - |one|, status, t);
    } else {
      assert s == one[..n] + tail;
      if n < |ServerHeader(host, fs[0].first, |fs[0].payload|)| {
        CutHeader(host, fs[0], n, status, t);
      } else {
        CutPayload(host, fs[0], n, status, t);
        assert |one| - n <= t ==> tail[..|one| - n] == CloseFrame(status)[..|one| - n];
      }
    }
  }

  /** A prefix of the frames, then at most one Close. */
  predicate InOrder(fs: seq<ServerFrame>, seen: seq<ServerFrame>, status: nat)
    requires CloseStatus(status)
  {
    || seen <= fs
    || (seen != [] && seen[|seen| - 1] == CloseSeen(status) && seen[..|seen| - 1] <= fs)
  }

  lemma InOrderBehind(f: ServerFrame, fs: seq<ServerFrame>, seen: seq<ServerFrame>, status: nat)
    requires CloseStatus(status) && f.first != 0x88
    ensures InOrder([f] + fs, [f] + seen, status) <==> InOrder(fs, seen, status)
  {
    var all, more := [f] + fs, [f] + seen;
    assert more[1..] == seen && all[1..] == fs;
    assert more <= all <==> seen <= fs;
    if seen != [] {
      assert more[|more| - 1] == seen[|seen| - 1] && more[..|more| - 1] == [f] + seen[..|seen| - 1];
      assert [f] + seen[..|seen| - 1] <= all <==> seen[..|seen| - 1] <= fs by {
        assert ([f] + seen[..|seen| - 1])[1..] == seen[..|seen| - 1];
      }
    }
  }

  lemma PatchedDiffers(host: Host, f: ServerFrame, m: nat, status: nat)
    requires |f.payload| < TWO_TO_THE_64 && 0 < m < |EncodeServer(host, f)|
    requires CloseStatus(status) && Completed(host, f, m, 4)
    ensures var missing := |EncodeServer(host, f)| - m;
      Patched(host, f, m, status) == f <==> f.payload[|f.payload| - missing..] == CloseFrame(status)[..missing]
  {
    var missing := |EncodeServer(host, f)| - m;
    var come, gone := f.payload[..|f.payload| - missing], f.payload[|f.payload| - missing..];
    var put := CloseFrame(status)[..missing];
    assert f.payload == come + gone;
    if come + put == f.payload {
      assert put == (come + put)[|come|..] == gone;
    }
  }

  /**
     The client has a prefix of the frames and at most one Close behind them exactly when no
     frame is spoiled: Close octets behind a cut frame do harm just when they complete it with
     other octets than its own.
   */
  lemma {:induction false} InOrderIff(host: Host, fs: seq<ServerFrame>, n: nat, status: nat, t: nat)
    requires Sendable(fs) && NoCloses(fs) && n <= |EncodeServerAll(host, fs)| && CloseStatus(status) && t <= 4
    ensures InOrder(fs, Seen(host, fs, n, status, t), status) <==> !Spoiled(host, fs, n, status, t)
    decreases |fs|
  {
    hide EncodeServer, ServerHeader;
    if fs != [] && n != 0 {
      var size := |EncodeServer(host, fs[0])|;
      assert fs == [fs[0]] + fs[1..];
      if size <= n {
        InOrderIff(host, fs[1..], n - size, status, t);
        InOrderBehind(fs[0], fs[1..], Seen(host, fs[1..], n - size, status, t), status);
      } else if Completed(host, fs[0], n, t) {
        PatchedDiffers(host, fs[0], n, status);
      }
    }
  }

  /** A Close is read as one exactly when it went out whole and at a frame boundary. */
  lemma {:induction false} CloseSeenIff(host: Host, fs: seq<ServerFrame>, n: nat, status: nat, t: nat)
    requires Sendable(fs) && NoCloses(fs) && n <= |EncodeServerAll(host, fs)| && CloseStatus(status) && t <= 4
    ensures CloseSeen(status) in Seen(host, fs, n, status, t) <==> t == 4 && AtBoundary(host, fs, n)
    decreases |fs|
  {
    hide EncodeServer, ServerHeader;
    if fs != [] && n != 0 && |EncodeServer(host, fs[0])| <= n {
      CloseSeenIff(host, fs[1..], n - |EncodeServer(host, fs[0])|, status, t);
    }
  }

  /** All of it, of a wire with `sent` of the frames and then `tail` of a Close. */
  lemma WireVerdict(host: Host, fs: seq<ServerFrame>, sent: Octets, status: nat, tail: Octets)
    requires Sendable(fs) && AllTold(host, fs) && NoCloses(fs) && sent <= EncodeServerAll(host, fs)
    requires CloseStatus(status) && tail <= CloseFrame(status)
    ensures var read := ClientReads(sent + tail);
      && read == Seen(host, fs, |sent|, status, |tail|)
      && (InOrder(fs, read, status) <==> !Spoiled(host, fs, |sent|, status, |tail|))
      && (CloseSeen(status) in read <==> |tail| == 4 && AtBoundary(host, fs, |sent|))
  {
    hide ClientReads, Seen, Spoiled, InOrder, EncodeServerAll, AllTold, NoCloses, Sendable;
    hide CloseSeen, CloseFrame, AtBoundary;
    assert sent == EncodeServerAll(host, fs)[..|sent|] && tail == CloseFrame(status)[..|tail|];
    WireReads(host, fs, |sent|, status, |tail|);
    InOrderIff(host, fs, |sent|, status, |tail|);
    CloseSeenIff(host, fs, |sent|, status, |tail|);
  }

  /** With no Close behind it. */
  lemma PlainVerdict(host: Host, fs: seq<ServerFrame>, sent: Octets, tail: Octets)
    requires Sendable(fs) && AllTold(host, fs) && sent <= EncodeServerAll(host, fs)
    ensures tail == [] ==>
      ClientReads(sent + tail) <= fs && (sent == EncodeServerAll(host, fs) ==> ClientReads(sent + tail) == fs)
  {
    hide ClientReads, EncodeServerAll, AllTold, Sendable;
    if tail == [] {
      assert sent + tail == sent == EncodeServerAll(host, fs)[..|sent|];
      ClientReadsPrefix(host, fs, |sent|);
      ClientReadsIff(host, fs);
    }
  }

  /** Half a frame and a whole Close: the client gets a frame that was never sent. */
  lemma CutFrameExample()
    ensures var f := ServerFrame(130, [1, 2, 3, 4]);
      && EncodeServerAll(LittleEndian, [f]) == [130, 4, 1, 2, 3, 4]
      && Spoiled(LittleEndian, [f], 2, 1008, 4)
      && ClientReads([130, 4] + CloseFrame(1008)) == [ServerFrame(130, [0x88, 2, 3, 0xf0])]
  {
    hide ClientReads;
    var f := ServerFrame(130, [1, 2, 3, 4]);
    var one, close := EncodeServer(LittleEndian, f), CloseFrame(1008);
    assert one == [130, 4, 1, 2, 3, 4] && close == [0x88, 2, 3, 0xf0];
    assert EncodeServerAll(LittleEndian, [f]) == one + EncodeServerAll(LittleEndian, [f][1..]) == one;
    assert one[..2] == [130, 4] && close[..4] == close;
    assert f.payload[0..] == f.payload && f.payload[..0] + close == close;
    CutPayload(LittleEndian, f, 2, 1008, 4);
  }
}
