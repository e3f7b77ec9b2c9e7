/**
 The WebSocket wire format (sections 5.1, 5.2, 5.3 and 5.5 of RFC 6455), stated on
 whole octet strings: no socket, no partial frame.  The resumable reader and the
 queued writer are proved against these functions.
 */
module FrameFormat {
  import opened Bytes
  import opened HostOrder

  const MAX_PAYLOAD: nat := 64 * 1024 * 1024
  const OP_CLOSE := 8

  // ----- what a client sends --------------------------------------------------

  function Opcode(s: Octets): int
    requires 2 <= |s|
  {
    s[0] % 16
  }

  function ShortLength(s: Octets): int
    requires 2 <= |s|
  {
    s[1] % 128
  }

  predicate Masked(s: Octets)
    requires 2 <= |s|
  {
    s[1] >= 128
  }

  predicate IsControl(opcode: int)
  {
    opcode >= 8
  }

  /** How many octets of extended length follow the two header octets. */
  function ExtendedSize(s: Octets): nat
    requires 2 <= |s|
  {
    if ShortLength(s) == 126 then 2 else if ShortLength(s) == 127 then 8 else 0
  }

  /** The payload length a header announces, as this host computes it. */
  function DeclaredLength(host: Host, s: Octets): nat
    requires 2 <= |s| && 2 + ExtendedSize(s) <= |s|
  {
    if ShortLength(s) == 126 then DecodeLength16(host, s[2..4])
    else if ShortLength(s) == 127 then DecodeLength64(host, s[2..10])
    else ShortLength(s)
  }

  datatype Parsed =
    | NeedMore
    | Unmasked
    | OversizedControl
    | Close
    | TooLong(used: nat)
    | Message(payload: Octets, size: nat)
  {
    /** Octets taken off the front of the stream. */
    function Used(): nat {
      match this
      case NeedMore => 0
      case TooLong(n) => n
      case Message(_, n) => n
      case _ => 2
    }
  }

  /** The two header octets start a data or short control frame from a well-behaved client. */
  predicate HeaderAccepted(s: Octets)
    requires 2 <= |s|
  {
    Masked(s) && !(IsControl(Opcode(s)) && ShortLength(s) >= 126) && Opcode(s) != OP_CLOSE
  }

  /** One-shot parsing of the first client frame in `s`. */
  function ParseClient(host: Host, s: Octets): (p: Parsed)
    ensures p.Used() <= |s| && (!p.NeedMore? ==> 2 <= p.Used())
    ensures p.Message? ==> |p.payload| <= MAX_PAYLOAD
  {
    if |s| < 2 then NeedMore
    else if !Masked(s) then Unmasked
    else if IsControl(Opcode(s)) && ShortLength(s) >= 126 then OversizedControl
    else if Opcode(s) == OP_CLOSE then Close
    else
      var body := 2 + ExtendedSize(s);
      if |s| < body then NeedMore
      else
        var n := DeclaredLength(host, s);
        if n > MAX_PAYLOAD then TooLong(body)
        else if |s| < body + 4 + n then NeedMore
        else Message(Mask(s[body..body + 4], s[body + 4..body + 4 + n]), body + 4 + n)
  }

  // ----- what the two header octets alone decide -------------------------------

  /**
     A frame that is not masked (section 5.1 of RFC 6455), or a control frame with more than 125
     octets (section 5.5).
   */
  predicate Refused(a: byte, b: byte)
  {
    b < 128 || (a % 16 >= 8 && b % 128 >= 126)
  }

  /** A masked Close (section 5.5.1): opcode 8 with at most 125 octets. */
  predicate Closing(a: byte, b: byte)
  {
    b >= 128 && a % 16 == 8 && b % 128 <= 125
  }

  /** A header that is neither, with all its length octets, and a length over 64 MiB in them. */
  predicate Excessive(host: Host, s: Octets)
    requires 2 <= |s|
  {
    && !Refused(s[0], s[1]) && !Closing(s[0], s[1])
    && 2 + ExtendedSize(s) <= |s| && DeclaredLength(host, s) > 64 * 1024 * 1024
  }

  /** Of two octets these headers are decided, whatever follows; all others need more or go on. */
  lemma HeaderDecides(host: Host, s: Octets)
    requires 2 <= |s|
    ensures ParseClient(host, s) in {Unmasked, OversizedControl} <==> Refused(s[0], s[1])
    ensures ParseClient(host, s) == Close <==> Closing(s[0], s[1])
    ensures ParseClient(host, s).TooLong? <==> Excessive(host, s)
    ensures HeaderAccepted(s) <==> !Refused(s[0], s[1]) && !Closing(s[0], s[1])
  {
  }

  /** A length over 64 MiB in the eight-octet form ends the frame behind its length octets. */
  lemma TooLongIs(host: Host, s: Octets)
    requires 10 <= |s| && s[0] % 16 < 8 && s[1] == 255
    requires FromBigEndian(s[2..10]) > 64 * 1024 * 1024 && RightOn(host, FromBigEndian(s[2..10]))
    ensures ParseClient(host, s) == TooLong(10)
  {
    hide RightOn, DecodeLength64;
    DecodeLength64Iff(host, s[2..10]);
  }

  /** Every frame of a stream, in order, and what is left of an unfinished one. */
  function ParseAll(host: Host, s: Octets): (frames: seq<Parsed>)
    ensures NeedMore !in frames
    decreases |s|
  {
    var p := ParseClient(host, s);
    if p.NeedMore? then [] else [p] + ParseAll(host, s[p.Used()..])
  }

  function Unfinished(host: Host, s: Octets): (rest: Octets)
    ensures ParseClient(host, rest).NeedMore?
    decreases |s|
  {
    var p := ParseClient(host, s);
    if p.NeedMore? then s else Unfinished(host, s[p.Used()..])
  }

  lemma NothingParses(host: Host)
    ensures ParseAll(host, []) == [] && Unfinished(host, []) == []
  {
  }

  /** The length octets alone decide the declared length. */
  lemma SameLength(host: Host, s: Octets, t: Octets)
    requires 2 <= |t| && |t| == 2 + ExtendedSize(t) && |t| <= |s| && s[..|t|] == t
    ensures ExtendedSize(s) == ExtendedSize(t) && DeclaredLength(host, s) == DeclaredLength(host, t)
    ensures HeaderAccepted(s) == HeaderAccepted(t)
  {
    assert s[0] == t[0] && s[1] == t[1];
    assert ExtendedSize(s) == |t| - 2;
    assert s[2..|t|] == t[2..|t|];
  }

  /** Later octets never change a frame that is already complete. */
  lemma ParseIsStable(host: Host, s: Octets, t: Octets)
    requires !ParseClient(host, s).NeedMore?
    ensures ParseClient(host, s + t) == ParseClient(host, s)
  {
    if HeaderAccepted(s) {
      var body := 2 + ExtendedSize(s);
      assert (s + t)[..body] == s[..body];
      SameLength(host, s, s[..body]);
      SameLength(host, s + t, s[..body]);
      if DeclaredLength(host, s) <= MAX_PAYLOAD {
        SamePayload(s, t, body, body + 4, body + 4 + DeclaredLength(host, s));
      }
    }
  }

  lemma SamePayload(s: Octets, t: Octets, i: nat, j: nat, k: nat)
    requires i <= j <= k <= |s|
    ensures (s + t)[i..j] == s[i..j] && (s + t)[j..k] == s[j..k]
  {
  }

  /** Parsing can be interrupted anywhere and resumed with what was left over. */
  lemma {:induction false} ParseResumes(host: Host, s: Octets, t: Octets)
    ensures ParseAll(host, s + t) == ParseAll(host, s) + ParseAll(host, Unfinished(host, s) + t)
    ensures Unfinished(host, s + t) == Unfinished(host, Unfinished(host, s) + t)
    decreases |s|
  {
    var p := ParseClient(host, s);
    if !p.NeedMore? {
      ParseIsStable(host, s, t);
      assert (s + t)[p.Used()..] == s[p.Used()..] + t;
      ParseResumes(host, s[p.Used()..], t);
    }
  }

  /** Any two cuts of one stream have seen the same frames, one perhaps more of them. */
  lemma SegmentationIndependence(host: Host, stream: Octets, m: nat, n: nat)
    requires m <= n <= |stream|
    ensures ParseAll(host, stream[..m]) <= ParseAll(host, stream[..n])
  {
    assert stream[..n] == stream[..m] + stream[m..n];
    ParseResumes(host, stream[..m], stream[m..n]);
  }

  // ----- a masking client, as the protocol tests have it ----------------------

  function LengthForm(n: nat): (r: nat)
    requires n < TWO_TO_THE_64
  {
    if n < 126 then n else if n < TWO_TO_THE_16 then 126 else 127
  }

  /** Length octets in network order. */
  function NetworkLength(n: nat): (s: Octets)
    requires n < TWO_TO_THE_64
  {
    if n < 126 then [] else if n < TWO_TO_THE_16 then ToBigEndian(n, 2) else ToBigEndian(n, 8)
  }

  function ClientFrame(fin: bool, opcode: nat, key: Octets, payload: Octets): (s: Octets)
    requires opcode < 16 && |key| == 4 && |payload| < TWO_TO_THE_64
  {
    [(if fin then 128 else 0) + opcode, 128 + LengthForm(|payload|)] + NetworkLength(|payload|)
    + key + Mask(key, payload)
  }

  /** Where the parts of a client frame lie. */
  lemma ClientFrameLayout(fin: bool, opcode: nat, key: Octets, payload: Octets)
    requires opcode < 16 && |key| == 4 && |payload| < TWO_TO_THE_64
    ensures var s := ClientFrame(fin, opcode, key, payload);
      && Masked(s) && Opcode(s) == opcode && ShortLength(s) == LengthForm(|payload|)
      && var body := 2 + ExtendedSize(s);
         && |s| == body + 4 + |payload| && s[2..body] == NetworkLength(|payload|)
         && s[body..body + 4] == key && s[body + 4..body + 4 + |payload|] == Mask(key, payload)
  {
    var front := [(if fin then 128 else 0) + opcode, 128 + LengthForm(|payload|)];
    var length, masked := NetworkLength(|payload|), Mask(key, payload);
    FourParts(front, length, key, masked);
  }

  lemma FourParts(a: Octets, b: Octets, c: Octets, d: Octets)
    ensures var s := a + b + c + d;
      && s[|a|..|a| + |b|] == b && s[|a| + |b|..|a| + |b| + |c|] == c && s[|a| + |b| + |c|..|s|] == d
      && forall i :: 0 <= i < |a| ==> s[i] == a[i]
  {
  }

  /**
     A masked frame reads back as its payload, whatever follows it on the stream, exactly when
     the host reads that length right: always below 2^16 and on a little-endian host.
   */
  lemma MaskedRoundTrip(host: Host, fin: bool, opcode: nat, key: Octets, payload: Octets, rest: Octets)
    requires opcode < 16 && opcode != OP_CLOSE && |key| == 4 && |payload| <= MAX_PAYLOAD
    requires IsControl(opcode) ==> |payload| < 126
    ensures var frame := ClientFrame(fin, opcode, key, payload);
            ParseClient(host, frame + rest) == Message(payload, |frame|) <==> RightOn(host, |payload|)
  {
    var s := ClientFrame(fin, opcode, key, payload);
    ClientFrameLayout(fin, opcode, key, payload);
    NetworkLengthReads(host, |payload|, s);
    hide ClientFrame, RightOn, Mask;
    if DeclaredLength(host, s) == |payload| {
      MaskIsInvolution(key, payload);
      ParseIsStable(host, s, rest);
    } else {
      OtherSize(host, s, rest);
    }
  }

  /** Two declared lengths make frames of two sizes. */
  lemma OtherSize(host: Host, s: Octets, rest: Octets)
    requires 2 <= |s| && 2 + ExtendedSize(s) + 4 <= |s| && DeclaredLength(host, s) != |s| - 6 - ExtendedSize(s)
    ensures var p := ParseClient(host, s + rest); p.Message? ==> p.size != |s|
  {
    var body := 2 + ExtendedSize(s);
    assert (s + rest)[..body] == s[..body];
    SameLength(host, s, s[..body]);
    SameLength(host, s + rest, s[..body]);
  }

  lemma NetworkLengthReads(host: Host, n: nat, s: Octets)
    requires n < TWO_TO_THE_64
    requires 2 <= |s| && ShortLength(s) == LengthForm(n) && 2 + ExtendedSize(s) <= |s|
    requires s[2..2 + ExtendedSize(s)] == NetworkLength(n)
    ensures DeclaredLength(host, s) == n <==> RightOn(host, n)
  {
    PowersOf256();
    if 126 <= n < TWO_TO_THE_16 {
      DecodeLength16Any(host, s[2..4]);
      BigEndianRoundTrip(n, 2);
    } else if TWO_TO_THE_16 <= n {
      BigEndianRoundTrip(n, 8);
      DecodeLength64Iff(host, s[2..10]);
    }
  }

  /** What a well-behaved client may send: any frame but a Close, within the bounds. */
  datatype ClientMessage = ClientMessage(fin: bool, opcode: nat, key: Octets, payload: Octets)

  predicate WellFormed(m: ClientMessage)
  {
    && m.opcode < 16 && m.opcode != OP_CLOSE && |m.key| == 4
    && |m.payload| <= (if IsControl(m.opcode) then 125 else MAX_PAYLOAD)
  }

  function EncodeClient(m: ClientMessage): Octets
    requires WellFormed(m)
  {
    ClientFrame(m.fin, m.opcode, m.key, m.payload)
  }

  predicate AllWellFormed(ms: seq<ClientMessage>)
  {
    forall m :: m in ms ==> WellFormed(m)
  }

  /** The host reads the length of every one of them right. */
  predicate AllReadable(host: Host, ms: seq<ClientMessage>)
  {
    forall m :: m in ms ==> RightOn(host, |m.payload|)
  }

  function EncodeClientAll(ms: seq<ClientMessage>): Octets
    requires AllWellFormed(ms)
  {
    if ms == [] then [] else EncodeClient(ms[0]) + EncodeClientAll(ms[1..])
  }

  /** The frames the server should find. */
  function Messages(ms: seq<ClientMessage>): (ps: seq<Parsed>)
    requires AllWellFormed(ms)
    ensures |ps| == |ms| && NeedMore !in ps
    ensures forall i :: 0 <= i < |ps| ==> ps[i].Message? && ps[i].payload == ms[i].payload
  {
    if ms == [] then [] else [Message(ms[0].payload, |EncodeClient(ms[0])|)] + Messages(ms[1..])
  }

  /** Part of a frame is unfinished: were it not, the rest could not change it. */
  lemma PartNeedsMore(host: Host, m: ClientMessage, k: nat)
    requires WellFormed(m) && RightOn(host, |m.payload|) && k < |EncodeClient(m)|
    ensures ParseAll(host, EncodeClient(m)[..k]) == []
  {
    hide ParseClient, ClientFrame, RightOn;
    var s := EncodeClient(m);
    MaskedRoundTrip(host, m.fin, m.opcode, m.key, m.payload, []);
    assert s + [] == s && s[..k] + s[k..] == s;
    if !ParseClient(host, s[..k]).NeedMore? {
      ParseIsStable(host, s[..k], s[k..]);
      assert false;
    }
  }

  /** A whole frame is the first to be found, when its length is read right, and otherwise is not. */
  lemma WholeMessage(host: Host, m: ClientMessage, rest: Octets)
    requires WellFormed(m)
    ensures var found, first := ParseAll(host, EncodeClient(m) + rest), Message(m.payload, |EncodeClient(m)|);
      if RightOn(host, |m.payload|) then found == [first] + ParseAll(host, rest) else found == [] || found[0] != first
  {
    hide ParseClient, ClientFrame, RightOn;
    var s := EncodeClient(m) + rest;
    MaskedRoundTrip(host, m.fin, m.opcode, m.key, m.payload, rest);
    assert s[|EncodeClient(m)|..] == rest;
  }

  lemma PrefixBehind<T>(x: T, p: seq<T>, q: seq<T>)
    requires p <= q
    ensures [x] + p <= [x] + q
  {
  }

  /** Any prefix of what a client sends parses to a prefix of its messages. */
  lemma {:induction false} ParseAllPrefix(host: Host, ms: seq<ClientMessage>, k: nat)
    requires AllWellFormed(ms) && AllReadable(host, ms) && k <= |EncodeClientAll(ms)|
    ensures ParseAll(host, EncodeClientAll(ms)[..k]) <= Messages(ms)
  {
    hide ParseAll, EncodeClient, RightOn;
    if ms == [] {
      NothingParses(host);
      return;
    }
    var one, more := EncodeClient(ms[0]), EncodeClientAll(ms[1..]);
    var first := Message(ms[0].payload, |one|);
    assert Messages(ms) == [first] + Messages(ms[1..]) && EncodeClientAll(ms) == one + more;
    assert RightOn(host, |ms[0].payload|);
    hide Messages, EncodeClientAll, AllWellFormed;
    if k < |one| {
      assert (one + more)[..k] == one[..k];
      PartNeedsMore(host, ms[0], k);
    } else {
      var rest := more[..k - |one|];
      assert (one + more)[..k] == one + rest;
      WholeMessage(host, ms[0], rest);
      ParseAllPrefix(host, ms[1..], k - |one|);
      PrefixBehind(first, ParseAll(host, rest), Messages(ms[1..]));
    }
  }

  /** The whole stream parses to all of them exactly when the host reads every length right. */
  lemma {:induction false} ParseAllIff(host: Host, ms: seq<ClientMessage>)
    requires AllWellFormed(ms)
    ensures ParseAll(host, EncodeClientAll(ms)) == Messages(ms) <==> AllReadable(host, ms)
  {
    hide ParseAll, EncodeClient, RightOn;
    if ms == [] {
      NothingParses(host);
      return;
    }
    var one, more := EncodeClient(ms[0]), EncodeClientAll(ms[1..]);
    var first := Message(ms[0].payload, |one|);
    assert Messages(ms) == [first] + Messages(ms[1..]) && EncodeClientAll(ms) == one + more;
    assert AllReadable(host, ms) <==> RightOn(host, |ms[0].payload|) && AllReadable(host, ms[1..]) by {
      assert ms == [ms[0]] + ms[1..];
    }
    hide Messages, EncodeClientAll, AllWellFormed, AllReadable;
    WholeMessage(host, ms[0], more);
    ParseAllIff(host, ms[1..]);
    if RightOn(host, |ms[0].payload|) {
      SameTail(first, ParseAll(host, more), Messages(ms[1..]));
    }
  }

  lemma SameTail<T>(x: T, p: seq<T>, q: seq<T>)
    ensures [x] + p == [x] + q <==> p == q
  {
    if [x] + p == [x] + q {
      assert p == ([x] + p)[1..] == ([x] + q)[1..] == q;
    }
  }

  /** The Close a client sends, in whatever way, is one that the header decides. */
  lemma ClientClose(fin: bool, key: Octets, body: Octets, rest: Octets)
    requires |key| == 4 && |body| <= 125
    ensures var s := ClientFrame(fin, 8, key, body) + rest; 2 <= |s| && Closing(s[0], s[1])
  {
    ClientFrameLayout(fin, 8, key, body);
  }

  /** Behind a client's messages comes whatever follows them. */
  lemma {:induction false} TailFound(host: Host, ms: seq<ClientMessage>, tail: Octets)
    requires AllWellFormed(ms) && AllReadable(host, ms)
    ensures ParseAll(host, EncodeClientAll(ms) + tail) == Messages(ms) + ParseAll(host, tail)
    decreases |ms|
  {
    hide ParseAll, EncodeClient, RightOn;
    if ms == [] {
      assert [] + tail == tail;
    } else {
      var one, more := EncodeClient(ms[0]), EncodeClientAll(ms[1..]);
      assert EncodeClientAll(ms) + tail == one + (more + tail);
      WholeMessage(host, ms[0], more + tail);
      TailFound(host, ms[1..], tail);
    }
  }

  /** Of a header that is refused or closes: nothing with one octet, and with both the end of it. */
  lemma EndParses(host: Host, a: byte, b: byte)
    requires Refused(a, b) || Closing(a, b)
    ensures ParseAll(host, [a]) == []
    ensures var found := ParseAll(host, [a, b]);
      |found| == 1 && if Closing(a, b) then found[0] == Close else found[0] in {Unmasked, OversizedControl}
  {
    HeaderDecides(host, [a, b]);
    assert [a, b][2..] == [];
    NothingParses(host);
  }

  /** "Hello" masked and sent by a client, as section 5.7 of RFC 6455 has it. */
  const MASKED_HELLO: Octets := [0x81, 0x85, 0x37, 0xfa, 0x21, 0x3d, 0x7f, 0x9f, 0x4d, 0x51, 0x58]

  lemma HelloParses(host: Host)
    ensures ParseClient(host, MASKED_HELLO) == Message(Ascii("Hello"), 11)
  {
    var s := MASKED_HELLO;
    assert s[2..6] == [0x37, 0xfa, 0x21, 0x3d] && s[6..11] == [0x7f, 0x9f, 0x4d, 0x51, 0x58];
    HelloUnmasked();
    hide Mask, Ascii;
  }

  lemma HelloUnmasked()
    ensures Mask([0x37, 0xfa, 0x21, 0x3d], [0x7f, 0x9f, 0x4d, 0x51, 0x58]) == Ascii("Hello")
  {
    hide Xor;
    HelloOctets();
  }

  lemma HelloOctets()
    ensures Xor(0x7f, 0x37) == 0x48 && Xor(0x9f, 0xfa) == 0x65 && Xor(0x4d, 0x21) == 0x6c
    ensures Xor(0x51, 0x3d) == 0x6c && Xor(0x58, 0x37) == 0x6f
  {
  }

  // ----- what the server sends, and a client reading it ----------------------

  datatype ServerFrame = ServerFrame(first: byte, payload: Octets)

  /** The header ws_write builds: the shortest of the three length forms, unmasked. */
  function ServerHeader(host: Host, first: byte, n: nat): (s: Octets)
    requires n < TWO_TO_THE_64
  {
    [first, LengthForm(n)]
    + (if n < 126 then [] else if n < TWO_TO_THE_16 then EncodeLength16(host, n) else EncodeLength64(host, n))
  }

  /** The unmasked examples of section 5.7 of RFC 6455: 256 octets, and 64 KiB. */
  lemma HeaderExamples(host: Host)
    ensures ServerHeader(host, 0x82, 256) == [0x82, 0x7e, 1, 0]
    ensures ServerHeader(LittleEndian, 0x82, 65536) == [0x82, 0x7f, 0, 0, 0, 0, 0, 1, 0, 0]
  {
    hide EncodeLength16, EncodeLength64, ToBigEndian;
    EncodeLength16Any(host, 256);
    EncodeLength64Little(65536);
    NetworkOctets();
  }

  lemma NetworkOctets()
    ensures ToBigEndian(256, 2) == [1, 0] && ToBigEndian(65536, 8) == [0, 0, 0, 0, 0, 1, 0, 0]
  {
    assert ToBigEndian(1, 1) == [1];
    assert ToBigEndian(0, 1) == [0] && ToBigEndian(0, 2) == [0, 0] && ToBigEndian(0, 3) == [0, 0, 0];
    assert ToBigEndian(0, 5) == ToBigEndian(0, 4) + [0] == [0, 0, 0, 0, 0];
    assert ToBigEndian(1, 6) == [0, 0, 0, 0, 0, 1] && ToBigEndian(256, 7) == [0, 0, 0, 0, 0, 1, 0];
  }

  function EncodeServer(host: Host, f: ServerFrame): (s: Octets)
    requires |f.payload| < TWO_TO_THE_64
  {
    ServerHeader(host, f.first, |f.payload|) + f.payload
  }

  predicate Sendable(fs: seq<ServerFrame>)
  {
    forall f :: f in fs ==> |f.payload| < TWO_TO_THE_64
  }

  function EncodeServerAll(host: Host, fs: seq<ServerFrame>): (s: Octets)
    requires Sendable(fs)
  {
    if fs == [] then [] else EncodeServer(host, fs[0]) + EncodeServerAll(host, fs[1..])
  }

  /** The length a client reads from a header: plain network order. */
  function AnnouncedLength(s: Octets): nat
    requires 2 <= |s| && 2 + ExtendedSize(s) <= |s|
  {
    if ShortLength(s) >= 126 then FromBigEndian(s[2..2 + ExtendedSize(s)]) else ShortLength(s)
  }

  /** A client's reader: the frames that have arrived whole. */
  function ClientReads(s: Octets): (fs: seq<ServerFrame>)
    decreases |s|
  {
    if |s| < 2 || |s| < 2 + ExtendedSize(s) then []
    else
      var body := 2 + ExtendedSize(s) + (if Masked(s) then 4 else 0);
      var n := AnnouncedLength(s);
      if |s| < body + n then []
      else
        var raw := s[body..body + n];
        [ServerFrame(s[0], if Masked(s) then Mask(s[body - 4..body], raw) else raw)]
        + ClientReads(s[body + n..])
  }

  /** A header announces the payload's length to the client exactly when the host sends it right. */
  lemma ServerHeaderReads(host: Host, first: byte, n: nat, rest: Octets)
    requires n < TWO_TO_THE_64
    ensures var s := ServerHeader(host, first, n);
            |s| == 2 + ExtendedSize(s) && !Masked(s + rest) && ExtendedSize(s + rest) == ExtendedSize(s)
            && (AnnouncedLength(s + rest) == n <==> RightOn(host, n))
  {
    var s := ServerHeader(host, first, n);
    PowersOf256();
    if 126 <= n < TWO_TO_THE_16 {
      EncodeLength16Any(host, n);
      BigEndianRoundTrip(n, 2);
      assert (s + rest)[2..4] == ToBigEndian(n, 2);
    } else if TWO_TO_THE_16 <= n {
      var e := EncodeLength64(host, n);
      EncodeLength64Iff(host, n);
      BigEndianRoundTrip(n, 8);
      assert (s + rest)[2..10] == e;
      if FromBigEndian(e) == n {
        BigEndianInjective(e, ToBigEndian(n, 8));
      }
    }
  }

  /** No header of another client-readable form announces `n` in fewer octets. */
  lemma ShortestForm(host: Host, first: byte, n: nat, s: Octets)
    requires n < TWO_TO_THE_64
    requires 2 <= |s| && |s| == 2 + ExtendedSize(s) && AnnouncedLength(s) == n
    ensures |ServerHeader(host, first, n)| <= |s|
  {
    PowersOf256();
    if ExtendedSize(s) == 2 {
      BigEndianBound(s[2..4]);
    }
  }

  /** The client can tell the length of every one of them. */
  predicate AllTold(host: Host, fs: seq<ServerFrame>)
  {
    forall f :: f in fs ==> RightOn(host, |f.payload|)
  }

  /** Behind a header that tells its length right the client takes so many octets. */
  lemma ReadsBehindHeader(host: Host, first: byte, n: nat, rest: Octets)
    requires n < TWO_TO_THE_64 && RightOn(host, n)
    ensures ClientReads(ServerHeader(host, first, n) + rest)
         == if n <= |rest| then [ServerFrame(first, rest[..n])] + ClientReads(rest[n..]) else []
  {
    var h := ServerHeader(host, first, n);
    assert h[0] == first;
    hide RightOn, ServerHeader, ClientReads;
    ServerHeaderReads(host, first, n, rest);
    ReadsBehind(h, rest);
  }

  lemma ReadsBehind(h: Octets, rest: Octets)
    requires 2 <= |h| == 2 + ExtendedSize(h + rest) && !Masked(h + rest)
    ensures var n := AnnouncedLength(h + rest);
      ClientReads(h + rest) == if n <= |rest| then [ServerFrame(h[0], rest[..n])] + ClientReads(rest[n..]) else []
  {
    var s, n := h + rest, AnnouncedLength(h + rest);
    if n <= |rest| {
      assert s[|h|..|h| + n] == rest[..n];
      assert s[|h| + n..] == rest[n..];
    }
  }

  /** Behind one that does not it takes another number of them. */
  lemma MisreadBehindHeader(host: Host, first: byte, n: nat, rest: Octets)
    requires n < TWO_TO_THE_64 && !RightOn(host, n)
    ensures var seen := ClientReads(ServerHeader(host, first, n) + rest); seen == [] || |seen[0].payload| != n
  {
    ServerHeaderReads(host, first, n, rest);
  }

  /** A whole frame reads back, and reading goes on behind it, exactly when its length is sent right. */
  lemma ClientReadsOne(host: Host, f: ServerFrame, rest: Octets)
    requires |f.payload| < TWO_TO_THE_64
    ensures var seen := ClientReads(EncodeServer(host, f) + rest);
      if RightOn(host, |f.payload|) then seen == [f] + ClientReads(rest) else seen == [] || seen[0] != f
  {
    hide RightOn, ClientReads, ServerHeader;
    var n := |f.payload|;
    var behind := f.payload + rest;
    assert EncodeServer(host, f) + rest == ServerHeader(host, f.first, n) + behind;
    assert behind[..n] == f.payload && behind[n..] == rest;
    if RightOn(host, n) {
      ReadsBehindHeader(host, f.first, n, behind);
    } else {
      MisreadBehindHeader(host, f.first, n, behind);
    }
  }

  /** Too few octets for what they announce. */
  predicate Short(s: Octets)
  {
    || |s| < 2 || |s| < 2 + ExtendedSize(s)
    || |s| < 2 + ExtendedSize(s) + (if Masked(s) then 4 else 0) + AnnouncedLength(s)
  }

  lemma ShortReads(s: Octets)
    requires Short(s)
    ensures ClientReads(s) == []
  {
  }

  /** Part of a frame reads as nothing. */
  lemma ClientReadsPart(host: Host, f: ServerFrame, k: nat)
    requires |f.payload| < TWO_TO_THE_64 && RightOn(host, |f.payload|)
    requires k < |EncodeServer(host, f)|
    ensures ClientReads(EncodeServer(host, f)[..k]) == []
  {
    hide RightOn, ClientReads;
    var h := ServerHeader(host, f.first, |f.payload|);
    var s := EncodeServer(host, f);
    if |h| <= k {
      assert s[..k] == h + f.payload[..k - |h|];
      ReadsBehindHeader(host, f.first, |f.payload|, f.payload[..k - |h|]);
    } else {
      ServerHeaderReads(host, f.first, |f.payload|, []);
      assert h + [] == h && s[..k] == h[..k];
      ShortReads(s[..k]);
    }
  }

  /** Any prefix of the wire reads as a prefix of the frames. */
  lemma {:induction false} ClientReadsPrefix(host: Host, fs: seq<ServerFrame>, k: nat)
    requires Sendable(fs) && AllTold(host, fs) && k <= |EncodeServerAll(host, fs)|
    ensures ClientReads(EncodeServerAll(host, fs)[..k]) <= fs
  {
    hide ClientReads, EncodeServer, RightOn;
    if fs == [] {
      NothingReads();
      return;
    }
    var one, more := EncodeServer(host, fs[0]), EncodeServerAll(host, fs[1..]);
    assert fs == [fs[0]] + fs[1..];
    if k < |one| {
      assert (one + more)[..k] == one[..k];
      ClientReadsPart(host, fs[0], k);
    } else {
      var rest := more[..k - |one|];
      assert (one + more)[..k] == one + rest;
      ClientReadsOne(host, fs[0], rest);
      ClientReadsPrefix(host, fs[1..], k - |one|);
      PrefixBehind(fs[0], ClientReads(rest), fs[1..]);
    }
  }

  lemma NothingReads()
    ensures ClientReads([]) == []
  {
  }

  /** The whole wire reads as all of them exactly when every length is sent right. */
  lemma {:induction false} ClientReadsIff(host: Host, fs: seq<ServerFrame>)
    requires Sendable(fs)
    ensures ClientReads(EncodeServerAll(host, fs)) == fs <==> AllTold(host, fs)
  {
    hide ClientReads, EncodeServer, RightOn;
    if fs == [] {
      NothingReads();
      return;
    }
    var one, more := EncodeServer(host, fs[0]), EncodeServerAll(host, fs[1..]);
    assert fs == [fs[0]] + fs[1..];
    ClientReadsOne(host, fs[0], more);
    ClientReadsIff(host, fs[1..]);
    SameTail(fs[0], ClientReads(more), fs[1..]);
  }

  lemma {:induction false} EncodeServerAllConcat(host: Host, fs: seq<ServerFrame>, gs: seq<ServerFrame>)
    requires Sendable(fs) && Sendable(gs)
    ensures Sendable(fs + gs)
    ensures EncodeServerAll(host, fs + gs) == EncodeServerAll(host, fs) + EncodeServerAll(host, gs)
  {
    if fs == [] {
      assert fs + gs == gs;
    } else {
      var all := fs + gs;
      assert all[0] == fs[0] && all[1..] == fs[1..] + gs;
      EncodeServerAllConcat(host, fs[1..], gs);
      Associate(EncodeServer(host, fs[0]), EncodeServerAll(host, fs[1..]), EncodeServerAll(host, gs));
    }
  }

  lemma Associate(a: Octets, b: Octets, c: Octets)
    ensures a + (b + c) == (a + b) + c
  {
  }
}
