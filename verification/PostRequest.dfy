/**
 A whole request, as descr_read, cmd_parse, request_handle and buffer_post_body of
 src/libaxil.c take it: the head assembled from the socket, the request line and the header
 lines split in place, and the declared body gathered behind them, all in the one shared buffer.
 */
module PostRequest {
  import opened Bytes
  import opened Sockets
  import opened HeadFormat
  import opened HeaderBlock
  import opened RequestLine
  import opened Dispatch
  import opened RequestReader
  import Text
  import BodyLength

  const CRLF: Octets := [CR, LF]

  /** Header lines as RFC 7230 has them: regular, and no line end inside. */
  predicate PlainLines(ls: seq<Line>)
  {
    AllPrintable(ls) && AllRegular(ls) && forall l :: l in ls ==> LF !in Content(l)
  }

  function Head(line: Octets, ls: seq<Line>): Octets
  {
    line + CRLF + PrintAll(ls) + CRLF
  }

  // ----- where the head ends ------------------------------------------------------------

  predicate NoBlank(s: Octets)
  {
    forall i :: 0 <= i < |s| ==> !BlankLineAt(s, i)
  }

  /** Complete lines, none of them blank. */
  predicate Lines(s: Octets)
  {
    NoBlank(s) && (s == [] || s[|s| - 1] == LF)
  }

  lemma OneMoreLine(p: Octets, x: Octets)
    requires Lines(p) && x != [] && LF !in x && x[0] != CR
    ensures Lines(p + (x + CRLF))
  {
    var s := p + (x + CRLF);
    forall i | 0 <= i < |s|
      ensures !BlankLineAt(s, i)
    {
      if i < |p| {
        assert !BlankLineAt(p, i) && s[|p|] == x[0];
        assert x[0] in x;
      } else if i < |p| + |x| {
        assert s[i] == x[i - |p|] && x[i - |p|] in x;
      }
    }
  }

  lemma FirstPlain(ls: seq<Line>)
    requires PlainLines(ls) && ls != []
    ensures var x := Content(ls[0]); x != [] && x[0] != CR && LF !in x && Print(ls[0]) == x + CRLF
    ensures PlainLines(ls[1..]) && PrintAll(ls) == Print(ls[0]) + PrintAll(ls[1..])
  {
    var l := ls[0];
    assert l in ls && Printable(l) && Regular(l);
    assert Content(l)[0] == l.header.name[0] && l.header.name[0] in l.header.name;
  }

  lemma {:induction false} MoreLines(p: Octets, ls: seq<Line>)
    requires Lines(p) && PlainLines(ls)
    ensures Lines(p + PrintAll(ls))
    decreases |ls|
  {
    if ls == [] {
      assert p + [] == p;
    } else {
      hide Lines, Content, Print, PrintAll, PlainLines;
      FirstPlain(ls);
      OneMoreLine(p, Content(ls[0]));
      MoreLines(p + Print(ls[0]), ls[1..]);
      assert p + (Print(ls[0]) + PrintAll(ls[1..])) == p + Print(ls[0]) + PrintAll(ls[1..]);
    }
  }

  /** Lines and a blank one: a head, and no head before its last octet. */
  lemma BlankEnds(q: Octets, s: Octets)
    requires Lines(q) && 2 <= |q| && q + CRLF <= s && q[|q| - 1] == LF
    ensures HeadEnds(s, |q| + 2)
  {
    var end := |q| + 2;
    assert s[..end] == q + CRLF;
    assert BlankLineAt(s[..end], |q| - 1);
    forall k | 0 <= k < end
      ensures !Complete(s[..k])
    {
      assert s[..k] == (q + CRLF)[..k];
      forall i | 0 <= i < k
        ensures !BlankLineAt(s[..k], i)
      {
        assert i < |q| ==> !BlankLineAt(q, i);
      }
    }
  }

  /** A head of such lines ends with its blank line, not earlier. */
  lemma HeadIsWhole(line: Octets, ls: seq<Line>, s: Octets)
    requires Unbroken(line) && PlainLines(ls) && Head(line, ls) <= s
    ensures HeadEnds(s, |Head(line, ls)|)
  {
    FirstIsLine(line);
    MoreLines(line + CRLF, ls);
    assert line + CRLF + PrintAll(ls) != [];
    hide HeadEnds, PlainLines, PrintAll;
    BlankEnds(line + CRLF + PrintAll(ls), s);
  }

  /** The request line itself, even an empty one. */
  lemma FirstIsLine(line: Octets)
    requires Unbroken(line)
    ensures Lines(line + CRLF)
  {
    assert Lines([]);
    if line == [] {
      assert line + CRLF == CRLF;
    } else {
      assert line[0] in line && [] + (line + CRLF) == line + CRLF;
      OneMoreLine([], line);
    }
  }

  // ----- the request ------------------------------------------------------------------------

  /** The buffer behind the head is what the stream has there. */
  ghost predicate Follows(input: Input, inbound: Inbound, end: nat)
    reads input, input.buf, inbound
  {
    && input.Valid() && inbound.Valid() && end <= input.len == inbound.taken && input.len < input.buf.Length
    && input.buf[end..input.len] == inbound.stream[end..input.len]
  }

  lemma HeadersHeld(s: Octets, line: Octets, ls: seq<Line>)
    requires Head(line, ls) <= s
    ensures Holds(s, |line| + 2, ls, true) && BodyAt(|line| + 2, ls, true) == |Head(line, ls)|
    ensures s[..|line|] == line && s[|line|] == CR && |line| + 2 <= |Head(line, ls)|
  {
    var rest := PrintAll(ls) + CRLF;
    assert Head(line, ls) == line + CRLF + rest;
    assert s[..|Head(line, ls)|] == Head(line, ls);
    assert s[|line| + 2..][..|rest|] == s[..|Head(line, ls)|][|line| + 2..] == rest;
    assert LineEnd(true) == CRLF;
    assert s[..|line|] == s[..|Head(line, ls)|][..|line|];
  }

  /** The request line of a buffer that holds a head. */
  lemma LineHeld(t: Octets, line: Octets)
    requires Unbroken(line) && |line| < |t| && t[..|line|] == line && t[|line|] == CR
    ensures LineStop(t) == |line| && RequestLineOf(t) == line
  {
    OctetsOf(t, line);
    StopIs(t, |line|);
  }

  /** headers_get on a buffer whose request line has been split. */
  method EnterHeaders(a: array<byte>, at: nat, ghost was: Octets, ghost ls: seq<Line>)
    returns (puts: seq<Put>, bodyStart: nat)
    requires |was| == a.Length && 2 <= at && Holds(was, at, ls, true) && PlainLines(ls)
    requires forall k :: at - 2 < k < a.Length ==> a[k] == was[k]
    modifies a
    ensures puts == EnteredAll(ls) && at + bodyStart + 1 == BodyAt(at, ls, true)
    ensures forall k :: BodyAt(at, ls, true) <= k < a.Length ==> a[k] == was[k]
  {
    StillHeld(was, a[..], at, ls);
    PlainAreRegular(ls);
    hide Holds, PlainLines, BodyAt;
    var stop;
    puts, stop := ReadPrinted(a, at, ls);
    bodyStart := stop - at;
  }

  /**
     Take what has been dispatched: when the line is admitted the headers are entered, and the
     body offset is the head's end; otherwise no header is read.
   */
  method TakeHead(input: Input, inbound: Inbound, argv: array<int>, ghost line: Octets, ghost ls: seq<Line>)
    returns (v: Verdict, puts: seq<Put>, bodyStart: nat)
    requires input.Valid() && inbound.Valid() && Unbroken(line) && PlainLines(ls) && Head(line, ls) <= inbound.stream
    requires |Head(line, ls)| <= input.len == inbound.taken < input.buf.Length && argv.Length == CMD_ARGM
    requires input.buf[..input.len] == inbound.stream[..input.len] && input.buf[input.len] == NUL
    modifies input.buf, argv
    ensures Judged(v, line, inbound.stream[|line|..input.len])
    ensures v.Accepted? ==>
      && v.argc < CMD_ARGM && argv[v.argc] == input.base + |line| + 2
      && puts == EnteredAll(ls) && |line| + 2 + bodyStart + 1 == |Head(line, ls)|
    ensures !v.Accepted? ==> puts == []
    ensures Follows(input, inbound, |Head(line, ls)|)
  {
    ghost var end := |Head(line, ls)|;
    ghost var was := input.buf[..];
    HeadHeld(was, inbound.stream, input.len, line, ls);
    hide LineStop, RequestLineOf, Judged, Head, Holds, PlainLines, Unbroken;
    v := TakeLine(input.buf, input.base, argv);
    JudgedHere(v, line, was, inbound.stream, input.len);
    puts, bodyStart := [], 0;
    if v.Accepted? {
      AcceptedInside(v, line, inbound.stream[|line|..input.len]);
      var at := argv[v.argc] - input.base;
      puts, bodyStart := EnterHeaders(input.buf, at, was, ls);
    }
    FollowsStill(was, input, inbound, end);
  }

  /** What the buffer holds when a head has been dispatched. */
  lemma HeadHeld(was: Octets, stream: Octets, n: nat, line: Octets, ls: seq<Line>)
    requires Unbroken(line) && Head(line, ls) <= stream
    requires |Head(line, ls)| <= n < |was| && n <= |stream| && was[..n] == stream[..n]
    ensures |line| + 2 <= |Head(line, ls)| && LineStop(was) == |line| && RequestLineOf(was) == line
    ensures Holds(was, |line| + 2, ls, true) && BodyAt(|line| + 2, ls, true) == |Head(line, ls)|
  {
    hide *;
    var end := |Head(line, ls)|;
    assert was[..end] == was[..n][..end] == stream[..end];
    HeadersHeld(was, line, ls);
    LineHeld(was, line);
  }

  lemma PlainAreRegular(ls: seq<Line>)
    requires PlainLines(ls)
    ensures AllPrintable(ls) && AllRegular(ls)
  {
  }

  lemma AcceptedInside(v: Verdict, line: Octets, behind: Octets)
    requires Judged(v, line, behind) && v.Accepted?
    ensures v.argc < CMD_ARGM
  {
  }

  /** The verdict depends on the octets that have arrived only. */
  lemma JudgedHere(v: Verdict, line: Octets, was: Octets, stream: Octets, n: nat)
    requires |line| <= n < |was| && n <= |stream| && was[..n] == stream[..n] && was[n] == NUL
    requires Judged(v, line, was[|line|..])
    ensures Judged(v, line, stream[|line|..n])
  {
    hide Judged;
    JudgedCut(v, line, was[|line|..], n - |line|);
    assert was[|line|..][..n - |line|] == was[..n][|line|..] == stream[|line|..n];
  }

  lemma StillHeld(was: Octets, now: Octets, at: nat, ls: seq<Line>)
    requires |was| == |now| && 2 <= at && Holds(was, at, ls, true)
    requires forall k :: at - 2 < k < |now| ==> now[k] == was[k]
    ensures Holds(now, at, ls, true)
  {
    assert now[at..] == was[at..];
  }

  lemma FollowsStill(was: Octets, input: Input, inbound: Inbound, end: nat)
    requires input.Valid() && inbound.Valid() && end <= input.len == inbound.taken < input.buf.Length == |was|
    requires was[..input.len] == inbound.stream[..input.len]
    requires forall k :: end <= k < input.buf.Length ==> input.buf[k] == was[k]
    ensures Follows(input, inbound, end)
  {
    forall k | end <= k < input.len
      ensures input.buf[k] == inbound.stream[k]
    {
      assert input.buf[k] == was[k] == was[..input.len][k];
    }
  }

  /** The length a body is gathered for. */
  function Wanted(v: Verdict, puts: seq<Put>): Text.Option<nat>
  {
    if v.Accepted? && v.bodied then BodyLength.Declared(puts) else Text.None
  }

  /** The declared octets behind the head stand in the buffer where the stream has them. */
  ghost predicate BodyHeld(input: Input, inbound: Inbound, end: nat, n: nat, overran: bool)
    reads input, input.buf, inbound
  {
    && inbound.Valid() && end + n <= inbound.taken && end + n <= input.buf.Length
    && input.buf[end..end + n] == inbound.stream[end..end + n]
    && (overran <==> end + n == input.buf.Length)
    && (!overran ==> input.buf[end + n] == NUL)
  }

  /**
     A request whose head ends a read before the limit, in any pieces, on any schedule and with
     other connections using the buffer in between.  When the head has arrived the verdict on
     its line is the specified one; only an admitted request has its headers read, and then
     exactly; and when the body has been gathered, the octets behind the head in the stream, as
     many as the last Content-Length header declares, stand at the handler's body pointer.
   */
  method TakeRequest(st: Stash, input: Input, disturbances: seq<Disturbance>, argv: array<int>,
                     ghost line: Octets, ghost ls: seq<Line>, limit: nat)
    returns (r: ReadStatus, v: Verdict, puts: seq<Put>, body: BodyStatus)
    requires st.Valid() && st.Held() == [] && st.inbound.taken == 0 && input.Valid() && input.buf != st.head
    requires Unbroken(line) && PlainLines(ls) && Head(line, ls) <= st.inbound.stream && argv.Length == CMD_ARGM
    requires |Head(line, ls)| + BUFSIZ <= MAX_REQUEST_HEAD + 1
    modifies st, st.inbound, st.head, input, input.buf, argv
    ensures !r.Overlong? && (r.Head? <==> |Head(line, ls)| <= st.inbound.taken)
    ensures r.Head? ==>
      |Head(line, ls)| <= r.n <= |st.inbound.stream| && Judged(v, line, st.inbound.stream[|line|..r.n])
    ensures v.Accepted? ==>
      r.Head? && puts == EnteredAll(ls) && v.argc < CMD_ARGM && argv[v.argc] - input.base == |line| + 2
    ensures !v.Accepted? ==> puts == [] && body.NoBody?
    ensures var length := Wanted(v, puts);
      && !body.Outside? && (body.NoBody? <==> length.None?)
      && (body.TooBig? <==> length.Some? && length.value > limit)
      && (body.Gathered? ==> BodyHeld(input, st.inbound, |Head(line, ls)|, length.value, body.overran))
    ensures v.Accepted? && v.bodied ==> BodyLength.AsSpelled(ls, Wanted(v, puts))
  {
    ghost var end := |Head(line, ls)|;
    BodyLength.LengthDeclared(ls);
    hide BodyLength.AsSpelled, BodyLength.Declared;
    HeadIsWhole(line, ls, st.inbound.stream);
    hide Head, HeadEnds, Judged, Unbroken, PlainLines;
    r := SmallHeadRun(st, input, disturbances, end);
    v, puts, body := Ignored, [], NoBody;
    if !r.Head? {
      return;
    }
    HeadLonger(line, ls);
    var bodyStart;
    v, puts, bodyStart := TakeHead(input, st.inbound, argv, line, ls);
    if v.Accepted? && v.bodied {
      body := TakeDeclared(input, st.inbound, argv, v.argc, |line| + 2, bodyStart, end, puts, limit);
    }
  }

  lemma HeadLonger(line: Octets, ls: seq<Line>)
    ensures |line| < |Head(line, ls)|
  {
  }

  /** Gather the body behind a head that ends at `end`. */
  method TakeDeclared(input: Input, inbound: Inbound, argv: array<int>, argc: nat, ghost at: nat, bodyStart: nat,
                      ghost end: nat, puts: seq<Put>, limit: nat) returns (body: BodyStatus)
    requires Follows(input, inbound, end) && at + bodyStart + 1 == end
    requires argc < argv.Length && argv[argc] == input.base + at
    modifies inbound, input, input.buf, argv
    ensures inbound.Valid() && old(inbound.taken) <= inbound.taken && argv[argc] - input.base == at
    ensures var length := BodyLength.Declared(puts);
      && !body.Outside? && (body.NoBody? <==> length.None?)
      && (body.TooBig? <==> length.Some? && length.value > limit)
      && (body.Gathered? ==> BodyHeld(input, inbound, end, length.value, body.overran))
  {
    ghost var held, taken := input.buf[..input.len], inbound.taken;
    ghost var counts;
    assert held[end..] == inbound.stream[end..taken];
    hide BodyLength.Declared;
    body, counts := BufferPostBody(inbound, input, argv, argc, bodyStart, puts, limit);
    if body.Gathered? {
      SameBehind(inbound.stream, held, end, taken, inbound.taken, BodyLength.Declared(puts).value);
    }
  }

  /** What was in the buffer behind the head, and what was read since, is what the stream has there. */
  lemma SameBehind(stream: Octets, held: Octets, end: nat, taken: nat, now: nat, declared: nat)
    requires end <= taken == |held| <= now <= |stream| && held[end..] == stream[end..taken]
    requires end + declared <= now
    ensures (held + stream[taken..now])[end..end + declared] == stream[end..end + declared]
  {
    var all := held + stream[taken..now];
    forall k | end <= k < end + declared
      ensures all[k] == stream[k]
    {
      if k < taken {
        assert held[k] == held[end..][k - end] == stream[end..taken][k - end];
      }
    }
  }
}
