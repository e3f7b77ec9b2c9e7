/**
 The two halves of reading a request in src/libaxil.c: axil_read, which assembles the
 head and stashes a partial one, and buffer_post_body, which gathers a declared body.
 Both fill the one `input` buffer every descriptor shares.
 */
module RequestReader {
  import opened Bytes
  import opened Sockets
  import opened HeadFormat
  import BodyGrowth
  import BodyLength
  import HeaderBlock

  const MAX_BODY_STALL_RETRIES: nat := 20
  const FIRST_INPUT_SIZE: nat := 2 * BUFSIZ

  /** `input`, `input_size`, `input_len`; `base` is its address, and `moves` where realloc puts it. */
  class Input {
    var buf: array<byte>
    var len: nat
    var base: int
    var moves: seq<int>

    /** Between two passes `len` says nothing. */
    ghost predicate Allocated()
      reads this
    {
      0 < buf.Length
    }

    ghost predicate Valid()
      reads this
    {
      Allocated() && len <= buf.Length
    }

    constructor (size: nat, base: int, moves: seq<int>)
      requires 0 < size
      ensures Valid() && fresh(buf) && buf.Length == size && len == 0 && this.base == base && this.moves == moves
    {
      buf := new byte[size];
      len, this.base, this.moves := 0, base, moves;
    }

    /** realloc to a larger size: same octets, perhaps another address. */
    method Grow(size: nat)
      requires Valid() && buf.Length <= size
      modifies this`buf, this`base, this`moves
      ensures Valid() && fresh(buf) && buf.Length == size && buf[..len] == old(buf[..len])
      ensures base == if old(moves) == [] then old(base) else old(moves)[0]
    {
      var tmp := new byte[size];
      forall i | 0 <= i < len {
        tmp[i] := buf[i];
      }
      buf := tmp;
      Move();
    }

    /** Where realloc puts the buffer. */
    method Move()
      modifies this`base, this`moves
      ensures base == if old(moves) == [] then old(base) else old(moves)[0]
    {
      if moves != [] {
        base, moves := moves[0], moves[1..];
      }
    }

    /** axil_close of any descriptor: a buffer that has grown large is cut back to its first size. */
    method CutBack()
      requires Allocated()
      modifies this`buf, this`base, this`moves
      ensures Allocated() && (buf == old(buf) || fresh(buf)) && (buf.Length == old(buf.Length) ==> buf == old(buf))
      ensures buf.Length == if old(buf.Length) > FIRST_INPUT_SIZE * 4 then FIRST_INPUT_SIZE else old(buf.Length)
      ensures buf.Length < old(buf.Length) ==> buf[..] == old(buf[..FIRST_INPUT_SIZE])
      ensures base == if buf.Length < old(buf.Length) && old(moves) != [] then old(moves)[0] else old(base)
    {
      if buf.Length > FIRST_INPUT_SIZE * 4 {
        var tmp := new byte[FIRST_INPUT_SIZE];
        forall i | 0 <= i < FIRST_INPUT_SIZE {
          tmp[i] := buf[i];
        }
        buf := tmp;
        Move();
      }
    }

    /** memcpy behind what is there; the caller has made room. */
    method Add(src: array<byte>, n: nat)
      requires Valid() && n <= src.Length && len + n <= buf.Length && src != buf
      modifies this`len, buf
      ensures Valid() && len == old(len) + n && buf[..len] == old(buf[..len]) + src[..n]
    {
      ghost var was := buf[..len];
      forall i | 0 <= i < n {
        buf[len + i] := src[i];
      }
      len := len + n;
      assert buf[..len] == was + src[..n];
    }
  }

  /** head_complete: the length when the buffer holds a blank line, 0 when it does not. */
  method HeadComplete(buf: array<byte>, len: nat) returns (r: nat)
    requires len <= buf.Length
    ensures r == if Complete(buf[..len]) then len else 0
  {
    if len < 4 {
      return 0;
    }
    ghost var s := buf[..len];
    var i := 0;
    while i < len
      invariant 0 <= i <= len && s == buf[..len]
      invariant forall k :: 0 <= k < i ==> !BlankLineAt(s, k)
    {
      if buf[i] == LF {
        if i + 1 < len && buf[i + 1] == LF {
          assert BlankLineAt(s, i);
          return len;
        }
        if i + 2 < len && buf[i + 1] == CR && buf[i + 2] == LF {
          assert BlankLineAt(s, i);
          return len;
        }
      }
      i := i + 1;
    }
    return 0;
  }

  lemma NextPiece(s: Octets, from: nat, at: nat, now: nat, pieces: seq<Octets>, piece: Octets)
    requires from <= at <= now <= |s| && Concat(pieces) == s[from..at] && piece == s[at..now]
    requires Segmentation(pieces) && 0 < |piece| <= BUFSIZ
    ensures Concat(pieces + [piece]) == s[from..now] && Segmentation(pieces + [piece])
  {
    ConcatAppend(pieces, [piece]);
    assert Concat([piece]) == piece + Concat([piece][1..]) == piece;
  }

  datatype ReadStatus =
    | Again              // EAGAIN: the partial head is stashed
    | Head(n: nat)       // a complete head of at least these octets is in the buffer
    | EndOfInput         // 0
    | Overlong           // EMSGSIZE
    | Failure            // any other error, EINTR among them

  /** The part of a descriptor that carries a partial head from one pass to the next. */
  class Stash {
    const inbound: Inbound
    var head: array?<byte>
    var headLen: nat
    var headCap: nat

    ghost predicate Shaped()
      reads this, inbound
    {
      && inbound.Valid() && headLen <= headCap <= MAX_REQUEST_HEAD
      && (if headCap == 0 then head == null else head != null && head.Length == headCap)
    }

    ghost function Held(): Octets
      reads this, inbound, head
      requires Shaped()
    {
      if head == null then [] else head[..headLen]
    }

    /** What is stashed is never a whole head, and never more than the bound. */
    ghost predicate Valid()
      reads this, inbound, head
    {
      Shaped() && !Complete(Held())
    }

    constructor (inbound: Inbound)
      requires inbound.Valid()
      ensures Valid() && this.inbound == inbound && Held() == [] && head == null
    {
      this.inbound := inbound;
      head, headLen, headCap := null, 0, 0;
    }

    /** stash_head: grow geometrically, up to the bound, and copy. */
    method Keep(buf: array<byte>, len: nat)
      requires Shaped() && len <= buf.Length && len <= MAX_REQUEST_HEAD && buf != head
      modifies this, head
      ensures Shaped() && Held() == buf[..len] && headLen == len
      ensures head == old(head) || fresh(head)
      ensures len <= old(headCap) ==> headCap == old(headCap)
      ensures len > old(headCap) && 2 * old(headCap) <= MAX_REQUEST_HEAD ==> headCap >= 2 * old(headCap)
    {
      if len > headCap {
        var want := if headCap != 0 then headCap * 2 else len;
        if want < len {
          want := len;
        }
        if want > MAX_REQUEST_HEAD {
          want := MAX_REQUEST_HEAD;
        }
        var tmp := new byte[want];
        forall i | 0 <= i < headLen {
          tmp[i] := head[i];
        }
        head := tmp;
        headCap := want;
      }
      if len > 0 {
        forall i | 0 <= i < len {
          head[i] := buf[i];
        }
      }
      headLen := len;
      assert Held() == buf[..len];
    }

    /** Start the pass with what an earlier one left. */
    method Restore(input: Input)
      requires Shaped() && input.Allocated() && input.buf != head
      modifies input, input.buf
      ensures input.Valid() && input.buf[..input.len] == Held() && input.len == headLen
      ensures input.buf == old(input.buf) || fresh(input.buf)
      ensures headLen < input.buf.Length
    {
      input.len := 0;
      if headLen != 0 {
        if headLen >= input.buf.Length {
          input.Grow(headLen * 2 + 1);
        }
        forall i | 0 <= i < headLen {
          input.buf[i] := head[i];
        }
        input.len := headLen;
      }
      assert input.buf[..input.len] == Held();
    }

    /** Append one read to the head, growing the buffer so that a NUL still fits. */
    method Append(input: Input, buf: array<byte>, n: nat)
      requires input.Valid() && n <= buf.Length && buf != input.buf && input.len < input.buf.Length
      modifies input, input.buf
      ensures input.Valid() && input.len < input.buf.Length
      ensures input.buf[..input.len] == old(input.buf[..input.len]) + buf[..n] && input.buf[input.len] == 0
      ensures input.buf == old(input.buf) || fresh(input.buf)
    {
      if input.len + n >= input.buf.Length {
        input.Grow(input.buf.Length * 2 + n + 1);
      }
      input.Add(buf, n);
      ghost var s := input.buf[..input.len];
      input.buf[input.len] := 0;
      assert input.buf[..input.len] == s;
    }

    /** The reads so far leave an incomplete head of `input.len` octets. */
    ghost predicate Collecting(input: Input, held: Octets, pieces: seq<Octets>, from: nat)
      reads this, inbound, head, input, input.buf
    {
      && Valid() && Held() == held && input.Valid() && input.len < input.buf.Length
      && input.len <= MAX_REQUEST_HEAD && !Complete(input.buf[..input.len])
      && Assemble(held, pieces) == Waiting(input.buf[..input.len]) && Segmentation(pieces)
      && from <= inbound.taken && Concat(pieces) == inbound.stream[from..inbound.taken]
    }

    /** Why a pass ended with `r`: the socket had no more, or failed, or a head was decided. */
    ghost predicate Reason(r: ReadStatus, before: seq<ReadStep>)
      reads this, inbound
    {
      && Consumed(before, inbound.plan)
      && (r.Again? ==> Starved(before, inbound.plan))
      && (r.Failure? ==> LastWas(before, inbound.plan, ReadReset) || LastWas(before, inbound.plan, ReadInterrupt))
    }

    /** What a pass that ends with `r` leaves behind. */
    ghost predicate Concludes(r: ReadStatus, out: Outcome, input: Input)
      reads this, inbound, head, input, input.buf
    {
      && Shaped() && input.Valid()
      && match r
         case Head(n) =>
           Valid() && Held() == [] && n == input.len < input.buf.Length
           && out == Dispatched(input.buf[..n]) && input.buf[n] == 0
         case Again => Valid() && out == Waiting(Held())
         case EndOfInput => Valid() && Held() == [] && out.Waiting? && inbound.taken == |inbound.stream|
         case Overlong => out == TooLarge
         case Failure => out.Waiting?
    }

    /** The pass ends without a head: the socket blocks, fails or is at its end. */
    method Stop(input: Input, got: Received, ghost held: Octets, ghost pieces: seq<Octets>, ghost from: nat)
      returns (r: ReadStatus)
      requires !got.Octets? && (got.EndOfStream? ==> inbound.taken == |inbound.stream|)
      requires Collecting(input, held, pieces, from) && input.buf != head
      modifies this, head
      ensures Concludes(r, Assemble(held, pieces), input) && (r.Again? <==> got.WouldBlock?)
      ensures r.Failure? <==> got.Broken? || got.Interrupted?
      ensures head == old(head) || fresh(head)
    {
      if got.EndOfStream? {
        headLen := 0;
        var done := HeadComplete(input.buf, input.len);
        if input.len > 0 && done != 0 {
          assert false;      // an end of stream never dispatches a head
        }
        return EndOfInput;
      }
      if !got.WouldBlock? {
        return Failure;
      }
      if input.len > MAX_REQUEST_HEAD {
        return Overlong;
      }
      ghost var now := input.buf[..input.len];
      WaitingHoldsAll(held, pieces);
      if input.len > 0 {
        Keep(input.buf, input.len);
      }
      assert Held() == now;
      return Again;
    }

    /** A read brought `n` octets: bound, grow, append, look for the blank line. */
    method Take(input: Input, buf: array<byte>, n: nat, ghost held: Octets, ghost pieces: seq<Octets>)
      returns (r: ReadStatus)
      requires Valid() && Held() == held && input.Valid() && input.len < input.buf.Length
      requires 0 < n <= buf.Length && buf != input.buf && buf != head && input.buf != head
      requires input.len <= MAX_REQUEST_HEAD && Assemble(held, pieces) == Waiting(input.buf[..input.len])
      modifies this`headLen, input, input.buf
      ensures input.buf == old(input.buf) || fresh(input.buf)
      ensures r in {Again, Overlong} || r == Head(input.len)
      ensures !r.Again? ==> Concludes(r, Assemble(held, pieces + [buf[..n]]), input)
      ensures r.Again? ==>
        && Valid() && Held() == held && input.Valid() && input.len < input.buf.Length
        && input.len <= MAX_REQUEST_HEAD && !Complete(input.buf[..input.len])
        && Assemble(held, pieces + [buf[..n]]) == Waiting(input.buf[..input.len])
    {
      OnePiece(held, pieces, buf[..n]);
      if input.len + n > MAX_REQUEST_HEAD {
        return Overlong;
      }
      Append(input, buf, n);
      var done := HeadComplete(input.buf, input.len);
      if done != 0 {
        headLen := 0;
        return Head(input.len);
      }
      return Again;
    }

    /** One attempt to read into the local buffer. */
    method Pull(buf: array<byte>) returns (got: Received)
      requires inbound.Valid() && buf.Length == BUFSIZ
      modifies inbound, buf
      ensures inbound.Valid() && old(inbound.taken) <= inbound.taken
      ensures got.Octets? ==> 0 < got.n <= BUFSIZ && |inbound.plan| < |old(inbound.plan)|
      ensures got.Octets? ==> buf[..got.n] == inbound.stream[old(inbound.taken)..inbound.taken]
      ensures !got.Octets? ==> inbound.taken == old(inbound.taken)
      ensures got.EndOfStream? ==> inbound.taken == |inbound.stream|
      ensures Consumed(old(inbound.plan), inbound.plan)
      ensures got.WouldBlock? ==> Starved(old(inbound.plan), inbound.plan)
      ensures got.Broken? ==> LastWas(old(inbound.plan), inbound.plan, ReadReset)
      ensures got.Interrupted? ==> LastWas(old(inbound.plan), inbound.plan, ReadInterrupt)
    {
      got := inbound.Recv(buf, 0, BUFSIZ);
      assert got.Octets? ==> buf[..got.n] == buf[..][..got.n];
    }

    /** Once round the loop of axil_read. */
    method Once(input: Input, buf: array<byte>, ghost held: Octets, ghost pieces: seq<Octets>, ghost from: nat,
                ghost before: seq<ReadStep>)
      returns (go: bool, r: ReadStatus, ghost after: seq<Octets>)
      requires Collecting(input, held, pieces, from) && buf.Length == BUFSIZ && Consumed(before, inbound.plan)
      requires buf != input.buf && buf != head && input.buf != head
      modifies this, inbound, head, input, input.buf, buf
      ensures inbound.Valid() && from <= inbound.taken && Segmentation(after)
      ensures Concat(after) == inbound.stream[from..inbound.taken]
      ensures go ==> Collecting(input, held, after, from) && head == old(head)
      ensures go ==> |inbound.plan| < |old(inbound.plan)|
      ensures !go ==> Concludes(r, Assemble(held, after), input) && Reason(r, before)
      ensures !go && r.Head? ==> r.n == |held| + |Concat(after)|
      ensures Consumed(before, inbound.plan)
      ensures (input.buf == old(input.buf) || fresh(input.buf)) && (head == old(head) || fresh(head))
      ensures input.buf != head
    {
      hide Assemble, Concat, Complete, Segmentation, Consumed, LastWas;
      ghost var at := inbound.taken;
      ghost var middle := inbound.plan;
      var got := Pull(buf);
      ConsumedInTwoSteps(before, middle, inbound.plan, if got.Broken? then ReadReset else ReadInterrupt);
      ConsumedInTwoSteps(before, middle, inbound.plan, ReadBlock);
      if !got.Octets? {
        r := Stop(input, got, held, pieces, from);
        return false, r, pieces;
      }
      ghost var piece := buf[..got.n];
      r := Take(input, buf, got.n, held, pieces);
      if r.Head? {
        DispatchedIsAll(held, pieces, piece);
      }
      NextPiece(inbound.stream, from, at, inbound.taken, pieces, piece);
      return r.Again?, r, pieces + [piece];
    }

    /**
       axil_read on a descriptor that is not a WebSocket.  The reads of this pass do to the
       stashed head what one-shot assembly does, however often the socket has blocked before.
     */
    method Read(input: Input) returns (r: ReadStatus, ghost pieces: seq<Octets>)
      requires Valid() && input.Allocated() && input.buf != head
      modifies this, inbound, head, input, input.buf
      ensures inbound.Valid() && old(inbound.taken) <= inbound.taken && Segmentation(pieces)
      ensures Concat(pieces) == inbound.stream[old(inbound.taken)..inbound.taken]
      ensures Concludes(r, Assemble(old(Held()), pieces), input) && Reason(r, old(inbound.plan))
      ensures r.Head? ==> r.n == |old(Held())| + |Concat(pieces)|
      ensures (input.buf == old(input.buf) || fresh(input.buf)) && (head == old(head) || fresh(head))
      ensures input.buf != head
    {
      var buf := new byte[BUFSIZ];
      ghost var held, from := Held(), inbound.taken;
      pieces := [];
      Restore(input);
      assert inbound.stream[from..from] == [];
      var go := true;
      r := Again;
      while go
        invariant go ==> Collecting(input, held, pieces, from) && head == old(head)
        invariant !go ==> Concludes(r, Assemble(held, pieces), input) && Reason(r, old(inbound.plan))
        invariant !go && r.Head? ==> r.n == |held| + |Concat(pieces)|
        invariant Consumed(old(inbound.plan), inbound.plan)
        invariant inbound.Valid() && from <= inbound.taken && Segmentation(pieces)
        invariant Concat(pieces) == inbound.stream[from..inbound.taken]
        invariant (input.buf == old(input.buf) || fresh(input.buf)) && (head == old(head) || fresh(head))
        invariant buf != input.buf && input.buf != head && fresh(buf)
        decreases go, |inbound.plan|
      {
        go, r, pieces := Once(input, buf, held, pieces, from, old(inbound.plan));
      }
    }
  }

  /** What another descriptor does to the shared buffer: it reads octets into it, and perhaps is closed. */
  datatype Disturbance = Disturbance(junk: Octets, closes: bool)

  /** Between two passes other descriptors use the shared buffer: it grows and shrinks. */
  method Disturb(input: Input, d: Disturbance)
    requires input.Allocated()
    modifies input, input.buf
    ensures input.Allocated() && (input.buf == old(input.buf) || fresh(input.buf))
    ensures d.closes ==> input.buf.Length <= FIRST_INPUT_SIZE * 4
    ensures input.len == |d.junk|
    ensures !d.closes || |d.junk| <= FIRST_INPUT_SIZE ==>
      input.len <= input.buf.Length && input.buf[..input.len] == d.junk
  {
    input.len := 0;
    if |d.junk| > input.buf.Length {
      input.Grow(|d.junk|);
    }
    forall i | 0 <= i < |d.junk| {
      input.buf[i] := d.junk[i];
    }
    input.len := |d.junk|;
    assert input.buf[..|d.junk|] == d.junk;
    if d.closes {
      ghost var was := input.buf[..];
      input.CutBack();
      assert |d.junk| <= input.buf.Length ==> input.buf[..|d.junk|] == was[..|d.junk|];
    }
  }

  /** Two stretches of the stream, cut somehow, are one. */
  lemma Joined(held: Octets, pieces: seq<Octets>, more: seq<Octets>, s: Octets, from: nat, at: nat, to: nat)
    requires from <= at <= to <= |s| && Segmentation(pieces) && Segmentation(more)
    requires Concat(pieces) == s[from..at] && Concat(more) == s[at..to]
    requires Assemble(held, pieces).Waiting? && !Complete(held) && |held| <= MAX_REQUEST_HEAD
    ensures Segmentation(pieces + more) && Concat(pieces + more) == s[from..to]
    ensures Assemble(held, pieces + more) == Assemble(Assemble(held, pieces).held, more)
    ensures |held| + |Concat(pieces + more)| == |Assemble(held, pieces).held| + |Concat(more)|
  {
    hide Assemble, Concat, Complete;
    WaitingHoldsAll(held, pieces);
    AssembleResumes(held, pieces, more);
    ConcatAppend(pieces, more);
    assert s[from..at] + s[at..to] == s[from..to];
  }

  /** One pass of the event loop for each item, with the buffer disturbed in between. */
  method HeadRun(st: Stash, input: Input, disturbances: seq<Disturbance>)
    returns (r: ReadStatus, ghost pieces: seq<Octets>)
    requires st.Valid() && input.Valid() && input.buf != st.head
    modifies st, st.inbound, st.head, input, input.buf
    ensures st.inbound.Valid() && old(st.inbound.taken) <= st.inbound.taken && Segmentation(pieces)
    ensures Concat(pieces) == st.inbound.stream[old(st.inbound.taken)..st.inbound.taken]
    ensures st.Concludes(r, Assemble(old(st.Held()), pieces), input)
    ensures r.Head? ==> r.n == |old(st.Held())| + |Concat(pieces)|
    ensures input.buf == old(input.buf) || fresh(input.buf)
  {
    r, pieces := Again, [];
    ghost var from, held := st.inbound.taken, st.Held();
    assert st.inbound.stream[from..from] == [] && !Complete(held) && |held| <= MAX_REQUEST_HEAD;
    var i := 0;
    while i < |disturbances| && r.Again?
      invariant st.inbound.Valid() && from <= st.inbound.taken && Segmentation(pieces)
      invariant Concat(pieces) == st.inbound.stream[from..st.inbound.taken]
      invariant st.Concludes(r, Assemble(held, pieces), input)
      invariant r.Head? ==> r.n == |held| + |Concat(pieces)|
      invariant input.buf == old(input.buf) || fresh(input.buf)
      invariant st.head == old(st.head) || fresh(st.head)
      invariant input.buf != st.head
    {
      hide Assemble, Concat, Segmentation;
      Disturb(input, disturbances[i]);
      ghost var at := st.inbound.taken;
      ghost var more;
      r, more := st.Read(input);
      Joined(held, pieces, more, st.inbound.stream, from, at, st.inbound.taken);
      pieces := pieces + more;
      i := i + 1;
    }
  }

  /**
     A whole connection whose first head ends at least one read before the limit: as soon as
     the head has arrived it is dispatched, behind it at most part of one read, and until then
     the connection waits.  It is never refused as too long.
   */
  method SmallHeadRun(st: Stash, input: Input, disturbances: seq<Disturbance>, ghost end: nat) returns (r: ReadStatus)
    requires st.Valid() && st.Held() == [] && st.inbound.taken == 0 && input.Valid() && input.buf != st.head
    requires HeadEnds(st.inbound.stream, end) && end + BUFSIZ <= MAX_REQUEST_HEAD + 1
    modifies st, st.inbound, st.head, input, input.buf
    ensures st.inbound.Valid() && input.Valid() && !r.Overlong?
    ensures r.Head? <==> end <= st.inbound.taken
    ensures r.Head? ==> end <= r.n < end + BUFSIZ && r.n == input.len == st.inbound.taken < input.buf.Length
    ensures r.Head? ==> input.buf[..r.n] == st.inbound.stream[..r.n] && input.buf[r.n] == 0
    ensures input.buf == old(input.buf) || fresh(input.buf)
  {
    ghost var pieces;
    r, pieces := HeadRun(st, input, disturbances);
    ghost var s := st.inbound.stream;
    assert s[..0] == [] && s[0..st.inbound.taken] == s[..st.inbound.taken];
    if end <= st.inbound.taken {
      assert Complete(s[..end]);
      SmallHeadDispatched(s, end, 0, pieces);
      assert input.buf[..r.n] <= s;
    } else {
      NotYet(s, end, pieces);
    }
  }

  /** Before the head is complete nothing happens. */
  lemma NotYet(s: Octets, end: nat, pieces: seq<Octets>)
    requires HeadEnds(s, end) && end + BUFSIZ <= MAX_REQUEST_HEAD + 1
    requires Concat(pieces) <= s && |Concat(pieces)| < end
    ensures Assemble([], pieces).Waiting?
  {
    assert [] + Concat(pieces) == Concat(pieces);
    forall k | 0 <= k <= |Concat(pieces)|
      ensures !Complete(Concat(pieces)[..k])
    {
      assert Concat(pieces)[..k] == s[..k];
    }
    IncompleteWaits([], pieces);
  }

  /**
     A connection with no head within the limit: it is refused as soon as it has sent more
     than that, in whatever pieces, and not before; it is never dispatched.
   */
  method LargeHeadRun(st: Stash, input: Input, disturbances: seq<Disturbance>) returns (r: ReadStatus)
    requires st.Valid() && st.Held() == [] && st.inbound.taken == 0 && input.Valid() && input.buf != st.head
    requires forall k :: 0 <= k <= MAX_REQUEST_HEAD && k <= |st.inbound.stream| ==> !Complete(st.inbound.stream[..k])
    modifies st, st.inbound, st.head, input, input.buf
    ensures st.inbound.Valid() && !r.Head?
    ensures r.Overlong? <==> MAX_REQUEST_HEAD < st.inbound.taken
  {
    ghost var pieces;
    r, pieces := HeadRun(st, input, disturbances);
    NeverDispatched(st.inbound.stream, st.inbound.taken, pieces);
  }

  lemma NeverDispatched(s: Octets, taken: nat, pieces: seq<Octets>)
    requires taken <= |s| && Concat(pieces) == s[0..taken]
    requires forall k :: 0 <= k <= MAX_REQUEST_HEAD && k <= |s| ==> !Complete(s[..k])
    ensures var r := Assemble([], pieces); if MAX_REQUEST_HEAD < taken then r == TooLarge else r.Waiting?
  {
    assert [] + Concat(pieces) == Concat(pieces) && |Concat(pieces)| == taken;
    forall k | 0 <= k <= MAX_REQUEST_HEAD && k <= taken
      ensures !Complete(Concat(pieces)[..k])
    {
      assert Concat(pieces)[..k] == s[..k];
    }
    if MAX_REQUEST_HEAD < taken {
      LargeHeadRefused([], pieces);
    } else {
      IncompleteWaits([], pieces);
    }
  }

  // ----- the declared body ----------------------------------------------------

  datatype BodyStatus =
    | NoBody                       // no Content-Length
    | Outside                      // the position of the header lines was read outside argv
    | TooBig                       // 413, and nothing read
    | Gone                         // closed: end of stream, an error, or too many stalls
    | Gathered(overran: bool)      // the whole body is in the buffer; did its NUL fall outside?

  /** How often the socket says it would block. */
  function Blocks(plan: seq<ReadStep>): nat
  {
    if plan == [] then 0 else Blocks(plan[..|plan| - 1]) + if plan[|plan| - 1].ReadBlock? then 1 else 0
  }

  /** argv[0..argc] designate the same offsets of `input` wherever it has moved. */
  ghost predicate SameOffsets(argv: seq<int>, base: int, was: seq<int>, wasBase: int, argc: nat)
    requires argc < |argv| && argc < |was|
  {
    forall i :: 0 <= i <= argc ==> argv[i] - base == was[i] - wasBase
  }

  /** The realloc of the body loop, and the pointers that follow it; the caller has read argv[argc]. */
  method GrowAndShift(input: Input, n: nat, argv: array<int>, argc: nat)
    requires input.Valid() && argc < argv.Length && input.buf.Length < input.len + n
    modifies input`buf, input`base, input`moves, argv
    ensures input.Valid() && fresh(input.buf) && input.buf.Length == (input.len + n) * 2
    ensures input.buf[..input.len] == old(input.buf[..input.len])
    ensures SameOffsets(argv[..], input.base, old(argv[..]), old(input.base), argc)
  {
    var oldBase := input.base;
    input.Grow((input.len + n) * 2);
    var shift := input.base - oldBase;
    var i := 0;
    while i <= argc
      invariant 0 <= i <= argc + 1
      invariant forall k :: 0 <= k < i ==> argv[k] == old(argv[k]) + shift
      invariant forall k :: i <= k < argv.Length ==> argv[k] == old(argv[k])
      modifies argv
    {
      argv[i] := argv[i] + shift;
      i := i + 1;
    }
  }

  /** One successful read of the body loop: grow when it does not fit, and append. */
  method TakeBody(input: Input, buf: array<byte>, n: nat, argv: array<int>, argc: nat)
    requires input.Valid() && n <= buf.Length && buf != input.buf && argc < argv.Length
    modifies input, input.buf, argv
    ensures input.Valid() && (input.buf == old(input.buf) || fresh(input.buf))
    ensures BodyGrowth.Extent(input.len, input.buf.Length)
         == BodyGrowth.Step(BodyGrowth.Extent(old(input.len), old(input.buf.Length)), n)
    ensures input.buf[..input.len] == old(input.buf[..input.len]) + old(buf[..n])
    ensures SameOffsets(argv[..], input.base, old(argv[..]), old(input.base), argc)
  {
    if input.len + n > input.buf.Length {
      GrowAndShift(input, n, argv, argc);
    }
    input.Add(buf, n);
  }

  /** Why the loop gave up. */
  ghost predicate GaveUp(before: seq<ReadStep>, inbound: Inbound)
    reads inbound
  {
    var after := inbound.plan;
    && Consumed(before, after)
    && (inbound.taken == |inbound.stream| || LastWas(before, after, ReadReset) || LastWas(before, after, ReadInterrupt)
        || after == [] || Blocks(before[..|before| - |after|]) > MAX_BODY_STALL_RETRIES)
  }

  /** No more stalls than the loop allows. */
  ghost predicate Patient(before: seq<ReadStep>, after: seq<ReadStep>)
  {
    Consumed(before, after) && Blocks(before[..|before| - |after|]) <= MAX_BODY_STALL_RETRIES
  }

  /** The stalls counted are those of the plan so far, and any more once it is over. */
  ghost predicate Counted(before: seq<ReadStep>, after: seq<ReadStep>, stalls: nat)
  {
    && Consumed(before, after)
    && var blocks := Blocks(before[..|before| - |after|]);
       blocks <= stalls && (after == [] || stalls == blocks)
  }

  lemma NoneCounted(plan: seq<ReadStep>)
    ensures Counted(plan, plan, 0)
  {
    assert plan[..0] == [];
  }

  lemma FewCounted(before: seq<ReadStep>, after: seq<ReadStep>, stalls: nat)
    requires Counted(before, after, stalls) && stalls <= MAX_BODY_STALL_RETRIES
    ensures Patient(before, after)
  {
  }

  /** One attempt of the body loop, and the stall count. */
  method PullBody(inbound: Inbound, buf: array<byte>, stalls: nat, ghost before: seq<ReadStep>)
    returns (got: Received, now: nat)
    requires inbound.Valid() && buf.Length == BUFSIZ && stalls <= MAX_BODY_STALL_RETRIES
    requires Counted(before, inbound.plan, stalls)
    modifies inbound, buf
    ensures inbound.Valid() && old(inbound.taken) <= inbound.taken && Counted(before, inbound.plan, now)
    ensures got.Octets? ==> 0 < got.n <= BUFSIZ && now == stalls
    ensures got.Octets? ==> buf[..got.n] == inbound.stream[old(inbound.taken)..inbound.taken]
    ensures !got.Octets? ==> inbound.taken == old(inbound.taken)
    ensures got.WouldBlock? ==> now == stalls + 1
    ensures !got.Octets? && !got.WouldBlock? ==> GaveUp(before, inbound)
    ensures got.WouldBlock? && stalls == MAX_BODY_STALL_RETRIES ==> GaveUp(before, inbound)
    ensures |inbound.plan| < |old(inbound.plan)| || (got.WouldBlock? && inbound.plan == old(inbound.plan))
  {
    ghost var plan := inbound.plan;
    got := inbound.Recv(buf, 0, BUFSIZ);
    assert got.Octets? ==> buf[..got.n] == buf[..][..got.n];
    now := if got.WouldBlock? then stalls + 1 else stalls;
    if plan != [] {
      CountedOn(before, plan, stalls);
    }
  }

  lemma CountedOn(before: seq<ReadStep>, plan: seq<ReadStep>, stalls: nat)
    requires Counted(before, plan, stalls) && plan != []
    ensures Counted(before, plan[1..], if plan[0].ReadBlock? then stalls + 1 else stalls)
    ensures LastWas(before, plan[1..], plan[0])
  {
    var k := |before| - |plan|;
    assert before[..k + 1][..k] == before[..k];
  }

  /** Where the body loop stands after reading `counts`. */
  ghost predicate Gathering(inbound: Inbound, input: Input, counts: seq<nat>, start: BodyGrowth.Extent,
                            text: Octets, from: nat)
    reads inbound, input, input.buf
  {
    && inbound.Valid() && input.Valid() && start.len <= start.size && BodyGrowth.Reads(counts)
    && BodyGrowth.Run(start, counts) == BodyGrowth.Extent(input.len, input.buf.Length)
    && from <= inbound.taken && input.buf[..input.len] == text + inbound.stream[from..inbound.taken]
  }

  /** The octets of one read join those gathered. */
  method Absorb(inbound: Inbound, input: Input, buf: array<byte>, n: nat, argv: array<int>, argc: nat,
                ghost counts: seq<nat>, ghost start: BodyGrowth.Extent, ghost text: Octets,
                ghost from: nat, ghost at: nat)
    requires inbound.Valid() && input.Valid() && buf != input.buf && argc < argv.Length
    requires start.len <= start.size && BodyGrowth.Reads(counts)
    requires BodyGrowth.Run(start, counts) == BodyGrowth.Extent(input.len, input.buf.Length)
    requires from <= at <= inbound.taken && input.buf[..input.len] == text + inbound.stream[from..at]
    requires 0 < n <= BUFSIZ && n <= buf.Length && buf[..n] == inbound.stream[at..inbound.taken]
    modifies input, input.buf, argv
    ensures Gathering(inbound, input, counts + [n], start, text, from)
    ensures input.buf == old(input.buf) || fresh(input.buf)
    ensures SameOffsets(argv[..], input.base, old(argv[..]), old(input.base), argc)
  {
    OneMoreCount(counts, n, start);
    TakeBody(input, buf, n, argv, argc);
    assert inbound.stream[from..at] + inbound.stream[at..inbound.taken] == inbound.stream[from..inbound.taken];
  }

  /** Read until the buffer holds `needed` octets. */
  method Gather(inbound: Inbound, input: Input, argv: array<int>, argc: nat, needed: nat)
    returns (ok: bool, ghost counts: seq<nat>)
    requires inbound.Valid() && input.Valid() && argc < argv.Length
    modifies inbound, input, input.buf, argv
    ensures Gathering(inbound, input, counts, BodyGrowth.Extent(old(input.len), old(input.buf.Length)),
                      old(input.buf[..input.len]), old(inbound.taken))
    ensures input.buf == old(input.buf) || fresh(input.buf)
    ensures SameOffsets(argv[..], input.base, old(argv[..]), old(input.base), argc)
    ensures ok <==> needed <= input.len
    ensures !ok ==> GaveUp(old(inbound.plan), inbound)
    ensures ok ==> Patient(old(inbound.plan), inbound.plan)
    ensures old(input.len) >= needed ==> counts == []
  {
    var buf := new byte[BUFSIZ];
    ghost var start := BodyGrowth.Extent(input.len, input.buf.Length);
    ghost var text, from, before := input.buf[..input.len], inbound.taken, inbound.plan;
    counts := [];
    assert inbound.stream[from..from] == [];
    NoneCounted(before);
    var stalls: nat := 0;
    hide Counted, GaveUp, Patient, Blocks;
    while input.len < needed
      invariant Gathering(inbound, input, counts, start, text, from)
      invariant (input.buf == old(input.buf) || fresh(input.buf)) && fresh(buf) && buf != input.buf
      invariant SameOffsets(argv[..], input.base, old(argv[..]), old(input.base), argc)
      invariant stalls <= MAX_BODY_STALL_RETRIES && Counted(before, inbound.plan, stalls)
      invariant old(input.len) >= needed ==> counts == []
      decreases |inbound.plan|, MAX_BODY_STALL_RETRIES - stalls
    {
      ghost var at := inbound.taken;
      var got, now := PullBody(inbound, buf, stalls, before);
      if got.WouldBlock? && stalls < MAX_BODY_STALL_RETRIES {
        stalls := now;
        continue;
      }
      if !got.Octets? {
        return false, counts;
      }
      Absorb(inbound, input, buf, got.n, argv, argc, counts, start, text, from, at);
      counts := counts + [got.n];
    }
    FewCounted(before, inbound.plan, stalls);
    return true, counts;
  }

  lemma OneMoreCount(counts: seq<nat>, n: nat, start: BodyGrowth.Extent)
    requires start.len <= start.size && BodyGrowth.Reads(counts) && 0 < n <= BUFSIZ
    ensures BodyGrowth.Reads(counts + [n])
    ensures BodyGrowth.Run(start, counts + [n]) == BodyGrowth.Step(BodyGrowth.Run(start, counts), n)
  {
    assert (counts + [n])[..|counts|] == counts;
  }

  /**
     buffer_post_body: the declared body follows the head in the buffer, with a NUL at its
     declared end when the buffer reaches that far.
   */
  method BufferPostBody(inbound: Inbound, input: Input, argv: array<int>, argc: nat, bodyStart: nat,
                        puts: seq<HeaderBlock.Put>, limit: nat) returns (r: BodyStatus, ghost counts: seq<nat>)
    requires inbound.Valid() && input.Valid() && input.len < input.buf.Length
    requires argc <= argv.Length && (argc < argv.Length ==> input.base <= argv[argc])
    modifies inbound, input, input.buf, argv
    ensures inbound.Valid() && old(inbound.taken) <= inbound.taken
    ensures argc < argv.Length ==> SameOffsets(argv[..], input.base, old(argv[..]), old(input.base), argc)
    ensures var length := BodyLength.Declared(puts);
      && (r.NoBody? <==> length.None?) && (r.TooBig? <==> length.Some? && length.value > limit)
      && (r.Outside? <==> length.Some? && length.value <= limit && argc == argv.Length)
    ensures r.NoBody? || r.TooBig? || r.Outside? ==> inbound.taken == old(inbound.taken)
    ensures r.Gone? ==> GaveUp(old(inbound.plan), inbound)
    ensures r.Gathered? ==> Patient(old(inbound.plan), inbound.plan)
    ensures r.Gathered? ==>
      argc < argv.Length &&
      var declared := BodyLength.Declared(puts).value;
      var body := old(argv[argc] - input.base) + bodyStart + 1;
      var all := old(input.buf[..input.len]) + inbound.stream[old(inbound.taken)..inbound.taken];
      && body + declared <= input.len == |all| && input.len <= input.buf.Length
      && input.buf[body..body + declared] == all[body..body + declared]
      && BodyGrowth.Run(BodyGrowth.Extent(old(input.len), old(input.buf.Length)), counts)
         == BodyGrowth.Extent(input.len, input.buf.Length)
      && (r.overran <==> input.buf.Length <= body + declared)
      && (!r.overran ==> input.buf[body + declared] == 0)
      && BodyGrowth.Reads(counts) && (old(input.len) >= body + declared ==> counts == [])
  {
    hide BodyLength.Declared;
    counts := [];
    var length := BodyLength.Declared(puts);
    if length.None? {
      return NoBody, counts;
    }
    var declared := length.value;
    if declared > limit {
      return TooBig, counts;
    }
    if argc == argv.Length {
      return Outside, counts;
    }
    var headersOffset := argv[argc] - input.base;
    var needed := headersOffset + bodyStart + 1 + declared;
    var ok: bool;
    ok, counts := Gather(inbound, input, argv, argc, needed);
    if !ok {
      return Gone, counts;
    }
    ghost var all := input.buf[..input.len];
    var bodyEnd := headersOffset + bodyStart + 1 + declared;
    var overran := bodyEnd >= input.buf.Length;
    if !overran {
      input.buf[bodyEnd] := 0;
    }
    assert input.buf[..bodyEnd] == all[..bodyEnd];
    return Gathered(overran), counts;
  }

  /**
     Before a body is read one can tell: for every delivery the terminator falls inside the
     buffer, unless the declared end and the buffer's size satisfy `Fills`.
   */
  lemma TerminatorInside(start: BodyGrowth.Extent, end: nat, counts: seq<nat>)
    requires start.len < start.size && BodyGrowth.Reads(counts) && !BodyGrowth.Fills(start.size, end)
    requires BodyGrowth.Run(start, counts).len >= end && (start.len >= end ==> counts == [])
    ensures end < BodyGrowth.Run(start, counts).size
  {
    if start.len < end {
      BodyGrowth.NoRoomForTerminatorIff(start, end);
    }
  }
}
