/**
 Request heads on whole octet strings: where a head ends, and what the size bound does
 to the ways of cutting the stream into reads.
 */
module HeadFormat {
  import opened Bytes

  const LF: byte := 10
  const CR: byte := 13
  const MAX_REQUEST_HEAD: nat := 64 * 1024

  /** A line end at `i` directly followed by another, bare or after a CR. */
  predicate BlankLineAt(s: Octets, i: nat)
  {
    && i < |s| && s[i] == LF
    && ((i + 1 < |s| && s[i + 1] == LF) || (i + 2 < |s| && s[i + 1] == CR && s[i + 2] == LF))
  }

  predicate Complete(s: Octets)
  {
    4 <= |s| && exists i :: 0 <= i < |s| && BlankLineAt(s, i)
  }

  /** Three octets are no head, even with a blank line; a line end and three more are one. */
  lemma ShortestHead()
    ensures !Complete([10, 10]) && !Complete([65, 10, 10]) && Complete([65, 66, 10, 10])
    ensures Complete([65, 10, 13, 10]) && !Complete([65, 13, 10, 13])
  {
    assert BlankLineAt([65, 66, 10, 10], 2) && BlankLineAt([65, 10, 13, 10], 1);
  }

  lemma CompleteIsStable(s: Octets, t: Octets)
    requires Complete(s) && s <= t
    ensures Complete(t)
  {
    var i :| 0 <= i < |s| && BlankLineAt(s, i);
    assert BlankLineAt(t, i);
  }

  /** The shortest prefix that is a whole head has `end` octets. */
  ghost predicate HeadEnds(s: Octets, end: nat)
  {
    end <= |s| && Complete(s[..end]) && forall k :: 0 <= k < end ==> !Complete(s[..k])
  }

  lemma BeforeTheEnd(s: Octets, end: nat, k: nat)
    requires HeadEnds(s, end) && k <= |s|
    ensures Complete(s[..k]) <==> end <= k
  {
    if end <= k {
      assert s[..end] <= s[..k];
      CompleteIsStable(s[..end], s[..k]);
    }
  }

  datatype Outcome = Waiting(held: Octets) | Dispatched(head: Octets) | TooLarge

  /** What becomes of a head that arrives in these pieces, after `held`. */
  function Assemble(held: Octets, pieces: seq<Octets>): (r: Outcome)
    decreases |pieces|
  {
    if pieces == [] then Waiting(held)
    else if |held| + |pieces[0]| > MAX_REQUEST_HEAD then TooLarge
    else if Complete(held + pieces[0]) then Dispatched(held + pieces[0])
    else Assemble(held + pieces[0], pieces[1..])
  }

  function Concat(pieces: seq<Octets>): Octets
  {
    if pieces == [] then [] else pieces[0] + Concat(pieces[1..])
  }

  /** Every read brings something, and no more than the buffer holds. */
  predicate Segmentation(pieces: seq<Octets>)
  {
    forall r :: r in pieces ==> 0 < |r| <= BUFSIZ
  }

  /** Waiting in between changes nothing: the passes of the event loop do not matter. */
  lemma {:induction false} AssembleResumes(held: Octets, first: seq<Octets>, second: seq<Octets>)
    ensures Assemble(held, first + second)
         == if Assemble(held, first).Waiting? then Assemble(Assemble(held, first).held, second)
            else Assemble(held, first)
    decreases |first|
  {
    if first == [] {
      assert first + second == second;
    } else {
      assert (first + second)[1..] == first[1..] + second;
      if !(|held| + |first[0]| > MAX_REQUEST_HEAD) && !Complete(held + first[0]) {
        AssembleResumes(held + first[0], first[1..], second);
      }
    }
  }

  /** Anything still waiting is all there, incomplete and within the bound. */
  lemma {:induction false} WaitingHoldsAll(held: Octets, pieces: seq<Octets>)
    requires !Complete(held) && |held| <= MAX_REQUEST_HEAD && Assemble(held, pieces).Waiting?
    ensures Assemble(held, pieces).held == held + Concat(pieces)
    ensures !Complete(held + Concat(pieces)) && |held + Concat(pieces)| <= MAX_REQUEST_HEAD
    decreases |pieces|
  {
    if pieces == [] {
      assert held + [] == held;
    } else {
      WaitingHoldsAll(held + pieces[0], pieces[1..]);
      assert held + pieces[0] + Concat(pieces[1..]) == held + Concat(pieces);
    }
  }

  /** A head that fits with a read to spare is dispatched, however it is cut. */
  lemma {:induction false} SmallHeadDispatched(s: Octets, end: nat, at: nat, pieces: seq<Octets>)
    requires HeadEnds(s, end) && end + BUFSIZ <= MAX_REQUEST_HEAD + 1
    requires at < end <= at + |Concat(pieces)| && Segmentation(pieces)
    requires at + |Concat(pieces)| <= |s| && Concat(pieces) == s[at..at + |Concat(pieces)|]
    ensures var r := Assemble(s[..at], pieces);
      r.Dispatched? && end <= |r.head| < end + BUFSIZ && r.head <= s
    decreases |pieces|
  {
    assert pieces[0] in pieces;
    var now := at + |pieces[0]|;
    var all := Concat(pieces);
    assert all == pieces[0] + Concat(pieces[1..]);
    assert pieces[0] == all[..|pieces[0]|] == s[at..now];
    assert s[..at] + pieces[0] == s[..now];
    BeforeTheEnd(s, end, now);
    if now < end {
      assert Concat(pieces[1..]) == all[|pieces[0]|..] == s[now..at + |all|];
      SmallHeadDispatched(s, end, now, pieces[1..]);
    }
  }

  /** A stream with no head within the bound is refused once it has sent more than that. */
  lemma {:induction false} LargeHeadRefused(held: Octets, pieces: seq<Octets>)
    requires !Complete(held) && |held| <= MAX_REQUEST_HEAD
    requires |held + Concat(pieces)| > MAX_REQUEST_HEAD
    requires forall k :: |held| <= k <= MAX_REQUEST_HEAD ==> !Complete((held + Concat(pieces))[..k])
    ensures Assemble(held, pieces) == TooLarge
    decreases |pieces|
  {
    var now := |held| + |pieces[0]|;
    var all := held + Concat(pieces);
    assert held + pieces[0] + Concat(pieces[1..]) == all;
    if now <= MAX_REQUEST_HEAD {
      assert all[..now] == held + pieces[0];
      LargeHeadRefused(held + pieces[0], pieces[1..]);
    }
  }

  /** While no prefix is a head and the bound is kept, the octets are held. */
  lemma {:induction false} IncompleteWaits(held: Octets, pieces: seq<Octets>)
    requires |held + Concat(pieces)| <= MAX_REQUEST_HEAD
    requires forall k :: |held| <= k <= |held + Concat(pieces)| ==> !Complete((held + Concat(pieces))[..k])
    ensures Assemble(held, pieces) == Waiting(held + Concat(pieces))
    decreases |pieces|
  {
    if pieces == [] {
      assert held + [] == held;
    } else {
      var now := held + pieces[0];
      assert now + Concat(pieces[1..]) == held + Concat(pieces);
      assert (held + Concat(pieces))[..|now|] == now;
      IncompleteWaits(now, pieces[1..]);
    }
  }

  /** One octet at a time. */
  function Singles(s: Octets): (pieces: seq<Octets>)
    ensures Segmentation(pieces) && Concat(pieces) == s
  {
    if s == [] then [] else [[s[0]]] + Singles(s[1..])
  }

  lemma {:induction false} ConcatAppend(a: seq<Octets>, b: seq<Octets>)
    ensures Concat(a + b) == Concat(a) + Concat(b)
  {
    if a == [] {
      assert a + b == b;
    } else {
      assert (a + b)[1..] == a[1..] + b;
      ConcatAppend(a[1..], b);
    }
  }

  /** One more read while waiting. */
  lemma OnePiece(held: Octets, pieces: seq<Octets>, piece: Octets)
    requires Assemble(held, pieces).Waiting?
    ensures var now := Assemble(held, pieces).held;
      Assemble(held, pieces + [piece])
      == if |now| + |piece| > MAX_REQUEST_HEAD then TooLarge
         else if Complete(now + piece) then Dispatched(now + piece) else Waiting(now + piece)
    ensures Concat(pieces + [piece]) == Concat(pieces) + piece
  {
    AssembleResumes(held, pieces, [piece]);
    ConcatAppend(pieces, [piece]);
    assert [piece][1..] == [];
    assert Concat([piece]) == piece + Concat([]) == piece;
  }

  /** A head that is dispatched by the last read is everything received. */
  lemma DispatchedIsAll(held: Octets, pieces: seq<Octets>, piece: Octets)
    requires !Complete(held) && |held| <= MAX_REQUEST_HEAD && Assemble(held, pieces).Waiting?
    requires Assemble(held, pieces + [piece]).Dispatched?
    ensures Assemble(held, pieces + [piece]).head == held + Concat(pieces + [piece])
  {
    hide Assemble, Concat, Complete;
    WaitingHoldsAll(held, pieces);
    OnePiece(held, pieces, piece);
    assert held + Concat(pieces) + piece == held + (Concat(pieces) + piece);
  }

  /** All ways of cutting the first octets of `s` that take in the head dispatch it. */
  ghost predicate AlwaysDispatched(s: Octets, end: nat)
  {
    forall pieces :: Segmentation(pieces) && Concat(pieces) <= s && end <= |Concat(pieces)|
      ==> Assemble([], pieces).Dispatched?
  }

  /**
     The exact bound: a head is dispatched however its stream is cut exactly when it ends at
     least one read before the limit.  (The stream is long enough for the last read to be full.)
   */
  lemma DispatchedForEveryCutIff(s: Octets, end: nat)
    requires HeadEnds(s, end) && end + BUFSIZ <= |s|
    ensures AlwaysDispatched(s, end) <==> end + BUFSIZ <= MAX_REQUEST_HEAD + 1
  {
    if end + BUFSIZ <= MAX_REQUEST_HEAD + 1 {
      forall pieces | Segmentation(pieces) && Concat(pieces) <= s && end <= |Concat(pieces)|
        ensures Assemble([], pieces).Dispatched?
      {
        assert s[..0] == [] && Complete(s[..end]);
        SmallHeadDispatched(s, end, 0, pieces);
      }
    } else {
      UnluckyCut(s, end);
    }
  }

  /** Otherwise the octets before the last of the head, one by one, and then a full read. */
  lemma UnluckyCut(s: Octets, end: nat)
    requires HeadEnds(s, end) && MAX_REQUEST_HEAD + 1 < end + BUFSIZ <= |s|
    ensures exists pieces :: Segmentation(pieces) && Concat(pieces) <= s && end <= |Concat(pieces)|
                             && Assemble([], pieces) == TooLarge
  {
    assert Complete(s[..end]);
    if end - 1 <= MAX_REQUEST_HEAD {
      var pieces := SlowThenFull(s, end);
    } else {
      var pieces := Singles(s[..end]);
      assert [] + s[..end] == s[..end];
      forall k | 0 <= k <= MAX_REQUEST_HEAD
        ensures !Complete(s[..end][..k])
      {
        assert s[..end][..k] == s[..k];
      }
      LargeHeadRefused([], pieces);
    }
  }

  lemma SlowThenFull(s: Octets, end: nat) returns (pieces: seq<Octets>)
    requires HeadEnds(s, end) && 0 < end <= MAX_REQUEST_HEAD + 1 < end + BUFSIZ <= |s|
    ensures Segmentation(pieces) && Concat(pieces) == s[..end - 1 + BUFSIZ] && Assemble([], pieces) == TooLarge
  {
    hide Assemble, Concat, HeadEnds;
    var n := end - 1;
    var slow, rest := s[..n], s[n..n + BUFSIZ];
    SlowPart(s, end, n);
    OnePiece([], Singles(slow), rest);
    pieces := Singles(slow) + [rest];
    assert slow + rest == s[..n + BUFSIZ];
  }

  lemma SlowPart(s: Octets, end: nat, n: nat)
    requires HeadEnds(s, end) && n < end && n <= MAX_REQUEST_HEAD
    ensures Assemble([], Singles(s[..n])) == Waiting(s[..n])
  {
    var slow := s[..n];
    assert [] + slow == slow;
    forall k | 0 <= k <= n
      ensures !Complete(slow[..k])
    {
      assert slow[..k] == s[..k];
    }
    IncompleteWaits([], Singles(slow));
  }
}
