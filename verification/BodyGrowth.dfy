/**
 How the body loop of src/libaxil.c grows the shared input buffer.  Its guard is `>`, so
 a read may fill the buffer to the last octet; the terminator then has no room when the
 declared body ends exactly there.  `Fills` decides, before the loop, whether any way of
 delivering the body comes to that.
 */
module BodyGrowth {
  import opened Bytes

  datatype Extent = Extent(len: nat, size: nat)

  /** One read of `n` octets. */
  function Step(e: Extent, n: nat): Extent
  {
    Extent(e.len + n, if e.len + n > e.size then (e.len + n) * 2 else e.size)
  }

  function Run(e: Extent, counts: seq<nat>): (r: Extent)
    requires e.len <= e.size
    ensures r.len <= r.size && e.size <= r.size
  {
    if counts == [] then e else Step(Run(e, counts[..|counts| - 1]), counts[|counts| - 1])
  }

  predicate Reads(counts: seq<nat>)
  {
    forall n :: n in counts ==> 0 < n <= BUFSIZ
  }

  /** `needed` is the present size, or twice a total that one read can lift past a size that fills. */
  predicate Fills(size: nat, needed: nat)
    decreases needed
  {
    || needed == size
    || (size < needed && needed % 2 == 0
        && exists s: nat :: needed / 2 - BUFSIZ <= s < needed / 2 && Fills(size, s))
  }

  /** Every size the loop can reach is one that fills. */
  lemma {:induction false} ReachedFills(e: Extent, counts: seq<nat>)
    requires e.len <= e.size && Reads(counts)
    ensures Fills(e.size, Run(e, counts).size)
  {
    if counts != [] {
      var init, n := counts[..|counts| - 1], counts[|counts| - 1];
      assert n in counts && forall k :: k in init ==> k in counts;
      ReachedFills(e, init);
      var mid := Run(e, init);
      if mid.len + n > mid.size {
        assert (mid.len + n) * 2 / 2 - BUFSIZ <= mid.size < (mid.len + n) * 2 / 2;
      }
    }
  }

  /** Octets that come singly and fit. */
  lemma {:induction false} Trickle(e: Extent, counts: seq<nat>, k: nat) returns (more: seq<nat>)
    requires e.len <= e.size && Reads(counts) && Run(e, counts).len + k <= Run(e, counts).size
    ensures Reads(more) && Run(e, more) == Extent(Run(e, counts).len + k, Run(e, counts).size)
    decreases k
  {
    if k == 0 {
      more := counts;
    } else {
      var m := Trickle(e, counts, k - 1);
      more := m + [1];
      assert more[..|more| - 1] == m;
    }
  }

  /** A size that fills can be filled to the last octet. */
  lemma {:induction false} FillsReached(e: Extent, needed: nat) returns (counts: seq<nat>)
    requires e.len <= e.size && Fills(e.size, needed)
    ensures Reads(counts) && Run(e, counts) == Extent(needed, needed)
    decreases needed
  {
    if needed == e.size {
      assert Run(e, []) == e;
      counts := Trickle(e, [], e.size - e.len);
    } else {
      var s: nat :| needed / 2 - BUFSIZ <= s < needed / 2 && Fills(e.size, s);
      var full := FillsReached(e, s);
      var n := needed / 2 - s;
      var grown := full + [n];
      assert grown[..|grown| - 1] == full;
      assert Run(e, grown) == Extent(needed / 2, needed);
      counts := Trickle(e, grown, needed - needed / 2);
    }
  }

  /**
     The exact condition: some delivery leaves a body of that end without room for its
     terminator exactly when the buffer's size and that end satisfy `Fills`.
   */
  lemma NoRoomForTerminatorIff(e: Extent, needed: nat)
    requires e.len < e.size && e.len < needed
    ensures (exists counts :: Reads(counts) && Run(e, counts).len >= needed >= Run(e, counts).size)
      <==> Fills(e.size, needed)
  {
    if counts :| Reads(counts) && Run(e, counts).len >= needed >= Run(e, counts).size {
      ReachedFills(e, counts);
    }
    if Fills(e.size, needed) {
      var counts := FillsReached(e, needed);
    }
  }

  // ----- the condition in closed form ---------------------------------------------------

  function Pow2(k: nat): (p: nat)
    ensures 0 < p
  {
    if k == 0 then 1 else 2 * Pow2(k - 1)
  }

  /** The least and the largest size after `k` growths. */
  function Least(size: nat, k: nat): nat
  {
    if k == 0 then size else 2 * (Least(size, k - 1) + 1)
  }

  function Largest(size: nat, k: nat): nat
  {
    if k == 0 then size else 2 * (Largest(size, k - 1) + BUFSIZ)
  }

  lemma {:induction false} LeastIs(size: nat, k: nat)
    ensures Least(size, k) == Pow2(k) * size + 2 * Pow2(k) - 2
  {
    if k != 0 {
      LeastIs(size, k - 1);
      Doubled(Pow2(k - 1), size);
    }
  }

  lemma {:induction false} LargestIs(size: nat, k: nat)
    ensures Largest(size, k) == Pow2(k) * size + BUFSIZ * (2 * Pow2(k) - 2)
  {
    if k != 0 {
      LargestIs(size, k - 1);
      Doubled(Pow2(k - 1), size);
    }
  }

  lemma Doubled(p: nat, size: nat)
    ensures 2 * (p * size) == (2 * p) * size
  {
  }

  /** A size after `k` growths: any even one between the least and the largest. */
  predicate AfterGrowths(size: nat, needed: nat, k: nat)
  {
    if k == 0 then needed == size else needed % 2 == 0 && Least(size, k) <= needed <= Largest(size, k)
  }

  lemma {:induction false} BoundsGrow(size: nat, k: nat)
    ensures size + k <= Least(size, k) <= Largest(size, k)
    ensures k != 0 ==> Least(size, k) % 2 == 0 && Largest(size, k) % 2 == 0
  {
    if k != 0 {
      var a, b := Least(size, k - 1) + 1, Largest(size, k - 1) + BUFSIZ;
      assert Least(size, k) == 2 * a && Largest(size, k) == 2 * b;
      BoundsGrow(size, k - 1);
      Even(a);
      Even(b);
    }
  }

  lemma Even(a: nat)
    ensures 2 * a % 2 == 0
  {
  }

  /** One growth more. */
  lemma GrowthStep(size: nat, s: nat, needed: nat, k: nat)
    requires AfterGrowths(size, s, k) && needed % 2 == 0 && needed / 2 - BUFSIZ <= s < needed / 2
    ensures AfterGrowths(size, needed, k + 1)
  {
  }

  /** And one less: some size before it was in reach of one read. */
  lemma GrowthBack(size: nat, needed: nat, k: nat) returns (s: nat)
    requires k != 0 && AfterGrowths(size, needed, k)
    ensures AfterGrowths(size, s, k - 1) && needed / 2 - BUFSIZ <= s < needed / 2 && size < needed
  {
    BoundsGrow(size, k);
    BoundsGrow(size, k - 1);
    var h := needed / 2;
    assert Least(size, k - 1) + 1 <= h <= Largest(size, k - 1) + BUFSIZ;
    if k == 1 {
      s := size;
    } else if Largest(size, k - 1) <= h - 1 {
      s := Largest(size, k - 1);
    } else {
      s := (h - 1) / 2 * 2;
    }
  }

  lemma {:induction false} FillsGrows(size: nat, needed: nat) returns (k: nat)
    requires Fills(size, needed)
    ensures AfterGrowths(size, needed, k)
    decreases needed
  {
    if needed == size {
      k := 0;
    } else {
      var s: nat :| needed / 2 - BUFSIZ <= s < needed / 2 && Fills(size, s);
      var j := FillsGrows(size, s);
      GrowthStep(size, s, needed, j);
      k := j + 1;
    }
  }

  lemma {:induction false} GrowsFills(size: nat, needed: nat, k: nat)
    requires AfterGrowths(size, needed, k)
    ensures Fills(size, needed)
    decreases k
  {
    if k != 0 {
      var s := GrowthBack(size, needed, k);
      GrowsFills(size, s, k - 1);
    }
  }

  /** What a caller can compute: the bounds of the sizes after `k` growths, without recursion. */
  predicate InBand(size: nat, needed: nat, k: nat)
  {
    && needed % 2 == 0
    && Pow2(k) * size + 2 * Pow2(k) - 2 <= needed <= Pow2(k) * size + BUFSIZ * (2 * Pow2(k) - 2)
  }

  /** The condition, in closed form: the present size, or an even number in one of the bands. */
  lemma FillsIff(size: nat, needed: nat)
    ensures Fills(size, needed) <==> needed == size || exists k :: 1 <= k && InBand(size, needed, k)
  {
    if Fills(size, needed) {
      var k := FillsGrows(size, needed);
      LeastIs(size, k);
      LargestIs(size, k);
      assert k != 0 ==> InBand(size, needed, k);
    }
    if k :| 1 <= k && InBand(size, needed, k) {
      LeastIs(size, k);
      LargestIs(size, k);
      GrowsFills(size, needed, k);
    }
  }

  /** A body that ends below the present size, or at an odd index other than it, always has room. */
  lemma RoomForTerminator(e: Extent, needed: nat, counts: seq<nat>)
    requires e.len < e.size && needed != e.size && (needed < e.size || needed % 2 == 1)
    requires Reads(counts) && Run(e, counts).len >= needed
    ensures needed < Run(e, counts).size
  {
    ReachedFills(e, counts);
  }

  /** A buffer of 16384 octets, a head of 100 and a body that ends at 16384. */
  lemma NoRoomExample()
    ensures exists counts :: Reads(counts) && Run(Extent(100, 16384), counts) == Extent(16384, 16384)
  {
    var counts := [8192, 8092];
    assert Reads(counts);
    assert counts[..1] == [8192] && [8192][..0] == [];
    assert Run(Extent(100, 16384), counts[..1]) == Step(Run(Extent(100, 16384), []), 8192);
  }
}
