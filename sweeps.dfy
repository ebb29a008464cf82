/** The neighbour-exchange schedule of one sweep, as values. A sweep at parity
    `offset` (0 or 1) attempts the pairs of slots `(2i + offset, 2i + offset + 1)`
    for `i = 0, 1, ...` in increasing order, as long as the pair lies inside the
    ensemble; `accept[i]` is the acceptance decision for pair `i`. */
module Sweeps {
  import opened Permutations

  /** The number of pairs of a sweep at parity `offset` that lie inside `size` slots. */
  function NumPairs(size: nat, offset: nat): (r: nat)
    ensures offset < size ==> 2 * r + offset <= size < 2 * r + offset + 2
    ensures size <= offset ==> r == 0
  {
    if offset < size then (size - offset) / 2 else 0
  }

  /** Pair `i` lies inside the ensemble exactly when `i < NumPairs(size, offset)`. */
  lemma PairInRange(size: nat, offset: nat, i: nat)
    ensures 2 * i + offset + 1 < size <==> i < NumPairs(size, offset)
  {
  }

  /** The odd-parity sweep never has more pairs than the even one. */
  lemma NumPairsOddAtMostEven(size: nat)
    ensures NumPairs(size, 1) <= NumPairs(size, 0)
  {
  }

  /** Every neighbouring pair `(j, j + 1)` of the ensemble is pair number
      `j / 2` of the sweep whose parity is that of `j`: over two consecutive
      sweeps every neighbouring pair is attempted once. */
  lemma EveryPairScheduled(size: nat, j: nat)
    requires j + 1 < size
    ensures 2 * (j / 2) + j % 2 == j
    ensures j / 2 < NumPairs(size, j % 2)
  {
    PairInRange(size, j % 2, j / 2);
  }

  /** The slot whose occupant ends up in slot `s` once the first `m` pairs of the
      sweep have been decided: the partner slot if `s` belongs to an accepted
      pair among them, `s` itself otherwise. */
  function Mate(size: nat, offset: nat, accept: seq<bool>, m: nat, s: nat): (r: nat)
    requires m <= |accept| && m <= NumPairs(size, offset) && s < size
    ensures r < size
    ensures r == s || r == s + 1 || r + 1 == s
  {
    if s < offset then s
    else if (s - offset) / 2 < m && accept[(s - offset) / 2] then
      (PairInRange(size, offset, (s - offset) / 2);
       if (s - offset) % 2 == 0 then s + 1 else s - 1)
    else s
  }

  /** Pairs of one sweep are disjoint, so the mate of a mate is the slot itself. */
  lemma MateInvolution(size: nat, offset: nat, accept: seq<bool>, m: nat, s: nat)
    requires m <= |accept| && m <= NumPairs(size, offset) && s < size
    ensures Mate(size, offset, accept, m, Mate(size, offset, accept, m, s)) == s
  {
  }

  /** The slot order after the first `m` pairs of a sweep over order `p`, defined
      all at once: every slot takes the occupant of its mate. */
  function SweepOrder(p: seq<int>, offset: nat, accept: seq<bool>, m: nat): (r: seq<int>)
    requires m <= |accept| && m <= NumPairs(|p|, offset)
    ensures |r| == |p|
  {
    seq(|p|, s requires 0 <= s < |p| => p[Mate(|p|, offset, accept, m, s)])
  }

  /** Deciding pair `m - 1` changes the mate of its two slots only, and only
      if accepted; before that decision both slots are their own mates. */
  lemma MateStep(size: nat, offset: nat, accept: seq<bool>, m: nat, s: nat)
    requires 0 < m <= |accept| && m <= NumPairs(size, offset) && s < size
    ensures var k := 2 * (m - 1) + offset;
      && k + 1 < size
      && Mate(size, offset, accept, m - 1, s) == (if s == k || s == k + 1 then s else Mate(size, offset, accept, m, s))
      && Mate(size, offset, accept, m, s)
         == (if accept[m - 1] && s == k then k + 1
             else if accept[m - 1] && s == k + 1 then k
             else Mate(size, offset, accept, m - 1, s))
  {
    PairInRange(size, offset, m - 1);
  }

  /** Slot `s` after deciding pair `i`: the occupant of its partner if `s`
      belongs to pair `i` and the pair is accepted, its previous occupant
      otherwise. */
  lemma SweepStepAt(p: seq<int>, offset: nat, accept: seq<bool>, m: nat, s: nat)
    requires 0 < m <= |accept| && m <= NumPairs(|p|, offset) && s < |p|
    ensures 2 * (m - 1) + offset + 1 < |p|
    ensures accept[m - 1] ==>
      SweepOrder(p, offset, accept, m)[s] == Swap(SweepOrder(p, offset, accept, m - 1), 2 * (m - 1) + offset)[s]
    ensures !accept[m - 1] ==>
      SweepOrder(p, offset, accept, m)[s] == SweepOrder(p, offset, accept, m - 1)[s]
  {
    PairInRange(|p|, offset, m - 1);
    var k := 2 * (m - 1) + offset;
    var before := SweepOrder(p, offset, accept, m - 1);
    MateStep(|p|, offset, accept, m, s);
    if accept[m - 1] && s == k {
      MateStep(|p|, offset, accept, m, k + 1);
      assert Swap(before, k)[s] == before[k + 1];
    } else if accept[m - 1] && s == k + 1 {
      MateStep(|p|, offset, accept, m, k);
      assert Swap(before, k)[s] == before[k];
    }
  }

  /** Deciding pairs one at a time in increasing order and exchanging the
      accepted ones yields the all-at-once order: a swap never disturbs a pair
      decided earlier in the same sweep. */
  lemma SweepStep(p: seq<int>, offset: nat, accept: seq<bool>, m: nat)
    requires 0 < m <= |accept| && m <= NumPairs(|p|, offset)
    ensures 2 * (m - 1) + offset + 1 < |p|
    ensures SweepOrder(p, offset, accept, m)
            == if accept[m - 1] then Swap(SweepOrder(p, offset, accept, m - 1), 2 * (m - 1) + offset)
               else SweepOrder(p, offset, accept, m - 1)
  {
    PairInRange(|p|, offset, m - 1);
    var before, after := SweepOrder(p, offset, accept, m - 1), SweepOrder(p, offset, accept, m);
    var next := if accept[m - 1] then Swap(before, 2 * (m - 1) + offset) else before;
    forall s | 0 <= s < |p| ensures after[s] == next[s] {
      SweepStepAt(p, offset, accept, m, s);
    }
  }

  /** The slot order after deciding the first `m` pairs one at a time, in
      increasing order, exchanging each accepted pair as it is decided. */
  function SweepInOrder(p: seq<int>, offset: nat, accept: seq<bool>, m: nat): (r: seq<int>)
    requires m <= |accept| && m <= NumPairs(|p|, offset)
    ensures |r| == |p|
  {
    if m == 0 then p
    else
      var before := SweepInOrder(p, offset, accept, m - 1);
      PairInRange(|p|, offset, m - 1);
      if accept[m - 1] then Swap(before, 2 * (m - 1) + offset) else before
  }

  /** Before any pair is decided every slot keeps its occupant. */
  lemma NothingDecided(p: seq<int>, offset: nat, accept: seq<bool>)
    ensures SweepOrder(p, offset, accept, 0) == p
  {
    assert forall s :: 0 <= s < |p| ==> SweepOrder(p, offset, accept, 0)[s] == p[s];
  }

  /** Exchanging pairs one at a time gives the same order as exchanging them all
      at once: the pairs are disjoint, so no swap disturbs an earlier one. */
  lemma {:induction false} InOrderIsAllAtOnce(p: seq<int>, offset: nat, accept: seq<bool>, m: nat)
    requires m <= |accept| && m <= NumPairs(|p|, offset)
    ensures SweepInOrder(p, offset, accept, m) == SweepOrder(p, offset, accept, m)
  {
    if m > 0 {
      InOrderIsAllAtOnce(p, offset, accept, m - 1);
      SweepStep(p, offset, accept, m);
    } else {
      NothingDecided(p, offset, accept);
    }
  }

  /** A sweep keeps the slot order a permutation. */
  lemma SweepPreservesPermutation(p: seq<int>, n: nat, offset: nat, accept: seq<bool>, m: nat)
    requires IsPermutation(p, n) && m <= |accept| && m <= NumPairs(n, offset)
    ensures IsPermutation(SweepOrder(p, offset, accept, m), n)
  {
    var q := SweepOrder(p, offset, accept, m);
    forall s, t | 0 <= s < t < n ensures q[s] != q[t] {
      var s', t' := Mate(n, offset, accept, m, s), Mate(n, offset, accept, m, t);
      MateInvolution(n, offset, accept, m, s);
      MateInvolution(n, offset, accept, m, t);
      assert s' != t';
      if s' < t' { assert p[s'] != p[t']; } else { assert p[t'] != p[s']; }
    }
  }

  /** Between the orders before and after a sweep, every slot either keeps its
      occupant or trades it with one neighbour, and then the neighbour receives
      this slot's occupant in return: a true pairwise exchange. */
  lemma SweepIsPairwiseExchange(p: seq<int>, offset: nat, accept: seq<bool>, m: nat, s: nat)
    requires m <= |accept| && m <= NumPairs(|p|, offset) && s < |p|
    ensures var q := SweepOrder(p, offset, accept, m);
      || q[s] == p[s]
      || (s + 1 < |p| && q[s] == p[s + 1] && q[s + 1] == p[s])
      || (0 < s && q[s] == p[s - 1] && q[s - 1] == p[s])
  {
    MateInvolution(|p|, offset, accept, m, s);
  }

  /** A slot changes occupant only if it belongs to an accepted pair of this
      sweep's parity: with `offset == 1` slot 0 never moves, and the last slot
      moves only if some pair reaches it. */
  lemma SweepMovesOnlyAcceptedPairs(p: seq<int>, offset: nat, accept: seq<bool>, m: nat, s: nat)
    requires m <= |accept| && m <= NumPairs(|p|, offset) && s < |p|
    requires SweepOrder(p, offset, accept, m)[s] != p[s]
    ensures offset <= s && (s - offset) / 2 < m && accept[(s - offset) / 2]
  {
  }

  /** The loop bound the source writes, `size + offset % 2`. */
  function LiteralBound(size: nat, offset: nat): (r: nat)
    ensures r == size || r == size + 1
    ensures r == size + 1 <==> offset % 2 == 1
  {
    size + offset % 2
  }

  /** With the literal bound, iterations `0 .. NumPairs - 1` are the in-range
      pairs, and iteration `NumPairs` - the first whose pair leaves the ensemble -
      is still inside the loop unless the ensemble is empty and the parity even. */
  lemma LiteralBoundOverruns(size: nat, offset: nat)
    requires offset < 2
    ensures forall i :: 0 <= i < NumPairs(size, offset) ==> 2 * i + offset + 1 < size
    ensures 2 * NumPairs(size, offset) + offset + 1 >= size
    ensures NumPairs(size, offset) < LiteralBound(size, offset) <==> size + offset > 0
  {
    forall i | 0 <= i < NumPairs(size, offset) ensures 2 * i + offset + 1 < size {
      PairInRange(size, offset, i);
    }
  }
}
