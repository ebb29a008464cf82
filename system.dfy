/** The system: one replica ensemble and the parity bit that alternates the
    neighbour-exchange sweeps between even and odd pairs. */
module RemdSystem {
  import opened Permutations
  import opened Sweeps
  import opened RemdReplicas

  /** What a sweep acts on: the slot order and whether the last sweep was the
      even one (so that the next uses odd pairs). */
  datatype ExchangeState = ExchangeState(order: seq<int>, lastEven: bool)

  /** The parity of the pairs the next sweep attempts. */
  function Offset(lastEven: bool): (r: nat)
    ensures r < 2
    ensures r == 1 <==> lastEven
  {
    if lastEven then 1 else 0
  }

  /** One completed sweep: the in-range pairs of the current parity are decided
      by `accept`, in increasing order, and the parity flips. */
  function Sweep(st: ExchangeState, accept: seq<bool>): (r: ExchangeState)
    requires |accept| >= NumPairs(|st.order|, Offset(st.lastEven))
    ensures |r.order| == |st.order| && r.lastEven == !st.lastEven
  {
    var offset := Offset(st.lastEven);
    ExchangeState(SweepInOrder(st.order, offset, accept, NumPairs(|st.order|, offset)), !st.lastEven)
  }

  /** A sweep keeps the slot order a permutation, and any sweep whose
      decisions cover the even pairs may follow any other. */
  lemma SweepKeepsPermutation(st: ExchangeState, n: nat, accept: seq<bool>)
    requires IsPermutation(st.order, n) && |accept| >= NumPairs(n, 0)
    ensures |accept| >= NumPairs(n, Offset(st.lastEven))
    ensures IsPermutation(Sweep(st, accept).order, n)
  {
    NumPairsOddAtMostEven(n);
    var offset := Offset(st.lastEven);
    InOrderIsAllAtOnce(st.order, offset, accept, NumPairs(n, offset));
    SweepPreservesPermutation(st.order, n, offset, accept, NumPairs(n, offset));
  }

  /** The orders before and after a sweep differ only by exchanges of disjoint
      neighbouring pairs of the sweep's parity. */
  lemma SweepChangesOnlyPairs(st: ExchangeState, accept: seq<bool>, s: nat)
    requires |accept| >= NumPairs(|st.order|, Offset(st.lastEven)) && s < |st.order|
    ensures var p, q, offset := st.order, Sweep(st, accept).order, Offset(st.lastEven);
      && (|| q[s] == p[s]
          || (s + 1 < |p| && q[s] == p[s + 1] && q[s + 1] == p[s])
          || (0 < s && q[s] == p[s - 1] && q[s - 1] == p[s]))
      && (q[s] != p[s] ==> offset <= s && (s - offset) / 2 < NumPairs(|p|, offset) && accept[(s - offset) / 2])
  {
    var offset := Offset(st.lastEven);
    var m := NumPairs(|st.order|, offset);
    InOrderIsAllAtOnce(st.order, offset, accept, m);
    SweepIsPairwiseExchange(st.order, offset, accept, m, s);
    if Sweep(st, accept).order[s] != st.order[s] {
      SweepMovesOnlyAcceptedPairs(st.order, offset, accept, m, s);
    }
  }

  /** The entries of `sample` (indexed by walker identity) in the slot order
      `order`: entry `s` belongs to the walker occupying slot `s`. */
  function SlotEnergies(order: seq<int>, sample: seq<real>): (r: seq<real>)
    requires forall s :: 0 <= s < |order| ==> 0 <= order[s] < |sample|
    ensures |r| == |order|
    ensures forall s :: 0 <= s < |order| ==> r[s] == sample[order[s]]
  {
    seq(|order|, s requires 0 <= s < |order| => sample[order[s]])
  }

  /** Consecutive sweep counts have opposite parities. */
  lemma ParityFlips(k: nat)
    ensures (k + 1) % 2 == 1 <==> k % 2 != 1
  {
  }

  class System {
    const size: nat
    const replicas: Replicas
    /** Whether the last sweep used even pairs; the next one then uses odd pairs. */
    var lastExchangeEven: bool
    /** The number of sweeps completed so far. */
    ghost var sweeps: nat

    ghost predicate Valid()
      reads this, replicas.walkers, replicas.indexes
    {
      && replicas.Valid() && replicas.size == size
      && (lastExchangeEven <==> sweeps % 2 == 1)
    }

    /** The slot order and the parity bit. */
    ghost function View(): ExchangeState
      reads this, replicas.indexes
    {
      ExchangeState(replicas.indexes[..], lastExchangeEven)
    }

    /** A fresh ensemble of `size` walkers in the identity order; the first sweep
        will use even pairs. */
    constructor (size: nat, ladder: nat -> real)
      ensures Valid() && this.size == size && sweeps == 0
      ensures View() == ExchangeState(Identity(size), false)
      ensures fresh(replicas) && fresh(replicas.indexes)
      ensures forall w :: 0 <= w < size ==> fresh(replicas.walkers[w])
      ensures forall s :: 0 <= s < size ==> replicas.temps[s] == ladder(s)
    {
      this.size := size;
      replicas := new Replicas(size, ladder);
      lastExchangeEven := false;
      sweeps := 0;
    }

    /** Which walker is at which temperature slot. */
    function State(): (r: seq<int>)
      requires Valid()
      reads this, replicas.walkers, replicas.indexes
      ensures r == View().order && IsPermutation(r, size)
      ensures forall s :: 0 <= s < size ==> replicas.Slots()[s].index == r[s]
    {
      replicas.indexes[..]
    }

    /** One entry per slot, in slot order, each taken from the walker occupying
        that slot; `sample[w]` is walker `w`'s energy draw. */
    function Energies(sample: seq<real>): (r: seq<real>)
      requires Valid() && |sample| == size
      reads this, replicas.walkers, replicas.indexes
      ensures r == SlotEnergies(View().order, sample)
      ensures |r| == size
      ensures forall s :: 0 <= s < size ==> r[s] == sample[replicas.Slots()[s].index]
    {
      SlotEnergies(replicas.indexes[..], sample)
    }

    /** The parity of the next sweep: sweeps alternate 0, 1, 0, 1, ... from the first. */
    function NextOffset(): (r: nat)
      requires Valid()
      reads this, replicas.walkers, replicas.indexes
      ensures r == sweeps % 2
    {
      Offset(lastExchangeEven)
    }

    /** Decides pairs `0 .. m-1` of a sweep at parity `offset` in increasing
        order, exchanging pair `i` (slots `2i + offset` and `2i + offset + 1`)
        when `accept[i]` holds. */
    method ExchangePairs(offset: nat, accept: seq<bool>, m: nat)
      requires replicas.Valid() && m <= |accept| && m <= NumPairs(replicas.size, offset)
      modifies replicas.indexes, replicas.walkers
      ensures replicas.Valid()
      ensures replicas.indexes[..] == SweepInOrder(old(replicas.indexes[..]), offset, accept, m)
    {
      ghost var p := replicas.indexes[..];
      for i := 0 to m
        invariant replicas.Valid()
        invariant replicas.indexes[..] == SweepInOrder(p, offset, accept, i)
      {
        AttemptPair(offset, accept[i], i);
      }
    }

    /** One iteration of a sweep: pair `i` at parity `offset` (slots
        `2i + offset` and `2i + offset + 1`) is exchanged when `accepted`. */
    method AttemptPair(offset: nat, accepted: bool, i: nat)
      requires replicas.Valid() && i < NumPairs(replicas.size, offset)
      modifies replicas.indexes, replicas.walkers
      ensures replicas.Valid() && 2 * i + offset + 1 < replicas.size
      ensures accepted ==> replicas.indexes[..] == Swap(old(replicas.indexes[..]), 2 * i + offset)
      ensures !accepted ==> replicas.indexes[..] == old(replicas.indexes[..])
    {
      PairInRange(replicas.size, offset, i);
      if accepted {
        replicas.Exchange(2 * i + offset);
      }
    }

    /** One sweep over the in-range pairs of the current parity; `accept[i]`
        stands for the source's test that pair `i`'s Metropolis acceptance
        exceeds its random draw, computed from the energies and temperatures
        taken before the loop. */
    method Exchange(accept: seq<bool>)
      requires Valid() && |accept| >= NumPairs(size, NextOffset())
      modifies this, replicas.indexes, replicas.walkers
      ensures Valid() && sweeps == old(sweeps) + 1
      ensures View() == Sweep(old(View()), accept)
    {
      var offset := NextOffset();
      ExchangePairs(offset, accept, NumPairs(size, offset));
      ParityFlips(sweeps);
      lastExchangeEven := !lastExchangeEven;
      sweeps := sweeps + 1;
    }

    /** The sweep with the source's loop bound `size + offset % 2`: iterations
        `0 .. NumPairs - 1` decide the in-range pairs, then iteration `NumPairs`,
        whose pair leaves the ensemble, fails with an index error before the
        parity flips, so the sweep completes only for an empty ensemble at even
        parity. */
    method ExchangeAsWritten(accept: seq<bool>) returns (completed: bool)
      requires Valid() && |accept| >= NumPairs(size, NextOffset())
      modifies this, replicas.indexes, replicas.walkers
      ensures Valid()
      ensures completed <==> size == 0 && old(NextOffset()) == 0
      ensures replicas.indexes[..] == Sweep(old(View()), accept).order
      ensures lastExchangeEven == (old(lastExchangeEven) != completed)
      ensures sweeps == old(sweeps) + (if completed then 1 else 0)
    {
      var offset := NextOffset();
      var n := size + offset % 2;
      var m := NumPairs(size, offset);
      LiteralBoundOverruns(size, offset);
      ExchangePairs(offset, accept, m);
      if m < n {
        // energies[2m + offset + 1] is out of range: an index error ends the sweep.
        return false;
      }
      ParityFlips(sweeps);
      lastExchangeEven := !lastExchangeEven;
      sweeps := sweeps + 1;
      completed := true;
    }
  }
}
