/** The ensemble of walkers, the fixed per-slot temperatures and the slot order
    (slot -> walker identity), with the exchange of two neighbouring slots. */
module RemdReplicas {
  import opened Permutations
  import opened RemdWalker

  /** Walker temperatures `wt` (indexed by walker identity) agree with the slot
      order `p` and the slot temperatures `t`: the walker in each slot runs at
      that slot's temperature. */
  predicate Consistent(wt: seq<real>, p: seq<int>, t: seq<real>) {
    && |p| == |t|
    && (forall s :: 0 <= s < |p| ==> 0 <= p[s] < |wt| && wt[p[s]] == t[s])
  }

  /** Walker temperatures after slots `k` and `k + 1` of order `p` exchange their
      occupants: the walker moving down into slot `k` (`p[k + 1]`) is given
      `t[k]` first, then the walker moving up into slot `k + 1` (`p[k]`) is
      given `t[k + 1]`. */
  function ExchangedTemps(wt: seq<real>, p: seq<int>, t: seq<real>, k: nat): (r: seq<real>)
    requires k + 1 < |p| && k + 1 < |t|
    requires 0 <= p[k] < |wt| && 0 <= p[k + 1] < |wt|
    ensures |r| == |wt|
    ensures r[p[k]] == t[k + 1]
    ensures p[k] != p[k + 1] ==> r[p[k + 1]] == t[k]
    ensures forall w :: 0 <= w < |wt| && w != p[k] && w != p[k + 1] ==> r[w] == wt[w]
  {
    wt[p[k + 1] := t[k]][p[k] := t[k + 1]]
  }

  /** An exchange keeps every walker at its slot's temperature. */
  lemma ExchangeKeepsConsistent(wt: seq<real>, p: seq<int>, t: seq<real>, k: nat)
    requires IsPermutation(p, |wt|) && Consistent(wt, p, t) && k + 1 < |p|
    ensures Consistent(ExchangedTemps(wt, p, t, k), Swap(p, k), t)
  {
    var wt', q := ExchangedTemps(wt, p, t, k), Swap(p, k);
    SwapPreservesPermutation(p, |wt|, k);
    forall s | 0 <= s < |q| ensures 0 <= q[s] < |wt'| && wt'[q[s]] == t[s] {
      if s != k && s != k + 1 {
        if s < k { assert p[s] != p[k] && p[s] != p[k + 1]; }
        else { assert p[k] != p[s] && p[k + 1] != p[s]; }
      } else {
        assert p[k] != p[k + 1];
      }
    }
  }

  /** Exchanging the same two slots twice restores the slot order and every
      walker's temperature. */
  lemma ExchangeTwiceRestores(wt: seq<real>, p: seq<int>, t: seq<real>, k: nat)
    requires IsPermutation(p, |wt|) && Consistent(wt, p, t) && k + 1 < |p|
    ensures Swap(Swap(p, k), k) == p
    ensures ExchangedTemps(ExchangedTemps(wt, p, t, k), Swap(p, k), t, k) == wt
  {
    SwapTwice(p, k);
    var wt2 := ExchangedTemps(ExchangedTemps(wt, p, t, k), Swap(p, k), t, k);
    assert p[k] != p[k + 1];
    assert wt2 == wt[p[k] := t[k]][p[k + 1] := t[k + 1]];
    assert wt[p[k]] == t[k] && wt[p[k + 1]] == t[k + 1];
  }

  /** Given the slot order and the slot temperatures, consistency fixes the
      temperature of every walker. */
  lemma ConsistentDeterminesTemps(wt: seq<real>, wt': seq<real>, p: seq<int>, t: seq<real>)
    requires IsPermutation(p, |wt|) && |wt'| == |wt|
    requires Consistent(wt, p, t) && Consistent(wt', p, t)
    ensures wt == wt'
  {
    forall w | 0 <= w < |wt| ensures wt[w] == wt'[w] {
      PermutationCovers(p, |wt|, w);
      var s :| 0 <= s < |p| && p[s] == w;
      assert wt[p[s]] == t[s] == wt'[p[s]];
    }
  }

  class Replicas {
    const size: nat
    /** The walkers in creation order; walker `w` has identity `w`. */
    const walkers: seq<Walker>
    /** The temperature of each slot, fixed at construction. */
    const temps: seq<real>
    /** The slot order: `indexes[s]` is the identity of the walker in slot `s`. */
    const indexes: array<int>

    /** Every walker's current temperature, indexed by walker identity. */
    ghost function WalkerTemps(): (r: seq<real>)
      reads walkers
      ensures |r| == |walkers|
      ensures forall w :: 0 <= w < |walkers| ==> r[w] == walkers[w].temp
    {
      seq(|walkers|, w requires 0 <= w < |walkers| reads walkers => walkers[w].temp)
    }

    ghost predicate Valid()
      reads walkers, indexes
    {
      && |walkers| == size && |temps| == size && indexes.Length == size
      && (forall w :: 0 <= w < size ==> walkers[w].index == w)
      && IsPermutation(indexes[..], size)
      && (forall s :: 0 <= s < size ==> walkers[indexes[s]].temp == temps[s])
    }

    /** A valid ensemble satisfies the value-level consistency of its walker
        temperatures, so the lemmas about `Consistent` apply to it. */
    lemma ValidIsConsistent()
      requires Valid()
      ensures IsPermutation(indexes[..], |WalkerTemps()|)
      ensures Consistent(WalkerTemps(), indexes[..], temps)
    {
    }

    /** Builds `size` walkers, walker `i` at the temperature `ladder(i)` of slot
        `i`, and the identity slot order. `ladder` stands for the source's
        temperature formula, which is floating point. */
    constructor (size: nat, ladder: nat -> real)
      ensures Valid() && this.size == size
      ensures fresh(indexes) && indexes[..] == Identity(size)
      ensures forall i :: 0 <= i < size ==> temps[i] == ladder(i)
      ensures forall i :: 0 <= i < size ==> fresh(walkers[i]) && walkers[i].temp == ladder(i)
    {
      var ts := new real[size];
      var ws: seq<Walker> := [];
      for i := 0 to size
        invariant |ws| == i
        invariant forall j :: 0 <= j < i ==> ts[j] == ladder(j)
        invariant forall j :: 0 <= j < i ==> fresh(ws[j]) && ws[j].index == j && ws[j].temp == ladder(j)
      {
        var temp := ladder(i);
        ts[i] := temp;
        var w := new Walker(i, temp);
        ws := ws + [w];
      }
      this.size := size;
      walkers := ws;
      temps := ts[..];
      indexes := new int[size](i => i);
      new;
      assert indexes[..] == Identity(size);
    }

    /** The walkers in slot order (walker occupying slot 0 first); iterating the
        ensemble yields exactly this sequence. */
    function Slots(): (r: seq<Walker>)
      requires Valid()
      reads walkers, indexes
      ensures |r| == size
      ensures forall s :: 0 <= s < size ==> r[s] == walkers[indexes[s]]
      ensures forall s :: 0 <= s < size ==> r[s].index == indexes[s] && r[s].temp == temps[s]
      ensures forall s, t :: 0 <= s < t < size ==> r[s] != r[t]
    {
      seq(size, s requires 0 <= s < indexes.Length && 0 <= indexes[s] < |walkers| reads indexes => walkers[indexes[s]])
    }

    /** Exchanges the occupants of slots `lowerInd` and `lowerInd + 1` and gives
        each of the two walkers the temperature of its new slot. */
    method Exchange(lowerInd: int)
      requires Valid() && 0 <= lowerInd && lowerInd + 1 < size
      modifies indexes, walkers[indexes[lowerInd]], walkers[indexes[lowerInd + 1]]
      ensures Valid()
      ensures indexes[..] == Swap(old(indexes[..]), lowerInd)
      ensures walkers[old(indexes[lowerInd + 1])].temp == temps[lowerInd]
      ensures walkers[old(indexes[lowerInd])].temp == temps[lowerInd + 1]
      ensures WalkerTemps() == ExchangedTemps(old(WalkerTemps()), old(indexes[..]), temps, lowerInd)
    {
      ghost var p := indexes[..];
      var lower, upper := indexes[lowerInd], indexes[lowerInd + 1];
      var tLower, tUpper := temps[lowerInd], temps[lowerInd + 1];
      indexes[lowerInd], indexes[lowerInd + 1] := upper, lower;
      // The new occupants of the two slots, in slot order, paired with the
      // slots' temperatures.
      walkers[upper].temp := tLower;
      walkers[lower].temp := tUpper;
      SwapPreservesPermutation(p, size, lowerInd);
    }
  }
}
