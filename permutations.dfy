/** Slot orders of a replica ensemble, as values: a slot order `p` lists, for
    every temperature slot `s`, the identity `p[s]` of the walker occupying it. */
module Permutations {

  /** `p` places each walker identity `0 .. n-1` in exactly one slot: every entry
      is in range and no two slots hold the same walker (PermutationCovers shows
      that every walker then has a slot). */
  predicate IsPermutation(p: seq<int>, n: nat) {
    && |p| == n
    && (forall s :: 0 <= s < n ==> 0 <= p[s] < n)
    && (forall s, t :: 0 <= s < t < n ==> p[s] != p[t])
  }

  /** The order `0, 1, ..., n-1`: walker `s` in slot `s`. */
  function Identity(n: nat): (r: seq<int>)
    ensures IsPermutation(r, n)
    ensures forall s :: 0 <= s < n ==> r[s] == s
  {
    seq(n, s => s)
  }

  /** The order with the occupants of slots `k` and `k + 1` exchanged. */
  function Swap(p: seq<int>, k: nat): (r: seq<int>)
    requires k + 1 < |p|
    ensures |r| == |p| && r[k] == p[k + 1] && r[k + 1] == p[k]
    ensures forall s :: 0 <= s < |p| && s != k && s != k + 1 ==> r[s] == p[s]
  {
    p[k := p[k + 1]][k + 1 := p[k]]
  }

  /** Exchanging two neighbours keeps a permutation a permutation. */
  lemma SwapPreservesPermutation(p: seq<int>, n: nat, k: nat)
    requires IsPermutation(p, n) && k + 1 < n
    ensures IsPermutation(Swap(p, k), n)
  {
    var q := Swap(p, k);
    forall s, t | 0 <= s < t < n ensures q[s] != q[t] {
      var s' := if s == k then k + 1 else if s == k + 1 then k else s;
      var t' := if t == k then k + 1 else if t == k + 1 then k else t;
      assert q[s] == p[s'] && q[t] == p[t'] && s' != t';
      if s' < t' { assert p[s'] != p[t']; } else { assert p[t'] != p[s']; }
    }
  }

  /** Exchanging the same neighbours twice restores the order. */
  lemma SwapTwice(p: seq<int>, k: nat)
    requires k + 1 < |p|
    ensures Swap(Swap(p, k), k) == p
  {
    var q := Swap(Swap(p, k), k);
    assert forall s :: 0 <= s < |p| ==> q[s] == p[s];
  }

  /** Taking the largest identity `n - 1` out of a permutation of `0 .. n-1`
      leaves a permutation of `0 .. n-2`. */
  lemma RemoveLargest(p: seq<int>, n: nat, j: nat)
    requires IsPermutation(p, n) && j < n && p[j] == n - 1
    ensures IsPermutation(p[..j] + p[j + 1..], n - 1)
  {
    var q := p[..j] + p[j + 1..];
    assert |q| == n - 1;
    forall s | 0 <= s < n - 1 ensures q[s] == p[if s < j then s else s + 1] {
    }
    forall s | 0 <= s < n - 1 ensures 0 <= q[s] < n - 1 {
      var s' := if s < j then s else s + 1;
      if s' < j { assert p[s'] != p[j]; } else { assert p[j] != p[s']; }
    }
    forall s, t | 0 <= s < t < n - 1 ensures q[s] != q[t] {
      var s' := if s < j then s else s + 1;
      var t' := if t < j then t else t + 1;
      assert q[s] == p[s'] && q[t] == p[t'] && s' < t';
    }
  }

  /** A permutation of `0 .. n-1` is onto: every walker identity has some slot. */
  lemma {:induction false} PermutationCovers(p: seq<int>, n: nat, w: int)
    requires IsPermutation(p, n) && 0 <= w < n
    ensures w in p
    decreases n
  {
    var last := n - 1;
    if last in p {
      var j :| 0 <= j < n && p[j] == last;
      if w != last {
        var q := p[..j] + p[j + 1..];
        RemoveLargest(p, n, j);
        PermutationCovers(q, n - 1, w);
        var i :| 0 <= i < n - 1 && q[i] == w;
        assert p[if i < j then i else i + 1] == w;
      }
    } else {
      var q := p[..last];
      forall s | 0 <= s < last ensures 0 <= q[s] < last {
        assert p[s] != last;
      }
      assert IsPermutation(q, last);
      PermutationCovers(q, last, p[last]);
      assert false;
    }
  }
}
