/** The simulation driver: a system, two preallocated logs of shape
    `(size, nSteps)`, and the run that records one snapshot per step and
    conditionally performs an exchange sweep. */
module RemdSimulation {
  import opened Permutations
  import opened Sweeps
  import opened RemdSystem

  /** Python's `a // b`: division rounded towards negative infinity. */
  function PyDiv(a: int, b: int): int
    requires b != 0
  {
    if b > 0 || a % b == 0 then a / b else a / b - 1
  }

  /** Python's `a % b`: the remainder of floor division, which takes the sign
      of the divisor. */
  function PyMod(a: int, b: int): (r: int)
    requires b != 0
    ensures b > 0 ==> 0 <= r < b
    ensures b < 0 ==> b < r <= 0
    ensures a == PyDiv(a, b) * b + r
  {
    var e := a % b;
    if b > 0 || e == 0 then e else e + b
  }

  /** The exchange trigger of step `i` as the source writes it, `i+1 % interval
      == 0`: the `%` binds tighter than `+`, so this is `i + (1 % interval) == 0`. */
  function Fires(i: int, interval: int): (r: bool)
    requires interval != 0
    ensures r ==> i <= 0 || interval < -1
    ensures interval == 1 ==> (r <==> i == 0)
  {
    i + PyMod(1, interval) == 0
  }

  /** For a positive interval the trigger fires at step 0 and only there, and
      only when the interval is 1: with interval > 1 no exchange ever happens. */
  lemma FiresPositive(i: nat, interval: int)
    requires interval > 0
    ensures Fires(i, interval) <==> i == 0 && interval == 1
  {
    if interval == 1 {
      assert PyMod(1, interval) == 0;
    } else {
      assert PyMod(1, interval) == 1;
    }
  }

  /** The whole trigger: with interval 1 or -1 it fires at step 0; with
      interval `k < -1` it fires at step `-k - 1` (as `1 % k == k + 1`); with
      interval > 1 never. */
  lemma FiresExactly(i: nat, interval: int)
    requires interval != 0
    ensures Fires(i, interval)
            <==> ((interval == 1 || interval == -1) && i == 0)
                 || (interval < -1 && i == -interval - 1)
  {
    if interval < -1 {
      var q := PyDiv(1, interval);
      MultipleInWindow(q, interval);
    }
  }

  /** The only multiple `q * k` of `k < -1` in `1 .. -k` is `-k` itself. */
  lemma MultipleInWindow(q: int, k: int)
    requires k < -1 && 1 <= q * k <= -k
    ensures q == -1
  {
  }

  /** The trigger fires at most once over a whole run. */
  lemma FiresAtMostOnce(i: int, j: int, interval: int)
    requires interval != 0 && Fires(i, interval) && Fires(j, interval)
    ensures i == j
  {
  }

  /** The exchange state after step `i` of a run: a sweep with decisions
      `accept` when the trigger fires, the state unchanged otherwise. */
  function Advance(st: ExchangeState, i: nat, interval: int, accept: seq<bool>): (r: ExchangeState)
    requires interval != 0 && |accept| >= NumPairs(|st.order|, 0)
    ensures |r.order| == |st.order|
    ensures r.lastEven == (st.lastEven != Fires(i, interval))
  {
    if Fires(i, interval) then
      NumPairsOddAtMostEven(|st.order|);
      Sweep(st, accept)
    else st
  }

  /** The exchange state after steps `0 .. t-1` of a run starting in `start`:
      step `i` sweeps with decisions `decisions[i]` when the trigger fires. */
  function Trace(start: ExchangeState, interval: int, decisions: seq<seq<bool>>, t: nat): (r: ExchangeState)
    requires t <= |decisions| && (t == 0 || interval != 0)
    requires forall i :: 0 <= i < t ==> |decisions[i]| >= NumPairs(|start.order|, 0)
    ensures |r.order| == |start.order|
  {
    if t == 0 then start
    else Advance(Trace(start, interval, decisions, t - 1), t - 1, interval, decisions[t - 1])
  }

  /** The slot orders of steps `0 .. n-1`, in step order. */
  function TraceOrders(start: ExchangeState, interval: int, decisions: seq<seq<bool>>, n: nat): (r: seq<seq<int>>)
    requires n <= |decisions| && (n <= 1 || interval != 0)
    requires forall i :: 0 <= i < n ==> |decisions[i]| >= NumPairs(|start.order|, 0)
    ensures |r| == n
  {
    if n == 0 then [] else TraceOrders(start, interval, decisions, n - 1) + [Trace(start, interval, decisions, n - 1).order]
  }

  /** Entry `t` of the logged orders is the order of state `t` of the run. */
  lemma {:induction false} TraceOrdersAt(start: ExchangeState, interval: int, decisions: seq<seq<bool>>, n: nat, t: nat)
    requires n <= |decisions| && (n <= 1 || interval != 0)
    requires forall i :: 0 <= i < n ==> |decisions[i]| >= NumPairs(|start.order|, 0)
    requires t < n
    ensures TraceOrders(start, interval, decisions, n)[t] == Trace(start, interval, decisions, t).order
  {
    if t < n - 1 {
      TraceOrdersAt(start, interval, decisions, n - 1, t);
    }
  }

  /** The first `|orders|` rows of the logs hold `orders` and the energies
      selected by them, and every logged order is a permutation. */
  ghost predicate Logged(stateRows: seq<seq<int>>, energyRows: seq<seq<real>>, orders: seq<seq<int>>, samples: seq<seq<real>>)
  {
    && |orders| <= |stateRows| && |orders| <= |energyRows| && |orders| <= |samples|
    && forall t :: 0 <= t < |orders| ==>
         && IsPermutation(orders[t], |samples[t]|) && stateRows[t] == orders[t]
         && energyRows[t] == SlotEnergies(orders[t], samples[t])
  }

  /** Logging one more step extends what is logged by that step's rows. */
  lemma LoggedStep(stateRows: seq<seq<int>>, energyRows: seq<seq<real>>, orders: seq<seq<int>>, samples: seq<seq<real>>, order: seq<int>)
    requires Logged(stateRows, energyRows, orders, samples)
    requires |orders| < |stateRows| && |orders| < |energyRows| && |orders| < |samples|
    requires IsPermutation(order, |samples[|orders|]|)
    ensures Logged(stateRows[|orders| := order],
                   energyRows[|orders| := SlotEnergies(order, samples[|orders|])],
                   orders + [order], samples)
  {
  }

  /** Logs holding the orders of a run's first `n` states hold, in row `t`,
      the order of state `t` and the energies it selects. */
  lemma LoggedRun(start: ExchangeState, interval: int, decisions: seq<seq<bool>>, samples: seq<seq<real>>,
                  stateRows: seq<seq<int>>, energyRows: seq<seq<real>>, n: nat)
    requires n <= |decisions| && (n <= 1 || interval != 0)
    requires forall i :: 0 <= i < n ==> |decisions[i]| >= NumPairs(|start.order|, 0)
    requires Logged(stateRows, energyRows, TraceOrders(start, interval, decisions, n), samples)
    ensures forall t :: 0 <= t < n ==>
      && stateRows[t] == Trace(start, interval, decisions, t).order
      && IsPermutation(stateRows[t], |samples[t]|)
      && energyRows[t] == SlotEnergies(stateRows[t], samples[t])
  {
    forall t | 0 <= t < n
      ensures stateRows[t] == Trace(start, interval, decisions, t).order
    {
      TraceOrdersAt(start, interval, decisions, n, t);
    }
  }

  /** Every state of a run keeps the slot order a permutation. */
  lemma {:induction false} TraceKeepsPermutation(start: ExchangeState, interval: int, decisions: seq<seq<bool>>, t: nat)
    requires t <= |decisions| && (t == 0 || interval != 0)
    requires forall i :: 0 <= i < t ==> |decisions[i]| >= NumPairs(|start.order|, 0)
    requires IsPermutation(start.order, |start.order|)
    ensures IsPermutation(Trace(start, interval, decisions, t).order, |start.order|)
  {
    if t > 0 {
      TraceKeepsPermutation(start, interval, decisions, t - 1);
      if Fires(t - 1, interval) {
        SweepKeepsPermutation(Trace(start, interval, decisions, t - 1), |start.order|, decisions[t - 1]);
      }
    }
  }

  /** With an interval above 1 nothing is ever exchanged: every state of the
      run is the starting one. */
  lemma {:induction false} TraceIdle(start: ExchangeState, interval: int, decisions: seq<seq<bool>>, t: nat)
    requires interval > 1 && t <= |decisions|
    requires forall i :: 0 <= i < t ==> |decisions[i]| >= NumPairs(|start.order|, 0)
    ensures Trace(start, interval, decisions, t) == start
  {
    if t > 0 {
      FiresPositive(t - 1, interval);
      TraceIdle(start, interval, decisions, t - 1);
    }
  }

  /** Consecutive recorded states differ only by exchanges of disjoint
      neighbouring pairs: each slot keeps its walker or trades it with one
      neighbour, which receives this slot's walker in return. */
  lemma TraceStepIsPairwiseExchange(start: ExchangeState, interval: int, decisions: seq<seq<bool>>, t: nat, s: nat)
    requires t < |decisions| && interval != 0
    requires forall i :: 0 <= i <= t ==> |decisions[i]| >= NumPairs(|start.order|, 0)
    requires s < |start.order|
    ensures var p, q := Trace(start, interval, decisions, t).order, Trace(start, interval, decisions, t + 1).order;
      || q[s] == p[s]
      || (s + 1 < |p| && q[s] == p[s + 1] && q[s + 1] == p[s])
      || (0 < s && q[s] == p[s - 1] && q[s - 1] == p[s])
  {
    if Fires(t, interval) {
      var prev := Trace(start, interval, decisions, t);
      NumPairsOddAtMostEven(|start.order|);
      SweepChangesOnlyPairs(prev, decisions[t], s);
    }
  }

  /** The contents of row `i` of a two-dimensional array. */
  function Row<T>(a: array2<T>, i: nat): (r: seq<T>)
    requires i < a.Length0
    reads a
    ensures |r| == a.Length1
    ensures forall j :: 0 <= j < a.Length1 ==> r[j] == a[i, j]
  {
    seq(a.Length1, j requires 0 <= j < a.Length1 reads a => a[i, j])
  }

  /** All rows of a two-dimensional array, in row order. */
  function Rows<T>(a: array2<T>): (r: seq<seq<T>>)
    reads a
    ensures |r| == a.Length0
    ensures forall i :: 0 <= i < a.Length0 ==> r[i] == Row(a, i)
  {
    seq(a.Length0, i requires 0 <= i < a.Length0 reads a => Row(a, i))
  }

  /** Assigns `row` to row `i` of `a` element by element, leaving every other
      row as it was. */
  method WriteRow<T>(a: array2<T>, i: nat, row: seq<T>)
    requires i < a.Length0 && |row| == a.Length1
    modifies a
    ensures Rows(a) == old(Rows(a))[i := row]
  {
    for j := 0 to |row|
      invariant forall k :: 0 <= k < j ==> a[i, k] == row[k]
      invariant forall t, k :: 0 <= t < a.Length0 && 0 <= k < a.Length1 && t != i ==> a[t, k] == old(a[t, k])
    {
      a[i, j] := row[j];
    }
    forall t | 0 <= t < a.Length0
      ensures Rows(a)[t] == old(Rows(a))[i := row][t]
    {
      if t == i {
        assert forall k :: 0 <= k < a.Length1 ==> Row(a, t)[k] == row[k];
      } else {
        assert forall k :: 0 <= k < a.Length1 ==> Row(a, t)[k] == old(Row(a, t))[k];
      }
    }
  }

  /** Step `i`'s log rows fit the preallocated `(size, nSteps)` logs when the
      row index is below `size` and a row of `size` entries fills a row of
      `nSteps` entries, directly or (for one entry) by broadcasting. */
  predicate RowFits(size: nat, nSteps: nat, i: nat) {
    i < size && (size == nSteps || size == 1)
  }

  /** Whether every step of a run can write its rows. */
  predicate LogsFit(size: nat, nSteps: nat) {
    nSteps == 0 || size == nSteps
  }

  /** The logs fit for the whole run exactly when every step's rows fit. */
  lemma LogsFitEveryStep(size: nat, nSteps: nat)
    ensures LogsFit(size, nSteps) <==> forall i :: 0 <= i < nSteps ==> RowFits(size, nSteps, i)
  {
    if !LogsFit(size, nSteps) {
      if size == 1 {
        assert !RowFits(size, nSteps, 1);
      } else {
        assert !RowFits(size, nSteps, 0);
      }
    }
  }

  class Simulation {
    const size: nat
    const nSteps: nat
    const interval: int
    const system: System
    /** `energies[i, s]`: the energy of the walker in slot `s` at step `i`. */
    const energies: array2<real>
    /** `states[i, s]`: the walker in slot `s` at step `i`. */
    const states: array2<int>

    ghost predicate Valid()
      reads system, system.replicas, system.replicas.walkers, system.replicas.indexes
    {
      && system.Valid() && system.size == size
      && energies.Length0 == size && energies.Length1 == nSteps
      && states.Length0 == size && states.Length1 == nSteps
    }

    /** A fresh system of `size` walkers and two zero-filled logs of shape
        `(size, nSteps)`. */
    constructor (size: nat, nSteps: nat, interval: int, ladder: nat -> real)
      ensures Valid() && this.size == size && this.nSteps == nSteps && this.interval == interval
      ensures system.View() == ExchangeState(Identity(size), false)
      ensures fresh(system) && fresh(system.replicas) && fresh(system.replicas.indexes)
      ensures forall w :: 0 <= w < size ==> fresh(system.replicas.walkers[w])
      ensures fresh(energies) && fresh(states)
      ensures forall i, s :: 0 <= i < size && 0 <= s < nSteps ==> energies[i, s] == 0.0 && states[i, s] == 0
    {
      this.size := size;
      this.nSteps := nSteps;
      this.interval := interval;
      system := new System(size, ladder);
      energies := new real[size, nSteps]((i, s) => 0.0);
      states := new int[size, nSteps]((i, s) => 0);
    }

    /** Runs `nSteps` steps. Step `i` logs the slot-ordered energies of
        `samples[i]` (walker `w`'s draw is `samples[i][w]`) and the slot order,
        both taken before the step's exchange, and then sweeps with decisions
        `decisions[i]` if the trigger fires. */
    method Run(samples: seq<seq<real>>, decisions: seq<seq<bool>>)
      requires Valid() && LogsFit(size, nSteps) && (nSteps == 0 || interval != 0)
      requires |samples| >= nSteps && forall i :: 0 <= i < nSteps ==> |samples[i]| == size
      requires |decisions| >= nSteps && forall i :: 0 <= i < nSteps ==> |decisions[i]| >= NumPairs(size, 0)
      modifies energies, states, system, system.replicas.indexes, system.replicas.walkers
      ensures Valid()
      ensures system.View() == Trace(old(system.View()), interval, decisions, nSteps)
      ensures forall i :: 0 <= i < nSteps ==>
        Row(states, i) == Trace(old(system.View()), interval, decisions, i).order
      ensures forall i :: 0 <= i < nSteps ==>
        && IsPermutation(Row(states, i), size)
        && Row(energies, i) == SlotEnergies(Row(states, i), samples[i])
    {
      ghost var start := system.View();
      RunSteps(samples, decisions);
      LoggedRun(start, interval, decisions, samples, Rows(states), Rows(energies), nSteps);
    }

    /** The loop of `Run`: after it, the logs hold the orders of the run's
        states `0 .. nSteps-1` and the energies those orders select. */
    method RunSteps(samples: seq<seq<real>>, decisions: seq<seq<bool>>)
      requires Valid() && LogsFit(size, nSteps) && (nSteps == 0 || interval != 0)
      requires |samples| >= nSteps && forall i :: 0 <= i < nSteps ==> |samples[i]| == size
      requires |decisions| >= nSteps && forall i :: 0 <= i < nSteps ==> |decisions[i]| >= NumPairs(size, 0)
      modifies energies, states, system, system.replicas.indexes, system.replicas.walkers
      ensures Valid()
      ensures system.View() == Trace(old(system.View()), interval, decisions, nSteps)
      ensures Logged(Rows(states), Rows(energies), TraceOrders(old(system.View()), interval, decisions, nSteps), samples)
    {
      ghost var start := system.View();
      for i := 0 to nSteps
        invariant Valid()
        invariant system.View() == Trace(start, interval, decisions, i)
        invariant Logged(Rows(states), Rows(energies), TraceOrders(start, interval, decisions, i), samples)
      {
        TracedStep(start, i, samples, decisions);
      }
    }

    /** Step `i` of a run from `start`: from state `Trace(start, i)` with
        steps `0 .. i-1` logged, to state `Trace(start, i + 1)` with steps
        `0 .. i` logged. */
    method TracedStep(ghost start: ExchangeState, i: nat, samples: seq<seq<real>>, decisions: seq<seq<bool>>)
      requires Valid() && i < nSteps && LogsFit(size, nSteps) && interval != 0
      requires |samples| >= nSteps && forall t :: 0 <= t < nSteps ==> |samples[t]| == size
      requires |decisions| >= nSteps && forall t :: 0 <= t < nSteps ==> |decisions[t]| >= NumPairs(size, 0)
      requires |start.order| == size && system.View() == Trace(start, interval, decisions, i)
      requires Logged(Rows(states), Rows(energies), TraceOrders(start, interval, decisions, i), samples)
      modifies energies, states, system, system.replicas.indexes, system.replicas.walkers
      ensures Valid()
      ensures system.View() == Trace(start, interval, decisions, i + 1)
      ensures Logged(Rows(states), Rows(energies), TraceOrders(start, interval, decisions, i + 1), samples)
    {
      ghost var before := (Rows(states), Rows(energies), system.View().order);
      Step(i, samples[i], decisions[i]);
      LoggedStep(before.0, before.1, TraceOrders(start, interval, decisions, i), samples, before.2);
    }

    /** Step `i` of the run: row `i` of `energies` gets the slot-ordered
        energies of `sample`, row `i` of `states` the slot order, and then the
        system sweeps with decisions `accept` if the trigger fires. */
    method Step(i: nat, sample: seq<real>, accept: seq<bool>)
      requires Valid() && i < size && size == nSteps && interval != 0
      requires |sample| == size && |accept| >= NumPairs(size, 0)
      modifies energies, states, system, system.replicas.indexes, system.replicas.walkers
      ensures Valid() && IsPermutation(old(system.View()).order, size)
      ensures NumPairs(size, Offset(old(system.View()).lastEven)) <= |accept|
      ensures system.View() == Advance(old(system.View()), i, interval, accept)
      ensures Rows(states) == old(Rows(states))[i := old(system.View()).order]
      ensures Rows(energies) == old(Rows(energies))[i := SlotEnergies(old(system.View()).order, sample)]
    {
      NumPairsOddAtMostEven(size);
      WriteRow(energies, i, system.Energies(sample));
      WriteRow(states, i, system.State());
      if Fires(i, interval) {
        system.Exchange(accept);
      }
    }
  }
}
