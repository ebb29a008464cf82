# Replica exchange: a verified model of `remd_model`

This project models the replica-exchange (parallel-tempering) core of the
repository. It covers four classes:

- **Walkers** have a fixed identity and a current temperature.
- **Replicas** is the ensemble of walkers, together with the slot temperatures
  and the slot order. Slot `s` is occupied by walker `indexes[s]`.
- **System** alternates neighbour-exchange sweeps between even pairs and odd pairs.
- **Simulation** logs the energies and the slot order at every step, and
  sometimes triggers a sweep.

The classes keep their mutable state. `Walker.temp` is a field the exchange
rewrites. `Replicas.indexes` is an array that is updated in place.
`System.lastExchangeEven` is a field. The two logs of a `Simulation` are
preallocated two-dimensional arrays. Each state-changing method is proved
against value-level definitions:

- `Swap` and `IsPermutation` on slot orders (module `Permutations`).
- The sweep schedule `SweepInOrder`. It is proved equal to the all-at-once
  `SweepOrder`, in which every slot takes the occupant of its mate (module `Sweeps`).
- `Sweep` on the pair (slot order, parity) (module `RemdSystem`).
- `Trace`, the exchange state after each step of a run (module `RemdSimulation`).

Randomness and floating point are inputs:

- The temperature ladder is a parameter `ladder: nat -> real`.
- The energy that walker `w` draws at step `i` is `samples[i][w]`.
- The Metropolis test for pair `j` of the sweep at step `i` is the boolean
  `decisions[i][j]`. Each `decisions[i]` has at least one entry per pair of
  the even-parity sweep, `NumPairs(size, 0)`. A sweep reads only the entries
  of its own in-range pairs and ignores the rest. On an even-sized ensemble
  an odd-parity sweep therefore leaves one entry unused.

Points where the code is easy to misread:

- The temperature of slot `i` is `exp(start_temp * i * scaling_exponent)`.
  Here it is the parameter `ladder(i)`.
- A walker holds only `index` and `temp` (walker.py:28-38).
- The exchange trigger is `i+1 % interval == 0`, read as Python parses it:
  `i + (1 % interval) == 0`. With `interval == 1` it fires only at step 0. With
  `interval > 1` it never fires. With interval `k < -1` it fires only at step
  `-k - 1`.
- The ensemble's temperatures `temps` never change. An exchange rewrites the
  `temp` field of the two walkers involved.

## Model

| member | source | states |
|---|---|---|
| RemdWalker.Walker.constructor | remd_model/walker.py:28-30 | the new walker has the given identity and temperature; the identity is a constant, as the read-only `index` property makes it |
| Permutations.Identity | remd_model/replicas.py:34 | the initial slot order `arange(0, size)` is a permutation with walker `s` in slot `s` |
| Permutations.Swap | remd_model/replicas.py:44-47 | the order with the occupants of slots `k` and `k + 1` reversed (`indexes[indexer] = inds[::-1]`), with every other slot unchanged |
| Permutations.SwapPreservesPermutation | remd_model/replicas.py:47 | reversing the occupants of two neighbouring slots keeps the slot order a permutation |
| Permutations.SwapTwice | remd_model/replicas.py:47 | swapping the same two neighbouring slots twice restores the slot order |
| Permutations.PermutationCovers | remd_model/replicas.py:34-41 | every walker identity `0 .. size-1` occupies some slot of a slot-order permutation |
| RemdReplicas.ExchangedTemps | remd_model/replicas.py:48-49 | the walker temperatures after an exchange, as the zip of the new occupants with `temps` assigns them: the new occupant of slot `k` gets `t[k]`, the new occupant of slot `k + 1` gets `t[k + 1]`, and every other walker keeps its temperature |
| RemdReplicas.ExchangeKeepsConsistent | remd_model/replicas.py:43-49 | after an exchange every walker again runs at the temperature of the slot it occupies |
| RemdReplicas.ExchangeTwiceRestores | remd_model/replicas.py:43-49 | exchanging the same pair twice restores both the slot order and every walker's temperature |
| RemdReplicas.ConsistentDeterminesTemps | remd_model/replicas.py:45-49 | the slot order and the slot temperatures fix every walker's temperature |
| RemdReplicas.Replicas.ValidIsConsistent | remd_model/replicas.py:27-34 | a valid ensemble is a permutation whose walker temperatures are consistent with the slot temperatures |
| RemdReplicas.Replicas.constructor | remd_model/replicas.py:25-34 | builds `size` walkers, walker `i` with identity `i` at slot `i`'s temperature `ladder(i)`, the slot temperatures `ladder(0 .. size-1)` and the identity slot order |
| RemdReplicas.Replicas.Slots | remd_model/replicas.py:36-41 | the walkers in slot order: entry `s` is the walker `indexes[s]`, at slot `s`'s temperature, with no walker twice |
| RemdReplicas.Replicas.Exchange | remd_model/replicas.py:43-49 | the slot order becomes `Swap(old order, lowerInd)`; the walker moving down gets `temps[lowerInd]` and the one moving up gets `temps[lowerInd + 1]`; no other walker's temperature changes; the ensemble stays valid |
| Sweeps.NumPairs | remd_model/system.py:49-52 | the number of pairs of a sweep at parity `offset` whose two slots `2i + offset`, `2i + offset + 1` lie inside `size` slots: the largest `r` with `2r + offset <= size`, and 0 when `offset >= size` |
| Sweeps.PairInRange | remd_model/system.py:49-52 | pair `i` (slots `2i + offset`, `2i + offset + 1`) lies inside the ensemble exactly when `i < NumPairs(size, offset)` |
| Sweeps.NumPairsOddAtMostEven | remd_model/system.py:45-50 | an odd-parity sweep never has more in-range pairs than an even one |
| Sweeps.EveryPairScheduled | remd_model/system.py:45-50 | every neighbouring pair `(j, j + 1)` is pair `j / 2` of the sweep of parity `j % 2` |
| Sweeps.MateInvolution | remd_model/system.py:50 | the pairs of one sweep are disjoint: the mate of a slot's mate is the slot itself |
| Sweeps.SweepInOrder | remd_model/system.py:49-55 | the slot order after pairs `0 .. m-1` are decided one at a time in increasing order, each accepted pair swapped as it is decided; the length of the order is kept |
| Sweeps.InOrderIsAllAtOnce | remd_model/system.py:49-55 | exchanging the accepted pairs one at a time in increasing order gives the same slot order as exchanging them all at once |
| Sweeps.SweepPreservesPermutation | remd_model/system.py:49-55 | a sweep keeps the slot order a permutation |
| Sweeps.SweepIsPairwiseExchange | remd_model/system.py:49-55 | after a sweep each slot keeps its walker or trades it with one neighbour, which receives this slot's walker |
| Sweeps.SweepMovesOnlyAcceptedPairs | remd_model/system.py:49-55 | a slot changes occupant only when it belongs to an accepted pair of the sweep's parity |
| Sweeps.LiteralBound | remd_model/system.py:46 | the loop bound `size + offset % 2`: `size`, plus one exactly when the parity is odd |
| Sweeps.LiteralBoundOverruns | remd_model/system.py:46-51 | with the loop bound `size + offset % 2`, the iterations below `NumPairs` are in range, and iteration `NumPairs` is out of range yet still inside the loop unless `size + offset == 0` |
| RemdSystem.Offset | remd_model/system.py:45 | the parity of the next sweep is 1 exactly when the last sweep was even |
| RemdSystem.Sweep | remd_model/system.py:42-56 | a sweep keeps the length of the slot order and flips the parity bit |
| RemdSystem.SweepKeepsPermutation | remd_model/system.py:42-56 | a sweep with decisions for every even pair keeps the slot order a permutation, whatever the parity |
| RemdSystem.SweepChangesOnlyPairs | remd_model/system.py:42-56 | before and after a sweep the orders differ only by exchanges of disjoint neighbouring pairs of the sweep's parity, each of them accepted |
| RemdSystem.SlotEnergies | remd_model/system.py:38-40 | entry `s` of the energies is the sample of the walker occupying slot `s` |
| RemdSystem.System.constructor | remd_model/system.py:24-32 | a valid system of `size` fresh walkers in the identity order, with no sweep done and the first sweep at even parity |
| RemdSystem.System.State | remd_model/system.py:34-36 | the state is the slot order, a permutation: entry `s` is the identity of the walker in slot `s` |
| RemdSystem.System.Energies | remd_model/system.py:38-40 | one energy per slot, in slot order, each that of the walker occupying the slot |
| RemdSystem.System.NextOffset | remd_model/system.py:45 | the parity of the next sweep is the number of completed sweeps modulo 2, so sweeps alternate even, odd, even, ... |
| RemdSystem.System.ExchangePairs | remd_model/system.py:49-55 | deciding pairs `0 .. m-1` in increasing order yields the slot order `SweepInOrder`, and the ensemble stays valid |
| RemdSystem.System.AttemptPair | remd_model/system.py:50-55 | one iteration: an accepted pair is swapped and a rejected one leaves the order unchanged |
| RemdSystem.System.Exchange | remd_model/system.py:42-56 | the new slot order and parity are `Sweep(old state, accept)`, and the completed-sweep count grows by one |
| RemdSystem.System.ExchangeAsWritten | remd_model/system.py:42-56 | with the literal loop bound the in-range pairs are exchanged as by `Sweep`, but the sweep completes (and the parity flips) only for an empty ensemble at even parity; the completed-sweep count grows by one exactly when it completes |
| RemdSimulation.PyMod | remd_model/simulation.py:37 | Python's `%`: the remainder has the sign of the divisor and `a == (a // b) * b + a % b` |
| RemdSimulation.Fires | remd_model/simulation.py:37 | the trigger `i+1 % interval == 0` as Python parses it, `i + (1 % interval) == 0`: it can fire only at a step `i <= 0` unless `interval < -1`, and with interval 1 it fires exactly at step 0 |
| RemdSimulation.FiresPositive | remd_model/simulation.py:37 | for a positive interval the trigger fires exactly at step 0 with interval 1 |
| RemdSimulation.FiresExactly | remd_model/simulation.py:37 | the trigger fires exactly at step 0 for interval 1 or -1, at step `-k - 1` for interval `k < -1`, and never otherwise |
| RemdSimulation.FiresAtMostOnce | remd_model/simulation.py:37 | the trigger fires at most once over a run |
| RemdSimulation.Advance | remd_model/simulation.py:37-38 | the exchange state after step `i`: one sweep when the trigger fires, the state unchanged otherwise; the parity bit flips exactly when the trigger fires |
| RemdSimulation.Trace | remd_model/simulation.py:34-38 | the exchange state after steps `0 .. t-1` of a run, each step advancing the state by its trigger and decisions; the order keeps its length |
| RemdSimulation.TraceOrdersAt | remd_model/simulation.py:34-36 | the order logged at step `t` is the order of the run's state `t` |
| RemdSimulation.TraceKeepsPermutation | remd_model/simulation.py:34-38 | every state of a run has a permutation as its slot order |
| RemdSimulation.TraceIdle | remd_model/simulation.py:37-38 | with interval above 1 every state of the run is the starting one |
| RemdSimulation.TraceStepIsPairwiseExchange | remd_model/simulation.py:37-38 | consecutive states of a run differ only by exchanges of disjoint neighbouring pairs |
| RemdSimulation.LoggedStep | remd_model/simulation.py:35-36 | logging one step extends the logged orders by that step's order and energies |
| RemdSimulation.LoggedRun | remd_model/simulation.py:34-36 | logs holding the orders of the first `n` states hold, in row `t`, state `t`'s order and the energies it selects |
| RemdSimulation.WriteRow | remd_model/simulation.py:35-36 | assigning a row replaces exactly that row of the log |
| RemdSimulation.RowFits | remd_model/simulation.py:30-36 | step `i`'s rows fit the `(size, n_steps)` logs: row `i` exists (`i < size`), and a vector of `size` entries fills a row of `n_steps` entries, either directly or, when `size == 1`, by broadcasting its one entry |
| RemdSimulation.LogsFitEveryStep | remd_model/simulation.py:30-36 | every step's rows fit the `(size, n_steps)` logs exactly when `n_steps == 0` or `size == n_steps` |
| RemdSimulation.Simulation.constructor | remd_model/simulation.py:25-31 | a fresh system in the identity order and two zero-filled logs of shape `(size, nSteps)` |
| RemdSimulation.Simulation.Step | remd_model/simulation.py:35-38 | row `i` of the logs records the order and energies from before the step's exchange, and the system then advances by `Advance`, sweeping exactly when the trigger fires |
| RemdSimulation.Simulation.TracedStep | remd_model/simulation.py:34-38 | one iteration of the run: from state `Trace(start, i)` with steps `0 .. i-1` logged, to state `Trace(start, i + 1)` with steps `0 .. i` logged |
| RemdSimulation.Simulation.RunSteps | remd_model/simulation.py:34-38 | after the loop the system is in state `Trace(start, nSteps)`, and the logs hold the orders of states `0 .. nSteps-1` with their energies |
| RemdSimulation.Simulation.Run | remd_model/simulation.py:33-38 | one snapshot per step: row `i` of `states` is the order of run state `i` (taken before that step's exchange) and a permutation, row `i` of `energies` holds that order's energies, and the final state is `Trace(start, nSteps)` |

## Left out

- `Walker.energy` is not modelled. It is a normal draw with mean `temp` and spread `exp(temp)` (walker.py:32-34). Each step's draws are the input `samples[i]`, indexed by walker identity.
- The temperature formula `exp(start_temp * i * scaling_exponent)` (replicas.py:31) is floating point. It is the parameter `ladder`, so the defaults `start_temp` and `scaling_exponent` do not appear.
- The Metropolis acceptance of a sweep (system.py:47-54) is not modelled: the exponent, `min(1, exp(...))`, the `probs` and `rands` arrays and the comparison. It becomes the booleans `accept[i]`. They are computed from the energies and temperatures taken before the sweep, so later exchanges in the sweep cannot affect them.
- `width_param` is left out of `RemdSystem.System.constructor`. system.py:28-31 passes `width_param` to `Replicas`, whose constructor (replicas.py:25-26) has no such parameter. As written, constructing a `System` therefore raises a `TypeError`, and no `Simulation` can be built. The model builds the system without it.
- `RemdSystem.System.State`: the source returns the live `indexes` array, an alias later exchanges keep changing. The model returns its contents as a value. It is copied into the log at once (simulation.py:36), so the log is the same either way.
- `RemdSimulation.Simulation.Run` requires `interval != 0` when there is at least one step, because Python raises `ZeroDivisionError` on `1 % 0`. The exception path is not modelled.
- `RemdSimulation.Simulation.Run` requires that the logs fit (`nSteps == 0 || size == nSteps`). Row `i` of the `(size, n_steps)` arrays is written at step `i`, and the error paths are not modelled. When `n_steps > 0`, `size >= 2` and `size != n_steps`, the first write at step 0 already fails: numpy cannot broadcast a vector of `size` entries into a row of `n_steps`. When `size == 0` and `n_steps > 0`, step 0 fails with an index error because row 0 does not exist. When `size == 1` and `n_steps > 1`, step 0 fits by broadcasting, and step 1 fails with an index error because row 1 does not exist. `RemdSimulation.LogsFitEveryStep` shows that the requirement is exactly the condition under which every step's write fits.
- `RemdSimulation.Simulation.Step` and `RemdSimulation.Simulation.Run` sweep with the corrected bound (`RemdSystem.System.Exchange`). As written, every triggered sweep on a non-empty ensemble ends in an index error (see Findings).
- `RemdSystem.System.ExchangeAsWritten` models the literal loop's index error as an early return with `completed == false`. The pairs already decided stay exchanged and the parity bit is not flipped. The exception propagating to the caller is not modelled.
- Negative `size`, `n_steps` and row or slot indexes (numpy's wrap-around indexing) are excluded: sizes are `nat`, and `RemdReplicas.Replicas.Exchange` requires `0 <= lowerInd` and `lowerInd + 1 < size`.
- `Replicas.__iter__` is `RemdReplicas.Replicas.Slots` as a sequence. The lazy iterator protocol is not modelled.
- The object array `walkers` becomes a `seq<Walker>` (written once). The integer array `indexes` becomes an `array<int>` (written in place). The float array `temps` is written once and is a `seq<real>`.
- The completed-sweep count `sweeps` of `RemdSystem.System` is ghost bookkeeping used to state the alternation. The source keeps only the parity bit.

## Findings

| source | as written | input that shows it | evidently intended | confidence | as-written member | corrected member |
|---|---|---|---|---|---|---|
| remd_model/system.py:46 | the sweep loop runs `n = size + offset % 2` iterations, and iteration `i` reads `energies[2i + offset]` and `energies[2i + offset + 1]` | `size = 4`, first sweep (`offset = 0`): iteration `i = 2` reads `energies[4]` and raises an index error, and the parity bit is never flipped | loop over the `(size - offset) // 2` pairs that lie inside the ensemble, then flip the parity | not executed | RemdSystem.System.ExchangeAsWritten | RemdSystem.System.Exchange |
