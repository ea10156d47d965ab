# Airplane landing scheduling, modelled in Dafny

This project models the scheduling core of a single-runway aircraft landing
scheduler and proves properties about it. Each aircraft has five
per-aircraft columns, indexed by aircraft id:

- an earliest time;
- a target time;
- a latest time;
- an earliness rate `alpha`;
- a lateness rate `beta`.

A schedule is a landing order (a permutation of the ids) together with a
vector of landing times. The core consists of:

- **The cost model** (`LandingScheduler`). `compute_penalty` is the sum over
  aircraft of `alpha * max(earliest - t, 0) + beta * max(t - target, 0)`.
  The columns are aligned element by element. `latest` is accepted but never
  read.
- **The feasibility check** (`LandingScheduler`). `check_separation` walks the
  consecutive pairs of the order and reads the times *by aircraft id*
  (`times[order[i]]`). It rejects a pair that lands less than the separation
  (4.0) apart.
- **The greedy baseline** (`Baseline`):
  - it sorts the ids by target time, stably;
  - it pushes each landing to the latest of its earliest time, its target
    time, and the previous landing plus `SEP`;
  - it scatters the position-indexed times back to ids and scores them.
- **Three metaheuristics** over landing orders:
  - simulated annealing (`Annealing`, a class whose best order and penalty
    are fields updated in place);
  - a genetic algorithm (`Genetic`);
  - variable neighbourhood search (`NeighborhoodSearch`).

  `Search` holds what they share:
  - the draw of two distinct positions (`random.sample(range(n), 2)`);
  - the `float('inf')` score;
  - the decoding of an order into times.

The metaheuristics are modelled as written. There is no repair step. A
candidate order is decoded *by position*: position k gets the target time of
the aircraft at position k. That position-indexed vector is then:

- checked by the separation test, which reads it by aircraft id;
- scored by the penalty, which aligns it with the id-indexed columns.

So `Search.Feasible` and `Search.OrderPenalty` are exactly these compositions,
and the lemmas are about them.

What each metaheuristic does with its candidates:

- **Simulated annealing and neighbourhood search** skip a candidate that
  fails the check.
- **The genetic algorithm** scores such a candidate as infinity.
  - It scores each generation *before* breeding, so the population bred by
    the last generation is never scored.
  - Its best individual stays unset (`None`, score infinity) exactly when no
    individual seen passed the check.
- **Simulated annealing and neighbourhood search** start from `list(range(n))`
  and take its penalty without checking separation. The result they return
  is therefore either that identity order or an order that passed the check.
  Both facts are proved.

Randomness is supplied as parameters:

- a `Search.Draw` for every `random.sample(range(n), 2)`;
- a boolean for every `random.random() < rate` test and for the Metropolis
  test `random.random() < exp(-delta / T)`;
- the initial population of the genetic algorithm.

Each run method is proved equal to a pure function of the draws. The
properties are proved about that function.

## Model

| member | source | states |
|---|---|---|
| LandingScheduler.CheckSeparation | src/landing_scheduler.py:22-35 | returns true exactly when every consecutive pair of the order, with times read by id, lands at least `separation` apart; always true for an order of at most one aircraft |
| LandingScheduler.PenaltyNonNegative | src/landing_scheduler.py:18-20 | with non-negative rates the penalty is never negative |
| LandingScheduler.PenaltyZeroRates | src/landing_scheduler.py:18-20 | with all rates zero the penalty is zero whatever the times |
| LandingScheduler.PenaltyIgnoresLatest | src/landing_scheduler.py:6-20 | the penalty is the same for any `latest` column: it is accepted and never read |
| LandingScheduler.PenaltyPermutationInvariant | src/landing_scheduler.py:18-20 | permuting all the aligned columns by one permutation leaves the penalty unchanged |
| LandingScheduler.SumPermuted | src/landing_scheduler.py:20 | the sum of a vector does not depend on the order of its entries |
| LandingScheduler.PenaltyOnTarget | src/landing_scheduler.py:18-20 | landing every aircraft at its target, with earliest <= target, costs nothing |
| LandingScheduler.ComputePenalty | src/landing_scheduler.py:6-20 | definition of `compute_penalty`: the sum of `alpha * max(earliest - t, 0) + beta * max(t - target, 0)` over the aligned columns, never reading `latest`; its properties are the rows above |
| LandingScheduler.Penalty | src/landing_scheduler.py:6-20 | `compute_penalty(times, **data)` for one instance's columns |
| Baseline.TargetOrder | main.py:30 | the result is a permutation of the ids, sorted by target time with ties in ascending id (a stable sort) |
| Baseline.SortedOrderUnique | main.py:30 | two such sorted orders of the same ids are equal, so the sorted order is unique |
| Baseline.LandingTimes | main.py:32-38 | definition of `pos_times`: every result has one time per position of the order; the recurrence is stated by LandingTimesAt |
| Baseline.LandingTimesAt | main.py:32-38 | position 0 lands at max(earliest, target); each later position lands at the max of its earliest time, its target time, and the previous landing plus sep |
| Baseline.LandingTimesRespectBounds | main.py:32-38 | no aircraft lands before its earliest time or its target; consecutive landings are at least sep apart |
| Baseline.LandingTimesTight | main.py:34-38 | each landing time equals its earliest time, its target, or the previous landing plus sep |
| Baseline.LandingTimesIncreasing | main.py:32-38 | with a positive separation the landing times strictly increase along the order |
| Baseline.PushLater | main.py:31-38 | the array loop yields exactly the position-indexed landing times |
| Baseline.ScatterById | main.py:39-41 | the aircraft at each position gets that position's time in the id-indexed vector |
| Baseline.ScatteredSeparated | main.py:32-41 | after the scatter the baseline schedule passes the separation check with SEP |
| Baseline.ScatteredNotEarly | main.py:32-41 | after the scatter no aircraft lands before its earliest time or its target |
| Baseline.LatenessOnly | main.py:43 | when no aircraft lands early the penalty is the sum of `beta * (t - target)` |
| Baseline.RunBaseline | main.py:28-43 | returns the stable target order and its landing times by position and by id; the schedule passes the separation check; the penalty is that of the id-indexed times and is pure lateness |
| Search.DecodeTimes | src/metaheuristics.py:26-27 | definition of `_decode_times`: entry k is the target time of the aircraft at position k; what this does to the id-indexed readers is stated by the next two rows |
| Search.Feasible | src/metaheuristics.py:38-39 | what `check_separation(candidate, _decode_times(candidate))` answers with the default separation 4.0, as the three searches call it; FeasibleReadsTwice states what it reads |
| Search.OrderPenalty | src/metaheuristics.py:41 | `compute_penalty(_decode_times(order), **data)`, the penalty the three searches give an order; OrderPenaltyMixesIds states what it charges |
| Search.FeasibleReadsTwice | src/metaheuristics.py:38-39 | a decoded order passes the separation check exactly when every consecutive pair satisfies target[order[order[k+1]]] - target[order[order[k]]] >= 4: the check looks the order up twice |
| Search.OrderPenaltyMixesIds | src/metaheuristics.py:38-41 | the penalty of a decoded order charges aircraft k earliness and lateness against target[order[k]], the target of the aircraft at position k, not against its own landing time |
| Search.BelowIsStrictOrder | src/metaheuristics.py:93-100 | `<` on scores that may be `float('inf')` is a strict total order: irreflexive, asymmetric, transitive, and total on distinct scores |
| Search.IdentityOrderCostsNothing | src/metaheuristics.py:30-32 | the starting order `list(range(n))` is a permutation, and it costs nothing when every earliest time is at or before its target |
| Permutations.IotaIsPermutation | src/metaheuristics.py:17-18 | `list(range(n))` is an order of the n aircraft |
| Permutations.Iota | src/metaheuristics.py:17-18 | `list(range(n))`: n entries, entry k equal to k |
| Permutations.Swapped | src/metaheuristics.py:20-24 | the exchange of two positions on a copy; keeps the length; its effect is stated by SwappedExchanges |
| Permutations.Inserted | src/metaheuristics.py:133-137 | pop(i) then insert(j): keeps the length and the multiset of ids, and places the popped id at j |
| Permutations.TwoOpted | src/metaheuristics.py:139-142 | `s[i:j] = reversed(s[i:j])` on a copy: keeps the length and the multiset of ids; its entries are stated by TwoOptedEntry |
| Permutations.SwappedExchanges | src/metaheuristics.py:20-24 | an exchange moves exactly the two drawn positions and keeps the multiset of ids |
| Permutations.InsertedAt | src/metaheuristics.py:133-137 | after pop(i) and insert(j), position j holds the popped id; positions outside i..j are unchanged; the span between them shifts by one towards i |
| Permutations.TwoOptedEntry | src/metaheuristics.py:139-142 | the 2-opt move mirrors the slice [i, j) and leaves every other position in place |
| Annealing.Start | src/metaheuristics.py:30-33 | the state after `best_order, best_penalty = order, current_penalty`: the identity order with its penalty as current and best, of the instance's size |
| Annealing.StartConsistent | src/metaheuristics.py:30-33 | the starting state (identity order, its penalty as both current and best) satisfies the run invariant |
| Annealing.AnnealStep | src/metaheuristics.py:37-46 | definition of one inner iteration; it keeps the orders' shape, and its behaviour is stated by the four rows below |
| Annealing.AnnealLevel | src/metaheuristics.py:36-46 | the first k inner iterations at one temperature, in order; keeps the orders' shape |
| Annealing.AnnealLevels | src/metaheuristics.py:35-47 | the first l temperature levels, each running its draws in full; keeps the orders' shape |
| Annealing.InfeasibleIsSkipped | src/metaheuristics.py:37-40 | a swap candidate that fails the separation check leaves the state unchanged |
| Annealing.FeasibleAcceptance | src/metaheuristics.py:41-46 | a feasible candidate is taken exactly when it is not worse or the coin says so; a taken candidate below the best becomes the best |
| Annealing.Metropolis | src/metaheuristics.py:43 | `random.random() < np.exp(-delta / self.T)` as a drawn coin, except that it holds whenever delta <= 0, where the source's test always passes |
| Annealing.StepMoves | src/metaheuristics.py:37-46 | an iteration either changes nothing or moves to the feasible swap; the best moves with it exactly when the candidate is below the best |
| Annealing.StepConsistent | src/metaheuristics.py:37-46 | one iteration keeps the run invariant and never raises the best penalty. The invariant: both orders are rearrangements of the ids; each is the identity or passes the check; the penalties are theirs; best <= current |
| Annealing.AnnealLevelConsistent | src/metaheuristics.py:36-46 | a full temperature level keeps the run invariant and never raises the best penalty |
| Annealing.AnnealLevelsConsistent | src/metaheuristics.py:35-47 | any number of levels keeps the run invariant and never raises the best penalty |
| Annealing.AnnealResult | src/metaheuristics.py:29-49 | the returned order is a permutation and is the identity or passes the check; its penalty is the reported one, which is at most the final current penalty and at most the starting penalty |
| Annealing.AnnealKeepsFreeStart | src/metaheuristics.py:29-49 | when targets are not below earliest times and rates are non-negative, the run reports penalty 0 |
| Annealing.Cooled | src/metaheuristics.py:47 | one `self.T *= self.alpha` |
| Annealing.Temperature | src/metaheuristics.py:35-47 | the temperature after k rounds of the `while` loop, `T0 * alpha^k`, one Cooled per round |
| Annealing.SimulatedAnnealing.constructor | src/metaheuristics.py:9-15 | stores the instance, the temperature, the cooling factor and the level length; the best order is unset and the best penalty is inf |
| Annealing.SimulatedAnnealing.Iterate | src/metaheuristics.py:37-46 | one inner iteration updates the local order and penalty and the object's best order and penalty as the annealing step does |
| Annealing.SimulatedAnnealing.Level | src/metaheuristics.py:36-46 | the inner `for` loop performs the level's iterations in order |
| Annealing.SimulatedAnnealing.Round | src/metaheuristics.py:35-47 | one round of the `while` loop runs a level, then multiplies T by alpha |
| Annealing.SimulatedAnnealing.Run | src/metaheuristics.py:29-49 | the loop runs until T is no longer above 1, ending at T0 * alpha^levels; it returns and stores the best order and penalty of the run |
| Genetic.FillMembers | src/metaheuristics.py:69 | the fill list holds exactly the ids of p2 that are not excluded |
| Genetic.Fill | src/metaheuristics.py:69 | `[x for x in p2 if x not in excluded]`: never longer than p2; its members and order are stated by the rows below |
| Genetic.FillDistinct | src/metaheuristics.py:69 | filtering an order without repeats leaves no repeats |
| Genetic.FillSameExclusion | src/metaheuristics.py:69 | the fill depends only on which ids are excluded |
| Genetic.FillSize | src/metaheuristics.py:67-69 | the fill has exactly n - (b - a) ids: as many as there are -1 slots |
| Genetic.SeededFill | src/metaheuristics.py:67-69 | `x not in child` on the -1-seeded child excludes exactly p1's slice |
| Genetic.OrderCrossover | src/metaheuristics.py:64-75 | definition of the crossover child for cut points a <= b; has length n; its shape is stated by the rows below |
| Genetic.CrossoverShape | src/metaheuristics.py:64-75 | the child keeps p1's slice [a, b) in place; the remaining positions, in order, are the fill |
| Genetic.CrossoverEntry | src/metaheuristics.py:70-74 | each position before a and from b on takes the next fill id, in order; positions in [a, b) hold p1's entry |
| Genetic.CrossoverDistinctAt | src/metaheuristics.py:64-75 | no two positions of the child hold the same id |
| Genetic.CrossoverIsPermutation | src/metaheuristics.py:64-75 | the crossover child of two orders is itself an order of all n aircraft |
| Genetic.CrossoverAt | src/metaheuristics.py:67-75 | position by position: the fill before a, p1 on [a, b), the rest of the fill after b |
| Genetic.FillGaps | src/metaheuristics.py:70-74 | in place on the child array, each -1 slot from left to right takes the next fill id while p1's slice [a, b) stays: the child ends as the fill before a, p1 on [a, b), and the rest of the fill from b on |
| Genetic.Crossover | src/metaheuristics.py:64-75 | the array loop that fills the -1 slots from left to right yields the order crossover child |
| Genetic.MutatedChangesAtMostTwo | src/metaheuristics.py:77-80 | mutation keeps the ids; without the coin it changes nothing; with it, it exchanges the two drawn positions and leaves the rest |
| Genetic.MutatedIsPermutation | src/metaheuristics.py:77-80 | mutation keeps an order of the n aircraft an order |
| Genetic.Mutated | src/metaheuristics.py:77-80 | the individual after `_mutate`, with the coin and the two positions as parameters |
| Genetic.Mutate | src/metaheuristics.py:77-80 | in place on the array, the individual becomes its mutation |
| Genetic.OffspringArePermutations | src/metaheuristics.py:106-113 | both children of a pair are orders of the n aircraft |
| Genetic.Offspring | src/metaheuristics.py:106-113 | the two children of a pair: both crossovers or copies, then each mutated |
| Genetic.Mate | src/metaheuristics.py:106-113 | crossover (or copies) then mutation of each child yield exactly the pair's offspring |
| Genetic.Evaluate | src/metaheuristics.py:89-91 | the score is inf when the decoded order fails the separation check, and its penalty otherwise |
| Genetic.Fitness | src/metaheuristics.py:89-91 | the score is inf exactly when the decoded order fails the separation check (its penalty otherwise) |
| Genetic.Scores | src/metaheuristics.py:87-92 | the scores of a population, one per individual, in order |
| Genetic.NoneBelowAfter | src/metaheuristics.py:93-94 | after `if score < best_p: best_p = score`, no score seen so far is below best_p |
| Genetic.BestAfter | src/metaheuristics.py:93-94 | the best-so-far update keeps: nothing seen is below best_p; best is unset exactly while best_p is inf; otherwise best is a seen individual scoring best_p |
| Genetic.BestIsInfiniteIffNoneFeasible | src/metaheuristics.py:84-94 | best_p is inf exactly when every individual seen failed the separation check |
| Genetic.Update | src/metaheuristics.py:93-94 | the update `if score < best_p: best, best_p = ind.copy(), score`: the new best score is below neither the old one nor the candidate's, the state is either unchanged or the candidate with its score, and an unchanged score keeps the old individual |
| Genetic.BestOver | src/metaheuristics.py:88-94 | the updates for a sequence of individuals applied in order from a starting best: the best score never rises, and if it ends where it started the starting individual is kept |
| Genetic.BestOverConcat | src/metaheuristics.py:86-94 | updating over a + b is updating over a and then over b, so generations can be scored one after another |
| Genetic.BestOverIsFirstBest | src/metaheuristics.py:84-94 | from `None, inf` the updates end in the best-so-far invariant, and the kept individual is the first one seen reaching the minimum score (the strict `<` keeps earlier ties) |
| Genetic.ScoreOne | src/metaheuristics.py:89-94 | scoring one individual yields its fitness and exactly the strict-`<` update of best and best_p, which keeps the best-so-far invariant |
| Genetic.ScorePopulation | src/metaheuristics.py:87-94 | the scoring loop produces the population's scores in order, and best and best_p equal the updates over the population in order; the best-so-far invariant holds over everything scored |
| Genetic.WinnerNoWorse | src/metaheuristics.py:99-100 | the tournament winner is one of the two contestants and neither contestant scores below it |
| Genetic.SelectedFromPopulation | src/metaheuristics.py:97-101 | every member of the mating pool is an individual of the population |
| Genetic.Winner | src/metaheuristics.py:99-100 | `a if a[1] < b[1] else b` on the two drawn positions, ties to the second |
| Genetic.Selected | src/metaheuristics.py:97-101 | the mating pool: one tournament winner per draw, in draw order; one member per draw |
| Genetic.Tournament | src/metaheuristics.py:97-101 | the selection loop builds the mating pool of winners, one per draw |
| Genetic.ChildrenArePopulation | src/metaheuristics.py:104-114 | every bred child is an order of the n aircraft |
| Genetic.Children | src/metaheuristics.py:104-114 | the children of the first m pairs of the pool, two per pair, in order |
| Genetic.Next | src/metaheuristics.py:96-114 | the population after one generation: selection on the generation's scores, then breeding |
| Genetic.BreedPair | src/metaheuristics.py:105-114 | one round of the breeding loop appends the pair's two children |
| Genetic.Breed | src/metaheuristics.py:104-114 | the breeding loop yields the children of all pairs of the pool, in order |
| Genetic.NextIsPopulation | src/metaheuristics.py:87-114 | each generation yields exactly pop_size children, each an order of the n aircraft |
| Genetic.Generation | src/metaheuristics.py:86-114 | every generation's population has pop_size members, each an order of the n aircraft |
| Genetic.Seen | src/metaheuristics.py:86-94 | g generations score g * pop_size individuals, all orders of the n aircraft |
| Genetic.Evolve | src/metaheuristics.py:87-114 | one generation applies the best updates over the population in order, keeping the best-so-far invariant, and replaces the population with the bred children |
| Genetic.Run | src/metaheuristics.py:82-116 | the returned best and best_p are the updates from `None, inf` over every individual scored, generation by generation; they satisfy the best-so-far invariant, and with BestOverIsFirstBest best is the first individual reaching the minimum |
| NeighborhoodSearch.Neighbor | src/metaheuristics.py:128-142 | each move keeps the length and the multiset of ids, so it keeps an order of the n aircraft an order |
| NeighborhoodSearch.Swap | src/metaheuristics.py:128-131 | in place, the order becomes its exchange of the two drawn positions |
| NeighborhoodSearch.Insert | src/metaheuristics.py:133-137 | in place, the order becomes its pop-and-insert |
| NeighborhoodSearch.TwoOpt | src/metaheuristics.py:139-142 | in place, the order becomes its reversal of the sorted slice |
| NeighborhoodSearch.Candidate | src/metaheuristics.py:151-152 | a move applied to a copy yields the neighbour and leaves the current order as it was |
| NeighborhoodSearch.FirstImprovement | src/metaheuristics.py:151-160 | yields the first neighbourhood whose candidate passes the check with a penalty below best_p, with that candidate; no earlier one improves; None when none improves |
| NeighborhoodSearch.Start | src/metaheuristics.py:145-147 | `current = list(range(n))`, best a copy of it, and best_p its penalty, with no separation check |
| NeighborhoodSearch.Iteration | src/metaheuristics.py:150-161 | one pass of the `while` body: the state is unchanged, or current and best both become one order of the n aircraft that passes the separation check with a penalty strictly below the old best |
| NeighborhoodSearch.IterationProgress | src/metaheuristics.py:150-161 | an iteration keeps current = best and best_p = penalty(best); it stays put, or moves to a checked order with strictly smaller best_p |
| NeighborhoodSearch.BestDecreasesIffMoved | src/metaheuristics.py:157-160 | best_p never increases, and it decreases exactly when the state changes |
| NeighborhoodSearch.Iterations | src/metaheuristics.py:144-161 | after any number of iterations the state is coherent, and best is the identity order or passes the check |
| NeighborhoodSearch.IterationLowersBest | src/metaheuristics.py:150-161 | from one iteration of the run to the next, best_p does not increase |
| NeighborhoodSearch.Sweep | src/metaheuristics.py:151-160 | the `for neigh` loop with `continue` and `break` performs exactly one iteration of the search |
| NeighborhoodSearch.Run | src/metaheuristics.py:144-163 | the run from the identity order returns the best order and best_p after max_iter iterations |

## Left out

- Reading and writing data, plotting, command-line parsing and the web
  front end (`main.py` outside `run_baseline`, `app.py`, `src/utils.py`) are
  not part of this model.
- `run_baseline`'s plot and print calls are left out. Its result dictionary
  is represented by the returned penalty.
- The random number generator is not modelled. Every draw is a parameter:
  - `random.sample(range(n), 2)` is a `Draw` of two distinct positions;
  - `random.random() < rate` is a boolean;
  - `_init_pop()` is the initial population, required to consist of
    permutations.
- The Metropolis test `random.random() < exp(-delta / T)` is a boolean coin
  with no probability attached, and `exp` is not modelled. Only the fact that
  the test always passes when `delta <= 0` is kept.
- Floating point is modelled as exact real arithmetic: rounding, NaN and
  overflow are not modelled. `float('inf')` is `Search.Score.Infinite`.
- `compute_penalty` requires the columns to have the same length. NumPy
  broadcasting of other shapes is not modelled.
- Inputs on which the source raises are excluded by preconditions:
  - an odd `pop_size` (IndexError at `new_pop[i+1]`);
  - fewer than two aircraft or individuals when a draw is taken (ValueError
    from `random.sample`).
- `max_iter` and `iter_per_temp` are natural numbers. A negative value only
  makes the source's loops run zero times.
- The annealing run takes the number of temperature levels as the length of
  its draw schedule. `CoolsIn` requires it to be exactly the number of times
  `T > 1` holds under geometric cooling. A schedule where the temperature
  never falls to 1 (alpha >= 1) has no finite draw sequence and is not
  modelled.
- The constructors' default arguments are not modelled; every parameter is
  explicit. The defaults are `T0=1000, alpha=0.98, iter_per_temp=100` for
  simulated annealing, `pop_size=50, cx_rate=0.8, mut_rate=0.2,
  generations=100` for the genetic algorithm, and `max_iter=1000` for the
  neighbourhood search.
- The genetic algorithm's `cx_rate`, `mut_rate`, `pop_size` and
  `generations` are carried by the draws: each `GenerationDraws` has one
  tournament draw per slot and one `Pairing` per pair. There is no separate
  class, because those fields are never updated.
- The same holds for `VariableNeighborhoodSearch`: `max_iter` and the three
  neighbourhoods are parameters and constants of the module.
- NeighborhoodSearch.IterationLowersBest: states monotonicity of best_p
  between consecutive iterations only. The chained statement over any two
  iteration counts is not proved.
