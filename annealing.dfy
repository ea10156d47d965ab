/**
 Simulated annealing over landing orders. Each inner iteration exchanges two
 random positions of the current order, skips the candidate when its decoded
 times fail the separation check, and otherwise moves to it when it is not
 worse, or when the Metropolis coin says so. The temperature falls
 geometrically until it is no longer above 1.

 The random draws are parameters: one `Draw` per inner iteration, and one
 boolean per inner iteration standing for `random.random() < exp(-delta / T)`.
 */
module Annealing {
  import opened Permutations
  import opened LandingScheduler
  import opened Search

  /**
   The state the run carries from one iteration to the next: the current
   order and its penalty (locals of `run`) and the best order and penalty
   seen so far (fields of the object).
   */
  datatype AnnealState = AnnealState(order: seq<int>, current: real, bestOrder: seq<int>, best: real)

  /** The shape every state of the run has: orders of the instance's size over its ids. */
  predicate WellFormed(inst: Instance, s: AnnealState)
  {
    inst.Valid() &&
    |s.order| == inst.Size() && InRange(s.order, inst.Size()) &&
    |s.bestOrder| == inst.Size() && InRange(s.bestOrder, inst.Size())
  }

  /**
   An order the run may hold: the starting order `list(range(n))`, which is
   never checked for separation, or a candidate that passed the check.
   */
  predicate Admissible(inst: Instance, order: seq<int>)
    requires inst.Valid() && |order| == inst.Size() && InRange(order, inst.Size())
  {
    order == Iota(inst.Size()) || Feasible(inst, order)
  }

  /**
   What holds of the state at every iteration of `run`. Both orders are
   rearrangements of `list(range(n))`, stated on multisets.
   */
  predicate Consistent(inst: Instance, s: AnnealState)
  {
    WellFormed(inst, s) &&
    multiset(s.order) == multiset(Iota(inst.Size())) && multiset(s.bestOrder) == multiset(Iota(inst.Size())) &&
    Admissible(inst, s.order) && Admissible(inst, s.bestOrder) &&
    s.current == OrderPenalty(inst, s.order) && s.best == OrderPenalty(inst, s.bestOrder) &&
    s.best <= s.current
  }

  /** The state right after `best_order, best_penalty = order, current_penalty`. */
  function Start(inst: Instance): (s: AnnealState)
    requires inst.Valid()
    ensures WellFormed(inst, s)
  {
    var order := Iota(inst.Size());
    AnnealState(order, OrderPenalty(inst, order), order, OrderPenalty(inst, order))
  }

  lemma StartConsistent(inst: Instance)
    requires inst.Valid()
    ensures Consistent(inst, Start(inst))
  {
  }

  /**
   The Metropolis test `random.random() < exp(-delta / T)`. It holds whenever
   delta <= 0, since random() < 1 <= exp(-delta / T); only for a worse
   candidate does the drawn `coin` decide.
   */
  predicate Metropolis(delta: real, coin: bool)
  {
    delta <= 0.0 || coin
  }

  /** One inner iteration of `run`: swap two positions, skip an infeasible candidate, Metropolis test, best update. */
  function AnnealStep(inst: Instance, s: AnnealState, d: Draw, coin: bool): (r: AnnealState)
    requires WellFormed(inst, s) && d.Valid(inst.Size())
    ensures WellFormed(inst, r)
  {
    var candidate := Swapped(s.order, d.i, d.j);
    if !Feasible(inst, candidate) then s
    else
      var p := OrderPenalty(inst, candidate);
      var delta := p - s.current;
      if !(delta < 0.0 || Metropolis(delta, coin)) then s
      else if p < s.best then AnnealState(candidate, p, candidate, p)
      else AnnealState(candidate, p, s.bestOrder, s.best)
  }

  /** A candidate that fails the separation check changes nothing. */
  lemma InfeasibleIsSkipped(inst: Instance, s: AnnealState, d: Draw, coin: bool)
    requires WellFormed(inst, s) && d.Valid(inst.Size())
    requires !Feasible(inst, Swapped(s.order, d.i, d.j))
    ensures AnnealStep(inst, s, d, coin) == s
  {
  }

  /**
   A feasible candidate that is not worse than the current order is always
   taken, whatever the coin; a worse one is taken exactly when the coin says
   so; and a taken candidate below the best becomes the best.
   */
  lemma FeasibleAcceptance(inst: Instance, s: AnnealState, d: Draw, coin: bool)
    requires WellFormed(inst, s) && Distinct(s.order) && d.Valid(inst.Size())
    requires Feasible(inst, Swapped(s.order, d.i, d.j))
    ensures var r := AnnealStep(inst, s, d, coin);
            var p := OrderPenalty(inst, Swapped(s.order, d.i, d.j));
            (p <= s.current || coin <==> r.order == Swapped(s.order, d.i, d.j)) &&
            (p <= s.current || coin ==> r.current == p) &&
            ((p <= s.current || coin) && p < s.best ==> r.bestOrder == r.order && r.best == p)
  {
    var candidate := Swapped(s.order, d.i, d.j);
    var p := OrderPenalty(inst, candidate);
    var r := AnnealStep(inst, s, d, coin);
    if p <= s.current || coin {
      assert Metropolis(p - s.current, coin);
      if p < s.best {
        assert r == AnnealState(candidate, p, candidate, p);
      } else {
        assert r == AnnealState(candidate, p, s.bestOrder, s.best);
      }
    } else {
      // rejected: the order stays, and it differs from the candidate
      assert r == s;
      assert s.order[d.i] != s.order[d.j];
      assert candidate[d.i] == s.order[d.j];
    }
  }

  /** Whether the iteration moves to its candidate: it passes the check and the Metropolis test. */
  predicate Accepted(inst: Instance, s: AnnealState, d: Draw, coin: bool)
    requires WellFormed(inst, s) && d.Valid(inst.Size())
  {
    var candidate := Swapped(s.order, d.i, d.j);
    Feasible(inst, candidate) && Metropolis(OrderPenalty(inst, candidate) - s.current, coin)
  }

  /**
   One iteration either changes nothing or moves to the feasible swap of the
   current order; the best moves along exactly when the candidate is below it.
   */
  lemma StepMoves(inst: Instance, s: AnnealState, d: Draw, coin: bool)
    requires WellFormed(inst, s) && d.Valid(inst.Size())
    ensures !Accepted(inst, s, d, coin) ==> AnnealStep(inst, s, d, coin) == s
    ensures var r := AnnealStep(inst, s, d, coin);
            var candidate := Swapped(s.order, d.i, d.j);
            var p := OrderPenalty(inst, candidate);
            Accepted(inst, s, d, coin) ==>
              r.order == candidate && r.current == p &&
              (p < s.best ==> r.bestOrder == candidate && r.best == p) &&
              (p >= s.best ==> r.bestOrder == s.bestOrder && r.best == s.best)
  {
    var candidate := Swapped(s.order, d.i, d.j);
    var r := AnnealStep(inst, s, d, coin);
    if !Feasible(inst, candidate) {
      assert r == s;
    } else {
      var p := OrderPenalty(inst, candidate);
      if !(p - s.current < 0.0 || Metropolis(p - s.current, coin)) {
        assert r == s;
      } else if p < s.best {
        assert r == AnnealState(candidate, p, candidate, p);
      } else {
        assert r == AnnealState(candidate, p, s.bestOrder, s.best);
      }
    }
  }

  /** One iteration keeps every fact of `Consistent`, and never raises the best penalty. */
  lemma StepConsistent(inst: Instance, s: AnnealState, d: Draw, coin: bool)
    requires Consistent(inst, s) && d.Valid(inst.Size())
    ensures Consistent(inst, AnnealStep(inst, s, d, coin))
    ensures AnnealStep(inst, s, d, coin).best <= s.best
  {
    StepMoves(inst, s, d, coin);
    if Accepted(inst, s, d, coin) {
      var candidate := Swapped(s.order, d.i, d.j);
      SwappedExchanges(s.order, d.i, d.j);
      assert Admissible(inst, candidate);
    }
  }

  /** The first k passes of the inner `for` loop at one temperature level. */
  function AnnealLevel(inst: Instance, s: AnnealState, draws: seq<Draw>, coins: seq<bool>, k: nat): (r: AnnealState)
    requires WellFormed(inst, s) && |coins| == |draws| && k <= |draws|
    requires ValidDraws(draws, inst.Size())
    ensures WellFormed(inst, r)
    decreases k
  {
    if k == 0 then s
    else AnnealStep(inst, AnnealLevel(inst, s, draws, coins, k - 1), draws[k - 1], coins[k - 1])
  }

  /** The (j + 1)-th pass of the inner loop is one step from the j-th. */
  lemma AnnealLevelNext(inst: Instance, s: AnnealState, draws: seq<Draw>, coins: seq<bool>, j: nat)
    requires WellFormed(inst, s) && |coins| == |draws| && j < |draws|
    requires ValidDraws(draws, inst.Size())
    ensures AnnealLevel(inst, s, draws, coins, j + 1) == AnnealStep(inst, AnnealLevel(inst, s, draws, coins, j), draws[j], coins[j])
  {
  }

  /** Every pass of the inner loop keeps `Consistent` and never raises the best penalty. */
  lemma {:induction false} AnnealLevelConsistent(inst: Instance, s: AnnealState, draws: seq<Draw>, coins: seq<bool>, k: nat)
    requires Consistent(inst, s) && |coins| == |draws| && k <= |draws|
    requires ValidDraws(draws, inst.Size())
    ensures Consistent(inst, AnnealLevel(inst, s, draws, coins, k))
    ensures AnnealLevel(inst, s, draws, coins, k).best <= s.best
  {
    var st := s;
    var j: nat := 0;
    while j < k
      invariant j <= k && st == AnnealLevel(inst, s, draws, coins, j)
      invariant Consistent(inst, st) && st.best <= s.best
    {
      StepConsistent(inst, st, draws[j], coins[j]);
      AnnealLevelNext(inst, s, draws, coins, j);
      st := AnnealStep(inst, st, draws[j], coins[j]);
      j := j + 1;
    }
    assert j == k;
  }

  /**
   The draws of a whole run, one sequence per temperature level, with one
   coin per draw.
   */
  predicate Schedule(inst: Instance, levels: seq<seq<Draw>>, coins: seq<seq<bool>>)
  {
    |coins| == |levels| &&
    forall l :: 0 <= l < |levels| ==> |coins[l]| == |levels[l]| && ValidDraws(levels[l], inst.Size())
  }

  /** The first l rounds of the outer `while` loop, each running its level's draws in full. */
  function AnnealLevels(inst: Instance, s: AnnealState, levels: seq<seq<Draw>>, coins: seq<seq<bool>>, l: nat): (r: AnnealState)
    requires WellFormed(inst, s) && Schedule(inst, levels, coins) && l <= |levels|
    ensures WellFormed(inst, r)
    decreases l
  {
    if l == 0 then s
    else
      var draws := levels[l - 1];
      AnnealLevel(inst, AnnealLevels(inst, s, levels, coins, l - 1), draws, coins[l - 1], |draws|)
  }

  /** The (j + 1)-th round of the outer loop runs level j's draws from the j-th. */
  lemma AnnealLevelsNext(inst: Instance, s: AnnealState, levels: seq<seq<Draw>>, coins: seq<seq<bool>>, j: nat)
    requires WellFormed(inst, s) && Schedule(inst, levels, coins) && j < |levels|
    ensures AnnealLevels(inst, s, levels, coins, j + 1) ==
            AnnealLevel(inst, AnnealLevels(inst, s, levels, coins, j), levels[j], coins[j], |levels[j]|)
  {
  }

  /** Every round of the outer loop keeps `Consistent` and never raises the best penalty. */
  lemma {:induction false} AnnealLevelsConsistent(inst: Instance, s: AnnealState, levels: seq<seq<Draw>>, coins: seq<seq<bool>>, l: nat)
    requires Consistent(inst, s) && Schedule(inst, levels, coins) && l <= |levels|
    ensures Consistent(inst, AnnealLevels(inst, s, levels, coins, l))
    ensures AnnealLevels(inst, s, levels, coins, l).best <= s.best
  {
    var st := s;
    var j: nat := 0;
    while j < l
      invariant j <= l && st == AnnealLevels(inst, s, levels, coins, j)
      invariant Consistent(inst, st) && st.best <= s.best
    {
      AnnealLevelConsistent(inst, st, levels[j], coins[j], |levels[j]|);
      AnnealLevelsNext(inst, s, levels, coins, j);
      st := AnnealLevel(inst, st, levels[j], coins[j], |levels[j]|);
      j := j + 1;
    }
    assert j == l;
  }

  /**
   What `run` returns: an order that is the identity or passes the separation
   check, whose penalty is the reported one, which is no worse than the order
   the run ends on, and no worse than the starting order.
   */
  lemma AnnealResult(inst: Instance, levels: seq<seq<Draw>>, coins: seq<seq<bool>>)
    requires inst.Valid() && Schedule(inst, levels, coins)
    ensures var r := AnnealLevels(inst, Start(inst), levels, coins, |levels|);
            IsPermutation(r.bestOrder, inst.Size()) &&
            (r.bestOrder == Iota(inst.Size()) || Feasible(inst, r.bestOrder)) &&
            r.best == OrderPenalty(inst, r.bestOrder) &&
            r.best <= r.current &&
            r.best <= OrderPenalty(inst, Iota(inst.Size()))
  {
    StartConsistent(inst);
    AnnealLevelsConsistent(inst, Start(inst), levels, coins, |levels|);
    IotaIsPermutation(inst.Size());
    SameElementsPermutation(Iota(inst.Size()), AnnealLevels(inst, Start(inst), levels, coins, |levels|).bestOrder, inst.Size());
  }

  /**
   When no target is below its earliest time and the rates are non-negative,
   the starting order already costs nothing, so the run reports penalty 0.
   */
  lemma AnnealKeepsFreeStart(inst: Instance, levels: seq<seq<Draw>>, coins: seq<seq<bool>>)
    requires inst.Valid() && Schedule(inst, levels, coins)
    requires forall i :: 0 <= i < inst.Size() ==> inst.earliest[i] <= inst.target[i]
    requires forall i :: 0 <= i < inst.Size() ==> inst.alpha[i] >= 0.0 && inst.beta[i] >= 0.0
    ensures AnnealLevels(inst, Start(inst), levels, coins, |levels|).best == 0.0
  {
    var r := AnnealLevels(inst, Start(inst), levels, coins, |levels|);
    AnnealResult(inst, levels, coins);
    IdentityOrderCostsNothing(inst);
    PenaltyNonNegative(DecodeTimes(r.bestOrder, inst.target), inst.earliest, inst.target, inst.latest,
                       inst.alpha, inst.beta);
  }

  /** One `self.T *= self.alpha`. */
  function Cooled(t: real, alpha: real): real
  {
    t * alpha
  }

  /** `T0 * alpha^k`: the temperature after k levels. */
  function Temperature(T0: real, alpha: real, k: nat): real
  {
    if k == 0 then T0 else Cooled(Temperature(T0, alpha, k - 1), alpha)
  }

  lemma TemperatureNext(T0: real, alpha: real, k: nat)
    ensures Temperature(T0, alpha, k + 1) == Cooled(Temperature(T0, alpha, k), alpha)
  {
  }

  /**
   The loop `while self.T > 1: ...; self.T *= self.alpha`, entered at
   temperature t, goes round exactly `levels` times: the temperature is above
   1 before each of those rounds and no longer after the last.
   */
  predicate CoolsIn(t: real, alpha: real, levels: nat)
  {
    Temperature(t, alpha, levels) <= 1.0 &&
    forall k :: 0 <= k < levels ==> Temperature(t, alpha, k) > 1.0
  }


  class SimulatedAnnealing {
    const inst: Instance
    var T: real
    const alpha: real
    const iterPerTemp: nat
    var bestOrder: Option<seq<int>>
    var bestPenalty: Score

    constructor (inst: Instance, T0: real, alpha: real, iterPerTemp: nat)
      ensures this.inst == inst && T == T0 && this.alpha == alpha && this.iterPerTemp == iterPerTemp
      ensures bestOrder == None && bestPenalty == Infinite
    {
      this.inst := inst;
      T := T0;
      this.alpha := alpha;
      this.iterPerTemp := iterPerTemp;
      bestOrder := None;
      bestPenalty := Infinite;
    }

    /** The best order and penalty held by the object, paired with the current ones. */
    function State(order: seq<int>, current: real): AnnealState
      reads this
      requires bestOrder.Some? && bestPenalty.Finite?
    {
      AnnealState(order, current, bestOrder.value, bestPenalty.value)
    }

    /** One pass of the inner `for` body: the swap, the separation check, the Metropolis test and the best update; `return` is its `continue`. */
    method Iterate(order: seq<int>, current: real, d: Draw, coin: bool) returns (order': seq<int>, current': real)
      requires bestOrder.Some? && bestPenalty.Finite?
      requires WellFormed(inst, State(order, current)) && d.Valid(inst.Size())
      modifies this`bestOrder, this`bestPenalty
      ensures bestOrder.Some? && bestPenalty.Finite?
      ensures State(order', current') == AnnealStep(inst, old(State(order, current)), d, coin)
    {
      ghost var before := State(order, current);
      order', current' := order, current;
      var candidate := Swapped(order, d.i, d.j);
      var times := DecodeTimes(candidate, inst.target);
      var ok := CheckSeparation(candidate, times, DEFAULT_SEPARATION);
      if !ok {
        assert !Feasible(inst, candidate);
        return;
      }
      assert Feasible(inst, candidate);
      var p := Penalty(inst, times);
      assert p == OrderPenalty(inst, candidate);
      var delta := p - current;
      if delta < 0.0 || Metropolis(delta, coin) {
        order', current' := candidate, p;
        assert Finite(p).Below(bestPenalty) <==> p < before.best;
        if Finite(p).Below(bestPenalty) {
          bestOrder, bestPenalty := Some(candidate), Finite(p);
          assert State(order', current') == AnnealState(candidate, p, candidate, p);
        } else {
          assert State(order', current') == AnnealState(candidate, p, before.bestOrder, before.best);
        }
      } else {
        assert State(order', current') == before;
      }
    }

    /** The inner `for _ in range(self.iter_per_temp)` loop at one temperature. */
    method Level(order: seq<int>, current: real, draws: seq<Draw>, coins: seq<bool>) returns (order': seq<int>, current': real)
      requires bestOrder.Some? && bestPenalty.Finite?
      requires WellFormed(inst, State(order, current))
      requires |draws| == iterPerTemp && |coins| == iterPerTemp
      requires ValidDraws(draws, inst.Size())
      modifies this`bestOrder, this`bestPenalty
      ensures bestOrder.Some? && bestPenalty.Finite?
      ensures State(order', current') == AnnealLevel(inst, old(State(order, current)), draws, coins, |draws|)
    {
      ghost var start := State(order, current);
      order', current' := order, current;
      for k := 0 to iterPerTemp
        invariant bestOrder.Some? && bestPenalty.Finite?
        invariant WellFormed(inst, State(order', current'))
        invariant State(order', current') == AnnealLevel(inst, start, draws, coins, k)
      {
        order', current' := Iterate(order', current', draws[k], coins[k]);
      }
    }

    /**
     Round l of the outer `while` loop: a full level of iterations on level l's
     draws, then `self.T *= self.alpha`.
     */
    method Round(order: seq<int>, current: real, levels: seq<seq<Draw>>, coins: seq<seq<bool>>, l: nat)
      returns (order': seq<int>, current': real)
      requires inst.Valid() && Schedule(inst, levels, coins) && l < |levels| && |levels[l]| == iterPerTemp
      requires bestOrder.Some? && bestPenalty.Finite?
      requires State(order, current) == AnnealLevels(inst, Start(inst), levels, coins, l)
      modifies this
      ensures bestOrder.Some? && bestPenalty.Finite?
      ensures State(order', current') == AnnealLevels(inst, Start(inst), levels, coins, l + 1)
      ensures T == Cooled(old(T), alpha)
    {
      order', current' := Level(order, current, levels[l], coins[l]);
      T := Cooled(T, alpha);
    }

    /**
     `run`. `levels` holds the draws of every temperature level the loop goes
     through: as many levels as it takes the temperature to fall to 1 or below,
     each with `iterPerTemp` draws.
     */
    method Run(levels: seq<seq<Draw>>, coins: seq<seq<bool>>) returns (order: seq<int>, penalty: real)
      requires inst.Valid() && Schedule(inst, levels, coins)
      requires forall l :: 0 <= l < |levels| ==> |levels[l]| == iterPerTemp
      requires CoolsIn(T, alpha, |levels|)
      modifies this
      ensures T == Temperature(old(T), alpha, |levels|)
      ensures var r := AnnealLevels(inst, Start(inst), levels, coins, |levels|);
              order == r.bestOrder && penalty == r.best &&
              bestOrder == Some(order) && bestPenalty == Finite(penalty)
    {
      ghost var T0 := T;
      var ord := Iota(inst.Size());
      var current := OrderPenalty(inst, ord);
      bestOrder, bestPenalty := Some(ord), Finite(current);
      var l := 0;
      while T > 1.0
        invariant 0 <= l <= |levels|
        invariant T == Temperature(T0, alpha, l)
        invariant bestOrder.Some? && bestPenalty.Finite?
        invariant State(ord, current) == AnnealLevels(inst, Start(inst), levels, coins, l)
        decreases |levels| - l
      {
        ord, current := Round(ord, current, levels, coins, l);
        TemperatureNext(T0, alpha, l);
        l := l + 1;
      }
      order, penalty := bestOrder.value, bestPenalty.value;
    }
  }
}
