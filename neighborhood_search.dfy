/**
 Variable neighbourhood search over landing orders. Each iteration tries the
 exchange, pop-and-insert and 2-opt neighbourhoods of the current order in
 turn, each on a fresh copy, and moves to the first candidate that passes the
 separation check with a penalty strictly below the best one; the current and
 the best order therefore always coincide. The random position pairs are
 parameters: three draws per iteration, one per neighbourhood.
 */
module NeighborhoodSearch {
  import opened Permutations
  import opened LandingScheduler
  import opened Search

  /** The entries of `self.neighborhoods`, in the order they are tried. */
  datatype Neighborhood = SwapMove | InsertMove | TwoOptMove

  const Neighborhoods: seq<Neighborhood> := [SwapMove, InsertMove, TwoOptMove]

  /** The candidate a neighbourhood move makes from `order` with the positions drawn in `d`. */
  function Neighbor(order: seq<int>, move: Neighborhood, d: Draw): (candidate: seq<int>)
    requires d.Valid(|order|)
    ensures |candidate| == |order| && multiset(candidate) == multiset(order)
    ensures IsPermutation(order, |order|) ==> IsPermutation(candidate, |order|)
  {
    var candidate := (
      match move
      case SwapMove => SwappedExchanges(order, d.i, d.j); Swapped(order, d.i, d.j)
      case InsertMove => Inserted(order, d.i, d.j)
      case TwoOptMove => TwoOpted(order, d.Lo(), d.Hi()));
    if IsPermutation(order, |order|) then SameElementsPermutation(order, candidate, |order|); candidate
    else candidate
  }

  /** `_swap`: exchange the two drawn positions in place. */
  method Swap(order: array<int>, d: Draw)
    requires d.Valid(order.Length)
    modifies order
    ensures order[..] == Swapped(old(order[..]), d.i, d.j)
  {
    order[d.i], order[d.j] := order[d.j], order[d.i];
  }

  /** `_insert`: `elem = order.pop(i); order.insert(j, elem)`, shifting the entries in between by one. */
  method Insert(order: array<int>, d: Draw)
    requires d.Valid(order.Length)
    modifies order
    ensures order[..] == Inserted(old(order[..]), d.i, d.j)
  {
    ghost var before := order[..];
    var i, j := d.i, d.j;
    var elem := order[i];
    if i < j {
      forall k | i <= k < j {
        order[k] := order[k + 1];
      }
    } else {
      forall k | j < k <= i {
        order[k] := order[k - 1];
      }
    }
    order[j] := elem;
    forall k | 0 <= k < order.Length ensures order[k] == Inserted(before, i, j)[k] {
      InsertedAt(before, i, j, k);
    }
  }

  /** `_two_opt`: `order[i:j] = reversed(order[i:j])` for the sorted draw. */
  method TwoOpt(order: array<int>, d: Draw)
    requires d.Valid(order.Length)
    modifies order
    ensures order[..] == TwoOpted(old(order[..]), d.Lo(), d.Hi())
  {
    ghost var before := order[..];
    var i, j := d.Lo(), d.Hi();
    forall k | i <= k < j {
      order[k] := order[i + j - 1 - k];
    }
    assert forall k :: 0 <= k < order.Length ==> order[..][k] == if i <= k < j then before[i + j - 1 - k] else before[k];
    TwoOptedIs(before, order[..], i, j);
  }

  /** `neigh(current.copy())`: the move applied to a copy, leaving `current` as it was. */
  method Candidate(current: seq<int>, move: Neighborhood, d: Draw) returns (candidate: seq<int>)
    requires d.Valid(|current|)
    ensures candidate == Neighbor(current, move, d)
  {
    var copy := new int[|current|](k requires 0 <= k < |current| => current[k]);
    assert copy[..] == current;
    match move {
      case SwapMove => Swap(copy, d);
      case InsertMove => Insert(copy, d);
      case TwoOptMove => TwoOpt(copy, d);
    }
    candidate := copy[..];
  }

  /** A candidate is taken when it passes the separation check with a penalty strictly below the best one. */
  predicate Improves(inst: Instance, candidate: seq<int>, bestP: real)
    requires inst.Valid() && IsPermutation(candidate, inst.Size())
  {
    Feasible(inst, candidate) && OrderPenalty(inst, candidate) < bestP
  }

  /** The draws of one iteration: one pair of distinct positions per neighbourhood. */
  predicate IterationDraws(ds: seq<Draw>, n: int)
  {
    |ds| == |Neighborhoods| && ValidDraws(ds, n)
  }

  /** The candidate of the m-th neighbourhood improves on `bestP`. */
  predicate ImprovesWith(inst: Instance, current: seq<int>, bestP: real, ds: seq<Draw>, m: nat)
    requires inst.Valid() && IsPermutation(current, inst.Size()) && IterationDraws(ds, inst.Size())
    requires m < |Neighborhoods|
  {
    Improves(inst, Neighbor(current, Neighborhoods[m], ds[m]), bestP)
  }

  /**
   The first neighbourhood, from the k-th on, whose candidate improves on
   `bestP`, with that candidate; None when none does (the `for ... break`).
   At most one neighbourhood is accepted per iteration, and it is the first
   improving one: none tried before it improves, and when None is returned
   no neighbourhood from the k-th on improves.
   */
  function FirstImprovement(inst: Instance, current: seq<int>, bestP: real, ds: seq<Draw>, k: nat): (r: Option<(nat, seq<int>)>)
    requires inst.Valid() && IsPermutation(current, inst.Size()) && IterationDraws(ds, inst.Size())
    requires k <= |Neighborhoods|
    ensures r.Some? ==>
      k <= r.value.0 < |Neighborhoods| && r.value.1 == Neighbor(current, Neighborhoods[r.value.0], ds[r.value.0]) &&
      Improves(inst, r.value.1, bestP)
    ensures r.Some? ==> forall m :: k <= m < r.value.0 ==> !ImprovesWith(inst, current, bestP, ds, m)
    ensures r.None? ==> forall m :: k <= m < |Neighborhoods| ==> !ImprovesWith(inst, current, bestP, ds, m)
    decreases |Neighborhoods| - k
  {
    if k == |Neighborhoods| then None
    else
      var candidate := Neighbor(current, Neighborhoods[k], ds[k]);
      if Improves(inst, candidate, bestP) then Some((k, candidate))
      else FirstImprovement(inst, current, bestP, ds, k + 1)
  }

  /** The locals of `run`: the current order, the best order and its penalty. */
  datatype SearchState = SearchState(current: seq<int>, best: seq<int>, bestP: real)

  /** `current = list(range(n)); best = current.copy(); best_p = compute_penalty(...)`, with no separation check. */
  function Start(inst: Instance): (s: SearchState)
    requires inst.Valid()
  {
    var order := Iota(inst.Size());
    IotaIsPermutation(inst.Size());
    SearchState(order, order, OrderPenalty(inst, order))
  }

  /** What every state of the search satisfies: current and best coincide, and best_p is best's penalty. */
  predicate Coherent(inst: Instance, s: SearchState)
    requires inst.Valid()
  {
    IsPermutation(s.current, inst.Size()) && s.current == s.best && s.bestP == OrderPenalty(inst, s.best)
  }

  /** One pass of the `while` body: move to the first improving candidate, if any. */
  function Iteration(inst: Instance, s: SearchState, ds: seq<Draw>): (s': SearchState)
    requires inst.Valid() && IsPermutation(s.current, inst.Size()) && IterationDraws(ds, inst.Size())
    ensures s' == s || (s'.current == s'.best && IsPermutation(s'.best, inst.Size()) &&
                        Feasible(inst, s'.best) && s'.bestP < s.bestP)
  {
    match FirstImprovement(inst, s.current, s.bestP, ds, 0)
    case None => s
    case Some((_, candidate)) => SearchState(candidate, candidate, OrderPenalty(inst, candidate))
  }

  /** Whether some neighbourhood of this iteration improves, so that the search moves. */
  predicate Moves(inst: Instance, s: SearchState, ds: seq<Draw>)
    requires inst.Valid() && IsPermutation(s.current, inst.Size()) && IterationDraws(ds, inst.Size())
  {
    FirstImprovement(inst, s.current, s.bestP, ds, 0).Some?
  }

  /**
   An iteration keeps the state coherent; it either stays put or moves to an
   order that passed the separation check with a strictly smaller best_p.
   */
  lemma IterationProgress(inst: Instance, s: SearchState, ds: seq<Draw>)
    requires inst.Valid() && Coherent(inst, s) && IterationDraws(ds, inst.Size())
    ensures Coherent(inst, Iteration(inst, s, ds))
    ensures !Moves(inst, s, ds) ==> Iteration(inst, s, ds) == s
    ensures Moves(inst, s, ds) ==>
      Iteration(inst, s, ds).bestP < s.bestP && Feasible(inst, Iteration(inst, s, ds).best)
  {
  }

  /** best_p never increases in an iteration, and it strictly decreases exactly when the iteration moves. */
  lemma BestDecreasesIffMoved(inst: Instance, s: SearchState, ds: seq<Draw>)
    requires inst.Valid() && Coherent(inst, s) && IterationDraws(ds, inst.Size())
    ensures Iteration(inst, s, ds).bestP <= s.bestP
    ensures Iteration(inst, s, ds) != s <==> Iteration(inst, s, ds).bestP < s.bestP
  {
    IterationProgress(inst, s, ds);
  }

  predicate AllDraws(draws: seq<seq<Draw>>, n: int)
  {
    forall t :: 0 <= t < |draws| ==> IterationDraws(draws[t], n)
  }

  /**
   The state after the first `t` iterations. It stays coherent, and the
   order it holds is the starting order or one that passed the separation
   check.
   */
  function Iterations(inst: Instance, draws: seq<seq<Draw>>, t: nat): (s: SearchState)
    requires inst.Valid() && AllDraws(draws, inst.Size()) && t <= |draws|
    ensures Coherent(inst, s)
    ensures s.best == Iota(inst.Size()) || Feasible(inst, s.best)
  {
    if t == 0 then Start(inst)
    else
      var prev := Iterations(inst, draws, t - 1);
      IterationProgress(inst, prev, draws[t - 1]);
      Iteration(inst, prev, draws[t - 1])
  }

  lemma IterationsNext(inst: Instance, draws: seq<seq<Draw>>, t: nat)
    requires inst.Valid() && AllDraws(draws, inst.Size()) && t < |draws|
    ensures Iterations(inst, draws, t + 1) == Iteration(inst, Iterations(inst, draws, t), draws[t])
  {
  }

  lemma IterationLowersBest(inst: Instance, draws: seq<seq<Draw>>, t: nat)
    requires inst.Valid() && AllDraws(draws, inst.Size()) && t < |draws|
    ensures Iterations(inst, draws, t + 1).bestP <= Iterations(inst, draws, t).bestP
  {
    IterationsNext(inst, draws, t);
    IterationProgress(inst, Iterations(inst, draws, t), draws[t]);
  }

  /** The `for neigh in self.neighborhoods` loop with its `continue` and `break`. */
  method Sweep(inst: Instance, current: seq<int>, bestP: real, ds: seq<Draw>)
    returns (current': seq<int>, best': seq<int>, bestP': real)
    requires inst.Valid() && IsPermutation(current, inst.Size()) && IterationDraws(ds, inst.Size())
    ensures SearchState(current', best', bestP') == Iteration(inst, SearchState(current, current, bestP), ds)
  {
    current', best', bestP' := current, current, bestP;
    for k := 0 to |Neighborhoods|
      invariant FirstImprovement(inst, current, bestP, ds, 0) == FirstImprovement(inst, current, bestP, ds, k)
      invariant current' == best' == current && bestP' == bestP
    {
      var candidate := Candidate(current, Neighborhoods[k], ds[k]);
      var times := DecodeTimes(candidate, inst.target);
      var ok := CheckSeparation(candidate, times, DEFAULT_SEPARATION);
      if !ok {
        continue;
      }
      var p := Penalty(inst, times);
      if p < bestP {
        best', bestP' := candidate, p;
        current' := candidate;
        break;
      }
    }
  }

  /** `run`: max_iter iterations from the identity order; returns best and best_p. */
  method Run(inst: Instance, maxIter: nat, draws: seq<seq<Draw>>) returns (best: seq<int>, bestP: real)
    requires inst.Valid() && |draws| == maxIter && AllDraws(draws, inst.Size())
    ensures SearchState(best, best, bestP) == Iterations(inst, draws, maxIter)
  {
    var n := inst.Size();
    var current := Iota(n);
    best := current;
    bestP := Penalty(inst, DecodeTimes(best, inst.target));
    IotaIsPermutation(n);
    var it := 0;
    while it < maxIter
      invariant 0 <= it <= maxIter
      invariant SearchState(current, best, bestP) == Iterations(inst, draws, it)
    {
      current, best, bestP := Sweep(inst, current, bestP, draws[it]);
      it := it + 1;
    }
  }
}
