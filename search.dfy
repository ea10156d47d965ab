/**
 What the three metaheuristics share: the random draw of two positions, the
 float('inf') score sentinel, and the way a candidate order is evaluated.
 Candidates are never repaired: each position simply gets the target time of
 the aircraft placed there, and that position-indexed vector is then read by
 aircraft id in the separation check and aligned with the id-indexed columns
 in the penalty.
 */
module Search {
  import opened Permutations
  import opened LandingScheduler

  /** One `random.sample(range(n), 2)`: two distinct positions, in draw order. */
  datatype Draw = Draw(i: int, j: int)
  {
    predicate Valid(n: int)
    {
      0 <= i < n && 0 <= j < n && i != j
    }

    /** `sorted(...)` of the two positions. */
    function Lo(): int
    {
      if i < j then i else j
    }

    function Hi(): int
    {
      if i < j then j else i
    }
  }

  /** One draw per iteration, each a pair of distinct positions of an order of n aircraft. */
  predicate ValidDraws(draws: seq<Draw>, n: int)
  {
    forall k :: 0 <= k < |draws| ==> draws[k].Valid(n)
  }

  datatype Option<T> = None | Some(value: T)

  /** A score that may be `float('inf')`. */
  datatype Score = Finite(value: real) | Infinite
  {
    /** Python's `<` on such scores: inf is below nothing, and every real is below inf. */
    predicate Below(other: Score)
    {
      match this
      case Infinite => false
      case Finite(x) => other.Infinite? || x < other.value
    }
  }

  lemma BelowIsStrictOrder(x: Score, y: Score, z: Score)
    ensures !x.Below(x)
    ensures x.Below(y) ==> !y.Below(x)
    ensures x.Below(y) && y.Below(z) ==> x.Below(z)
    ensures x != y ==> x.Below(y) || y.Below(x)
  {
  }

  /** `_decode_times`: position k gets the target time of the aircraft at position k. */
  function DecodeTimes(order: seq<int>, target: seq<real>): (times: seq<real>)
    requires InRange(order, |target|)
    ensures |times| == |order|
    ensures forall k :: 0 <= k < |order| ==> times[k] == target[order[k]]
  {
    seq(|order|, k requires 0 <= k < |order| => target[order[k]])
  }

  /** What `check_separation(order, times)` answers with the default separation, on the decoded times. */
  predicate Feasible(inst: Instance, order: seq<int>)
    requires inst.Valid() && |order| == inst.Size() && InRange(order, inst.Size())
  {
    Separated(order, DecodeTimes(order, inst.target), DEFAULT_SEPARATION)
  }

  /** `compute_penalty(decode_times(order), **data)`. */
  function OrderPenalty(inst: Instance, order: seq<int>): real
    requires inst.Valid() && |order| == inst.Size() && InRange(order, inst.Size())
  {
    Penalty(inst, DecodeTimes(order, inst.target))
  }

  /**
   What the separation check sees of a decoded order: the time it reads for
   the aircraft at position k is `target[order[order[k]]]`, the target of the
   aircraft whose id equals `order[k]` taken as a position, not the target of
   the aircraft at position k. The order is looked up twice.
   */
  lemma FeasibleReadsTwice(inst: Instance, order: seq<int>)
    requires inst.Valid() && |order| == inst.Size() && InRange(order, inst.Size())
    ensures Feasible(inst, order) <==>
      forall k :: 0 <= k < |order| - 1 ==>
        inst.target[order[order[k + 1]]] - inst.target[order[order[k]]] >= DEFAULT_SEPARATION
  {
    var times := DecodeTimes(order, inst.target);
    assert forall k :: 0 <= k < |order| - 1 ==>
      (GapAt(order, times, DEFAULT_SEPARATION, k) <==>
       inst.target[order[order[k + 1]]] - inst.target[order[order[k]]] >= DEFAULT_SEPARATION);
  }

  /** Summand k of the penalty of a decoded order, aligned with the columns of aircraft k. */
  function DecodedTerm(inst: Instance, order: seq<int>, k: int): real
    requires inst.Valid() && |order| == inst.Size() && InRange(order, inst.Size()) && 0 <= k < |order|
  {
    inst.alpha[k] * Max(inst.earliest[k] - inst.target[order[k]], 0.0) +
    inst.beta[k] * Max(inst.target[order[k]] - inst.target[k], 0.0)
  }

  /**
   What the penalty charges for a decoded order: aircraft k's earliness and
   lateness are measured against the target time of the aircraft at position
   k, not against aircraft k's own landing time.
   */
  lemma OrderPenaltyMixesIds(inst: Instance, order: seq<int>)
    requires inst.Valid() && |order| == inst.Size() && InRange(order, inst.Size())
    ensures OrderPenalty(inst, order) == Sum(seq(|order|, k requires 0 <= k < |order| => DecodedTerm(inst, order, k)))
  {
    var times := DecodeTimes(order, inst.target);
    var terms := Terms(times, inst.earliest, inst.target, inst.alpha, inst.beta);
    var decoded := seq(|order|, k requires 0 <= k < |order| => DecodedTerm(inst, order, k));
    forall k | 0 <= k < |order| ensures terms[k] == decoded[k] {
      assert times[k] == inst.target[order[k]];
    }
    assert terms == decoded;
  }

  /**
   The starting order `list(range(n))` decodes to the target vector itself,
   so whenever no target is below its earliest time it costs nothing.
   */
  lemma IdentityOrderCostsNothing(inst: Instance)
    requires inst.Valid()
    requires forall i :: 0 <= i < inst.Size() ==> inst.earliest[i] <= inst.target[i]
    ensures IsPermutation(Iota(inst.Size()), inst.Size())
    ensures OrderPenalty(inst, Iota(inst.Size())) == 0.0
  {
    var n := inst.Size();
    IotaIsPermutation(n);
    assert DecodeTimes(Iota(n), inst.target) == inst.target;
    PenaltyOnTarget(inst.target, inst.earliest, inst.target, inst.latest, inst.alpha, inst.beta);
  }
}
