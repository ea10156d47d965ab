/**
 The greedy baseline: land the aircraft in ascending target order (a stable
 sort of the ids), push each landing to the latest of its earliest time, its
 target time and the previous landing plus the separation, then scatter the
 position-indexed times back to a per-aircraft vector and score it.
 */
module Baseline {
  import opened Permutations
  import opened LandingScheduler

  /** The global separation constant of the experiment driver. */
  const SEP: real := 4.0

  /** Id x comes before id y in a stable sort of the ids by target time. */
  predicate Precedes(target: seq<real>, x: int, y: int)
    requires 0 <= x < |target| && 0 <= y < |target|
  {
    target[x] < target[y] || (target[x] == target[y] && x < y)
  }

  predicate SortedByTarget(order: seq<int>, target: seq<real>)
    requires InRange(order, |target|)
  {
    forall p, q :: 0 <= p < q < |order| ==> Precedes(target, order[p], order[q])
  }

  /**
   `sorted(range(n), key=lambda i: target[i])`: ids in non-decreasing target
   order, ties in ascending id because Python's sort is stable. Built here by
   inserting each id after every id already placed whose target is not larger.
   */
  method TargetOrder(target: seq<real>) returns (order: seq<int>)
    ensures IsPermutation(order, |target|)
    ensures SortedByTarget(order, target)
  {
    order := [];
    for id := 0 to |target|
      invariant IsPermutation(order, id)
      invariant InRange(order, |target|)
      invariant SortedByTarget(order, target)
    {
      var pos := 0;
      while pos < |order| && target[order[pos]] <= target[id]
        invariant 0 <= pos <= |order|
        invariant forall k :: 0 <= k < pos ==> target[order[k]] <= target[id]
      {
        pos := pos + 1;
      }
      InsertSorted(order, target, id, pos);
      order := order[..pos] + [id] + order[pos..];
    }
  }

  /**
   Inserting id right after the ids whose target is not larger, in an order
   of the ids below id, keeps it sorted and makes it an order of the ids up to id.
   */
  lemma InsertSorted(order: seq<int>, target: seq<real>, id: int, pos: int)
    requires 0 <= id < |target| && IsPermutation(order, id) && InRange(order, |target|)
    requires SortedByTarget(order, target)
    requires 0 <= pos <= |order|
    requires forall k :: 0 <= k < pos ==> target[order[k]] <= target[id]
    requires pos < |order| ==> target[order[pos]] > target[id]
    ensures IsPermutation(order[..pos] + [id] + order[pos..], id + 1)
    ensures InRange(order[..pos] + [id] + order[pos..], |target|)
    ensures SortedByTarget(order[..pos] + [id] + order[pos..], target)
  {
    InsertKeepsIds(order, |target|, id, pos);
    // every id from pos on has a larger target than id
    forall k | pos <= k < |order| ensures target[order[k]] > target[id] {
      if k > pos {
        assert Precedes(target, order[pos], order[k]);
      }
    }
    var next := order[..pos] + [id] + order[pos..];
    assert forall k :: 0 <= k < |next| ==> next[k] == if k < pos then order[k] else if k == pos then id else order[k - 1];
    forall p, q | 0 <= p < q < |next| ensures Precedes(target, next[p], next[q]) {
      if q < pos || p > pos {
        var p', q' := if p < pos then p else p - 1, if q < pos then q else q - 1;
        assert Precedes(target, order[p'], order[q']);
      }
    }
  }

  /** Inserting id anywhere into an order of the ids below id gives an order of the ids up to id. */
  lemma InsertKeepsIds(order: seq<int>, n: int, id: int, pos: int)
    requires 0 <= id < n && IsPermutation(order, id) && InRange(order, n) && 0 <= pos <= |order|
    ensures IsPermutation(order[..pos] + [id] + order[pos..], id + 1)
    ensures InRange(order[..pos] + [id] + order[pos..], n)
  {
  }

  lemma PrecedesAsymmetric(target: seq<real>, x: int, y: int)
    requires 0 <= x < |target| && 0 <= y < |target|
    ensures !(Precedes(target, x, y) && Precedes(target, y, x))
  {
  }

  /** The head of a target-sorted sequence precedes every other id in it. */
  lemma HeadIsLeast(a: seq<int>, target: seq<real>)
    requires a != [] && InRange(a, |target|) && SortedByTarget(a, target)
    ensures forall x :: x in a && x != a[0] ==> Precedes(target, a[0], x)
  {
    forall x | x in a && x != a[0] ensures Precedes(target, a[0], x) {
      var k :| 0 <= k < |a| && a[k] == x;
      assert k != 0;
    }
  }

  lemma SortedHeadsAgree(a: seq<int>, b: seq<int>, target: seq<real>)
    requires a != [] && b != []
    requires InRange(a, |target|) && InRange(b, |target|)
    requires Elements(a) == Elements(b)
    requires SortedByTarget(a, target) && SortedByTarget(b, target)
    ensures a[0] == b[0]
  {
    HeadIsLeast(a, target);
    HeadIsLeast(b, target);
    assert a[0] in Elements(b) && b[0] in Elements(a);
    PrecedesAsymmetric(target, a[0], b[0]);
  }

  lemma ElementsOfTail(a: seq<int>)
    requires a != [] && Distinct(a)
    ensures Elements(a[1..]) == Elements(a) - {a[0]}
  {
    assert a == [a[0]] + a[1..];
    assert a[0] !in a[1..];
  }

  /** Two target-sorted sequences of the same distinct ids are equal: the order is unique. */
  lemma {:induction false} SortedOrderUnique(a: seq<int>, b: seq<int>, target: seq<real>)
    requires InRange(a, |target|) && InRange(b, |target|)
    requires Distinct(a) && Distinct(b) && Elements(a) == Elements(b)
    requires SortedByTarget(a, target) && SortedByTarget(b, target)
    ensures a == b
  {
    DistinctCardinality(a);
    DistinctCardinality(b);
    if a != [] {
      SortedHeadsAgree(a, b, target);
      ElementsOfTail(a);
      ElementsOfTail(b);
      SortedOrderUnique(a[1..], b[1..], target);
      assert a == [a[0]] + a[1..] && b == [b[0]] + b[1..];
    }
  }

  /**
   The position-indexed landing times `pos_times` of `order`: the first
   aircraft lands at max(earliest, target); each later one at the max of its
   earliest, its target and the previous landing plus `sep`.
   */
  function LandingTimes(order: seq<int>, earliest: seq<real>, target: seq<real>, sep: real): (r: seq<real>)
    requires |target| == |earliest| && InRange(order, |earliest|)
    ensures |r| == |order|
    decreases |order|
  {
    if order == [] then []
    else
      var prev := LandingTimes(order[..|order| - 1], earliest, target, sep);
      var ac := order[|order| - 1];
      var t := if prev == [] then Max(earliest[ac], target[ac])
               else Max(Max(earliest[ac], target[ac]), prev[|prev| - 1] + sep);
      prev + [t]
  }

  /** Each landing time is the max of its own bounds and, after the first, the previous landing plus sep. */
  lemma {:induction false} LandingTimesAt(order: seq<int>, earliest: seq<real>, target: seq<real>, sep: real, pos: int)
    requires |target| == |earliest| && InRange(order, |earliest|)
    requires 0 <= pos < |order|
    ensures LandingTimes(order, earliest, target, sep)[pos] ==
      if pos == 0 then Max(earliest[order[0]], target[order[0]])
      else Max(Max(earliest[order[pos]], target[order[pos]]), LandingTimes(order, earliest, target, sep)[pos - 1] + sep)
    decreases |order|
  {
    var init := order[..|order| - 1];
    if pos < |order| - 1 {
      LandingTimesAt(init, earliest, target, sep, pos);
      assert init[pos] == order[pos];
      assert init[0] == order[0];
    }
  }

  /** The baseline never lands an aircraft before its earliest or its target time, and keeps the gaps. */
  lemma LandingTimesRespectBounds(order: seq<int>, earliest: seq<real>, target: seq<real>, sep: real, pos: int)
    requires |target| == |earliest| && InRange(order, |earliest|)
    requires 0 <= pos < |order|
    ensures LandingTimes(order, earliest, target, sep)[pos] >= earliest[order[pos]]
    ensures LandingTimes(order, earliest, target, sep)[pos] >= target[order[pos]]
    ensures pos > 0 ==> LandingTimes(order, earliest, target, sep)[pos]
                        - LandingTimes(order, earliest, target, sep)[pos - 1] >= sep
  {
    LandingTimesAt(order, earliest, target, sep, pos);
  }

  /** Each landing time is exactly one of its bounds: no aircraft is pushed later than needed. */
  lemma LandingTimesTight(order: seq<int>, earliest: seq<real>, target: seq<real>, sep: real, pos: int)
    requires |target| == |earliest| && InRange(order, |earliest|)
    requires 0 <= pos < |order|
    ensures var t := LandingTimes(order, earliest, target, sep);
      t[pos] == earliest[order[pos]] || t[pos] == target[order[pos]] ||
      (pos > 0 && t[pos] == t[pos - 1] + sep)
  {
    LandingTimesAt(order, earliest, target, sep, pos);
  }

  /** With a positive separation the landing times strictly increase along the order. */
  lemma {:induction false} LandingTimesIncreasing(order: seq<int>, earliest: seq<real>, target: seq<real>, sep: real, p: int, q: int)
    requires |target| == |earliest| && InRange(order, |earliest|)
    requires sep > 0.0 && 0 <= p < q < |order|
    ensures LandingTimes(order, earliest, target, sep)[p] < LandingTimes(order, earliest, target, sep)[q]
    decreases q - p
  {
    LandingTimesRespectBounds(order, earliest, target, sep, q);
    if p < q - 1 {
      LandingTimesIncreasing(order, earliest, target, sep, p, q - 1);
    }
  }

  /** The per-aircraft lateness summands `beta * (times - target)`. */
  function LatenessTerms(times: seq<real>, target: seq<real>, beta: seq<real>): (r: seq<real>)
    requires |target| == |times| && |beta| == |times|
    ensures |r| == |times|
  {
    seq(|times|, i requires 0 <= i < |times| => beta[i] * (times[i] - target[i]))
  }

  /** The scatter relation: the aircraft at position pos gets the time of that position. */
  predicate Scattered(order: seq<int>, posTimes: seq<real>, timesById: seq<real>)
    requires InRange(order, |timesById|) && |posTimes| == |order|
  {
    forall pos :: 0 <= pos < |order| ==> timesById[order[pos]] == posTimes[pos]
  }

  /** Scattering the baseline's position times back to aircraft ids keeps the separation check true. */
  lemma ScatteredSeparated(inst: Instance, order: seq<int>, posTimes: seq<real>, timesById: seq<real>)
    requires inst.Valid() && IsPermutation(order, inst.Size()) && |timesById| == inst.Size()
    requires posTimes == LandingTimes(order, inst.earliest, inst.target, SEP)
    requires Scattered(order, posTimes, timesById)
    ensures Separated(order, timesById, SEP)
  {
    forall k | 0 <= k < |order| - 1 ensures timesById[order[k + 1]] - timesById[order[k]] >= SEP {
      LandingTimesRespectBounds(order, inst.earliest, inst.target, SEP, k + 1);
    }
  }

  /** After the scatter no aircraft lands before its earliest or its target time. */
  lemma ScatteredNotEarly(inst: Instance, order: seq<int>, posTimes: seq<real>, timesById: seq<real>, id: int)
    requires inst.Valid() && IsPermutation(order, inst.Size()) && |timesById| == inst.Size()
    requires posTimes == LandingTimes(order, inst.earliest, inst.target, SEP)
    requires Scattered(order, posTimes, timesById)
    requires 0 <= id < inst.Size()
    ensures timesById[id] >= inst.earliest[id] && timesById[id] >= inst.target[id]
  {
    PermutationCovers(order, inst.Size());
    assert id in order;
    var pos :| 0 <= pos < |order| && order[pos] == id;
    LandingTimesRespectBounds(order, inst.earliest, inst.target, SEP, pos);
  }

  lemma LateOnlyTerm(alpha: real, beta: real, earliest: real, target: real, t: real)
    requires t >= earliest && t >= target
    ensures alpha * Max(earliest - t, 0.0) + beta * Max(t - target, 0.0) == beta * (t - target)
  {
    assert Max(earliest - t, 0.0) == 0.0;
    assert Max(t - target, 0.0) == t - target;
  }

  /** When no aircraft lands early the penalty is pure lateness. */
  lemma LatenessOnly(inst: Instance, timesById: seq<real>)
    requires inst.Valid() && |timesById| == inst.Size()
    requires forall id :: 0 <= id < inst.Size() ==> timesById[id] >= inst.earliest[id] && timesById[id] >= inst.target[id]
    ensures Penalty(inst, timesById) == Sum(LatenessTerms(timesById, inst.target, inst.beta))
  {
    var terms := Terms(timesById, inst.earliest, inst.target, inst.alpha, inst.beta);
    var late := LatenessTerms(timesById, inst.target, inst.beta);
    forall id | 0 <= id < inst.Size() ensures terms[id] == late[id] {
      LateOnlyTerm(inst.alpha[id], inst.beta[id], inst.earliest[id], inst.target[id], timesById[id]);
    }
    assert terms == late;
  }

  /**
   The `pos_times` loop of `run_baseline`: fills an array of zeros position
   by position, each entry reading the one before it.
   */
  method PushLater(order: seq<int>, earliest: seq<real>, target: seq<real>) returns (posTimes: seq<real>)
    requires |target| == |earliest| && InRange(order, |earliest|)
    ensures posTimes == LandingTimes(order, earliest, target, SEP)
  {
    var n := |order|;
    var pt := new real[n](_ => 0.0);
    for pos := 0 to n
      invariant pt[..pos] == LandingTimes(order[..pos], earliest, target, SEP)
    {
      var ac := order[pos];
      var tPref, tEar := target[ac], earliest[ac];
      pt[pos] := if pos == 0 then Max(tEar, tPref) else Max(Max(tEar, tPref), pt[pos - 1] + SEP);
      assert order[..pos + 1][..pos] == order[..pos];
      assert pt[..pos + 1] == pt[..pos] + [pt[pos]];
    }
    assert order[..n] == order;
    posTimes := pt[..];
  }

  /**
   The `times_by_id` loop of `run_baseline`: writes each position's time at
   the index of the aircraft landing there, over an array of zeros.
   */
  method ScatterById(order: seq<int>, posTimes: seq<real>) returns (timesById: seq<real>)
    requires IsPermutation(order, |order|) && |posTimes| == |order|
    ensures |timesById| == |order|
    ensures Scattered(order, posTimes, timesById)
  {
    var n := |order|;
    var tb := new real[n](_ => 0.0);
    for pos := 0 to n
      invariant forall q :: 0 <= q < pos ==> tb[order[q]] == posTimes[q]
    {
      tb[order[pos]] := posTimes[pos];
    }
    timesById := tb[..];
  }

  /**
   `run_baseline`: the target order, its landing times by position, the same
   times by aircraft id, and the penalty of the latter.
   */
  method RunBaseline(inst: Instance) returns (order: seq<int>, posTimes: seq<real>, timesById: seq<real>, penalty: real)
    requires inst.Valid()
    ensures IsPermutation(order, inst.Size()) && SortedByTarget(order, inst.target)
    ensures posTimes == LandingTimes(order, inst.earliest, inst.target, SEP)
    ensures |timesById| == inst.Size()
    ensures Scattered(order, posTimes, timesById)
    ensures Separated(order, timesById, SEP)
    ensures penalty == Penalty(inst, timesById)
    ensures penalty == Sum(LatenessTerms(timesById, inst.target, inst.beta))
  {
    order := TargetOrder(inst.target);
    posTimes := PushLater(order, inst.earliest, inst.target);
    timesById := ScatterById(order, posTimes);
    ScatteredSeparated(inst, order, posTimes, timesById);
    forall id | 0 <= id < inst.Size() ensures timesById[id] >= inst.earliest[id] && timesById[id] >= inst.target[id] {
      ScatteredNotEarly(inst, order, posTimes, timesById, id);
    }
    LatenessOnly(inst, timesById);
    penalty := Penalty(inst, timesById);
  }
}
