/**
 The cost model and the feasibility check of the single-runway landing
 scheduler: the weighted earliness/lateness penalty of a vector of landing
 times, and the test that consecutive landings of an order are separated.
 */
module LandingScheduler {
  import opened Permutations

  /** The default `separation` argument of the separation check. */
  const DEFAULT_SEPARATION: real := 4.0

  /**
   One problem instance: five per-aircraft columns indexed by aircraft id,
   all of the same length because they are columns of one table.
   */
  datatype Instance = Instance(
    earliest: seq<real>,
    target: seq<real>,
    latest: seq<real>,
    alpha: seq<real>,
    beta: seq<real>)
  {
    predicate Valid()
    {
      |target| == |earliest| && |latest| == |earliest| &&
      |alpha| == |earliest| && |beta| == |earliest|
    }

    function Size(): nat
    {
      |earliest|
    }
  }

  /** Element-wise `np.maximum` of two reals. */
  function Max(x: real, y: real): real
  {
    if x >= y then x else y
  }

  /** `np.sum` of a vector. */
  function Sum(s: seq<real>): real
  {
    if s == [] then 0.0 else s[0] + Sum(s[1..])
  }

  lemma {:induction false} SumConcat(a: seq<real>, b: seq<real>)
    ensures Sum(a + b) == Sum(a) + Sum(b)
  {
    if a == [] {
      assert a + b == b;
    } else {
      assert (a + b)[1..] == a[1..] + b;
      SumConcat(a[1..], b);
    }
  }

  lemma {:induction false} SumNonNegative(s: seq<real>)
    requires forall k :: 0 <= k < |s| ==> s[k] >= 0.0
    ensures Sum(s) >= 0.0
  {
    if s != [] {
      SumNonNegative(s[1..]);
    }
  }

  lemma {:induction false} SumOfZeros(s: seq<real>)
    requires forall k :: 0 <= k < |s| ==> s[k] == 0.0
    ensures Sum(s) == 0.0
  {
    if s != [] {
      SumOfZeros(s[1..]);
    }
  }

  /** The vector `s` rearranged by `p`: position k receives `s[p[k]]`. */
  function Permute(s: seq<real>, p: seq<int>): (r: seq<real>)
    requires InRange(p, |s|)
    ensures |r| == |p|
    ensures forall k :: 0 <= k < |p| ==> r[k] == s[p[k]]
  {
    seq(|p|, k requires 0 <= k < |p| => s[p[k]])
  }

  /** `s` with the entry at position m taken out. */
  function Without(s: seq<real>, m: int): (r: seq<real>)
    requires 0 <= m < |s|
    ensures |r| == |s| - 1
    ensures forall k :: 0 <= k < |r| ==> r[k] == if k < m then s[k] else s[k + 1]
  {
    s[..m] + s[m + 1..]
  }

  lemma SumWithout(s: seq<real>, m: int)
    requires 0 <= m < |s|
    ensures Sum(s) == Sum(Without(s, m)) + s[m]
  {
    var before, after := s[..m], s[m + 1..];
    assert s == before + ([s[m]] + after);
    SumConcat(before, [s[m]] + after);
    assert Sum([s[m]] + after) == s[m] + Sum(after);
    SumConcat(before, after);
  }

  /** The ids of `p` other than m, renumbered so that they close the gap m leaves. */
  function Renumbered(p: seq<int>, m: int): (r: seq<int>)
    ensures |r| == |p|
    ensures forall k :: 0 <= k < |p| ==> r[k] == if p[k] < m then p[k] else p[k] - 1
  {
    seq(|p|, k requires 0 <= k < |p| => if p[k] < m then p[k] else p[k] - 1)
  }

  /** Dropping the last entry of a permutation and renumbering leaves a permutation. */
  lemma RenumberedIsPermutation(p: seq<int>, n: nat)
    requires IsPermutation(p, n) && n > 0
    ensures IsPermutation(Renumbered(p[..n - 1], p[n - 1]), n - 1)
  {
    var m := p[n - 1];
    var p0 := Renumbered(p[..n - 1], m);
    forall k | 0 <= k < n - 1 ensures 0 <= p0[k] < n - 1 {
      assert p[k] != p[n - 1];
    }
    forall i, j | 0 <= i < j < n - 1 ensures p0[i] != p0[j] {
      assert p[i] != p[j];
      assert p[i] != m && p[j] != m;
    }
  }

  /** Summation does not depend on the order of the summands. */
  lemma {:induction false} SumPermuted(s: seq<real>, p: seq<int>)
    requires IsPermutation(p, |s|)
    ensures Sum(Permute(s, p)) == Sum(s)
    decreases |s|
  {
    if |s| > 0 {
      var n := |s|;
      var m := p[n - 1];
      // drop the summand that p places last, and renumber the others
      var s0 := Without(s, m);
      var p0 := Renumbered(p[..n - 1], m);
      RenumberedIsPermutation(p, n);
      SumPermuted(s0, p0);
      var whole := Permute(s, p);
      assert Permute(s0, p0) == whole[..n - 1];
      assert whole == whole[..n - 1] + [s[m]];
      SumConcat(whole[..n - 1], [s[m]]);
      SumWithout(s, m);
    }
  }

  predicate Aligned(times: seq<real>, earliest: seq<real>, target: seq<real>, alpha: seq<real>, beta: seq<real>)
  {
    |earliest| == |times| && |target| == |times| && |alpha| == |times| && |beta| == |times|
  }

  /** The per-aircraft summands `alpha * earliness + beta * lateness`. */
  function Terms(times: seq<real>, earliest: seq<real>, target: seq<real>, alpha: seq<real>, beta: seq<real>): (r: seq<real>)
    requires Aligned(times, earliest, target, alpha, beta)
    ensures |r| == |times|
  {
    seq(|times|, i requires 0 <= i < |times| =>
      alpha[i] * Max(earliest[i] - times[i], 0.0) + beta[i] * Max(times[i] - target[i], 0.0))
  }

  /**
   `compute_penalty`: the total weighted earliness and lateness of `times`,
   aligned element by element with the id-indexed instance columns. `latest`
   is accepted and never read, so its length is not constrained either.
   */
  function ComputePenalty(times: seq<real>, earliest: seq<real>, target: seq<real>, latest: seq<real>,
                          alpha: seq<real>, beta: seq<real>): real
    requires Aligned(times, earliest, target, alpha, beta)
  {
    Sum(Terms(times, earliest, target, alpha, beta))
  }

  /** `compute_penalty(times, **data)` for an instance. */
  function Penalty(inst: Instance, times: seq<real>): real
    requires inst.Valid() && |times| == inst.Size()
  {
    ComputePenalty(times, inst.earliest, inst.target, inst.latest, inst.alpha, inst.beta)
  }

  /** With non-negative rates the penalty is never negative. */
  lemma PenaltyNonNegative(times: seq<real>, earliest: seq<real>, target: seq<real>, latest: seq<real>,
                           alpha: seq<real>, beta: seq<real>)
    requires Aligned(times, earliest, target, alpha, beta)
    requires forall i :: 0 <= i < |alpha| ==> alpha[i] >= 0.0 && beta[i] >= 0.0
    ensures ComputePenalty(times, earliest, target, latest, alpha, beta) >= 0.0
  {
    var terms := Terms(times, earliest, target, alpha, beta);
    forall k | 0 <= k < |terms| ensures terms[k] >= 0.0 {
      var e := Max(earliest[k] - times[k], 0.0);
      var l := Max(times[k] - target[k], 0.0);
      assert alpha[k] * e >= 0.0;
      assert beta[k] * l >= 0.0;
    }
    SumNonNegative(terms);
  }

  /** With all rates zero the penalty is zero, whatever the times. */
  lemma PenaltyZeroRates(times: seq<real>, earliest: seq<real>, target: seq<real>, latest: seq<real>,
                         alpha: seq<real>, beta: seq<real>)
    requires Aligned(times, earliest, target, alpha, beta)
    requires forall i :: 0 <= i < |alpha| ==> alpha[i] == 0.0 && beta[i] == 0.0
    ensures ComputePenalty(times, earliest, target, latest, alpha, beta) == 0.0
  {
    SumOfZeros(Terms(times, earliest, target, alpha, beta));
  }

  /** The penalty does not read `latest`. */
  lemma PenaltyIgnoresLatest(times: seq<real>, earliest: seq<real>, target: seq<real>,
                             latest: seq<real>, otherLatest: seq<real>, alpha: seq<real>, beta: seq<real>)
    requires Aligned(times, earliest, target, alpha, beta)
    ensures ComputePenalty(times, earliest, target, latest, alpha, beta)
         == ComputePenalty(times, earliest, target, otherLatest, alpha, beta)
  {
  }

  /** Jointly permuting every aligned column by one permutation keeps the penalty. */
  lemma PenaltyPermutationInvariant(times: seq<real>, earliest: seq<real>, target: seq<real>, latest: seq<real>,
                                    alpha: seq<real>, beta: seq<real>, p: seq<int>)
    requires Aligned(times, earliest, target, alpha, beta)
    requires IsPermutation(p, |times|)
    ensures ComputePenalty(Permute(times, p), Permute(earliest, p), Permute(target, p), latest,
                           Permute(alpha, p), Permute(beta, p))
         == ComputePenalty(times, earliest, target, latest, alpha, beta)
  {
    var terms := Terms(times, earliest, target, alpha, beta);
    var permuted := Terms(Permute(times, p), Permute(earliest, p), Permute(target, p), Permute(alpha, p), Permute(beta, p));
    forall k | 0 <= k < |times| ensures permuted[k] == Permute(terms, p)[k] {
      assert permuted[k] == terms[p[k]];
    }
    assert permuted == Permute(terms, p);
    SumPermuted(terms, p);
  }

  /** Landing every aircraft at its target, with earliest <= target, costs nothing. */
  lemma PenaltyOnTarget(times: seq<real>, earliest: seq<real>, target: seq<real>, latest: seq<real>,
                        alpha: seq<real>, beta: seq<real>)
    requires Aligned(times, earliest, target, alpha, beta)
    requires forall i :: 0 <= i < |times| ==> times[i] == target[i] && earliest[i] <= target[i]
    ensures ComputePenalty(times, earliest, target, latest, alpha, beta) == 0.0
  {
    SumOfZeros(Terms(times, earliest, target, alpha, beta));
  }

  /** The aircraft at positions k and k + 1 of `order` land at least `separation` apart. */
  predicate GapAt(order: seq<int>, times: seq<real>, separation: real, k: int)
    requires InRange(order, |times|) && 0 <= k < |order| - 1
  {
    times[order[k + 1]] - times[order[k]] >= separation
  }

  /** Every consecutive pair of `order` lands at least `separation` apart. */
  predicate Separated(order: seq<int>, times: seq<real>, separation: real)
    requires InRange(order, |times|)
  {
    forall k :: 0 <= k < |order| - 1 ==> GapAt(order, times, separation, k)
  }

  /**
   `check_separation`: scans consecutive pairs of `order` from the left and
   returns false at the first pair landing less than `separation` apart.
   `times` is read by aircraft id (`times[order[i]]`).
   */
  method CheckSeparation(order: seq<int>, times: seq<real>, separation: real) returns (ok: bool)
    requires InRange(order, |times|)
    ensures ok <==> Separated(order, times, separation)
    ensures |order| <= 1 ==> ok
  {
    var i := 0;
    while i < |order| - 1
      invariant 0 <= i <= |order|
      invariant forall k :: 0 <= k < i && k < |order| - 1 ==> GapAt(order, times, separation, k)
    {
      var a, b := order[i], order[i + 1];
      if times[b] - times[a] < separation {
        assert !GapAt(order, times, separation, i);
        return false;
      }
      i := i + 1;
    }
    return true;
  }
}
