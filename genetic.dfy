/**
 The genetic algorithm over landing orders. Every generation scores its
 population (an order failing the separation check scores infinity), keeps
 the best order seen so far, fills a mating pool by binary tournaments, and
 breeds the pool pairwise with order crossover and swap mutation.

 The random draws are parameters: the initial population, and per
 generation one `Draw` per tournament and one `Pairing` per pair of parents.
 */
module Genetic {
  import opened Permutations
  import opened LandingScheduler
  import opened Search

  /** Every individual of `pop` is an order of the n aircraft. */
  predicate Population(pop: seq<seq<int>>, n: nat)
  {
    forall k :: 0 <= k < |pop| ==> IsPermutation(pop[k], n)
  }

  lemma PopulationConcat(a: seq<seq<int>>, b: seq<seq<int>>, n: nat)
    requires Population(a, n) && Population(b, n)
    ensures Population(a + b, n)
  {
    forall k | 0 <= k < |a| + |b| ensures IsPermutation((a + b)[k], n) {
      if k < |a| {
        assert (a + b)[k] == a[k];
      } else {
        assert (a + b)[k] == b[k - |a|];
      }
    }
  }

  // ---------------------------------------------------------------------
  // Order crossover

  /** `[x for x in s if x not in excluded]`. */
  function Fill(s: seq<int>, excluded: seq<int>): (r: seq<int>)
    ensures |r| <= |s|
  {
    if s == [] then []
    else (if s[0] in excluded then [] else [s[0]]) + Fill(s[1..], excluded)
  }

  /** The fill holds exactly the elements of `s` that are not excluded. */
  lemma {:induction false} FillMembers(s: seq<int>, excluded: seq<int>)
    ensures forall x :: x in Fill(s, excluded) <==> x in s && x !in excluded
  {
    if s != [] {
      FillMembers(s[1..], excluded);
      assert s == [s[0]] + s[1..];
    }
  }

  /** Filtering keeps the left-to-right order, so a sequence without repeats stays without repeats. */
  lemma {:induction false} FillDistinct(s: seq<int>, excluded: seq<int>)
    requires Distinct(s)
    ensures Distinct(Fill(s, excluded))
  {
    if s != [] {
      assert Distinct(s[1..]);
      FillDistinct(s[1..], excluded);
      FillMembers(s[1..], excluded);
      assert s[0] !in s[1..];
    }
  }

  /** Only membership in the exclusion list matters. */
  lemma {:induction false} FillSameExclusion(s: seq<int>, e1: seq<int>, e2: seq<int>)
    requires forall k :: 0 <= k < |s| ==> (s[k] in e1 <==> s[k] in e2)
    ensures Fill(s, e1) == Fill(s, e2)
  {
    if s != [] {
      assert forall k :: 0 <= k < |s| - 1 ==> s[1..][k] == s[k + 1];
      FillSameExclusion(s[1..], e1, e2);
    }
  }

  /**
   Filtering a permutation of 0..n-1 by b - a distinct ids of the same range
   leaves n - (b - a) ids: the `idx` counter of the crossover never overruns.
   */
  lemma FillSize(p1: seq<int>, p2: seq<int>, a: int, b: int)
    requires IsPermutation(p1, |p1|) && IsPermutation(p2, |p1|) && 0 <= a <= b <= |p1|
    ensures |Fill(p2, p1[a..b])| == |p1| - (b - a)
  {
    var n := |p1|;
    var kept := p1[a..b];
    var fill := Fill(p2, kept);
    FillMembers(p2, kept);
    FillDistinct(p2, kept);
    PermutationCovers(p2, n);
    assert Distinct(kept);
    forall x | x in Elements(fill) ensures x in IdRange(n) - Elements(kept) {
      assert Iota(n)[x] == x;
    }
    forall x | x in IdRange(n) - Elements(kept) ensures x in Elements(fill) {
    }
    assert Elements(fill) == IdRange(n) - Elements(kept);
    assert Elements(kept) <= IdRange(n) by {
      forall x | x in Elements(kept) ensures x in IdRange(n) {
        assert Iota(n)[x] == x;
      }
    }
    assert IdRange(n) * Elements(kept) == Elements(kept);
    DistinctCardinality(fill);
    DistinctCardinality(kept);
    DistinctCardinality(Iota(n));
  }

  /**
   What `_crossover(p1, p2)` returns for the cut points a < b: p1's slice
   [a, b) in place, and the other positions, left to right, filled with the
   ids of p2 that are not in that slice, in p2's order.
   */
  function OrderCrossover(p1: seq<int>, p2: seq<int>, a: int, b: int): (child: seq<int>)
    requires IsPermutation(p1, |p1|) && IsPermutation(p2, |p1|) && 0 <= a <= b <= |p1|
    ensures |child| == |p1|
  {
    var fill := Fill(p2, p1[a..b]);
    FillSize(p1, p2, a, b);
    fill[..a] + p1[a..b] + fill[a..]
  }

  /** The crossover child keeps p1's slice in place and has p2's remaining ids, in p2's order, around it. */
  lemma CrossoverShape(p1: seq<int>, p2: seq<int>, a: int, b: int)
    requires IsPermutation(p1, |p1|) && IsPermutation(p2, |p1|) && 0 <= a <= b <= |p1|
    ensures var child := OrderCrossover(p1, p2, a, b);
            child[a..b] == p1[a..b] && child[..a] + child[b..] == Fill(p2, p1[a..b])
  {
    var fill := Fill(p2, p1[a..b]);
    FillSize(p1, p2, a, b);
    var child := OrderCrossover(p1, p2, a, b);
    assert child[..a] == fill[..a];
    assert child[a..b] == p1[a..b];
    assert child[b..] == fill[a..];
    assert fill == fill[..a] + fill[a..];
  }

  /** The entry at one position of the crossover child. */
  lemma CrossoverEntry(p1: seq<int>, p2: seq<int>, a: int, b: int, k: int)
    requires IsPermutation(p1, |p1|) && IsPermutation(p2, |p1|) && 0 <= a <= b <= |p1| && 0 <= k < |p1|
    ensures |Fill(p2, p1[a..b])| == |p1| - (b - a)
    ensures k < a ==> OrderCrossover(p1, p2, a, b)[k] == Fill(p2, p1[a..b])[k]
    ensures a <= k < b ==> OrderCrossover(p1, p2, a, b)[k] == p1[a..b][k - a]
    ensures b <= k ==> OrderCrossover(p1, p2, a, b)[k] == Fill(p2, p1[a..b])[k - (b - a)]
  {
    CrossoverAt(p1, p2, a, b);
  }

  /** Two positions of the crossover child never hold the same id. */
  lemma CrossoverDistinctAt(p1: seq<int>, p2: seq<int>, a: int, b: int, p: int, q: int)
    requires IsPermutation(p1, |p1|) && IsPermutation(p2, |p1|) && 0 <= a <= b <= |p1|
    requires 0 <= p < q < |p1|
    ensures OrderCrossover(p1, p2, a, b)[p] != OrderCrossover(p1, p2, a, b)[q]
  {
    var kept := p1[a..b];
    var fill := Fill(p2, kept);
    CrossoverEntry(p1, p2, a, b, p);
    CrossoverEntry(p1, p2, a, b, q);
    var inP, inQ := a <= p < b, a <= q < b;
    var mp := if p < a then p else p - (b - a);
    var mq := if q < a then q else q - (b - a);
    if inP && inQ {
      assert kept[p - a] == p1[p] && kept[q - a] == p1[q];
    } else if !inP && !inQ {
      FillDistinct(p2, kept);
    } else if inP {
      FillMembers(p2, kept);
      assert fill[mq] in fill;
    } else {
      FillMembers(p2, kept);
      assert fill[mp] in fill;
    }
  }

  /** The crossover child is itself an order of all n aircraft. */
  lemma CrossoverIsPermutation(p1: seq<int>, p2: seq<int>, a: int, b: int)
    requires IsPermutation(p1, |p1|) && IsPermutation(p2, |p1|) && 0 <= a <= b <= |p1|
    ensures IsPermutation(OrderCrossover(p1, p2, a, b), |p1|)
  {
    var n := |p1|;
    var kept := p1[a..b];
    var fill := Fill(p2, kept);
    FillMembers(p2, kept);
    var child := OrderCrossover(p1, p2, a, b);
    forall k | 0 <= k < n ensures 0 <= child[k] < n {
      CrossoverEntry(p1, p2, a, b, k);
      if !(a <= k < b) {
        var m := if k < a then k else k - (b - a);
        assert fill[m] in fill;
        var i :| 0 <= i < n && p2[i] == fill[m];
      }
    }
    forall p, q | 0 <= p < q < n ensures child[p] != child[q] {
      CrossoverDistinctAt(p1, p2, a, b, p, q);
    }
  }

  /** The child before filling: p1's slice [a, b) in place and -1 everywhere else. */
  function Seeded(p1: seq<int>, a: int, b: int): (child: seq<int>)
    ensures |child| == |p1|
  {
    seq(|p1|, k requires 0 <= k < |p1| => if a <= k < b then p1[k] else -1)
  }

  /** `x not in child` on the seeded child excludes exactly p1's slice, since ids are never -1. */
  lemma SeededFill(p1: seq<int>, p2: seq<int>, a: int, b: int)
    requires IsPermutation(p1, |p1|) && IsPermutation(p2, |p1|) && 0 <= a <= b <= |p1|
    ensures Fill(p2, Seeded(p1, a, b)) == Fill(p2, p1[a..b])
  {
    var c := Seeded(p1, a, b);
    forall m | 0 <= m < |p2| ensures p2[m] in c <==> p2[m] in p1[a..b] {
      var x := p2[m];
      if x in c {
        var k :| 0 <= k < |c| && c[k] == x;
        assert a <= k < b;
        assert p1[a..b][k - a] == x;
      }
      if x in p1[a..b] {
        var k :| 0 <= k < b - a && p1[a..b][k] == x;
        assert c[a + k] == x;
      }
    }
    FillSameExclusion(p2, c, p1[a..b]);
  }

  /** Position by position: the fill before a, p1 on [a, b), the rest of the fill after b. */
  lemma CrossoverAt(p1: seq<int>, p2: seq<int>, a: int, b: int)
    requires IsPermutation(p1, |p1|) && IsPermutation(p2, |p1|) && 0 <= a <= b <= |p1|
    ensures |Fill(p2, p1[a..b])| == |p1| - (b - a)
    ensures forall k :: 0 <= k < |p1| ==>
      OrderCrossover(p1, p2, a, b)[k] == (if k < a then Fill(p2, p1[a..b])[k] else if k < b then p1[k] else Fill(p2, p1[a..b])[k - (b - a)])
  {
    FillSize(p1, p2, a, b);
    var fill := Fill(p2, p1[a..b]);
    var child := OrderCrossover(p1, p2, a, b);
    assert child == fill[..a] + p1[a..b] + fill[a..];
    forall k | 0 <= k < |p1|
      ensures child[k] == (if k < a then fill[k] else if k < b then p1[k] else fill[k - (b - a)])
    {
      if k < a {
        assert child[k] == fill[..a][k];
      } else if k < b {
        assert child[k] == p1[a..b][k - a];
      } else {
        assert child[k] == fill[a..][k - b];
      }
    }
  }

  /**
   `_crossover`: `a, b = sorted(random.sample(range(n), 2))`, a child of -1s
   with p1's slice [a, b) copied in, the fill list, and the left-to-right loop
   that writes the next fill id into every position still holding -1.
   */
  method Crossover(p1: seq<int>, p2: seq<int>, d: Draw) returns (child: array<int>)
    requires IsPermutation(p1, |p1|) && IsPermutation(p2, |p1|) && d.Valid(|p1|)
    ensures fresh(child)
    ensures child[..] == OrderCrossover(p1, p2, d.Lo(), d.Hi())
  {
    var n := |p1|;
    var a, b := d.Lo(), d.Hi();
    child := new int[n](k requires 0 <= k < n => if a <= k < b then p1[k] else -1);
    assert child[..] == Seeded(p1, a, b);
    var fill := Fill(p2, child[..]);
    SeededFill(p1, p2, a, b);
    FillSize(p1, p2, a, b);
    FillGaps(child, p1, fill, a, b);
    GapsMakeCrossover(p1, p2, a, b, fill, child[..]);
  }

  /** A sequence laid out as the fill before a, p1 on [a, b) and the rest of the fill after b is the crossover child. */
  lemma GapsMakeCrossover(p1: seq<int>, p2: seq<int>, a: int, b: int, fill: seq<int>, c: seq<int>)
    requires IsPermutation(p1, |p1|) && IsPermutation(p2, |p1|) && 0 <= a <= b <= |p1|
    requires fill == Fill(p2, p1[a..b]) && |fill| == |p1| - (b - a) && |c| == |p1|
    requires forall k {:trigger c[k]} :: 0 <= k < |p1| ==> c[k] == (if k < a then fill[k] else if k < b then p1[k] else fill[k - (b - a)])
    ensures c == OrderCrossover(p1, p2, a, b)
  {
    CrossoverAt(p1, p2, a, b);
    var child := OrderCrossover(p1, p2, a, b);
    forall k | 0 <= k < |p1| ensures c[k] == child[k] {
    }
  }

  /**
   The loop of `_crossover` that walks the child from the left and writes the
   next fill id into every slot still holding -1; p1's slice is left alone.
   */
  method FillGaps(child: array<int>, p1: seq<int>, fill: seq<int>, a: int, b: int)
    requires child.Length == |p1| && InRange(p1, |p1|) && 0 <= a <= b <= |p1| && |fill| == |p1| - (b - a)
    requires forall k :: 0 <= k < |p1| ==> child[k] == if a <= k < b then p1[k] else -1
    modifies child
    ensures forall k {:trigger child[k]} :: 0 <= k < |p1| ==>
      child[k] == if k < a then fill[k] else if k < b then p1[k] else fill[k - (b - a)]
  {
    var n := |p1|;
    var idx := 0;
    for i := 0 to n
      invariant idx == if i <= a then i else if i <= b then a else i - (b - a)
      invariant forall k {:trigger child[k]} :: 0 <= k < n ==>
        child[k] == (if k >= i then (if a <= k < b then p1[k] else -1)
                     else if k < a then fill[k] else if k < b then p1[k] else fill[k - (b - a)])
    {
      if child[i] < 0 {
        child[i] := fill[idx];
        idx := idx + 1;
      }
    }
  }

  // ---------------------------------------------------------------------
  // Mutation

  /** The individual after `_mutate`: its positions i and j exchanged when the coin says so. */
  function Mutated(individual: seq<int>, flip: bool, d: Draw): seq<int>
    requires flip ==> d.Valid(|individual|)
  {
    if flip then Swapped(individual, d.i, d.j) else individual
  }

  /** Mutation keeps the multiset of ids and changes at most the two drawn positions, which it exchanges. */
  lemma MutatedChangesAtMostTwo(individual: seq<int>, flip: bool, d: Draw)
    requires flip ==> d.Valid(|individual|)
    ensures multiset(Mutated(individual, flip, d)) == multiset(individual)
    ensures !flip ==> Mutated(individual, flip, d) == individual
    ensures flip ==> Mutated(individual, flip, d)[d.i] == individual[d.j] && Mutated(individual, flip, d)[d.j] == individual[d.i]
    ensures forall k :: 0 <= k < |individual| && !(flip && (k == d.i || k == d.j)) ==> Mutated(individual, flip, d)[k] == individual[k]
  {
    if flip {
      SwappedExchanges(individual, d.i, d.j);
    }
  }

  /** Mutation keeps an order of the n aircraft an order of the n aircraft. */
  lemma MutatedIsPermutation(individual: seq<int>, flip: bool, d: Draw)
    requires IsPermutation(individual, |individual|) && (flip ==> d.Valid(|individual|))
    ensures IsPermutation(Mutated(individual, flip, d), |individual|)
  {
    if flip {
      SwappedExchanges(individual, d.i, d.j);
      SameElementsPermutation(individual, Swapped(individual, d.i, d.j), |individual|);
    }
  }

  /** `_mutate`: `if random.random() < self.mut_rate`, exchange two distinct random positions in place. */
  method Mutate(individual: array<int>, flip: bool, d: Draw)
    requires flip ==> d.Valid(individual.Length)
    modifies individual
    ensures individual[..] == Mutated(old(individual[..]), flip, d)
  {
    if flip {
      individual[d.i], individual[d.j] := individual[d.j], individual[d.i];
    }
  }

  // ---------------------------------------------------------------------
  // One pair of parents

  /**
   The draws for one pair of parents: whether they cross (`random.random() <
   self.cx_rate`), the cut points of each crossover, and whether and where
   each child mutates. Draws that are not used need not be valid.
   */
  datatype Pairing = Pairing(cross: bool, cut1: Draw, cut2: Draw, mutate1: bool, swap1: Draw, mutate2: bool, swap2: Draw)
  {
    predicate Valid(n: int)
    {
      (cross ==> cut1.Valid(n) && cut2.Valid(n)) && (mutate1 ==> swap1.Valid(n)) && (mutate2 ==> swap2.Valid(n))
    }
  }

  /** The two children of one pair of parents: both crossovers or plain copies, then each child mutated. */
  function Offspring(p1: seq<int>, p2: seq<int>, pr: Pairing): (children: (seq<int>, seq<int>))
    requires IsPermutation(p1, |p1|) && IsPermutation(p2, |p1|) && pr.Valid(|p1|)
  {
    var c1 := if pr.cross then OrderCrossover(p1, p2, pr.cut1.Lo(), pr.cut1.Hi()) else p1;
    var c2 := if pr.cross then OrderCrossover(p2, p1, pr.cut2.Lo(), pr.cut2.Hi()) else p2;
    (Mutated(c1, pr.mutate1, pr.swap1), Mutated(c2, pr.mutate2, pr.swap2))
  }

  /** Both children are orders of the n aircraft. */
  lemma OffspringArePermutations(p1: seq<int>, p2: seq<int>, pr: Pairing)
    requires IsPermutation(p1, |p1|) && IsPermutation(p2, |p1|) && pr.Valid(|p1|)
    ensures IsPermutation(Offspring(p1, p2, pr).0, |p1|) && IsPermutation(Offspring(p1, p2, pr).1, |p1|)
  {
    if pr.cross {
      CrossoverIsPermutation(p1, p2, pr.cut1.Lo(), pr.cut1.Hi());
      CrossoverIsPermutation(p2, p1, pr.cut2.Lo(), pr.cut2.Hi());
    }
    var c1 := if pr.cross then OrderCrossover(p1, p2, pr.cut1.Lo(), pr.cut1.Hi()) else p1;
    var c2 := if pr.cross then OrderCrossover(p2, p1, pr.cut2.Lo(), pr.cut2.Hi()) else p2;
    MutatedIsPermutation(c1, pr.mutate1, pr.swap1);
    MutatedIsPermutation(c2, pr.mutate2, pr.swap2);
  }

  /** The body of the breeding loop for one pair: crossover or copies, then mutation in place. */
  method Mate(p1: seq<int>, p2: seq<int>, pr: Pairing) returns (c1: seq<int>, c2: seq<int>)
    requires IsPermutation(p1, |p1|) && IsPermutation(p2, |p1|) && pr.Valid(|p1|)
    ensures (c1, c2) == Offspring(p1, p2, pr)
  {
    var n := |p1|;
    var child1: array<int>, child2: array<int>;
    if pr.cross {
      child1 := Crossover(p1, p2, pr.cut1);
      child2 := Crossover(p2, p1, pr.cut2);
    } else {
      child1 := new int[n](k requires 0 <= k < n => p1[k]);
      child2 := new int[n](k requires 0 <= k < n => p2[k]);
      assert child1[..] == p1 && child2[..] == p2;
    }
    Mutate(child1, pr.mutate1, pr.swap1);
    Mutate(child2, pr.mutate2, pr.swap2);
    c1, c2 := child1[..], child2[..];
  }

  // ---------------------------------------------------------------------
  // Scoring

  /** The score of one individual: infinity when it fails the separation check, else its penalty. */
  function Fitness(inst: Instance, individual: seq<int>): (score: Score)
    requires inst.Valid() && IsPermutation(individual, inst.Size())
    ensures score.Infinite? <==> !Feasible(inst, individual)
  {
    if Feasible(inst, individual) then Finite(OrderPenalty(inst, individual)) else Infinite
  }

  /** The scores of a whole population, in order. */
  function Scores(inst: Instance, pop: seq<seq<int>>): (scores: seq<Score>)
    requires inst.Valid() && Population(pop, inst.Size())
    ensures |scores| == |pop|
  {
    seq(|pop|, k requires 0 <= k < |pop| => Fitness(inst, pop[k]))
  }

  /** Scoring one individual: its decoded times, inf when they fail the separation check, else their penalty. */
  method Evaluate(inst: Instance, individual: seq<int>) returns (score: Score)
    requires inst.Valid() && IsPermutation(individual, inst.Size())
    ensures score == Fitness(inst, individual)
  {
    var times := DecodeTimes(individual, inst.target);
    var ok := CheckSeparation(individual, times, DEFAULT_SEPARATION);
    if !ok {
      score := Infinite;
    } else {
      score := Finite(Penalty(inst, times));
    }
  }

  /** No score in `scores` is below `p`. */
  predicate NoneBelow(scores: seq<Score>, p: Score)
  {
    forall k :: 0 <= k < |scores| ==> !scores[k].Below(p)
  }

  /** Lowering the bound to the new score when it is below keeps every score, old and new, at or above it. */
  lemma NoneBelowAfter(scores: seq<Score>, p: Score, s: Score)
    requires NoneBelow(scores, p)
    ensures NoneBelow(scores + [s], if s.Below(p) then s else p)
  {
    var all := scores + [s];
    var p' := if s.Below(p) then s else p;
    forall k | 0 <= k < |all| ensures !all[k].Below(p') {
      if k < |scores| {
        assert all[k] == scores[k];
        BelowIsStrictOrder(scores[k], s, p);
      } else {
        BelowIsStrictOrder(s, p, s);
      }
    }
  }

  lemma ScoresAppend(inst: Instance, seen: seq<seq<int>>, x: seq<int>)
    requires inst.Valid() && Population(seen, inst.Size()) && IsPermutation(x, inst.Size())
    ensures Population(seen + [x], inst.Size())
    ensures Scores(inst, seen + [x]) == Scores(inst, seen) + [Fitness(inst, x)]
  {
    PopulationConcat(seen, [x], inst.Size());
    var all := seen + [x];
    assert all[|seen|] == x;
    forall k | 0 <= k < |seen| ensures Scores(inst, all)[k] == Scores(inst, seen)[k] {
      assert all[k] == seen[k];
    }
  }

  /**
   `best, best_p` after scoring the individuals `seen`: no score seen is below
   `best_p`, `best` is unset exactly while `best_p` is infinite, and otherwise
   `best` is a seen individual scoring `best_p`.
   */
  predicate IsBest(inst: Instance, seen: seq<seq<int>>, best: Option<seq<int>>, bestP: Score)
    requires inst.Valid() && Population(seen, inst.Size())
  {
    NoneBelow(Scores(inst, seen), bestP) &&
    (best.None? <==> bestP.Infinite?) &&
    (best.Some? ==> best.value in seen && IsPermutation(best.value, inst.Size()) && Fitness(inst, best.value) == bestP)
  }

  /** The update `if score < best_p: best, best_p = ind.copy(), score` keeps `IsBest`. */
  lemma BestAfter(inst: Instance, seen: seq<seq<int>>, best: Option<seq<int>>, bestP: Score, x: seq<int>)
    requires inst.Valid() && Population(seen, inst.Size()) && IsPermutation(x, inst.Size())
    requires IsBest(inst, seen, best, bestP)
    ensures Population(seen + [x], inst.Size())
    ensures var s := Fitness(inst, x);
            IsBest(inst, seen + [x], if s.Below(bestP) then Some(x) else best, if s.Below(bestP) then s else bestP)
  {
    var s := Fitness(inst, x);
    ScoresAppend(inst, seen, x);
    NoneBelowAfter(Scores(inst, seen), bestP, s);
    assert x in seen + [x];
    if best.Some? {
      assert best.value in seen + [x];
    }
  }

  /** The update `if score < best_p: best, best_p = ind.copy(), score` for one scored individual. */
  function Update(inst: Instance, best: Option<seq<int>>, bestP: Score, x: seq<int>): (r: (Option<seq<int>>, Score))
    requires inst.Valid() && IsPermutation(x, inst.Size())
    ensures !bestP.Below(r.1) && !Fitness(inst, x).Below(r.1)
    ensures r == (best, bestP) || r == (Some(x), Fitness(inst, x))
    ensures r.1 == bestP ==> r.0 == best
  {
    var s := Fitness(inst, x);
    if s.Below(bestP) then (Some(x), s) else (best, bestP)
  }

  /** `best, best_p` after the updates for the individuals of `pop`, in order, starting from `best, bestP`. */
  function BestOver(inst: Instance, pop: seq<seq<int>>, best: Option<seq<int>>, bestP: Score): (r: (Option<seq<int>>, Score))
    requires inst.Valid() && Population(pop, inst.Size())
    ensures !bestP.Below(r.1)
    ensures r.1 == bestP ==> r.0 == best
    decreases |pop|
  {
    if pop == [] then (best, bestP)
    else
      var prev := BestOver(inst, pop[..|pop| - 1], best, bestP);
      Update(inst, prev.0, prev.1, pop[|pop| - 1])
  }

  /** Taking one element more of a prefix; generic, so the solver never looks inside the elements. */
  lemma PrefixStep<T>(s: seq<T>, k: nat)
    requires k < |s|
    ensures s[..k + 1][..k] == s[..k] && s[..k + 1][k] == s[k] && |s[..k + 1]| == k + 1
  {
  }

  lemma ConcatParts<T>(a: seq<T>, b: seq<T>)
    requires b != []
    ensures (a + b)[..|a + b| - 1] == a + b[..|b| - 1] && (a + b)[|a + b| - 1] == b[|b| - 1]
  {
  }

  lemma BestOverNext(inst: Instance, pop: seq<seq<int>>, best: Option<seq<int>>, bestP: Score, k: nat)
    requires inst.Valid() && Population(pop, inst.Size()) && k < |pop|
    ensures var prev := BestOver(inst, pop[..k], best, bestP);
            BestOver(inst, pop[..k + 1], best, bestP) == Update(inst, prev.0, prev.1, pop[k])
  {
    PrefixStep(pop, k);
  }

  /** Scoring `a` and then `b` keeps the same best as scoring `a + b` in one pass. */
  lemma {:induction false} BestOverConcat(inst: Instance, a: seq<seq<int>>, b: seq<seq<int>>, best: Option<seq<int>>, bestP: Score)
    requires inst.Valid() && Population(a, inst.Size()) && Population(b, inst.Size())
    ensures Population(a + b, inst.Size())
    ensures var mid := BestOver(inst, a, best, bestP);
            BestOver(inst, a + b, best, bestP) == BestOver(inst, b, mid.0, mid.1)
    decreases |b|
  {
    PopulationConcat(a, b, inst.Size());
    if b == [] {
      assert a + b == a;
    } else {
      var b' := b[..|b| - 1];
      ConcatParts(a, b);
      BestOverConcat(inst, a, b', best, bestP);
    }
  }

  /**
   The individual `best` is the first one of `seen` whose score is `bestP`:
   no earlier individual scores `bestP`.
   */
  predicate FirstReaching(inst: Instance, seen: seq<seq<int>>, best: Option<seq<int>>, bestP: Score)
    requires inst.Valid() && Population(seen, inst.Size())
  {
    best.Some? ==>
      exists i :: 0 <= i < |seen| && seen[i] == best.value && Scores(inst, seen)[i] == bestP &&
        (forall j :: 0 <= j < i ==> Scores(inst, seen)[j] != bestP)
  }

  lemma SplitLast<T>(s: seq<T>)
    requires s != []
    ensures s == s[..|s| - 1] + [s[|s| - 1]]
  {
  }

  /** A new individual strictly below the best is the first to reach its score. */
  lemma FirstAfterImprovement(inst: Instance, seen: seq<seq<int>>, bestP: Score, x: seq<int>)
    requires inst.Valid() && Population(seen, inst.Size()) && IsPermutation(x, inst.Size())
    requires NoneBelow(Scores(inst, seen), bestP) && Fitness(inst, x).Below(bestP)
    ensures Population(seen + [x], inst.Size())
    ensures FirstReaching(inst, seen + [x], Some(x), Fitness(inst, x))
  {
    ScoresAppend(inst, seen, x);
    var s := Fitness(inst, x);
    var all := Scores(inst, seen + [x]);
    forall j | 0 <= j < |seen| ensures all[j] != s {
      assert !Scores(inst, seen)[j].Below(bestP);
    }
    assert (seen + [x])[|seen|] == x && all[|seen|] == s;
  }

  /** When the best is kept, its first position in `seen` is still its first position after one more individual. */
  lemma FirstAfterKeeping(inst: Instance, seen: seq<seq<int>>, best: Option<seq<int>>, bestP: Score, x: seq<int>)
    requires inst.Valid() && Population(seen, inst.Size()) && IsPermutation(x, inst.Size())
    requires FirstReaching(inst, seen, best, bestP)
    ensures Population(seen + [x], inst.Size())
    ensures FirstReaching(inst, seen + [x], best, bestP)
  {
    ScoresAppend(inst, seen, x);
    if best.Some? {
      var i :| 0 <= i < |seen| && seen[i] == best.value && Scores(inst, seen)[i] == bestP &&
        (forall j :: 0 <= j < i ==> Scores(inst, seen)[j] != bestP);
      var all := Scores(inst, seen + [x]);
      assert (seen + [x])[i] == best.value && all[i] == bestP;
      forall j | 0 <= j < i ensures all[j] != bestP {
        assert all[j] == Scores(inst, seen)[j];
      }
    }
  }

  /**
   From `None, float('inf')`, the pass over `seen` ends in a state satisfying
   `IsBest`, whose individual is the FIRST one seen that reaches the minimum
   score: the strict `<` never replaces it with a later tie.
   */
  lemma {:induction false} BestOverIsFirstBest(inst: Instance, seen: seq<seq<int>>)
    requires inst.Valid() && Population(seen, inst.Size())
    ensures var r := BestOver(inst, seen, None, Infinite);
            IsBest(inst, seen, r.0, r.1) && FirstReaching(inst, seen, r.0, r.1)
    decreases |seen|
  {
    if seen != [] {
      var prior, x := seen[..|seen| - 1], seen[|seen| - 1];
      SplitLast(seen);
      BestOverIsFirstBest(inst, prior);
      var prev := BestOver(inst, prior, None, Infinite);
      FirstBestStep(inst, prior, prev.0, prev.1, x);
    }
  }

  /** One update keeps both `IsBest` and `FirstReaching`. */
  lemma FirstBestStep(inst: Instance, seen: seq<seq<int>>, best: Option<seq<int>>, bestP: Score, x: seq<int>)
    requires inst.Valid() && Population(seen, inst.Size()) && IsPermutation(x, inst.Size())
    requires IsBest(inst, seen, best, bestP) && FirstReaching(inst, seen, best, bestP)
    ensures Population(seen + [x], inst.Size())
    ensures var r := Update(inst, best, bestP, x);
            IsBest(inst, seen + [x], r.0, r.1) && FirstReaching(inst, seen + [x], r.0, r.1)
  {
    BestAfter(inst, seen, best, bestP, x);
    if Fitness(inst, x).Below(bestP) {
      FirstAfterImprovement(inst, seen, bestP, x);
    } else {
      FirstAfterKeeping(inst, seen, best, bestP, x);
    }
  }

  /** With `IsBest`, the best score is infinite exactly when every individual seen failed the separation check. */
  lemma BestIsInfiniteIffNoneFeasible(inst: Instance, seen: seq<seq<int>>, best: Option<seq<int>>, bestP: Score)
    requires inst.Valid() && Population(seen, inst.Size()) && IsBest(inst, seen, best, bestP)
    ensures bestP.Infinite? <==> forall k :: 0 <= k < |seen| ==> !Feasible(inst, seen[k])
  {
    if bestP.Finite? {
      var k :| 0 <= k < |seen| && seen[k] == best.value;
      assert Feasible(inst, seen[k]);
    } else {
      forall k | 0 <= k < |seen| ensures !Feasible(inst, seen[k]) {
        assert !Scores(inst, seen)[k].Below(bestP);
      }
    }
  }

  /** Extending a prefix by one element; generic, so the solver never looks inside the elements. */
  lemma ExtendPrefix<T>(a: seq<T>, b: seq<T>, k: nat)
    requires k < |b|
    ensures a + b[..k] + [b[k]] == a + b[..k + 1]
    ensures b[..k] + [b[k]] == b[..k + 1]
  {
    assert b[..k + 1] == b[..k] + [b[k]];
  }

  /** Scoring one individual and the update `if score < best_p: best, best_p = ind.copy(), score`. */
  method ScoreOne(inst: Instance, x: seq<int>, best: Option<seq<int>>, bestP: Score, ghost seen: seq<seq<int>>)
    returns (score: Score, best': Option<seq<int>>, bestP': Score)
    requires inst.Valid() && IsPermutation(x, inst.Size()) && Population(seen, inst.Size())
    requires IsBest(inst, seen, best, bestP)
    ensures score == Fitness(inst, x)
    ensures (best', bestP') == Update(inst, best, bestP, x)
    ensures Population(seen + [x], inst.Size()) && IsBest(inst, seen + [x], best', bestP')
  {
    score := Evaluate(inst, x);
    BestAfter(inst, seen, best, bestP, x);
    best', bestP' := best, bestP;
    if score.Below(bestP) {
      best', bestP' := Some(x), score;
    }
  }

  /** The scoring loop of one generation, which also updates the best individual. */
  method ScorePopulation(inst: Instance, pop: seq<seq<int>>, best: Option<seq<int>>, bestP: Score, ghost seen: seq<seq<int>>)
    returns (best': Option<seq<int>>, bestP': Score, scores: seq<Score>)
    requires inst.Valid() && Population(pop, inst.Size()) && Population(seen, inst.Size())
    requires IsBest(inst, seen, best, bestP)
    ensures scores == Scores(inst, pop)
    ensures (best', bestP') == BestOver(inst, pop, best, bestP)
    ensures Population(seen + pop, inst.Size())
    ensures IsBest(inst, seen + pop, best', bestP')
  {
    best', bestP' := best, bestP;
    scores := [];
    ghost var scored := seen;
    ghost var all := Scores(inst, pop);
    for k := 0 to |pop|
      invariant scores == all[..k]
      invariant scored == seen + pop[..k]
      invariant Population(scored, inst.Size()) && IsBest(inst, scored, best', bestP')
      invariant (best', bestP') == BestOver(inst, pop[..k], best, bestP)
    {
      var score;
      BestOverNext(inst, pop, best, bestP, k);
      score, best', bestP' := ScoreOne(inst, pop[k], best', bestP', scored);
      assert score == all[k];
      ExtendPrefix([], all, k);
      scores := scores + [score];
      ExtendPrefix(seen, pop, k);
      scored := scored + [pop[k]];
    }
    assert pop[..|pop|] == pop && all[..|pop|] == all;
  }

  // ---------------------------------------------------------------------
  // Selection

  /** `winner = a if a[1] < b[1] else b` for the contestants at positions d.i and d.j. */
  function Winner(scores: seq<Score>, d: Draw): int
    requires d.Valid(|scores|)
  {
    if scores[d.i].Below(scores[d.j]) then d.i else d.j
  }

  /** The winner is one of the two contestants, and neither contestant scores below it. */
  lemma WinnerNoWorse(scores: seq<Score>, d: Draw)
    requires d.Valid(|scores|)
    ensures Winner(scores, d) == d.i || Winner(scores, d) == d.j
    ensures !scores[d.i].Below(scores[Winner(scores, d)]) && !scores[d.j].Below(scores[Winner(scores, d)])
  {
    BelowIsStrictOrder(scores[d.i], scores[d.j], scores[d.i]);
    if !scores[d.i].Below(scores[d.j]) {
      BelowIsStrictOrder(scores[d.j], scores[d.j], scores[d.j]);
    }
  }

  /** The mating pool: one tournament winner per draw. */
  function Selected(pop: seq<seq<int>>, scores: seq<Score>, picks: seq<Draw>): (pool: seq<seq<int>>)
    requires |scores| == |pop| && ValidDraws(picks, |pop|)
    ensures |pool| == |picks|
  {
    seq(|picks|, t requires 0 <= t < |picks| => pop[Winner(scores, picks[t])])
  }

  /** The mating pool consists of members of the population. */
  lemma SelectedFromPopulation(pop: seq<seq<int>>, scores: seq<Score>, picks: seq<Draw>, n: nat)
    requires |scores| == |pop| && ValidDraws(picks, |pop|) && Population(pop, n)
    ensures Population(Selected(pop, scores, picks), n)
    ensures forall t :: 0 <= t < |picks| ==> Selected(pop, scores, picks)[t] in pop
  {
  }

  /** The tournament loop: `random.sample(scored, 2)` per slot of the new population. */
  method Tournament(pop: seq<seq<int>>, scores: seq<Score>, picks: seq<Draw>) returns (pool: seq<seq<int>>)
    requires |scores| == |pop| && ValidDraws(picks, |pop|)
    ensures pool == Selected(pop, scores, picks)
  {
    pool := [];
    for t := 0 to |picks|
      invariant pool == Selected(pop, scores, picks[..t])
    {
      var d := picks[t];
      var winner := if scores[d.i].Below(scores[d.j]) then d.i else d.j;
      pool := pool + [pop[winner]];
    }
    assert picks[..|picks|] == picks;
  }

  // ---------------------------------------------------------------------
  // Breeding

  /** The first m pairs of children bred from the mating pool. */
  function Children(pool: seq<seq<int>>, pairs: seq<Pairing>, n: nat, m: nat): (pop: seq<seq<int>>)
    requires |pool| == 2 * |pairs| && Population(pool, n) && m <= |pairs|
    requires forall t :: 0 <= t < |pairs| ==> pairs[t].Valid(n)
    ensures |pop| == 2 * m
  {
    if m == 0 then [] else Children(pool, pairs, n, m - 1) + Brood(pool, pairs, n, m - 1)
  }

  /** The two children of pair k, bred from positions 2k and 2k + 1 of the pool. */
  function Brood(pool: seq<seq<int>>, pairs: seq<Pairing>, n: nat, k: nat): seq<seq<int>>
    requires |pool| == 2 * |pairs| && Population(pool, n) && k < |pairs|
    requires forall t :: 0 <= t < |pairs| ==> pairs[t].Valid(n)
  {
    var o := Offspring(pool[2 * k], pool[2 * k + 1], pairs[k]);
    [o.0, o.1]
  }

  lemma ChildrenNext(pool: seq<seq<int>>, pairs: seq<Pairing>, n: nat, m: nat)
    requires |pool| == 2 * |pairs| && Population(pool, n) && m < |pairs|
    requires forall t :: 0 <= t < |pairs| ==> pairs[t].Valid(n)
    ensures Children(pool, pairs, n, m + 1) == Children(pool, pairs, n, m) + Brood(pool, pairs, n, m)
  {
  }

  /** Breeding keeps every individual an order of the n aircraft. */
  lemma {:induction false} ChildrenArePopulation(pool: seq<seq<int>>, pairs: seq<Pairing>, n: nat, m: nat)
    requires |pool| == 2 * |pairs| && Population(pool, n) && m <= |pairs|
    requires forall t :: 0 <= t < |pairs| ==> pairs[t].Valid(n)
    ensures Population(Children(pool, pairs, n, m), n)
  {
    if m > 0 {
      ChildrenArePopulation(pool, pairs, n, m - 1);
      ChildrenGrow(pool, pairs, n, m - 1);
    }
  }

  /** The children of one more pair are orders of the n aircraft too. */
  lemma ChildrenGrow(pool: seq<seq<int>>, pairs: seq<Pairing>, n: nat, j: nat)
    requires |pool| == 2 * |pairs| && Population(pool, n) && j < |pairs|
    requires forall t :: 0 <= t < |pairs| ==> pairs[t].Valid(n)
    requires Population(Children(pool, pairs, n, j), n)
    ensures Population(Children(pool, pairs, n, j + 1), n)
  {
    ChildrenNext(pool, pairs, n, j);
    OffspringArePermutations(pool[2 * j], pool[2 * j + 1], pairs[j]);
    PopulationConcat(Children(pool, pairs, n, j), Brood(pool, pairs, n, j), n);
  }

  /** The breeding loop `for i in range(0, self.pop_size, 2)`, counted here by pair: pair k breeds positions 2k and 2k + 1. */
  method Breed(pool: seq<seq<int>>, pairs: seq<Pairing>, n: nat) returns (pop: seq<seq<int>>)
    requires |pool| == 2 * |pairs| && Population(pool, n)
    requires forall t :: 0 <= t < |pairs| ==> pairs[t].Valid(n)
    ensures pop == Children(pool, pairs, n, |pairs|)
  {
    pop := [];
    for k := 0 to |pairs|
      invariant pop == Children(pool, pairs, n, k)
    {
      pop := BreedPair(pool, pairs, n, 2 * k, k, pop);
    }
  }

  /** One round of the breeding loop: the pair at positions i and i + 1 appends its two children. */
  method BreedPair(pool: seq<seq<int>>, pairs: seq<Pairing>, n: nat, i: nat, ghost m: nat, pop: seq<seq<int>>)
    returns (pop': seq<seq<int>>)
    requires |pool| == 2 * |pairs| && Population(pool, n)
    requires forall t :: 0 <= t < |pairs| ==> pairs[t].Valid(n)
    requires i == 2 * m && i < |pool| && pop == Children(pool, pairs, n, m)
    ensures pop' == Children(pool, pairs, n, m + 1)
  {
    assert i / 2 == m;
    var c1, c2 := Mate(pool[i], pool[i + 1], pairs[i / 2]);
    ChildrenNext(pool, pairs, n, m);
    pop' := pop + [c1, c2];
  }

  // ---------------------------------------------------------------------
  // Generations

  /** The draws of one generation: one tournament per slot, one pairing per pair of slots. */
  datatype GenerationDraws = GenerationDraws(picks: seq<Draw>, pairs: seq<Pairing>)
  {
    predicate Valid(popSize: nat, n: nat)
    {
      ValidDraws(picks, popSize) && |picks| == popSize && 2 * |pairs| == popSize &&
      forall t :: 0 <= t < |pairs| ==> pairs[t].Valid(n)
    }
  }

  predicate ValidGenerations(gens: seq<GenerationDraws>, popSize: nat, n: nat)
  {
    forall g :: 0 <= g < |gens| ==> gens[g].Valid(popSize, n)
  }

  /** The population that replaces `pop` after one generation. */
  function Next(inst: Instance, pop: seq<seq<int>>, gen: GenerationDraws): seq<seq<int>>
    requires inst.Valid() && Population(pop, inst.Size()) && gen.Valid(|pop|, inst.Size())
  {
    var pool := Selected(pop, Scores(inst, pop), gen.picks);
    SelectedFromPopulation(pop, Scores(inst, pop), gen.picks, inst.Size());
    Children(pool, gen.pairs, inst.Size(), |gen.pairs|)
  }

  /** Each generation yields exactly pop_size children, each an order of the n aircraft. */
  lemma NextIsPopulation(inst: Instance, pop: seq<seq<int>>, gen: GenerationDraws)
    requires inst.Valid() && Population(pop, inst.Size()) && gen.Valid(|pop|, inst.Size())
    ensures |Next(inst, pop, gen)| == |pop|
    ensures Population(Next(inst, pop, gen), inst.Size())
  {
    var pool := Selected(pop, Scores(inst, pop), gen.picks);
    SelectedFromPopulation(pop, Scores(inst, pop), gen.picks, inst.Size());
    ChildrenArePopulation(pool, gen.pairs, inst.Size(), |gen.pairs|);
  }

  /** The population scored in generation g. */
  function Generation(inst: Instance, pop0: seq<seq<int>>, gens: seq<GenerationDraws>, g: nat): (pop: seq<seq<int>>)
    requires inst.Valid() && Population(pop0, inst.Size()) && ValidGenerations(gens, |pop0|, inst.Size())
    requires g <= |gens|
    ensures |pop| == |pop0| && Population(pop, inst.Size())
  {
    if g == 0 then pop0
    else
      var prev := Generation(inst, pop0, gens, g - 1);
      NextIsPopulation(inst, prev, gens[g - 1]);
      Next(inst, prev, gens[g - 1])
  }

  /** Every individual scored in the first g generations, in scoring order: g * pop_size orders of the n aircraft. */
  function Seen(inst: Instance, pop0: seq<seq<int>>, gens: seq<GenerationDraws>, g: nat): (seen: seq<seq<int>>)
    requires inst.Valid() && Population(pop0, inst.Size()) && ValidGenerations(gens, |pop0|, inst.Size())
    requires g <= |gens|
    ensures |seen| == g * |pop0| && Population(seen, inst.Size())
  {
    if g == 0 then []
    else
      var before, pop := Seen(inst, pop0, gens, g - 1), Generation(inst, pop0, gens, g - 1);
      PopulationConcat(before, pop, inst.Size());
      before + pop
  }

  /** One generation of `run`: score, select, breed. */
  method Evolve(inst: Instance, pop: seq<seq<int>>, gen: GenerationDraws, best: Option<seq<int>>, bestP: Score,
                ghost seen: seq<seq<int>>)
    returns (pop': seq<seq<int>>, best': Option<seq<int>>, bestP': Score)
    requires inst.Valid() && Population(pop, inst.Size()) && gen.Valid(|pop|, inst.Size())
    requires Population(seen, inst.Size()) && IsBest(inst, seen, best, bestP)
    ensures pop' == Next(inst, pop, gen)
    ensures (best', bestP') == BestOver(inst, pop, best, bestP)
    ensures Population(seen + pop, inst.Size()) && IsBest(inst, seen + pop, best', bestP')
  {
    var scores;
    best', bestP', scores := ScorePopulation(inst, pop, best, bestP, seen);
    var pool := Tournament(pop, scores, gen.picks);
    SelectedFromPopulation(pop, scores, gen.picks, inst.Size());
    pop' := Breed(pool, gen.pairs, inst.Size());
  }

  /**
   `run`, with `pop0` standing for `_init_pop()` (pop_size random orders) and
   one `GenerationDraws` per generation. The final population bred by the
   last generation is never scored.
   */
  method Run(inst: Instance, pop0: seq<seq<int>>, gens: seq<GenerationDraws>) returns (best: Option<seq<int>>, bestP: Score)
    requires inst.Valid() && Population(pop0, inst.Size()) && ValidGenerations(gens, |pop0|, inst.Size())
    ensures IsBest(inst, Seen(inst, pop0, gens, |gens|), best, bestP)
    ensures (best, bestP) == BestOver(inst, Seen(inst, pop0, gens, |gens|), None, Infinite)
  {
    var pop := pop0;
    best, bestP := None, Infinite;
    ghost var seen: seq<seq<int>> := [];
    for g := 0 to |gens|
      invariant pop == Generation(inst, pop0, gens, g)
      invariant seen == Seen(inst, pop0, gens, g)
      invariant Population(seen, inst.Size())
      invariant IsBest(inst, seen, best, bestP)
      invariant (best, bestP) == BestOver(inst, seen, None, Infinite)
    {
      BestOverConcat(inst, seen, pop, None, Infinite);
      pop, best, bestP := Evolve(inst, pop, gens[g], best, bestP, seen);
      seen := seen + Generation(inst, pop0, gens, g);
    }
  }
}
