/**
 Landing orders are sequences of aircraft ids. A valid order is a permutation
 of 0..n-1. This module defines that invariant, the facts about it that the
 scheduler relies on, and the value-level rearrangements that the search
 operators perform (an exchange of two positions, a pop-and-insert, and the
 reversal of a slice).
 */
module Permutations {

  /** The ids 0..n-1 in ascending order: `list(range(n))`. */
  function Iota(n: nat): (r: seq<int>)
    ensures |r| == n
    ensures forall k :: 0 <= k < n ==> r[k] == k
  {
    seq(n, k => k)
  }

  predicate InRange(s: seq<int>, n: int)
  {
    forall k :: 0 <= k < |s| ==> 0 <= s[k] < n
  }

  predicate Distinct(s: seq<int>)
  {
    forall i, j :: 0 <= i < j < |s| ==> s[i] != s[j]
  }

  /** `s` lists every id 0..n-1 exactly once. */
  predicate IsPermutation(s: seq<int>, n: nat)
  {
    |s| == n && InRange(s, n) && Distinct(s)
  }

  function Elements(s: seq<int>): set<int>
  {
    set x | x in s
  }

  function IdRange(n: nat): set<int>
  {
    Elements(Iota(n))
  }

  lemma IotaIsPermutation(n: nat)
    ensures IsPermutation(Iota(n), n)
  {
  }

  /** A sequence without repeats has as many elements as it has positions. */
  lemma {:induction false} DistinctCardinality(s: seq<int>)
    requires Distinct(s)
    ensures |Elements(s)| == |s|
  {
    if s != [] {
      var t := s[..|s| - 1];
      var last := s[|s| - 1];
      assert s == t + [last];
      assert Distinct(t);
      DistinctCardinality(t);
      assert Elements(s) == Elements(t) + {last};
      assert last !in Elements(t);
    }
  }

  lemma SubsetOfSameSize(a: set<int>, b: set<int>)
    requires a <= b && |a| == |b|
    ensures a == b
  {
    assert b * a == a;
    assert |b - a| == 0;
  }

  /** A permutation of 0..n-1 contains every id below n (pigeonhole). */
  lemma PermutationCovers(s: seq<int>, n: nat)
    requires IsPermutation(s, n)
    ensures forall x :: 0 <= x < n ==> x in s
  {
    DistinctCardinality(s);
    DistinctCardinality(Iota(n));
    forall x | x in Elements(s) ensures x in IdRange(n) {
      assert Iota(n)[x] == x;
    }
    SubsetOfSameSize(Elements(s), IdRange(n));
    forall x | 0 <= x < n ensures x in s {
      assert Iota(n)[x] == x;
      assert x in IdRange(n);
    }
  }

  lemma {:induction false} DistinctHasNoRepeats(s: seq<int>)
    requires Distinct(s)
    ensures forall v :: multiset(s)[v] <= 1
  {
    if s != [] {
      var rest := s[1..];
      assert s == [s[0]] + rest;
      assert Distinct(rest);
      DistinctHasNoRepeats(rest);
      assert s[0] !in rest;
      assert multiset(s) == multiset{s[0]} + multiset(rest);
    }
  }

  lemma RepeatIsCounted(s: seq<int>, i: int, j: int)
    requires 0 <= i < j < |s|
    ensures s[i] == s[j] ==> multiset(s)[s[i]] >= 2
  {
    assert s == s[..j] + s[j..];
    assert s[..j][i] == s[i];
    assert s[i] in multiset(s[..j]);
    assert s[j..][0] == s[j];
    assert s[j] in multiset(s[j..]);
  }

  lemma NoRepeatsIsDistinct(s: seq<int>)
    requires forall v :: multiset(s)[v] <= 1
    ensures Distinct(s)
  {
    forall i, j | 0 <= i < j < |s| ensures s[i] != s[j] {
      RepeatIsCounted(s, i, j);
    }
  }

  /** Any rearrangement of a permutation (same multiset) is a permutation. */
  lemma SameElementsPermutation(s: seq<int>, t: seq<int>, n: nat)
    requires IsPermutation(s, n) && multiset(t) == multiset(s)
    ensures IsPermutation(t, n)
  {
    assert |t| == |multiset(t)| == |multiset(s)| == |s|;
    forall k | 0 <= k < |t| ensures 0 <= t[k] < n {
      assert t[k] in multiset(t);
      assert t[k] in s;
    }
    DistinctHasNoRepeats(s);
    NoRepeatsIsDistinct(t);
  }

  /** Exchange positions i and j: `s[i], s[j] = s[j], s[i]` on a copy. */
  function Swapped(s: seq<int>, i: int, j: int): (r: seq<int>)
    requires 0 <= i < |s| && 0 <= j < |s|
    ensures |r| == |s|
  {
    s[i := s[j]][j := s[i]]
  }

  /** An exchange moves exactly the two entries and keeps the multiset of ids. */
  lemma SwappedExchanges(s: seq<int>, i: int, j: int)
    requires 0 <= i < |s| && 0 <= j < |s|
    ensures Swapped(s, i, j)[i] == s[j] && Swapped(s, i, j)[j] == s[i]
    ensures forall k :: 0 <= k < |s| && k != i && k != j ==> Swapped(s, i, j)[k] == s[k]
    ensures multiset(Swapped(s, i, j)) == multiset(s)
  {
  }

  /**
   `elem = s.pop(i); s.insert(j, elem)`. After the pop the list has |s| - 1
   elements and j <= |s| - 1, so the insert never clamps.
   */
  function Inserted(s: seq<int>, i: int, j: int): (r: seq<int>)
    requires 0 <= i < |s| && 0 <= j < |s|
    ensures |r| == |s| && r[j] == s[i]
    ensures multiset(r) == multiset(s)
  {
    var rest := s[..i] + s[i + 1..];
    assert s == s[..i] + [s[i]] + s[i + 1..];
    assert rest == rest[..j] + rest[j..];
    assert multiset(s) == multiset(s[..i]) + multiset{s[i]} + multiset(s[i + 1..]);
    assert multiset(rest) == multiset(s[..i]) + multiset(s[i + 1..]);
    assert multiset(rest) == multiset(rest[..j]) + multiset(rest[j..]);
    var moved := rest[..j] + [s[i]] + rest[j..];
    assert multiset(moved) == multiset(rest[..j]) + multiset{s[i]} + multiset(rest[j..]);
    assert multiset(moved) == multiset(rest) + multiset{s[i]};
    assert multiset(s) == multiset(s[..i]) + multiset(s[i + 1..]) + multiset{s[i]};
    moved
  }

  /**
   Where each element lands after a pop-and-insert: positions outside the
   span between i and j are untouched, and the span shifts by one towards i.
   */
  lemma InsertedAt(s: seq<int>, i: int, j: int, k: int)
    requires 0 <= i < |s| && 0 <= j < |s| && 0 <= k < |s|
    ensures Inserted(s, i, j)[k] ==
      if k == j then s[i]
      else if (k < i && k < j) || (k > i && k > j) then s[k]
      else if i < j then s[k + 1]
      else s[k - 1]
  {
    var rest := s[..i] + s[i + 1..];
    assert |rest| == |s| - 1;
    assert forall m :: 0 <= m < |rest| ==> rest[m] == if m < i then s[m] else s[m + 1];
    var r := rest[..j] + [s[i]] + rest[j..];
    assert k < j ==> r[k] == rest[k];
    assert k > j ==> r[k] == rest[k - 1];
  }

  function Reverse(s: seq<int>): (r: seq<int>)
    ensures |r| == |s|
    ensures forall k :: 0 <= k < |s| ==> r[k] == s[|s| - 1 - k]
    ensures multiset(r) == multiset(s)
  {
    if s == [] then [] else
      assert s == [s[0]] + s[1..];
      Reverse(s[1..]) + [s[0]]
  }

  /** `s[i:j] = reversed(s[i:j])` on a copy (the 2-opt move). */
  function TwoOpted(s: seq<int>, i: int, j: int): (r: seq<int>)
    requires 0 <= i <= j <= |s|
    ensures |r| == |s|
    ensures multiset(r) == multiset(s)
  {
    assert s == s[..i] + s[i..j] + s[j..];
    s[..i] + Reverse(s[i..j]) + s[j..]
  }

  /** A sequence that mirrors s on [i, j) and agrees with it elsewhere is the 2-opt move of s. */
  lemma TwoOptedIs(s: seq<int>, r: seq<int>, i: int, j: int)
    requires 0 <= i <= j <= |s| && |r| == |s|
    requires forall k {:trigger r[k]} :: 0 <= k < |s| ==> r[k] == (if i <= k < j then s[i + j - 1 - k] else s[k])
    ensures r == TwoOpted(s, i, j)
  {
    forall k | 0 <= k < |s| ensures r[k] == TwoOpted(s, i, j)[k] {
      TwoOptedEntry(s, i, j, k);
    }
  }

  /** A 2-opt move leaves the entries outside [i, j) in place and mirrors the slice. */
  lemma TwoOptedEntry(s: seq<int>, i: int, j: int, k: int)
    requires 0 <= i <= j <= |s| && 0 <= k < |s|
    ensures TwoOpted(s, i, j)[k] == if i <= k < j then s[i + j - 1 - k] else s[k]
  {
    var left, mid, right := s[..i], Reverse(s[i..j]), s[j..];
    assert TwoOpted(s, i, j) == left + mid + right;
    if k < i {
      assert (left + mid + right)[k] == left[k];
    } else if k < j {
      assert (left + mid + right)[k] == mid[k - i];
    } else {
      assert (left + mid + right)[k] == right[k - j];
    }
  }
}
