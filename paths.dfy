/** Open paths over city indices: their length under a distance function
    and what it means for a path to visit every city exactly once. */
module Paths {

  /** The distance between two cities; every distance is non-negative
      (the source takes the Euclidean norm of the coordinate difference). */
  ghost predicate NonNegative(dist: (nat, nat) -> real)
  {
    forall i, j :: dist(i, j) >= 0.0
  }

  /** No two distinct cities of 0 .. size-1 share a position. */
  ghost predicate Separated(dist: (nat, nat) -> real, size: nat)
  {
    forall i: nat, j: nat :: i < size && j < size && i != j ==> dist(i, j) > 0.0
  }

  /** Length of the open path `order`: the sum of `dist` over its
      |order| - 1 consecutive legs (the path does not return to its start). */
  function PathLength(dist: (nat, nat) -> real, order: seq<nat>): real
    decreases |order|
  {
    if |order| < 2 then 0.0
    else PathLength(dist, order[..|order| - 1]) + dist(order[|order| - 2], order[|order| - 1])
  }

  lemma {:induction false} PathLengthNonNegative(dist: (nat, nat) -> real, order: seq<nat>)
    requires NonNegative(dist)
    ensures PathLength(dist, order) >= 0.0
    decreases |order|
  {
    if |order| >= 2 {
      PathLengthNonNegative(dist, order[..|order| - 1]);
    }
  }

  ghost predicate InRange(p: seq<nat>, n: nat)
  {
    forall k :: 0 <= k < |p| ==> p[k] < n
  }

  ghost predicate Distinct(p: seq<nat>)
  {
    forall a, b :: 0 <= a < b < |p| ==> p[a] != p[b]
  }

  /** `p` holds each of the indices 0 .. n-1 exactly once. */
  ghost predicate IsPermutation(p: seq<nat>, n: nat)
  {
    |p| == n && InRange(p, n) && Distinct(p) && forall c :: 0 <= c < n ==> c in p
  }

  /** Every path of `ants` visits each of 0 .. n-1 exactly once. */
  ghost predicate AllPermutations(ants: seq<seq<nat>>, n: nat)
  {
    forall k :: 0 <= k < |ants| ==> IsPermutation(ants[k], n)
  }

  lemma AllPermutationsAppend(ants: seq<seq<nat>>, p: seq<nat>, n: nat)
    requires AllPermutations(ants, n) && IsPermutation(p, n)
    ensures AllPermutations(ants + [p], n)
  {
  }

  lemma AllPermutationsConcat(ants: seq<seq<nat>>, more: seq<seq<nat>>, n: nat)
    requires AllPermutations(ants, n) && AllPermutations(more, n)
    ensures AllPermutations(ants + more, n)
  {
    forall k | 0 <= k < |ants + more|
      ensures IsPermutation((ants + more)[k], n)
    {
      if k >= |ants| {
        assert (ants + more)[k] == more[k - |ants|];
      }
    }
  }

  /** A path through pairwise-separated cities that visits no city twice and
      has at least one leg has a positive length, so Q / length is defined. */
  lemma {:induction false} PathLengthPositive(dist: (nat, nat) -> real, size: nat, order: seq<nat>)
    requires NonNegative(dist) && Separated(dist, size)
    requires |order| >= 2 && InRange(order, size) && Distinct(order)
    ensures PathLength(dist, order) > 0.0
    decreases |order|
  {
    var n := |order|;
    assert order[n - 2] != order[n - 1];
    PathLengthNonNegative(dist, order[..n - 1]);
  }

  /** No visiting order of all `size` cities has length zero: the weakest
      condition under which every Q / length of a run is defined. Points may
      coincide as long as some leg of every order has a positive length. */
  ghost predicate NoZeroLengthOrder(dist: (nat, nat) -> real, size: nat)
  {
    forall p :: size >= 2 && IsPermutation(p, size) ==> PathLength(dist, p) != 0.0
  }

  /** Pairwise-separated cities are one way to meet NoZeroLengthOrder. */
  lemma SeparatedHasNoZeroLengthOrder(dist: (nat, nat) -> real, size: nat)
    requires NonNegative(dist) && Separated(dist, size)
    ensures NoZeroLengthOrder(dist, size)
  {
    forall p | size >= 2 && IsPermutation(p, size)
      ensures PathLength(dist, p) != 0.0
    {
      PathLengthPositive(dist, size, p);
    }
  }

  /** Three cities of which the first two coincide. */
  function CoincidentPair(i: nat, j: nat): real
  {
    if i == j || (i < 2 && j < 2) then 0.0 else 1.0
  }

  /** Coincident points meet NoZeroLengthOrder without being separated:
      every order of the three cities has a leg to or from city 2. */
  lemma CoincidentPairHasNoZeroLengthOrder()
    ensures NonNegative(CoincidentPair) && !Separated(CoincidentPair, 3)
    ensures NoZeroLengthOrder(CoincidentPair, 3)
  {
    assert CoincidentPair(0, 1) == 0.0;
    forall p | IsPermutation(p, 3)
      ensures PathLength(CoincidentPair, p) != 0.0
    {
      assert 2 in p;
      var front := p[..2];
      assert front[..1] == [p[0]] && front[0] == p[0] && front[1] == p[1];
      assert PathLength(CoincidentPair, front) == CoincidentPair(p[0], p[1]);
      assert PathLength(CoincidentPair, p)
          == CoincidentPair(p[0], p[1]) + CoincidentPair(p[1], p[2]);
    }
  }

  /** The total distance of an order, accumulated leg by leg. */
  method CalculateTotalDistance(order: seq<nat>, dist: (nat, nat) -> real) returns (total: real)
    ensures total == PathLength(dist, order)
    ensures |order| < 2 ==> total == 0.0
    ensures NonNegative(dist) ==> total >= 0.0
  {
    total := 0.0;
    var i := 0;
    while i < |order| - 1
      invariant 0 <= i && (|order| > 0 ==> i < |order|)
      invariant total == PathLength(dist, order[..if |order| == 0 then 0 else i + 1])
    {
      assert order[..i + 2][..i + 1] == order[..i + 1];
      total := total + dist(order[i], order[i + 1]);
      i := i + 1;
    }
    assert order[..if |order| == 0 then 0 else i + 1] == order;
    if NonNegative(dist) {
      PathLengthNonNegative(dist, order);
    }
  }

  function RangeSet(n: nat): (s: set<nat>)
    ensures forall c: nat :: c in s <==> c < n
  {
    if n == 0 then {} else RangeSet(n - 1) + {n - 1}
  }

  lemma {:induction false} RangeSetSize(n: nat)
    ensures |RangeSet(n)| == n
  {
    if n > 0 {
      var below := RangeSet(n - 1);
      assert n - 1 !in below;
      RangeSetSize(n - 1);
    }
  }

  function Elements(p: seq<nat>): (s: set<nat>)
    ensures forall c :: c in s <==> c in p
  {
    set c | c in p
  }

  lemma {:induction false} DistinctElementsSize(p: seq<nat>)
    requires Distinct(p)
    ensures |Elements(p)| == |p|
  {
    if |p| > 0 {
      var q := p[..|p| - 1];
      assert Elements(p) == Elements(q) + {p[|p| - 1]};
      assert p[|p| - 1] !in q;
      DistinctElementsSize(q);
    }
  }

  lemma SubsetSize(a: set<nat>, b: set<nat>)
    requires a <= b
    ensures |a| <= |b|
  {
    assert b == a + (b - a);
  }

  /** Pigeonhole: n distinct indices below n are all of 0 .. n-1. */
  lemma DistinctFullIsPermutation(p: seq<nat>, n: nat)
    requires |p| == n && InRange(p, n) && Distinct(p)
    ensures IsPermutation(p, n)
  {
    forall c | 0 <= c < n
      ensures c in p
    {
      if c !in p {
        DistinctElementsSize(p);
        RangeSetSize(n);
        assert Elements(p) <= RangeSet(n) - {c};
        SubsetSize(Elements(p), RangeSet(n) - {c});
        assert false;
      }
    }
  }

  /** A set of fewer than n indices below n misses one of them. */
  lemma UnvisitedExists(visited: set<nat>, n: nat) returns (c: nat)
    requires |visited| < n
    ensures c < n && c !in visited
  {
    RangeSetSize(n);
    if RangeSet(n) <= visited {
      SubsetSize(RangeSet(n), visited);
      assert false;
    }
    c :| c in RangeSet(n) && c !in visited;
  }
}
