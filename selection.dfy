/** Path construction: how an ant picks its next city, and how one ant
    builds its path from a start city. Random draws are modelled as a
    choice of any index the draw can return (one of positive probability). */
module Selection {
  import opened Constants
  import opened Paths
  import opened Pheromone

  /** The guard applied to a distance before it is inverted: a zero distance
      (two coincident points) is replaced by EPSILON. */
  function GuardedDistance(d: real): (r: real)
    ensures r != 0.0
    ensures d >= 0.0 ==> r > 0.0
    ensures d != 0.0 ==> r == d
  {
    if d == 0.0 then Epsilon else d
  }

  /** `weigh(tau, eta)` stands for tau ** ALPHA * eta ** BETA; its float
      result is never negative. */
  ghost predicate NonNegativeWeigh(weigh: (real, real) -> real)
  {
    forall tau, eta :: weigh(tau, eta) >= 0.0
  }

  lemma WeighNonNegative(weigh: (real, real) -> real, tau: real, eta: real)
    requires NonNegativeWeigh(weigh)
    ensures weigh(tau, eta) >= 0.0
  {
  }

  /** The weighing does not underflow to zero on positive arguments. */
  ghost predicate PositiveWeigh(weigh: (real, real) -> real)
  {
    forall tau, eta :: tau > 0.0 && eta > 0.0 ==> weigh(tau, eta) > 0.0
  }

  /** The weight of moving from `current` to the unvisited city `c`: the
      pheromone level of the edge and the inverse of its guarded distance. */
  function Attraction(pheromone: PheromoneMatrix, dist: (nat, nat) -> real, weigh: (real, real) -> real,
                      current: nat, c: nat): real
    reads pheromone.m
    requires pheromone.Valid() && current < pheromone.size && c < pheromone.size
  {
    weigh(pheromone.m[current, c], 1.0 / GuardedDistance(dist(current, c)))
  }

  function Sum(s: seq<real>): real
    decreases |s|
  {
    if |s| == 0 then 0.0 else Sum(s[..|s| - 1]) + s[|s| - 1]
  }

  ghost predicate AllNonNegative(s: seq<real>)
  {
    forall k :: 0 <= k < |s| ==> s[k] >= 0.0
  }

  /** A sum of non-negative weights is zero exactly when every weight is. */
  lemma {:induction false} SumOfNonNegative(s: seq<real>)
    requires AllNonNegative(s)
    ensures Sum(s) >= 0.0
    ensures Sum(s) > 0.0 <==> exists k :: 0 <= k < |s| && s[k] > 0.0
    decreases |s|
  {
    if |s| > 0 {
      var q := s[..|s| - 1];
      assert forall k :: 0 <= k < |q| ==> q[k] == s[k];
      SumOfNonNegative(q);
      if Sum(s) > 0.0 && s[|s| - 1] <= 0.0 {
        var k :| 0 <= k < |q| && q[k] > 0.0;
        assert s[k] > 0.0;
      }
    }
  }

  /** probabilities / probabilities.sum(). */
  function Normalize(s: seq<real>, total: real): (r: seq<real>)
    requires total > 0.0
    ensures |r| == |s|
    ensures forall k :: 0 <= k < |s| ==> (r[k] > 0.0 <==> s[k] > 0.0)
  {
    seq(|s|, k requires 0 <= k < |s| => s[k] / total)
  }

  lemma DivideSum(a: real, b: real, t: real)
    requires t > 0.0
    ensures (a + b) / t == a / t + b / t
  {
  }

  /** Dividing every weight by `total` divides their sum by `total`. */
  lemma {:induction false} SumScaled(s: seq<real>, total: real)
    requires total > 0.0
    ensures Sum(Normalize(s, total)) == Sum(s) / total
    decreases |s|
  {
    if |s| > 0 {
      var q := s[..|s| - 1];
      var r := Normalize(s, total);
      assert r[..|s| - 1] == Normalize(q, total);
      SumScaled(q, total);
      assert Sum(r) == Sum(q) / total + s[|s| - 1] / total;
      DivideSum(Sum(q), s[|s| - 1], total);
    }
  }

  /** Normalised by their (positive) sum, the weights form a distribution. */
  lemma NormalizedIsDistribution(s: seq<real>)
    requires AllNonNegative(s) && Sum(s) > 0.0
    ensures AllNonNegative(Normalize(s, Sum(s)))
    ensures Sum(Normalize(s, Sum(s))) == 1.0
  {
    var total := Sum(s);
    var r := Normalize(s, total);
    forall k | 0 <= k < |s|
      ensures r[k] == s[k] / total && r[k] >= 0.0
    {
    }
    SumScaled(s, total);
    assert total / total == 1.0;
  }

  /** select_next_city: weigh every city (visited ones get 0), fall back to
      the uniform distribution when every weight is 0, and draw a city of
      positive probability. Whenever some unvisited city has positive
      weight, the city drawn is unvisited and has positive weight; only in
      the fallback can a visited city be drawn. */
  method SelectNextCity(ant: seq<nat>, visited: set<nat>, pheromone: PheromoneMatrix,
                        dist: (nat, nat) -> real, weigh: (real, real) -> real) returns (next: nat)
    requires pheromone.Valid()
    requires |ant| > 0 && ant[|ant| - 1] < pheromone.size
    requires NonNegativeWeigh(weigh)
    ensures next < pheromone.size
    ensures (exists c :: 0 <= c < pheromone.size && c !in visited
                         && Attraction(pheromone, dist, weigh, ant[|ant| - 1], c) > 0.0)
            ==> next !in visited && Attraction(pheromone, dist, weigh, ant[|ant| - 1], next) > 0.0
  {
    var current := ant[|ant| - 1];
    var size := pheromone.size;
    var probabilities: seq<real> := [];
    var c := 0;
    while c < size
      invariant 0 <= c <= size && |probabilities| == c
      invariant AllNonNegative(probabilities)
      invariant forall k :: 0 <= k < c ==>
        probabilities[k] == if k in visited then 0.0 else Attraction(pheromone, dist, weigh, current, k)
    {
      if c !in visited {
        var distance := GuardedDistance(dist(current, c));
        var weight := weigh(pheromone.m[current, c], 1.0 / distance);
        WeighNonNegative(weigh, pheromone.m[current, c], 1.0 / distance);
        probabilities := probabilities + [weight];
      } else {
        probabilities := probabilities + [0.0];
      }
      c := c + 1;
    }
    SumOfNonNegative(probabilities);
    var total := Sum(probabilities);
    if total == 0.0 {
      probabilities := seq(size, _ => 1.0);
      assert probabilities[current] > 0.0;
      SumOfNonNegative(probabilities);
      total := Sum(probabilities);
    }
    var distribution := Normalize(probabilities, total);
    NormalizedIsDistribution(probabilities);
    ghost var drawable :| 0 <= drawable < size && probabilities[drawable] > 0.0;
    assert distribution[drawable] > 0.0;
    next :| 0 <= next < size && distribution[next] > 0.0;
  }

  /** The inner loop of the ant construction: starting from `start`, extend
      the path with SelectNextCity until it holds `size` cities. The path
      always has exactly `size` cities in range; when the weighing cannot
      vanish on a live edge (positive pheromone, guarded distance) every
      step picks an unvisited city and the path is a permutation. */
  method BuildAnt(pheromone: PheromoneMatrix, dist: (nat, nat) -> real, weigh: (real, real) -> real,
                  start: nat) returns (ant: seq<nat>)
    requires pheromone.Valid() && start < pheromone.size
    requires NonNegativeWeigh(weigh)
    ensures |ant| == pheromone.size && ant[0] == start && InRange(ant, pheromone.size)
    ensures PositiveWeigh(weigh) && NonNegative(dist) && pheromone.Positive()
            ==> IsPermutation(ant, pheromone.size)
  {
    ghost var live := PositiveWeigh(weigh) && NonNegative(dist) && pheromone.Positive();
    ant := [start];
    var visited := {start};
    while |ant| < pheromone.size
      invariant 1 <= |ant| <= pheromone.size && ant[0] == start && InRange(ant, pheromone.size)
      invariant forall x :: x in visited <==> x in ant
      invariant live ==> Distinct(ant) && |visited| == |ant|
      decreases pheromone.size - |ant|
    {
      var next := SelectNextCity(ant, visited, pheromone, dist, weigh);
      if live {
        var c := UnvisitedExists(visited, pheromone.size);
        var current := ant[|ant| - 1];
        assert GuardedDistance(dist(current, c)) > 0.0;
        assert Attraction(pheromone, dist, weigh, current, c) > 0.0;
      }
      ant := ant + [next];
      visited := visited + {next};
    }
    if live {
      DistinctFullIsPermutation(ant, pheromone.size);
    }
  }
}
