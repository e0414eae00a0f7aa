/** The optimisation loop: ITERATIONS iterations, each sending out the
    scheduled number of ants from random start cities, tracking the
    shortest path seen so far and then updating the pheromone matrix. */
module Colony {
  import opened Constants
  import opened Schedule
  import opened Paths
  import opened Pheromone
  import opened Selection

  /** The best solution so far: none yet (best_distance is still infinite),
      or an order together with its length. */
  datatype Incumbent = NoSolution | Best(order: seq<nat>, distance: real)

  /** One comparison of the best-tracking step: a path replaces the
      incumbent exactly when it is strictly shorter (any path beats an
      infinite best_distance), and order and length are replaced together. */
  function Track(incumbent: Incumbent, ant: seq<nat>, distance: real): (r: Incumbent)
    ensures r.Best? && r.distance <= distance
    ensures incumbent.Best? ==> r.distance <= incumbent.distance
    ensures r == incumbent || r == Best(ant, distance)
    ensures r != incumbent ==> incumbent.NoSolution? || distance < incumbent.distance
  {
    if incumbent.NoSolution? || distance < incumbent.distance then Best(ant, distance) else incumbent
  }

  /** The incumbent after the paths `ants` were tried in order. */
  function TrackAll(dist: (nat, nat) -> real, ants: seq<seq<nat>>): Incumbent
    decreases |ants|
  {
    if |ants| == 0 then NoSolution
    else
      var last := ants[|ants| - 1];
      Track(TrackAll(dist, ants[..|ants| - 1]), last, PathLength(dist, last))
  }

  /** After at least one path, the incumbent is the first of the shortest
      paths tried, with its own length. */
  lemma {:induction false} TrackAllIsFirstShortest(dist: (nat, nat) -> real, ants: seq<seq<nat>>)
    requires |ants| > 0
    ensures TrackAll(dist, ants).Best?
    ensures forall k :: 0 <= k < |ants| ==> TrackAll(dist, ants).distance <= PathLength(dist, ants[k])
    ensures exists k :: 0 <= k < |ants| && TrackAll(dist, ants) == Best(ants[k], PathLength(dist, ants[k]))
                        && forall e :: 0 <= e < k ==> PathLength(dist, ants[e]) > PathLength(dist, ants[k])
    decreases |ants|
  {
    var n := |ants|;
    var q := ants[..n - 1];
    var last := ants[n - 1];
    var d := PathLength(dist, last);
    var now := TrackAll(dist, ants);
    if n == 1 {
      assert q == [];
    } else {
      TrackAllIsFirstShortest(dist, q);
      var prev := TrackAll(dist, q);
      assert now == Track(prev, last, d);
      var k :| 0 <= k < |q| && prev == Best(q[k], PathLength(dist, q[k]))
               && forall e :: 0 <= e < k ==> PathLength(dist, q[e]) > PathLength(dist, q[k]);
      forall j | 0 <= j < n
        ensures now.distance <= PathLength(dist, ants[j])
      {
        if j < n - 1 {
          assert ants[j] == q[j];
        }
      }
      if d < prev.distance {
        assert now == Best(ants[n - 1], PathLength(dist, ants[n - 1]));
        forall e | 0 <= e < n - 1
          ensures PathLength(dist, ants[e]) > PathLength(dist, ants[n - 1])
        {
          assert ants[e] == q[e];
        }
      } else {
        assert now == prev && ants[k] == q[k];
        forall e | 0 <= e < k
          ensures PathLength(dist, ants[e]) > PathLength(dist, ants[k])
        {
          assert ants[e] == q[e];
        }
      }
    }
  }

  /** best_distance never increases: the incumbent after more paths is never
      longer than after fewer. */
  lemma {:induction false} TrackAllMonotone(dist: (nat, nat) -> real, ants: seq<seq<nat>>, fewer: nat)
    requires 0 < fewer <= |ants|
    ensures TrackAll(dist, ants[..fewer]).Best? && TrackAll(dist, ants).Best?
    ensures TrackAll(dist, ants).distance <= TrackAll(dist, ants[..fewer]).distance
    decreases |ants|
  {
    if fewer < |ants| {
      var q := ants[..|ants| - 1];
      assert q[..fewer] == ants[..fewer];
      TrackAllMonotone(dist, q, fewer);
    } else {
      assert ants[..fewer] == ants;
      TrackAllIsFirstShortest(dist, ants);
    }
  }

  /** Number of ants sent out by the iterations before `iteration`. */
  function AntsBefore(iteration: nat): int
  {
    if iteration == 0 then 0 else AntsBefore(iteration - 1) + AntCount(iteration - 1)
  }

  /** When no order of all cities has length zero, every path of a run can
      deposit: Q / length is defined for each of them. */
  lemma PermutationsDepositable(dist: (nat, nat) -> real, ants: seq<seq<nat>>, size: nat)
    requires NoZeroLengthOrder(dist, size)
    requires AllPermutations(ants, size)
    ensures Depositable(dist, ants)
    ensures forall k :: 0 <= k < |ants| ==> InRange(ants[k], size)
  {
  }

  /** All paths of the given rounds, round after round. */
  function Concat(rounds: seq<seq<seq<nat>>>): seq<seq<nat>>
    decreases |rounds|
  {
    if |rounds| == 0 then [] else Concat(rounds[..|rounds| - 1]) + rounds[|rounds| - 1]
  }

  lemma ConcatAppend(rounds: seq<seq<seq<nat>>>, round: seq<seq<nat>>)
    ensures (rounds + [round])[..|rounds|] == rounds
    ensures Concat(rounds + [round]) == Concat(rounds) + round
  {
    assert (rounds + [round])[..|rounds|] == rounds;
  }

  /** Round k holds AntCount(k) paths, for every round. */
  ghost predicate Scheduled(rounds: seq<seq<seq<nat>>>)
    decreases |rounds|
  {
    |rounds| == 0
    || (Scheduled(rounds[..|rounds| - 1]) && |rounds[|rounds| - 1]| == AntCount(|rounds| - 1))
  }

  /** Rounds that follow the schedule hold AntsBefore(|rounds|) paths in all. */
  lemma {:induction false} ScheduledSizes(rounds: seq<seq<seq<nat>>>)
    requires Scheduled(rounds)
    ensures forall k :: 0 <= k < |rounds| ==> |rounds[k]| == AntCount(k)
    ensures |Concat(rounds)| == AntsBefore(|rounds|)
    decreases |rounds|
  {
    if |rounds| > 0 {
      var q := rounds[..|rounds| - 1];
      ScheduledSizes(q);
      assert forall k :: 0 <= k < |q| ==> rounds[k] == q[k];
    }
  }

  /** One iteration's construction phase: `antCount` ants, each from a
      random start city, built against the unchanged pheromone matrix; each
      finished path is offered to the best tracking. `tried` is every path
      tried so far in the run, before and after. */
  method SendOutAnts(pheromone: PheromoneMatrix, antCount: int, dist: (nat, nat) -> real,
                     weigh: (real, real) -> real, best: Incumbent, ghost tried: seq<seq<nat>>)
    returns (allAnts: seq<seq<nat>>, newBest: Incumbent, ghost newTried: seq<seq<nat>>)
    requires pheromone.Valid() && pheromone.size >= 1 && pheromone.Bounded()
    requires NonNegative(dist) && NonNegativeWeigh(weigh) && PositiveWeigh(weigh)
    requires AllPermutations(tried, pheromone.size) && best == TrackAll(dist, tried)
    requires best.Best? ==> IsPermutation(best.order, pheromone.size) && best.distance == PathLength(dist, best.order)
    ensures |allAnts| == if antCount < 0 then 0 else antCount
    ensures AllPermutations(allAnts, pheromone.size)
    ensures newTried == tried + allAnts && AllPermutations(newTried, pheromone.size)
    ensures newBest == TrackAll(dist, newTried)
    ensures newBest.Best? ==> IsPermutation(newBest.order, pheromone.size)
                              && newBest.distance == PathLength(dist, newBest.order)
    ensures antCount > 0 ==> newBest.Best?
    ensures best.Best? ==> newBest.distance <= best.distance
    ensures unchanged(pheromone.m)
  {
    var size := pheromone.size;
    assert pheromone.Positive();
    allAnts := [];
    newBest := best;
    newTried := tried;
    var antIndex := 0;
    while antIndex < antCount
      invariant |allAnts| == antIndex && (antIndex == 0 || antIndex <= antCount)
      invariant AllPermutations(allAnts, size)
      invariant newTried == tried + allAnts
      invariant newBest == TrackAll(dist, newTried)
      invariant newBest.Best? ==> IsPermutation(newBest.order, size) && newBest.distance == PathLength(dist, newBest.order)
      invariant antIndex > 0 ==> newBest.Best?
    {
      var start :| 0 <= start < size;
      var ant := BuildAnt(pheromone, dist, weigh, start);
      ghost var before := newTried;
      AllPermutationsAppend(allAnts, ant, size);
      allAnts := allAnts + [ant];
      newTried := newTried + [ant];
      assert newTried[..|newTried| - 1] == before;
      var distance := CalculateTotalDistance(ant, dist);
      assert TrackAll(dist, newTried) == Track(TrackAll(dist, before), ant, distance);
      if newBest.NoSolution? || distance < newBest.distance {
        newBest := Best(ant, distance);
      }
      antIndex := antIndex + 1;
    }
    AllPermutationsConcat(tried, allAnts, size);
    if best.Best? {
      assert newTried[..|tried|] == tried;
      TrackAllMonotone(dist, newTried, |tried|);
    }
  }

  /** One iteration of the main loop: send out AntCount(iteration) ants,
      then update the pheromone matrix with their paths and the best path.
      The paths of this iteration (`ants`) are appended to `tried`, the
      incumbent never gets longer, and every entry of the matrix is updated
      from its old value with exactly these paths and the new incumbent. */
  method RunIteration(pheromone: PheromoneMatrix, iteration: nat, dist: (nat, nat) -> real,
                      weigh: (real, real) -> real, best: Incumbent, ghost tried: seq<seq<nat>>)
    returns (newBest: Incumbent, ghost ants: seq<seq<nat>>, ghost newTried: seq<seq<nat>>)
    requires iteration < Iterations
    requires pheromone.Valid() && pheromone.size >= 1 && pheromone.Bounded() && pheromone.Symmetric()
    requires NonNegative(dist) && NoZeroLengthOrder(dist, pheromone.size)
    requires NonNegativeWeigh(weigh) && PositiveWeigh(weigh)
    requires AllPermutations(tried, pheromone.size) && best == TrackAll(dist, tried)
    requires best.Best? ==> IsPermutation(best.order, pheromone.size) && best.distance == PathLength(dist, best.order)
    modifies pheromone.m
    ensures |ants| == AntCount(iteration) && newTried == tried + ants
    ensures AllPermutations(newTried, pheromone.size) && newBest == TrackAll(dist, newTried)
    ensures newBest.Best? && IsPermutation(newBest.order, pheromone.size)
    ensures newBest.distance == PathLength(dist, newBest.order)
    ensures best.Best? ==> newBest.distance <= best.distance
    ensures UpdatedWith(pheromone, 1.0 - EvaporationRate(iteration, Iterations), dist,
                        ants, newBest.order, newBest.distance)
    ensures pheromone.Bounded() && pheromone.Symmetric()
  {
    var antCount := AntCount(iteration);
    AntCountClosedForm(iteration);
    var allAnts;
    allAnts, newBest, newTried := SendOutAnts(pheromone, antCount, dist, weigh, best, tried);
    ants := allAnts;
    PermutationsDepositable(dist, allAnts, pheromone.size);
    pheromone.Update(allAnts, newBest.order, newBest.distance, iteration, Iterations, dist);
  }

  /** ant_colony_optimization over `size` cities. Iteration k sends out
      AntCount(k) ants (`rounds[k]`); the result is the first shortest of
      all paths tried (`tried`, the rounds in order), each of which visits
      every city exactly once. */
  method AntColonyOptimization(size: nat, dist: (nat, nat) -> real, weigh: (real, real) -> real)
    returns (bestOrder: seq<nat>, bestDistance: real, ghost tried: seq<seq<nat>>,
             ghost rounds: seq<seq<seq<nat>>>)
    requires size >= 1
    requires NonNegative(dist) && NoZeroLengthOrder(dist, size)
    requires NonNegativeWeigh(weigh) && PositiveWeigh(weigh)
    ensures IsPermutation(bestOrder, size) && bestDistance == PathLength(dist, bestOrder)
    ensures |rounds| == Iterations && tried == Concat(rounds)
    ensures forall k :: 0 <= k < Iterations ==> |rounds[k]| == AntCount(k)
    ensures |tried| == AntsBefore(Iterations)
    ensures AllPermutations(tried, size)
    ensures Best(bestOrder, bestDistance) == TrackAll(dist, tried)
    ensures bestOrder in tried && forall k :: 0 <= k < |tried| ==> bestDistance <= PathLength(dist, tried[k])
  {
    var pheromone := new PheromoneMatrix(size);
    var best := NoSolution;
    tried := [];
    rounds := [];
    var iteration := 0;
    while iteration < Iterations
      invariant 0 <= iteration <= Iterations
      invariant pheromone.Valid() && pheromone.size == size && fresh(pheromone.m)
      invariant pheromone.Bounded() && pheromone.Symmetric()
      invariant |rounds| == iteration && tried == Concat(rounds) && Scheduled(rounds)
      invariant AllPermutations(tried, size) && best == TrackAll(dist, tried)
      invariant best.Best? ==> IsPermutation(best.order, size) && best.distance == PathLength(dist, best.order)
      invariant iteration > 0 ==> best.Best?
    {
      ghost var ants;
      best, ants, tried := RunIteration(pheromone, iteration, dist, weigh, best, tried);
      ConcatAppend(rounds, ants);
      rounds := rounds + [ants];
      iteration := iteration + 1;
    }
    bestOrder, bestDistance := best.order, best.distance;
    ScheduledSizes(rounds);
    TrackAllIsFirstShortest(dist, tried);
  }
}
