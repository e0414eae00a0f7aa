/** The pheromone matrix and its update rule: uniform evaporation, a
    deposit of Q / length on both directions of every leg of every ant's
    path and of the best path, then clamping to [PHEROMONE_MIN, PHEROMONE_MAX]. */
module Pheromone {
  import opened Constants
  import opened Schedule
  import opened Paths

  /** np.clip of one entry to [PHEROMONE_MIN, PHEROMONE_MAX]. */
  function Clip(x: real): (r: real)
    ensures PheromoneMin <= r <= PheromoneMax
    ensures PheromoneMin <= x <= PheromoneMax ==> r == x
    ensures x < PheromoneMin ==> r == PheromoneMin
    ensures x > PheromoneMax ==> r == PheromoneMax
  {
    if x < PheromoneMin then PheromoneMin else if x > PheromoneMax then PheromoneMax else x
  }

  /** Clipping a clipped value changes nothing. */
  lemma ClipIdempotent(x: real)
    ensures Clip(Clip(x)) == Clip(x)
  {
  }

  /** (i, j) is a leg of `p`: some city i is immediately followed by j. */
  ghost predicate IsLeg(p: seq<nat>, i: nat, j: nat)
  {
    exists k :: 0 <= k < |p| - 1 && p[k] == i && p[k + 1] == j
  }

  /** What depositing Q / length on (from, to) and (to, from) for every leg
      of `p` adds to entry (i, j). A leg from a city to itself feeds that
      diagonal entry twice, as the two successive `+=` do. */
  function Deposit(p: seq<nat>, length: real, i: nat, j: nat): real
    requires |p| >= 2 ==> length != 0.0
    decreases |p|
  {
    if |p| < 2 then 0.0
    else
      var from, to := p[|p| - 2], p[|p| - 1];
      Deposit(p[..|p| - 1], length, i, j)
        + (if from == i && to == j then Q / length else 0.0)
        + (if to == i && from == j then Q / length else 0.0)
  }

  /** Every deposit lands on (i, j) and (j, i) alike. */
  lemma {:induction false} DepositSymmetric(p: seq<nat>, length: real, i: nat, j: nat)
    requires |p| >= 2 ==> length != 0.0
    ensures Deposit(p, length, i, j) == Deposit(p, length, j, i)
    decreases |p|
  {
    if |p| >= 2 {
      DepositSymmetric(p[..|p| - 1], length, i, j);
    }
  }

  /** A leg of a path is a leg of its prefix or its last step. */
  lemma LegOfPrefix(p: seq<nat>, i: nat, j: nat)
    requires |p| >= 2
    ensures IsLeg(p, i, j) <==>
            IsLeg(p[..|p| - 1], i, j) || (p[|p| - 2] == i && p[|p| - 1] == j)
  {
  }

  /** A positive length deposits a positive amount on exactly the entries
      that some leg of `p` touches in either direction, and nothing else. */
  lemma {:induction false} DepositOnLegs(p: seq<nat>, length: real, i: nat, j: nat)
    requires length > 0.0
    ensures Deposit(p, length, i, j) >= 0.0
    ensures Deposit(p, length, i, j) > 0.0 <==> IsLeg(p, i, j) || IsLeg(p, j, i)
    decreases |p|
  {
    if |p| >= 2 {
      DepositOnLegs(p[..|p| - 1], length, i, j);
      LegOfPrefix(p, i, j);
      LegOfPrefix(p, j, i);
      assert Q / length > 0.0;
    }
  }

  /** Entries off every leg receive nothing, whatever the length. */
  lemma {:induction false} DepositOffLegs(p: seq<nat>, length: real, i: nat, j: nat)
    requires |p| >= 2 ==> length != 0.0
    requires !IsLeg(p, i, j) && !IsLeg(p, j, i)
    ensures Deposit(p, length, i, j) == 0.0
    decreases |p|
  {
    if |p| >= 2 {
      LegOfPrefix(p, i, j);
      LegOfPrefix(p, j, i);
      DepositOffLegs(p[..|p| - 1], length, i, j);
    }
  }

  /** A path that visits no city twice deposits nothing on the diagonal. */
  lemma DistinctPathSkipsDiagonal(p: seq<nat>, length: real, i: nat)
    requires Distinct(p) && (|p| >= 2 ==> length != 0.0)
    ensures Deposit(p, length, i, i) == 0.0
  {
    DepositOffLegs(p, length, i, i);
  }

  /** Every ant whose path has a leg has a non-zero length, so Q / length is defined. */
  ghost predicate Depositable(dist: (nat, nat) -> real, ants: seq<seq<nat>>)
  {
    forall k :: 0 <= k < |ants| ==> |ants[k]| >= 2 ==> PathLength(dist, ants[k]) != 0.0
  }

  /** What the deposits of all ants of an iteration add to entry (i, j). */
  function AntsDeposit(dist: (nat, nat) -> real, ants: seq<seq<nat>>, i: nat, j: nat): real
    requires Depositable(dist, ants)
    decreases |ants|
  {
    if |ants| == 0 then 0.0
    else
      var last := ants[|ants| - 1];
      assert forall k :: 0 <= k < |ants| - 1 ==> ants[..|ants| - 1][k] == ants[k];
      AntsDeposit(dist, ants[..|ants| - 1], i, j) + Deposit(last, PathLength(dist, last), i, j)
  }

  lemma {:induction false} AntsDepositSymmetric(dist: (nat, nat) -> real, ants: seq<seq<nat>>, i: nat, j: nat)
    requires Depositable(dist, ants)
    ensures AntsDeposit(dist, ants, i, j) == AntsDeposit(dist, ants, j, i)
    decreases |ants|
  {
    if |ants| > 0 {
      var last := ants[|ants| - 1];
      assert forall k :: 0 <= k < |ants| - 1 ==> ants[..|ants| - 1][k] == ants[k];
      AntsDepositSymmetric(dist, ants[..|ants| - 1], i, j);
      DepositSymmetric(last, PathLength(dist, last), i, j);
    }
  }

  /** With non-negative distances no ant takes pheromone away. */
  lemma {:induction false} AntsDepositNonNegative(dist: (nat, nat) -> real, ants: seq<seq<nat>>, i: nat, j: nat)
    requires NonNegative(dist) && Depositable(dist, ants)
    ensures AntsDeposit(dist, ants, i, j) >= 0.0
    decreases |ants|
  {
    if |ants| > 0 {
      var last := ants[|ants| - 1];
      assert forall k :: 0 <= k < |ants| - 1 ==> ants[..|ants| - 1][k] == ants[k];
      AntsDepositNonNegative(dist, ants[..|ants| - 1], i, j);
      if |last| >= 2 {
        PathLengthNonNegative(dist, last);
        DepositOnLegs(last, PathLength(dist, last), i, j);
      }
    }
  }

  /** Entry (i, j) after a whole update: evaporated `before`, plus the ants'
      deposits and the best path's deposit, clipped. */
  function Updated(before: real, retention: real, dist: (nat, nat) -> real, ants: seq<seq<nat>>,
                   best: seq<nat>, bestDistance: real, i: nat, j: nat): (r: real)
    requires Depositable(dist, ants) && (|best| >= 2 ==> bestDistance != 0.0)
    ensures PheromoneMin <= r <= PheromoneMax
  {
    Clip(before * retention + AntsDeposit(dist, ants, i, j) + Deposit(best, bestDistance, i, j))
  }

  /** The update maps equal entries (i, j) and (j, i) to equal entries. */
  lemma UpdatedSymmetric(beforeIJ: real, beforeJI: real, retention: real, dist: (nat, nat) -> real,
                         ants: seq<seq<nat>>, best: seq<nat>, bestDistance: real, i: nat, j: nat)
    requires Depositable(dist, ants) && (|best| >= 2 ==> bestDistance != 0.0)
    requires beforeIJ == beforeJI
    ensures Updated(beforeIJ, retention, dist, ants, best, bestDistance, i, j)
         == Updated(beforeJI, retention, dist, ants, best, bestDistance, j, i)
  {
    AntsDepositSymmetric(dist, ants, i, j);
    DepositSymmetric(best, bestDistance, i, j);
  }

  /** A pair of cities that no path of the iteration joins only evaporates. */
  lemma {:induction false} UpdatedOffLegs(before: real, retention: real, dist: (nat, nat) -> real,
                         ants: seq<seq<nat>>, best: seq<nat>, bestDistance: real, i: nat, j: nat)
    requires Depositable(dist, ants) && (|best| >= 2 ==> bestDistance != 0.0)
    requires forall k :: 0 <= k < |ants| ==> !IsLeg(ants[k], i, j) && !IsLeg(ants[k], j, i)
    requires !IsLeg(best, i, j) && !IsLeg(best, j, i)
    ensures Updated(before, retention, dist, ants, best, bestDistance, i, j) == Clip(before * retention)
    decreases |ants|
  {
    DepositOffLegs(best, bestDistance, i, j);
    AntsOffLegs(dist, ants, i, j);
  }

  lemma {:induction false} AntsOffLegs(dist: (nat, nat) -> real, ants: seq<seq<nat>>, i: nat, j: nat)
    requires Depositable(dist, ants)
    requires forall k :: 0 <= k < |ants| ==> !IsLeg(ants[k], i, j) && !IsLeg(ants[k], j, i)
    ensures AntsDeposit(dist, ants, i, j) == 0.0
    decreases |ants|
  {
    if |ants| > 0 {
      var last := ants[|ants| - 1];
      assert forall k :: 0 <= k < |ants| - 1 ==> ants[..|ants| - 1][k] == ants[k];
      AntsOffLegs(dist, ants[..|ants| - 1], i, j);
      DepositOffLegs(last, PathLength(dist, last), i, j);
    }
  }

  /** Every entry of the matrix went from its value in the earlier state to
      `Updated` of it, with the given retention, paths and best path. */
  twostate predicate UpdatedWith(pheromone: PheromoneMatrix, retention: real, dist: (nat, nat) -> real,
                                 ants: seq<seq<nat>>, best: seq<nat>, bestDistance: real)
    reads pheromone.m
  {
    pheromone.Valid() && Depositable(dist, ants) && (|best| >= 2 ==> bestDistance != 0.0)
    && forall i, j :: 0 <= i < pheromone.size && 0 <= j < pheromone.size ==>
         pheromone.m[i, j] == Updated(old(pheromone.m[i, j]), retention, dist, ants, best, bestDistance, i, j)
  }

  /** The N x N pheromone table, updated in place once per iteration. */
  class PheromoneMatrix {
    const size: nat
    const m: array2<real>

    ghost predicate Valid()
    {
      m.Length0 == size && m.Length1 == size
    }

    ghost predicate Symmetric()
      reads m
      requires Valid()
    {
      forall i, j :: 0 <= i < size && 0 <= j < size ==> m[i, j] == m[j, i]
    }

    ghost predicate Bounded()
      reads m
      requires Valid()
    {
      forall i, j :: 0 <= i < size && 0 <= j < size ==> PheromoneMin <= m[i, j] <= PheromoneMax
    }

    /** Every entry can still attract an ant. */
    ghost predicate Positive()
      reads m
      requires Valid()
    {
      forall i, j :: 0 <= i < size && 0 <= j < size ==> m[i, j] > 0.0
    }

    /** np.full((size, size), INITIAL_PHEROMONE). */
    constructor (size: nat)
      ensures this.size == size && Valid() && fresh(m)
      ensures forall i, j :: 0 <= i < size && 0 <= j < size ==> m[i, j] == InitialPheromone
      ensures Symmetric() && Bounded()
    {
      this.size := size;
      m := new real[size, size]((i, j) => InitialPheromone);
    }

    /** pheromone *= factor: every entry scaled alike. */
    method Evaporate(factor: real)
      requires Valid()
      modifies m
      ensures forall i, j :: 0 <= i < size && 0 <= j < size ==> m[i, j] == old(m[i, j]) * factor
    {
      forall i, j | 0 <= i < size && 0 <= j < size {
        m[i, j] := m[i, j] * factor;
      }
    }

    /** Adds Q / distance to (from, to) and to (to, from) for every leg of `path`. */
    method DepositPath(path: seq<nat>, distance: real)
      requires Valid() && InRange(path, size)
      requires |path| >= 2 ==> distance != 0.0
      modifies m
      ensures forall i, j :: 0 <= i < size && 0 <= j < size ==>
        m[i, j] == old(m[i, j]) + Deposit(path, distance, i, j)
    {
      var k := 0;
      ghost var done := if |path| == 0 then 0 else 1;
      while k < |path| - 1
        invariant 0 <= k && done == (if |path| == 0 then 0 else k + 1) && done <= |path|
        invariant forall i, j :: 0 <= i < size && 0 <= j < size ==>
          m[i, j] == old(m[i, j]) + Deposit(path[..done], distance, i, j)
      {
        var from, to := path[k], path[k + 1];
        assert path[..k + 2][..k + 1] == path[..k + 1];
        m[from, to] := m[from, to] + Q / distance;
        m[to, from] := m[to, from] + Q / distance;
        k, done := k + 1, done + 1;
      }
      assert path[..done] == path;
    }

    /** np.clip(pheromone, PHEROMONE_MIN, PHEROMONE_MAX). */
    method Clamp()
      requires Valid()
      modifies m
      ensures forall i, j :: 0 <= i < size && 0 <= j < size ==> m[i, j] == Clip(old(m[i, j]))
      ensures Bounded()
      ensures old(Bounded()) ==> forall i, j :: 0 <= i < size && 0 <= j < size ==> m[i, j] == old(m[i, j])
    {
      forall i, j | 0 <= i < size && 0 <= j < size {
        m[i, j] := Clip(m[i, j]);
      }
    }

    /** The per-ant deposits of one iteration, ant by ant, each with the
        length of that ant's own path. */
    method DepositAnts(ants: seq<seq<nat>>, dist: (nat, nat) -> real)
      requires Valid()
      requires forall k :: 0 <= k < |ants| ==> InRange(ants[k], size)
      requires Depositable(dist, ants)
      modifies m
      ensures forall i, j :: 0 <= i < size && 0 <= j < size ==>
        m[i, j] == old(m[i, j]) + AntsDeposit(dist, ants, i, j)
    {
      var a := 0;
      while a < |ants|
        invariant 0 <= a <= |ants|
        invariant Depositable(dist, ants[..a])
        invariant forall i, j :: 0 <= i < size && 0 <= j < size ==>
          m[i, j] == old(m[i, j]) + AntsDeposit(dist, ants[..a], i, j)
      {
        var distance := CalculateTotalDistance(ants[a], dist);
        DepositPath(ants[a], distance);
        assert ants[..a + 1][..a] == ants[..a];
        assert ants[..a + 1][a] == ants[a];
        a := a + 1;
      }
      assert ants[..a] == ants;
    }

    /** update_pheromone: evaporate at this iteration's rate, deposit along
        every ant's path and along the best path, then clamp. */
    method Update(ants: seq<seq<nat>>, bestOrder: seq<nat>, bestDistance: real,
                  iteration: int, maxIterations: int, dist: (nat, nat) -> real)
      requires Valid() && maxIterations != 0
      requires forall k :: 0 <= k < |ants| ==> InRange(ants[k], size)
      requires InRange(bestOrder, size)
      requires Depositable(dist, ants) && (|bestOrder| >= 2 ==> bestDistance != 0.0)
      modifies m
      ensures UpdatedWith(this, 1.0 - EvaporationRate(iteration, maxIterations),
                          dist, ants, bestOrder, bestDistance)
      ensures Bounded()
      ensures old(Symmetric()) ==> Symmetric()
    {
      var evaporationRate := EvaporationRate(iteration, maxIterations);
      ghost var retention := 1.0 - evaporationRate;
      Evaporate(1.0 - evaporationRate);
      DepositAnts(ants, dist);
      assert forall i, j :: 0 <= i < size && 0 <= j < size ==>
        m[i, j] == old(m[i, j]) * retention + AntsDeposit(dist, ants, i, j);
      DepositPath(bestOrder, bestDistance);
      assert forall i, j :: 0 <= i < size && 0 <= j < size ==>
        m[i, j] == old(m[i, j]) * retention + AntsDeposit(dist, ants, i, j) + Deposit(bestOrder, bestDistance, i, j);
      Clamp();
      assert forall i, j :: 0 <= i < size && 0 <= j < size ==>
        m[i, j] == Clip(old(m[i, j]) * retention + AntsDeposit(dist, ants, i, j) + Deposit(bestOrder, bestDistance, i, j));
      assert forall i, j :: 0 <= i < size && 0 <= j < size ==>
        m[i, j] == Updated(old(m[i, j]), retention, dist, ants, bestOrder, bestDistance, i, j);
      if old(Symmetric()) {
        forall i, j | 0 <= i < size && 0 <= j < size
          ensures m[i, j] == m[j, i]
        {
          UpdatedSymmetric(old(m[i, j]), old(m[j, i]), 1.0 - evaporationRate,
                           dist, ants, bestOrder, bestDistance, i, j);
        }
      }
    }
  }
}
