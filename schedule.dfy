/** The per-iteration schedules: the evaporation rate used by the pheromone
    update and the number of ants sent out in an iteration. Both are linear
    in the iteration index; they are computed here in exact arithmetic. */
module Schedule {
  import opened Constants

  /** Evaporation rate of an iteration: 0.8 at iteration 0, falling linearly
      to 0.3 at iteration `maxIterations` (true division, as in the source). */
  function EvaporationRate(iteration: int, maxIterations: int): real
    requires maxIterations != 0
  {
    EvaporationInitial - (EvaporationInitial - EvaporationFinal) * (iteration as real / maxIterations as real)
  }

  /** The rate stays in [0.3, 0.8] over the schedule, so the factor every
      entry is multiplied by stays in [0.2, 0.7]. */
  lemma EvaporationRateBounds(iteration: int, maxIterations: int)
    requires 0 <= iteration <= maxIterations && 0 < maxIterations
    ensures EvaporationFinal <= EvaporationRate(iteration, maxIterations) <= EvaporationInitial
    ensures 0.2 <= 1.0 - EvaporationRate(iteration, maxIterations) <= 0.7
  {
  }

  /** The schedule starts at EVAPORATION_INITIAL and ends at EVAPORATION_FINAL. */
  lemma EvaporationRateEndpoints(maxIterations: int)
    requires maxIterations != 0
    ensures EvaporationRate(0, maxIterations) == EvaporationInitial
    ensures EvaporationRate(maxIterations, maxIterations) == EvaporationFinal
  {
  }

  /** A later iteration never evaporates more than an earlier one. */
  lemma EvaporationRateMonotone(earlier: int, later: int, maxIterations: int)
    requires earlier <= later && 0 < maxIterations
    ensures EvaporationRate(later, maxIterations) <= EvaporationRate(earlier, maxIterations)
  {
  }

  /** Python's int() on a float: truncation toward zero. */
  function Truncate(x: real): (r: int)
    ensures 0.0 <= x ==> 0 <= r && r as real <= x < r as real + 1.0
    ensures x < 0.0 ==> r <= 0 && r as real - 1.0 < x <= r as real
  {
    if x >= 0.0 then x.Floor else -((-x).Floor)
  }

  /** Number of ants of an iteration: 100 falling linearly toward 50 over
      ITERATIONS iterations, truncated to an integer. */
  function AntCount(iteration: int): int
  {
    Truncate(AntCountInitial as real
             - (AntCountInitial - AntCountFinal) as real * (iteration as real / Iterations as real))
  }

  /** In exact arithmetic the ant count is 100 - ceil(iteration / 2), so over
      the schedule it lies in [50, 100]. */
  lemma AntCountClosedForm(iteration: int)
    requires 0 <= iteration < Iterations
    ensures AntCount(iteration) == 100 - (iteration + 1) / 2
    ensures AntCountFinal <= AntCount(iteration) <= AntCountInitial
  {
  }

  /** A later iteration never sends out more ants than an earlier one. */
  lemma AntCountMonotone(earlier: int, later: int)
    requires 0 <= earlier <= later < Iterations
    ensures AntCount(later) <= AntCount(earlier)
  {
  }
}
