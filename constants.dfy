/** The tunable parameters of the ant-colony solver, as exact values.
    ALPHA (0.5) and BETA (5) only enter through the abstract weighing
    function of the Selection module, so they have no constant here. */
module Constants {
  const EvaporationInitial: real := 0.8
  const EvaporationFinal: real := 0.3
  const PheromoneMin: real := 0.1
  const PheromoneMax: real := 10.0
  const Iterations: nat := 100
  const AntCountInitial: int := 100
  const AntCountFinal: int := 50
  /** Pheromone deposit factor. */
  const Q: real := 100.0
  const InitialPheromone: real := 1.0
  /** Stand-in for a zero distance before it is inverted. */
  const Epsilon: real := 0.0000000001
}
