# Ant-colony route optimisation, modelled in Dafny

This project models the optimisation engine of a waste-truck route solver.
The solver searches for a short open path through a fixed set of 2-D points
by Ant Colony Optimisation. The model covers:

- **Path construction.** An ant starts at a random city. It then repeatedly
  weighs every city: a visited city gets weight 0, and any other city gets the
  pheromone of the edge raised to ALPHA, times the inverse distance raised to
  BETA. A zero distance
  is replaced by EPSILON before it is inverted. The ant then draws a city of
  positive probability. If every weight is 0, the draw falls back to the
  uniform distribution over all cities.
- **Pheromone update.** The whole matrix is scaled by `1 - rate`. Then
  `Q / length` is added to both directions of every leg of every ant's path,
  and also of the best path. Finally every entry is clipped to `[0.1, 10.0]`.
- **Schedules.** The evaporation rate falls linearly from 0.8 to 0.3. The ant
  count per iteration falls linearly from 100 toward 50 and is truncated to an
  integer.
- **Best tracking.** The best order and its length are replaced only by a
  strictly shorter path.

Modules, one per component:

- `Constants` (constants.dfy): the tunable parameters, as exact reals.
- `Schedule` (schedule.dfy): the evaporation rate and the ant count.
- `Paths` (paths.dfy): path length, and "visits every city exactly once".
- `Pheromone` (pheromone.dfy): the closed form of one update, entry by entry,
  and the class `PheromoneMatrix`. The class holds an `array2<real>` that is
  updated in place.
- `Selection` (selection.dfy): choosing the next city, and building one ant.
- `Colony` (colony.dfy): the best tracking and the main loop.

Real-valued maths is exact (`real`). Euclidean distance is the parameter
`dist: (nat, nat) -> real`, assumed non-negative. The selection weight
`tau ** ALPHA * eta ** BETA` is an uninterpreted, non-negative function
`weigh(tau, eta)`. Each random draw (`random.randint`, `np.random.choice`) is a
nondeterministic choice (`:|`) of any index the draw can return.

Where the design description and the code differ, the model follows the code:

- The matrix starts with every entry at 1.0, the diagonal included
  (`np.full`), not only the off-diagonal entries.
- An empty set of points is not reported as "no solution". The code fails at
  `random.randint(0, -1)`. The model therefore requires at least one city.
- The deposit `Q / length` has no EPSILON guard in the code. The model states
  in a precondition that the length is non-zero (see "Left out").

## Model

| member | source | states |
|---|---|---|
| Schedule.EvaporationRateBounds | main.py:77-78 | for 0 <= iteration <= max_iterations the rate lies in [0.3, 0.8], so the factor `1 - rate` applied to every entry lies in [0.2, 0.7] |
| Schedule.EvaporationRateEndpoints | main.py:77 | the rate is EVAPORATION_INITIAL at iteration 0 and EVAPORATION_FINAL at iteration max_iterations |
| Schedule.EvaporationRateMonotone | main.py:77 | a later iteration never has a larger evaporation rate |
| Schedule.Truncate | main.py:112 | `int()` truncates toward zero: for non-negative x the result is the non-negative integer r with r <= x < r + 1, for negative x the non-positive integer r with r - 1 < x <= r |
| Schedule.AntCountClosedForm | main.py:111-112 | for 0 <= iteration < ITERATIONS the ant count equals 100 - ceil(iteration / 2) exactly and lies in [50, 100] |
| Schedule.AntCountMonotone | main.py:111-112 | a later iteration never sends out more ants |
| Paths.CalculateTotalDistance | main.py:43-49 | the loop accumulates the sum of `dist` over the len(order) - 1 consecutive legs; the result is 0 for orders of length 0 or 1, and non-negative when distances are |
| Paths.PathLengthNonNegative | main.py:43-49 | with non-negative distances every path length is non-negative |
| Paths.PathLengthPositive | main.py:81-86 | a path with a leg that visits no city twice, over cities no two of which share a position, has a positive length, so `Q / distance` is defined |
| Paths.SeparatedHasNoZeroLengthOrder | main.py:81-93 | if no two cities share a position, no order of all cities has length zero |
| Paths.CoincidentPairHasNoZeroLengthOrder | main.py:56-60 | three cities of which two coincide are not pairwise separated, yet no order of them has length zero: the condition under which the run is modelled admits coincident points, the case the EPSILON guard exists for |
| Paths.DistinctFullIsPermutation | main.py:116-122 | a path of exactly `size` distinct cities, all below `size`, contains each of 0 .. size-1 exactly once |
| Pheromone.Clip | main.py:96 | a clipped entry lies in [PHEROMONE_MIN, PHEROMONE_MAX]; an entry already in range is unchanged; one below or above goes to the nearer bound |
| Pheromone.ClipIdempotent | main.py:96 | clipping twice is clipping once |
| Pheromone.DepositSymmetric | main.py:82-86 | what one path deposits on (i, j) equals what it deposits on (j, i) |
| Pheromone.DepositOnLegs | main.py:82-86 | with a positive length, the deposit on (i, j) is non-negative, and it is positive exactly when (i, j) or (j, i) is a leg of the path |
| Pheromone.DepositOffLegs | main.py:82-86 | an entry that no leg touches in either direction receives nothing |
| Pheromone.DistinctPathSkipsDiagonal | main.py:82-86 | a path that visits no city twice deposits nothing on the diagonal |
| Pheromone.AntsDepositSymmetric | main.py:80-86 | the deposits of all ants of an iteration are symmetric in (i, j) |
| Pheromone.AntsDepositNonNegative | main.py:80-86 | with non-negative distances the ants' deposits never lower an entry |
| Pheromone.AntsOffLegs | main.py:80-86 | an entry that no ant's path touches gets no ant deposit |
| Pheromone.Updated | main.py:75-98 | the value of an entry after a whole update lies in [PHEROMONE_MIN, PHEROMONE_MAX], whatever it was before |
| Pheromone.UpdatedSymmetric | main.py:75-98 | equal entries (i, j) and (j, i) stay equal through an update |
| Pheromone.UpdatedOffLegs | main.py:75-98 | a pair of cities that no path of the iteration, and not the best path, joins is only evaporated and clipped |
| Pheromone.PheromoneMatrix.constructor | main.py:39-40 | a fresh size x size matrix with every entry INITIAL_PHEROMONE; it is symmetric and within the clamp bounds |
| Pheromone.PheromoneMatrix.Evaporate | main.py:78 | every entry is multiplied by the same factor |
| Pheromone.PheromoneMatrix.DepositPath | main.py:82-86 | the loop adds Q / distance to both directions of every leg of the path; the new matrix is the old one plus Deposit entry by entry (also used for the best path, lines 89-93) |
| Pheromone.PheromoneMatrix.DepositAnts | main.py:80-86 | the loop over the ants adds, for each ant, the deposit computed with that ant's own path length |
| Pheromone.PheromoneMatrix.Clamp | main.py:96 | every entry becomes its clipped value, so the matrix is bounded; clamping an already bounded matrix changes nothing |
| Pheromone.PheromoneMatrix.Update | main.py:75-98 | every entry becomes Updated(old entry, 1 - rate, ...); the result is bounded, and a symmetric matrix stays symmetric |
| Selection.GuardedDistance | main.py:58-60 | the guarded distance is never zero, so `1.0 / distance` is defined; it is positive for a non-negative input and changes only a zero distance |
| Selection.SumOfNonNegative | main.py:67-68 | a sum of non-negative weights is non-negative, and it is positive exactly when some weight is positive; so the uniform fallback fires exactly when every weight is 0 |
| Selection.Normalize | main.py:70 | normalising by a positive sum keeps the length and the support (exactly the positive weights stay positive) |
| Selection.NormalizedIsDistribution | main.py:67-70 | weights normalised by their positive sum are non-negative and sum to 1 |
| Selection.SelectNextCity | main.py:52-72 | the drawn city is below size; whenever some unvisited city has positive weight, the drawn city is unvisited and has positive weight, so a visited city can be drawn only under the uniform fallback |
| Selection.BuildAnt | main.py:116-122 | the loop ends with a path of exactly size cities that starts at the start city and stays in range; with a weighing that is positive on positive arguments (and positive pheromone, non-negative distances) it contains each of 0 .. size-1 exactly once |
| Colony.Track | main.py:126-128 | one step of the best tracking: the new best distance is at most the candidate's and at most the old one; order and distance are replaced together, and only on strict improvement |
| Colony.TrackAllIsFirstShortest | main.py:114-128 | after one or more paths the incumbent exists, is no longer than any path tried, and is the first of the shortest paths, with its own length |
| Colony.TrackAllMonotone | main.py:107-128 | best_distance never increases as more paths are tried, across ants and across iterations |
| Colony.PermutationsDepositable | main.py:81-86 | when no order of all cities has length zero, every ant's path with a leg has a non-zero length, so each `Q / distance` is defined |
| Colony.ScheduledSizes | main.py:107-115 | when round k holds AntCount(k) paths for every k, the rounds together hold AntsBefore(number of rounds) paths |
| Colony.SendOutAnts | main.py:114-128 | the ant loop builds exactly the scheduled number of paths, each a permutation of the cities, and leaves the pheromone matrix untouched; the incumbent afterwards is the result of tracking every path tried so far, and it is never longer than the incumbent before |
| Colony.RunIteration | main.py:107-133 | one iteration appends exactly AntCount(iteration) permutations (`ants`) to the paths tried; the incumbent is the result of tracking them, exists, and is never longer than before; every matrix entry becomes Updated(old entry, 1 - rate of this iteration, these ants, the new incumbent), so the matrix stays bounded and symmetric |
| Colony.AntColonyOptimization | main.py:101-135 | the paths tried are the ITERATIONS rounds in order, round k holding AntCount(k) permutations; the run returns a best order that visits every city exactly once, with its own length; that length is at most the length of every path tried in the run, and the order is the first shortest path tried |

## Left out

- `read_kml_file` (main.py:21-32) parses XML with ElementTree. That is file I/O and foreign library code. The `coordinates` argument is replaced by `dist` (and by the size of the matrix).
- The top-level script, the plotting and the `print` calls (main.py:108, 130, 138-167) are I/O and presentation.
- `calculate_distance` (main.py:35-36) is `np.linalg.norm`, a square root in floating point. It is the parameter `dist`, assumed non-negative.
- The powers `** ALPHA_INITIAL` and `** BETA` (main.py:61-62) are the uninterpreted function `weigh`. So ALPHA and BETA have no constants here.
- IEEE floating point is not modelled. Every quantity, the schedules included, is an exact real, so float rounding is ignored.
- Randomness is a nondeterministic choice from the support of each draw. The distribution itself and the convergence of the route length are not modelled.
- `update_pheromone` reads the global `coordinates_array` (main.py:81). The model passes `dist` explicitly instead.
- `np.clip` returns a new array, which the caller assigns back to `pheromone` (main.py:96, 133). The model clamps the same matrix in place, which gives the caller the same values. The evaporation and the deposits before it do mutate the caller's matrix in place, as in the code.
- Pheromone.PheromoneMatrix.Update: requires a non-zero length for every path that has a leg, and `max_iterations != 0`. With a zero-length path, numpy's `Q / 0.0` yields +inf, which the clip then turns into PHEROMONE_MAX. Infinities are not modelled. A zero `max_iterations` makes the code raise ZeroDivisionError.
- Colony.AntColonyOptimization: requires that no order of all the cities has length zero (NoZeroLengthOrder), so that every `Q / distance` and `Q / best_distance` is defined (see the line above). Coincident points are allowed; only a set of points that all coincide, with two or more cities, is excluded. It also requires a weighing that is positive on positive arguments. Under that condition the uniform fallback (main.py:68-69) never fires, and every ant is a permutation. The fallback itself, which can re-select a visited city, is modelled in Selection.SelectNextCity and Selection.BuildAnt, where the permutation result is conditional.
- Colony.AntColonyOptimization: requires at least one city. With none, `random.randint(0, -1)` raises, so the code has no "no solution" path through the loop.
