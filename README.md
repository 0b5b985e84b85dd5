# Ant Colony Optimization for the Travelling Salesman Problem, in Dafny

This project models the solver class `AntColonyOptimizationTSP` of `TCP_ANT.cpp`. The solver searches for a short closed tour through `numCities` cities. In every iteration each of `numAnts` ants builds a tour. Each ant starts at a random city and then repeatedly picks the next unvisited city by a roulette wheel, weighting every city by pheromone and closeness. The solver keeps the shortest tour seen so far. At the end of the iteration every pheromone trail evaporates, and each ant deposits `Q / length` on both directions of every edge of its tour.

The modules follow the parts of the class:

- `Roulette` (`roulette.dfy`) models the wheel of `selectNextCity`:
  - the running total of the unvisited weights;
  - the first unvisited city whose running total reaches the draw;
  - the array scan that computes that city.
- `Tours` (`tours.dfy`) defines:
  - tours, permutations, the visited flags of a tour prefix;
  - the closed-tour length that `getTourLength` computes.
- `Trails` (`trails.dfy`) is the value-level specification of `updatePheromones`:
  - evaporation by the factor `1 - rho`;
  - what each ant's tour lays on each entry;
  - the updated matrix and its symmetry and positivity.
- `Incumbent` (`incumbent.dfy`) models the best-so-far bookkeeping of `solve`:
  - the `DBL_MAX` sentinel;
  - strict improvement;
  - the best of a sequence of measured tours.
- `Colony` (`colony.dfy`) holds the class itself:
  - its configuration as `const` fields;
  - the pheromone matrix as an `array2<real>` updated in place;
  - the random stream as a cursor `drawn` into an injected sequence of uniform draws;
  - the methods `SelectNextCity`, `ConstructTour`, `GetTourLength`, `UpdatePheromones` and `Solve`, each proved against the value-level functions above.

Some source loops are split into helper methods with their own contracts, to keep each proof small:
- the inner scan of `selectNextCity` (`Roulette.Scan`);
- one step of the tour loop (`PlaceNext`);
- the evaporation pass (`EvaporateTrails`);
- one ant's deposit (`LayTrail`);
- one ant's turn of the ant loop (`AntTurn`);
- one iteration's ants (`RunAnts`);
- one iteration of `solve` (`Iterate`).

How the model treats randomness:
- The uniform draws are the class's `unit` sequence. `drawn` counts how many of them the run has consumed.
- The start city of a tour is `floor(u * numCities)` for the next draw `u`.
- The wheel's draw is `u * sum`, scaled from `[0, 1)` to `[0, sum)`.
- The spec function `Walk` states which tour an ant builds from the trails and the draws. `ConstructTour` returns exactly that tour, and it is a permutation of the cities.
- Every walk consumes `numCities` draws, so ant `x` of an iteration that starts at draw `d` walks from draw `d + x * numCities` (`Advance`). Iteration `k` of the run starts at draw `d + k * numAnts * numCities` (`Rounds`).
- The ghost functions `TrailsAfter` and `RunsAfter` give the whole trajectory of a run: the trails after `k` iterations, and every tour measured in them in order. `Solve` is proved to follow that trajectory.

### Edge cases of the code

One might expect an all-zero score row to make the selection fail. The code does not fail in that case. The sum is `0`, so the draw from `[0, 0)` is `0`. The first unvisited city then has a running total of `0 >= 0` and is returned. The model follows the code: `Roulette.ZeroWeightsPickFirstUnvisited` proves that the first unvisited city is selected. Over exact arithmetic and with nonnegative scores, `Roulette.SpinFailsIff` shows the throw at line 101 is reached only when every city is already visited. `ConstructTour` never reaches that state.

A zero tour length might be read as a division-by-zero error. In the code, `Q / 0.0` is IEEE infinity and nothing is thrown. The model makes nonzero lengths a precondition (see "Left out").

## Model

| member | source | states |
|---|---|---|
| Colony.AntColonyOptimizationTSP.constructor | TCP_ANT.cpp:13-23 | The configuration is stored unchanged. The pheromone matrix is a fresh numCities-by-numCities array holding 1.0 everywhere. The object invariant holds: trails symmetric and positive. |
| Colony.StartCity | TCP_ANT.cpp:57-58 | The start city drawn from a uniform value in [0, 1) is a valid city index below numCities. |
| Colony.AntColonyOptimizationTSP.Weights | TCP_ANT.cpp:74-86 | The score row has one entry per city. A visited city scores 0, and an unvisited city scores `score(trail, distance)` for the edge from the current city. |
| Colony.AntColonyOptimizationTSP.WeightsPositive | TCP_ANT.cpp:76-86 | From a visited current city, every unvisited city gets a strictly positive score under positive trails. |
| Colony.AntColonyOptimizationTSP.EveryUnvisitedSelectable | TCP_ANT.cpp:72-101 | Under positive trails, every unvisited city j owns a slice of draws of positive width, (Mass(j) / total, Mass(j + 1) / total] within [0, 1], and every draw in it selects j. So every unvisited city has a strictly positive chance of selection, and some draw in [0, 1) selects it. |
| Roulette.SomeDrawSelects | TCP_ANT.cpp:89-99 | With nonnegative scores and a positive total, every unvisited city j of positive score is selected by every draw in (Mass(j) / total, Mass(j + 1) / total], a slice of [0, 1] of positive width, and by some draw in [0, 1). |
| Roulette.Mass | TCP_ANT.cpp:84-97 | The running total of the unvisited scores, the quantity both `sum` and `cumulative` accumulate. It is nonnegative when the unvisited scores are. |
| Roulette.Spin | TCP_ANT.cpp:89-101 | One spin of the wheel at the draw scaled to [0, total). A selected city is an unvisited index in range. |
| Roulette.PickFrom | TCP_ANT.cpp:92-100 | The wheel returns only an unvisited index in range, or fails. |
| Roulette.PickFromFirstReaching | TCP_ANT.cpp:92-100 | A returned city is the first unvisited city whose running total reaches the draw: its own total reaches the draw and every earlier unvisited total falls short. The scan fails only when every unvisited city's total falls short. |
| Roulette.Scan | TCP_ANT.cpp:91-101 | The cumulative loop over the probability array returns exactly the wheel's pick for the draw, or None where the source throws. |
| Colony.AntColonyOptimizationTSP.SelectNextCity | TCP_ANT.cpp:72-102 | Consumes exactly one draw. The result is the wheel's pick over the scores of the unvisited cities, with visited cities scoring zero, at the draw scaled to [0, sum). |
| Roulette.SpinFailsIff | TCP_ANT.cpp:89-101 | With nonnegative scores and a draw in [0, 1), selection fails if and only if every city is already visited. |
| Roulette.PickDefined | TCP_ANT.cpp:92-101 | If some city is unvisited and the draw does not exceed the total, a city is always selected. |
| Roulette.ZeroWeightsPickFirstUnvisited | TCP_ANT.cpp:89-99 | When every score is zero, the first unvisited city is selected rather than the selection failing. |
| Roulette.MassMonotone | TCP_ANT.cpp:91-97 | With nonnegative unvisited scores the running total never decreases along the scan. |
| Tours.Visited | TCP_ANT.cpp:54-66 | The visited flags of a tour prefix mark exactly the cities in that prefix. |
| Tours.VisitedAppend | TCP_ANT.cpp:65-66 | Placing city c on the tour sets exactly its visited flag and leaves the others unchanged. |
| Colony.AntColonyOptimizationTSP.PlaceNext | TCP_ANT.cpp:62-68 | One step of the tour loop consumes one draw and writes the selected city at position i. The visited flags become those of the extended prefix. The prefix extends the specified walk by one city. |
| Colony.AntColonyOptimizationTSP.Walk | TCP_ANT.cpp:51-70 | The first k cities of the tour an ant builds from the trails and the draws starting at draw number d0: the start city from the first draw, then one wheel selection per further draw. A built prefix has k cities, all in range. |
| Colony.AntColonyOptimizationTSP.WalkIsTour | TCP_ANT.cpp:51-70 | Under positive trails no selection fails before every city is placed, and no city is placed twice. So the walk of numCities steps is defined and its cities are distinct. |
| Colony.AntColonyOptimizationTSP.Tour | TCP_ANT.cpp:51-70 | Under positive trails the full walk from any starting draw is defined, and it is a permutation of the cities. |
| Colony.AntColonyOptimizationTSP.ConstructTour | TCP_ANT.cpp:51-70 | Consumes numCities draws. Returns exactly the walk that the trails and the draws determine. The tour is a permutation of the cities 0 to numCities - 1. |
| Tours.PermutationCoversAll | TCP_ANT.cpp:51-70 | A permutation of n cities visits every city. |
| Tours.UnvisitedExists | TCP_ANT.cpp:62-64 | While fewer than n distinct cities are placed, some city is still unvisited. |
| Tours.EdgeSum | TCP_ANT.cpp:106-112 | The sum of the first k edges of the closed tour, where edge i joins city i to its successor and the last city's successor is the first. |
| Tours.CycleLength | TCP_ANT.cpp:104-114 | The length of the closed tour: the sum over all its edges, the closing edge included. |
| Colony.AntColonyOptimizationTSP.GetTourLength | TCP_ANT.cpp:104-114 | The length is the sum of the consecutive edges plus the edge from the last city back to the first. |
| Tours.EdgeSumNonnegative | TCP_ANT.cpp:104-114 | With nonnegative distances every partial edge sum is nonnegative, and so is the tour length. |
| Tours.CycleLengthPositive | TCP_ANT.cpp:104-114 | A full tour of at least two cities with positive off-diagonal distances has a strictly positive length, so the deposit Q / length is defined. |
| Trails.Uniform | TCP_ANT.cpp:20 | The initial matrix is square and holds 1.0 in every entry. |
| Trails.Evaporate | TCP_ANT.cpp:123 | A trail after evaporation is its old value times 1 - rho. |
| Trails.Laid | TCP_ANT.cpp:131-142 | What the first k edges of one tour lay on entry (a, b): one share per edge from a to b and one per edge from b to a. |
| Trails.Deposit | TCP_ANT.cpp:127-143 | What the first ants of the batch lay on entry (a, b), each ant's share being Q over its tour length. |
| Trails.Updated | TCP_ANT.cpp:116-144 | Each entry of the updated matrix is the old entry times (1 - rho), plus Q / length for every edge of every tour that joins its two cities, in either direction. |
| Colony.AntColonyOptimizationTSP.EvaporateTrails | TCP_ANT.cpp:119-125 | Every entry is scaled by 1 - evaporationRate. |
| Colony.AntColonyOptimizationTSP.LayTrail | TCP_ANT.cpp:129-143 | Each entry gains one contribution per tour edge joining its cities in either direction, the closing edge included. Nothing else changes. |
| Colony.AntColonyOptimizationTSP.UpdatePheromones | TCP_ANT.cpp:116-144 | The new pheromone matrix is the specified update of the old matrix by the batch of tours and lengths. |
| Trails.LaidSymmetric | TCP_ANT.cpp:135-142 | A tour lays the same amount on (a, b) as on (b, a). |
| Trails.DepositSymmetric | TCP_ANT.cpp:127-143 | The total deposit of all ants is symmetric in the two cities. |
| Trails.LaidZeroIff | TCP_ANT.cpp:131-142 | With a positive share, a tour lays nothing on (a, b) if and only if none of its edges joins a and b. |
| Trails.DepositNonnegative | TCP_ANT.cpp:127-143 | With positive lengths and Q, every deposit is nonnegative. |
| Trails.DepositAtLeast | TCP_ANT.cpp:127-143 | A tour that uses the edge between a and b contributes at least Q / its length to entry (a, b). |
| Trails.UpdatedSymmetric | TCP_ANT.cpp:116-144 | A symmetric matrix stays symmetric under the update. |
| Trails.UpdatedPositive | TCP_ANT.cpp:116-144 | Strictly positive trails stay strictly positive under the update, for evaporation rates in (0, 1) and positive deposits. |
| Trails.UntouchedOnlyScaled | TCP_ANT.cpp:119-143 | An entry whose cities no tour edge joins is only scaled by 1 - rho. |
| Trails.TouchedReinforced | TCP_ANT.cpp:119-143 | An entry whose cities some tour joins ends at least at the evaporated value plus that tour's Q / length. |
| Incumbent.Improve | TCP_ANT.cpp:38-42 | The incumbent never gets longer. It changes only to the new candidate, and only when the candidate is strictly shorter. |
| Incumbent.Best | TCP_ANT.cpp:27-43 | The incumbent after a sequence of measured tours: the sentinel at first, then improved by each tour in order. |
| Incumbent.BestAppend | TCP_ANT.cpp:38-42 | One more measured tour changes the incumbent exactly as one strict-improvement test does. |
| Incumbent.BestIsMinimal | TCP_ANT.cpp:27-43 | The best length is at most the sentinel and at most every measured tour's length. |
| Incumbent.BestUnsetIff | TCP_ANT.cpp:27-43 | The incumbent stays the empty tour at the sentinel length if and only if no measured tour is shorter than the sentinel. |
| Incumbent.BestIsFirstShortest | TCP_ANT.cpp:27-43 | Once set, the incumbent is the first measured tour of least length. |
| Incumbent.BestMonotone | TCP_ANT.cpp:38-42 | The best length never increases as more tours are measured. |
| Colony.AntColonyOptimizationTSP.Advance | TCP_ANT.cpp:57-64 | The draw number after k walks from draw number d, each consuming numCities draws. |
| Colony.AntColonyOptimizationTSP.AdvanceIsProduct | TCP_ANT.cpp:57-64 | k walks from draw d end at draw d + k * numCities. |
| Colony.AntColonyOptimizationTSP.AntTours | TCP_ANT.cpp:32-36 | The tours of one iteration: ant x walks under the iteration's trails from the draw after the x earlier walks. Every one is a permutation. |
| Colony.AntColonyOptimizationTSP.Lengths | TCP_ANT.cpp:33-37 | One recorded length per tour: its cycle length. |
| Colony.AntColonyOptimizationTSP.LengthsPositive | TCP_ANT.cpp:129 | The cycle length of every permutation is positive, so each ant's deposit Q / length is defined. |
| Colony.AntColonyOptimizationTSP.WalkedAppend | TCP_ANT.cpp:34-37 | After one more ant walks from the next starting draw and is measured, the recorded tours and lengths are still the first ants' walks and their cycle lengths. |
| Colony.AntColonyOptimizationTSP.AntToursFrom | TCP_ANT.cpp:32-43 | Once numAnts ants have walked, the recorded tours are the iteration's tours and the recorded lengths their cycle lengths. |
| Colony.AntColonyOptimizationTSP.AntTurn | TCP_ANT.cpp:36-42 | One ant's turn consumes numCities draws, records the next ant's walk and its cycle length, and leaves the incumbent as the best of all tours measured so far. |
| Colony.AntColonyOptimizationTSP.RunAnts | TCP_ANT.cpp:32-43 | One iteration's ants consume numAnts * numCities draws. The recorded tours are exactly the iteration's walks in ant order, the recorded lengths their cycle lengths. The incumbent is the best of the earlier runs followed by these tours. |
| Colony.AntColonyOptimizationTSP.Step | TCP_ANT.cpp:30-44 | The trails after one iteration: the update by that iteration's tours and their lengths. Symmetric positive trails stay symmetric and positive. |
| Colony.AntColonyOptimizationTSP.IterationRuns | TCP_ANT.cpp:32-37 | The runs one iteration records: numAnts tours with their lengths, in ant order, each a permutation measured by its cycle length. |
| Colony.AntColonyOptimizationTSP.Rounds | TCP_ANT.cpp:30-44 | The draw number after k iterations, each consuming numAnts walks. |
| Colony.AntColonyOptimizationTSP.RoundsIsProduct | TCP_ANT.cpp:30-44 | k iterations from draw d end at draw d + k * numAnts * numCities. |
| Colony.AntColonyOptimizationTSP.TrailsAfter | TCP_ANT.cpp:30-45 | The trails after k iterations from the initial trails. They stay symmetric and positive. |
| Colony.AntColonyOptimizationTSP.RunsAfter | TCP_ANT.cpp:30-43 | Every tour measured in k iterations, in the order the ants walked them. |
| Colony.AntColonyOptimizationTSP.RunsAfterLength | TCP_ANT.cpp:30-43 | k iterations measure k * numAnts tours. |
| Colony.AntColonyOptimizationTSP.RunsAfterMeasured | TCP_ANT.cpp:30-43 | Every tour measured in k iterations is a permutation recorded with its cycle length. |
| Colony.AntColonyOptimizationTSP.Iterate | TCP_ANT.cpp:32-44 | One iteration consumes numAnts * numCities draws. The trails become the one-iteration step of the old trails, and stay symmetric and positive. The runs extend by the iteration's tours in order. The incumbent is the best of all runs. |
| Colony.AntColonyOptimizationTSP.Solve | TCP_ANT.cpp:25-48 | The run consumes maxIterations * numAnts * numCities draws. The final trails are the trajectory's trails after maxIterations iterations, and stay symmetric and positive. The runs are every tour walked, in order: maxIterations * numAnts of them, each a permutation with its cycle length. The returned tour and length are the best of them: the first shortest tour, or the empty tour at the sentinel length. Zero iterations give the empty tour. |

## Left out

- `main` and all console output (lines 46 and 147-174). `Solve` returns the best length alongside the best tour instead of printing it.
- The Mersenne Twister, `random_device` seeding and the library distributions. The draws are an injected sequence `unit` of values in [0, 1), consumed through the cursor `drawn`.
- Colony.StartCity: models `uniform_int_distribution(0, numCities - 1)` as `floor(u * numCities)`. It states only that the result is in range, not the library's exact mapping from generator output.
- Colony.AntColonyOptimizationTSP.SelectNextCity: models `uniform_real_distribution(0, sum)` as `u * sum` over exact reals. It does not model rounding, nor that a draw can round up to `sum`.
- `alpha`, `beta` and `pow`: the product `pow(p, alpha) * pow(1 / d, beta)` is the abstract `score(p, d)`, assumed positive for positive arguments.
- IEEE 754 arithmetic (rounding, underflow, overflow, infinities, NaN): every double is an exact real. Under the configuration the constructor requires (`0 < evaporationRate < 1`, `Q > 0`, nonnegative distances), no score is negative. There, underflow alone does not reach the "No next city found!" throw at line 101. The scan adds the same scores in the same order as the sum, so the final running total equals the sum, and the draw never exceeds the sum. An underflowed sum of 0 gives a draw of 0 and returns the first unvisited city. Under that configuration the throw is reached only through NaN, which has no counterpart over reals. Examples are a score of `0 * inf` (a trail underflowed to 0 times an overflowed `pow(1 / d, beta)`, or an infinite trail times a `pow` that underflowed to 0), or an infinite sum whose draw is `0 * inf`.
- Configurations the source accepts but the constructor's precondition excludes: an `evaporationRate` above 1 (line 123 then makes trails negative), a negative `Q` (the deposits at lines 135-136 and 141-142 can then make trails negative) or a negative distance. These can give negative scores, for example with `alpha = 1`, or with `beta = 1` and a negative distance. An even exponent keeps the score positive, and a non-integer one gives NaN. With negative scores, line 101 can throw without any NaN. For example, at the last step of a tour the one remaining city may score negative. The draw `sum * u` then lies in `(sum, 0]`, above the only running total. The model does not capture these runs.
- The `DBL_MAX` sentinel is the exact real value of the largest finite double.
- Colony.AntColonyOptimizationTSP.UpdatePheromones: requires every tour length to be nonzero. In the source, `Q / 0.0` yields infinity, which has no counterpart over reals.
- Colony.AntColonyOptimizationTSP.constructor: requires the configuration the solver depends on, although the source checks none of it:
  - at least two cities;
  - a square distance table with nonnegative entries and positive off-diagonal entries;
  - `0 < evaporationRate < 1` and `Q > 0`.
- 32-bit `int` counters and indices are unbounded naturals. No input the solver can hold in memory overflows them.
- `numAnts` and `maxIterations` are naturals. In the source a negative `maxIterations` runs like 0, and a negative `numAnts` makes line 32 throw `std::length_error`.
- No claim is made about convergence or about the quality of the returned tour.
