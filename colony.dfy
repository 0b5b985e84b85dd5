/** The solver object of Ant Colony Optimization for the Travelling Salesman
    Problem: the run's configuration, the fixed distance table, the pheromone
    matrix it updates in place and the random stream it draws from. */
module Colony {
  import opened Roulette
  import opened Tours
  import opened Trails
  import opened Incumbent

  /** The starting city chosen by a uniform draw u in [0, 1) among n cities. */
  function StartCity(u: real, n: nat): (c: nat)
    requires 0.0 <= u < 1.0 && n > 0
    ensures c < n
  {
    var scaled := u * n as real;
    assert 0.0 <= scaled < n as real;
    scaled.Floor
  }

  /** One more round of n adds n to the product. */
  lemma MulSucc(k: nat, n: nat)
    requires k > 0
    ensures k * n == (k - 1) * n + n
  {
  }

  class AntColonyOptimizationTSP {
    const numCities: nat
    const numAnts: nat
    const maxIterations: nat
    const evaporationRate: real
    const Q: real
    /** The read-only distance table. */
    const distances: seq<seq<real>>
    /** The desirability pheromone^alpha * (1 / distance)^beta of moving along an edge. */
    const score: (real, real) -> real
    /** The uniform draws in [0, 1) that the run's random generator produces, in order. */
    const unit: nat -> real
    /** The trail strengths, updated in place once per iteration. */
    const pheromones: array2<real>
    /** How many draws the run has consumed so far. */
    var drawn: nat

    /** There are at least two cities, and the distance table and the pheromone
        matrix are numCities by numCities. */
    ghost predicate Sized()
    {
      numCities >= 2 && IsSquare(distances, numCities)
      && pheromones.Length0 == numCities && pheromones.Length1 == numCities
    }

    /** The configuration the solver assumes of its inputs. */
    ghost predicate Shaped()
    {
      Sized()
      && NonnegativeDistances(distances) && PositiveOffDiagonal(distances)
      && 0.0 < evaporationRate < 1.0 && Q > 0.0
      && (forall p, d :: p > 0.0 && d > 0.0 ==> score(p, d) > 0.0)
      && (forall k :: 0.0 <= unit(k) < 1.0)
    }

    /** The first k trail strengths of row i, as a value. */
    ghost function Row(i: nat, k: nat): (r: seq<real>)
      reads pheromones
      requires i < pheromones.Length0 && k <= pheromones.Length1
      ensures |r| == k && forall j :: 0 <= j < k ==> r[j] == pheromones[i, j]
    {
      if k == 0 then [] else Row(i, k - 1) + [pheromones[i, k - 1]]
    }

    /** The first k rows of the pheromone matrix, as a value. */
    ghost function Rows(k: nat): (m: seq<seq<real>>)
      reads pheromones
      requires k <= pheromones.Length0
      ensures |m| == k && forall i :: 0 <= i < k ==> m[i] == Row(i, pheromones.Length1)
    {
      if k == 0 then [] else Rows(k - 1) + [Row(k - 1, pheromones.Length1)]
    }

    /** The pheromone matrix as a value. */
    ghost function Matrix(): (m: seq<seq<real>>)
      reads pheromones
      ensures |m| == pheromones.Length0
      ensures forall i :: 0 <= i < |m| ==> |m[i]| == pheromones.Length1
      ensures forall i, j :: 0 <= i < pheromones.Length0 && 0 <= j < pheromones.Length1 ==> m[i][j] == pheromones[i, j]
    {
      Rows(pheromones.Length0)
    }

    /** The object invariant: the trails are symmetric and strictly positive. */
    ghost predicate Valid()
      reads pheromones
    {
      Shaped() && Symmetric(Matrix()) && AllPositive(Matrix())
    }

    constructor (numCities: nat, numAnts: nat, maxIterations: nat, evaporationRate: real, Q: real,
                 distances: seq<seq<real>>, score: (real, real) -> real, unit: nat -> real)
      requires numCities >= 2 && IsSquare(distances, numCities)
      requires NonnegativeDistances(distances) && PositiveOffDiagonal(distances)
      requires 0.0 < evaporationRate < 1.0 && Q > 0.0
      requires forall p, d :: p > 0.0 && d > 0.0 ==> score(p, d) > 0.0
      requires forall k :: 0.0 <= unit(k) < 1.0
      ensures Valid() && fresh(pheromones)
      ensures Matrix() == Uniform(numCities, 1.0)
      ensures this.numCities == numCities && this.numAnts == numAnts && this.maxIterations == maxIterations
      ensures this.evaporationRate == evaporationRate && this.Q == Q && this.distances == distances
      ensures this.score == score && this.unit == unit && drawn == 0
    {
      this.numCities := numCities;
      this.numAnts := numAnts;
      this.maxIterations := maxIterations;
      this.evaporationRate := evaporationRate;
      this.Q := Q;
      this.distances := distances;
      this.score := score;
      this.unit := unit;
      pheromones := new real[numCities, numCities]((i, j) => 1.0);
      drawn := 0;
      new;
      forall i | 0 <= i < numCities
        ensures Matrix()[i] == Uniform(numCities, 1.0)[i]
      {
      }
    }

    /** The score of every city seen from `current` under the trails `m`; visited cities score zero. */
    ghost function Weights(m: seq<seq<real>>, current: nat, visited: seq<bool>): (w: seq<real>)
      requires Sized() && IsSquare(m, numCities) && current < numCities && |visited| == numCities
      ensures |w| == numCities
      ensures forall j :: 0 <= j < numCities ==>
        w[j] == if visited[j] then 0.0 else score(m[current][j], distances[current][j])
    {
      seq(numCities, j requires 0 <= j < numCities =>
        if visited[j] then 0.0 else score(m[current][j], distances[current][j]))
    }

    /** From a visited city every unvisited city has a strictly positive score
        under positive trails. */
    lemma WeightsPositive(m: seq<seq<real>>, current: nat, visited: seq<bool>)
      requires Shaped() && IsSquare(m, numCities) && AllPositive(m)
      requires current < numCities && |visited| == numCities && visited[current]
      ensures forall j :: 0 <= j < numCities && !visited[j] ==> Weights(m, current, visited)[j] > 0.0
    {
      forall j | 0 <= j < numCities && !visited[j]
        ensures Weights(m, current, visited)[j] > 0.0
      {
        assert j != current;
      }
    }

    /** From a visited city under positive trails, every unvisited city j owns
        a slice of draws of positive width, (Mass(j) / total, Mass(j + 1) / total]
        inside [0, 1], each of which selects j: every unvisited city has a
        strictly positive chance of selection. */
    lemma EveryUnvisitedSelectable(m: seq<seq<real>>, current: nat, visited: seq<bool>, j: nat)
      requires Shaped() && IsSquare(m, numCities) && AllPositive(m)
      requires current < numCities && |visited| == numCities && visited[current]
      requires j < numCities && !visited[j]
      ensures var w := Weights(m, current, visited);
        var total := Mass(w, visited, numCities);
        && total > 0.0
        && 0.0 <= Mass(w, visited, j) / total < Mass(w, visited, j + 1) / total <= 1.0
        && forall u :: Mass(w, visited, j) / total < u <= Mass(w, visited, j + 1) / total ==>
             Spin(w, visited, u) == Some(j)
      ensures exists u :: 0.0 <= u < 1.0 && Spin(Weights(m, current, visited), visited, u) == Some(j)
    {
      WeightsPositive(m, current, visited);
      SomeDrawSelects(Weights(m, current, visited), visited, j);
    }

    /** Roulette-wheel choice of the next city: scores the unvisited cities,
        draws a value in [0, total) and returns the first unvisited city whose
        running total reaches it, or None where the source throws. */
    method SelectNextCity(currentCity: nat, visited: array<bool>, ghost m: seq<seq<real>>) returns (next: Option<nat>)
      requires Sized() && currentCity < numCities && visited.Length == numCities && IsSquare(m, numCities)
      requires forall j :: 0 <= j < numCities ==> pheromones[currentCity, j] == m[currentCity][j]
      modifies this`drawn
      ensures drawn == old(drawn) + 1
      ensures next == Spin(Weights(m, currentCity, visited[..]), visited[..], unit(old(drawn)))
    {
      ghost var v := visited[..];
      ghost var w := Weights(m, currentCity, v);
      var probabilities := new real[numCities](_ => 0.0);
      var sum := 0.0;
      for i := 0 to numCities
        invariant drawn == old(drawn)
        invariant forall j :: 0 <= j < numCities ==> probabilities[j] == if j < i then w[j] else 0.0
        invariant sum == Mass(w, v, i)
      {
        if !visited[i] {
          probabilities[i] := score(pheromones[currentCity, i], distances[currentCity][i]);
          sum := sum + probabilities[i];
        }
      }
      ghost var u := unit(drawn);
      var randValue := Scaled(unit(drawn), sum);
      drawn := drawn + 1;
      SpinAt(w, v, u, randValue);
      assert probabilities[..] == w && visited[..] == v;
      next := Scan(probabilities, visited, randValue);
    }

    /** The first k cities of the tour an ant builds under the trails `m`
        when its draws start at number d0: the start city from draw d0, then
        city j from the wheel with draw d0 + j. None when a spin finds no city. */
    ghost function Walk(m: seq<seq<real>>, d0: nat, k: nat): (r: Option<seq<nat>>)
      requires Shaped() && IsSquare(m, numCities) && 1 <= k
      ensures r.Some? ==> |r.value| == k && InRange(r.value, numCities)
      decreases k
    {
      if k == 1 then Some([StartCity(unit(d0), numCities)])
      else
        match Walk(m, d0, k - 1)
        case None => None
        case Some(p) =>
          var visited := Visited(p, numCities);
          match Spin(Weights(m, p[k - 2], visited), visited, unit(d0 + k - 1))
          case None => None
          case Some(c) => Some(p + [c])
    }

    /** A walk extends by the wheel's selection from its last city. */
    lemma WalkStep(m: seq<seq<real>>, d0: nat, i: nat, built: seq<nat>, c: nat)
      requires Shaped() && IsSquare(m, numCities) && 1 <= i && Walk(m, d0, i) == Some(built)
      requires Spin(Weights(m, built[i - 1], Visited(built, numCities)), Visited(built, numCities), unit(d0 + i)) == Some(c)
      ensures Walk(m, d0, i + 1) == Some(built + [c])
    {
    }

    /** Under positive trails no spin fails before every city is placed, and
        no city is placed twice: the walk of numCities steps is a permutation. */
    lemma {:induction false} WalkIsTour(m: seq<seq<real>>, d0: nat, k: nat)
      requires Shaped() && IsSquare(m, numCities) && AllPositive(m) && 1 <= k <= numCities
      ensures Walk(m, d0, k).Some? && Distinct(Walk(m, d0, k).value)
    {
      if k > 1 {
        WalkIsTour(m, d0, k - 1);
        var p := Walk(m, d0, k - 1).value;
        var visited := Visited(p, numCities);
        var w := Weights(m, p[k - 2], visited);
        UnvisitedExists(p, numCities);
        WeightsPositive(m, p[k - 2], visited);
        SpinFailsIff(w, visited, unit(d0 + k - 1));
        var c := Spin(w, visited, unit(d0 + k - 1)).value;
        assert !visited[c];
      }
    }

    /** One step of the tour loop: the wheel picks the next city, which is
        written at position i and flagged as visited. */
    method PlaceNext(t: array<nat>, visited: array<bool>, i: nat, currentCity: nat,
                     ghost m: seq<seq<real>>, ghost d0: nat, ghost built: seq<nat>) returns (c: nat)
      requires Shaped() && IsSquare(m, numCities) && AllPositive(m)
      requires t.Length == numCities && visited.Length == numCities
      requires 1 <= i < numCities && drawn == d0 + i
      requires Walk(m, d0, i) == Some(built) && currentCity == built[i - 1]
      requires visited[..] == Visited(built, numCities)
      requires forall j :: 0 <= j < numCities ==> pheromones[currentCity, j] == m[currentCity][j]
      modifies this`drawn, t, visited
      ensures drawn == old(drawn) + 1
      ensures Walk(m, d0, i + 1) == Some(built + [c])
      ensures t[..] == old(t[..])[i := c]
      ensures visited[..] == Visited(built + [c], numCities)
    {
      ghost var v := visited[..];
      WalkIsTour(m, d0, i);
      UnvisitedExists(built, numCities);
      WeightsPositive(m, currentCity, v);
      SpinFailsIff(Weights(m, currentCity, v), v, unit(drawn));
      var next := SelectNextCity(currentCity, visited, m);
      if next.None? {
        assert false;
      }
      c := next.value;
      WalkStep(m, d0, i, built, c);
      t[i] := c;
      visited[c] := true;
      VisitedAppend(built, c, numCities);
    }

    /** One ant's tour: a random start, then one wheel selection per remaining city. */
    method ConstructTour() returns (tour: seq<nat>)
      requires Valid()
      modifies this`drawn
      ensures drawn == old(drawn) + numCities
      ensures tour == Tour(old(Matrix()), old(drawn))
      ensures IsPermutation(tour, numCities)
    {
      ghost var m, d0 := Matrix(), drawn;
      assert AllPositive(m);
      var t := new nat[numCities](_ => 0);
      var visited := new bool[numCities](_ => false);
      var currentCity := StartCity(unit(drawn), numCities);
      drawn := drawn + 1;
      t[0] := currentCity;
      visited[currentCity] := true;
      ghost var built: seq<nat> := [currentCity];
      assert visited[..] == Visited(built, numCities);
      for i := 1 to numCities
        invariant drawn == d0 + i
        invariant |built| == i && t[..i] == built
        invariant currentCity == built[i - 1]
        invariant visited[..] == Visited(built, numCities)
        invariant Walk(m, d0, i) == Some(built)
      {
        currentCity := PlaceNext(t, visited, i, currentCity, m, d0, built);
        built := built + [currentCity];
      }
      tour := t[..];
      assert tour == built;
      WalkIsTour(m, d0, numCities);
    }

    /** The length of a closed tour, the edge back to the start included. */
    method GetTourLength(tour: seq<nat>) returns (length: real)
      requires Sized() && |tour| == numCities && InRange(tour, numCities)
      ensures length == CycleLength(distances, tour)
    {
      length := 0.0;
      for i := 0 to numCities - 1
        invariant length == EdgeSum(distances, tour, i)
      {
        length := length + distances[tour[i]][tour[i + 1]];
      }
      length := length + distances[tour[numCities - 1]][tour[0]];
    }

    /** The pheromone array holds the matrix m entry for entry. */
    lemma MatrixIs(m: seq<seq<real>>)
      requires Sized() && IsSquare(m, numCities)
      requires forall r, c :: 0 <= r < numCities && 0 <= c < numCities ==> pheromones[r, c] == m[r][c]
      ensures Matrix() == m
    {
      forall r | 0 <= r < numCities
        ensures Matrix()[r] == m[r]
      {
      }
    }

    /** The evaporation pass: every trail is scaled by 1 - evaporationRate. */
    method EvaporateTrails()
      requires Sized()
      modifies pheromones
      ensures forall r, c :: 0 <= r < numCities && 0 <= c < numCities ==>
        pheromones[r, c] == Evaporate(old(pheromones[r, c]), evaporationRate)
    {
      var n := numCities;
      for i := 0 to n
        invariant forall r, c :: 0 <= r < n && 0 <= c < n ==>
          pheromones[r, c] == if r < i then Evaporate(old(pheromones[r, c]), evaporationRate) else old(pheromones[r, c])
      {
        for j := 0 to n
          invariant forall r, c :: 0 <= r < n && 0 <= c < n ==>
            pheromones[r, c] == if r < i || (r == i && c < j) then Evaporate(old(pheromones[r, c]), evaporationRate) else old(pheromones[r, c])
        {
          pheromones[i, j] := pheromones[i, j] * (1.0 - evaporationRate);
        }
      }
    }

    /** One ant's deposit: `contribution` on both directions of every edge of
        its closed tour, the edge back to the start included. */
    method LayTrail(tour: seq<nat>, contribution: real)
      requires Sized() && |tour| == numCities && InRange(tour, numCities)
      modifies pheromones
      ensures forall r, c :: 0 <= r < numCities && 0 <= c < numCities ==>
        pheromones[r, c] == old(pheromones[r, c]) + Laid(tour, numCities, contribution, r, c)
    {
      var n := numCities;
      for i := 0 to n - 1
        invariant forall r, c :: 0 <= r < n && 0 <= c < n ==>
          pheromones[r, c] == old(pheromones[r, c]) + Laid(tour, i, contribution, r, c)
      {
        var city1 := tour[i];
        var city2 := tour[i + 1];
        pheromones[city1, city2] := pheromones[city1, city2] + contribution;
        pheromones[city2, city1] := pheromones[city2, city1] + contribution;
      }
      var last := tour[n - 1];
      var first := tour[0];
      pheromones[last, first] := pheromones[last, first] + contribution;
      pheromones[first, last] := pheromones[first, last] + contribution;
    }

    /** Evaporates every trail, then lets every ant deposit Q / length on both
        directions of each edge of its closed tour. */
    method UpdatePheromones(allTours: seq<seq<nat>>, allTourLengths: seq<real>)
      requires Sized() && |allTours| == numAnts && Batch(allTours, allTourLengths)
      requires forall x :: 0 <= x < numAnts ==> |allTours[x]| == numCities && InRange(allTours[x], numCities)
      modifies pheromones
      ensures Matrix() == Updated(old(Matrix()), allTours, allTourLengths, evaporationRate, Q)
    {
      ghost var m0 := Matrix();
      EvaporateTrails();
      ghost var e := Matrix();
      for ant := 0 to numAnts
        invariant forall r, c :: 0 <= r < numCities && 0 <= c < numCities ==>
          pheromones[r, c] == e[r][c] + Deposit(allTours, allTourLengths, Q, ant, r, c)
      {
        var contribution := Q / allTourLengths[ant];
        LayTrail(allTours[ant], contribution);
      }
      MatrixIs(Updated(m0, allTours, allTourLengths, evaporationRate, Q));
    }

    /** A measured tour: a permutation whose recorded length is its cycle length. */
    ghost predicate Measured(c: Candidate)
      requires Sized()
    {
      IsPermutation(c.tour, numCities) && c.length == CycleLength(distances, c.tour)
    }

    /** The tour an ant builds under the trails `m` when its walk starts at
        draw number `start`: always a permutation of the cities. */
    ghost function Tour(m: seq<seq<real>>, start: nat): (t: seq<nat>)
      requires Shaped() && IsSquare(m, numCities) && AllPositive(m)
      ensures Walk(m, start, numCities) == Some(t) && IsPermutation(t, numCities)
    {
      WalkIsTour(m, start, numCities);
      Walk(m, start, numCities).value
    }

    /** The draw number after k ants, each consuming numCities draws, have
        walked from draw number d. */
    function Advance(d: nat, k: nat): (r: nat)
    {
      if k == 0 then d else Advance(d, k - 1) + numCities
    }

    lemma {:induction false} AdvanceIsProduct(d: nat, k: nat)
      ensures Advance(d, k) == d + k * numCities
    {
      if k > 0 {
        AdvanceIsProduct(d, k - 1);
        MulSucc(k, numCities);
      }
    }

    /** The tours of one iteration's ants under the trails `m`, the first ant
        starting at draw number d and each consuming numCities draws. */
    ghost function AntTours(m: seq<seq<real>>, d: nat): (r: seq<seq<nat>>)
      requires Shaped() && IsSquare(m, numCities) && AllPositive(m)
      ensures |r| == numAnts && forall x :: 0 <= x < numAnts ==> IsPermutation(r[x], numCities)
    {
      seq(numAnts, x requires 0 <= x < numAnts => Tour(m, Advance(d, x)))
    }

    /** `tours` are the walks of the first |tours| ants under the trails `m`,
        the first starting at draw number d, and `lengths` their cycle lengths. */
    ghost predicate Walked(m: seq<seq<real>>, d: nat, tours: seq<seq<nat>>, lengths: seq<real>)
      requires Shaped() && IsSquare(m, numCities) && AllPositive(m)
    {
      |lengths| == |tours|
      && forall x :: 0 <= x < |tours| ==>
           tours[x] == Tour(m, Advance(d, x)) && lengths[x] == CycleLength(distances, tours[x])
    }

    /** One more ant's walk, from the next starting draw, extends the walks. */
    lemma {:induction false} WalkedAppend(m: seq<seq<real>>, d: nat, tours: seq<seq<nat>>, lengths: seq<real>,
                                          tour: seq<nat>, length: real)
      requires Shaped() && IsSquare(m, numCities) && AllPositive(m)
      requires Walked(m, d, tours, lengths)
      requires tour == Tour(m, Advance(d, |tours|)) && length == CycleLength(distances, tour)
      ensures Walked(m, d, tours + [tour], lengths + [length])
    {
      var tours', lengths' := tours + [tour], lengths + [length];
      forall x | 0 <= x < |tours'|
        ensures tours'[x] == Tour(m, Advance(d, x)) && lengths'[x] == CycleLength(distances, tours'[x])
      {
        if x < |tours| {
          assert tours'[x] == tours[x] && lengths'[x] == lengths[x];
        }
      }
    }

    /** Once every ant has walked, the walks are the iteration's tours and the
        lengths their cycle lengths. */
    lemma AntToursFrom(m: seq<seq<real>>, d: nat, tours: seq<seq<nat>>, lengths: seq<real>)
      requires Shaped() && IsSquare(m, numCities) && AllPositive(m)
      requires |tours| == numAnts && Walked(m, d, tours, lengths)
      ensures tours == AntTours(m, d) && lengths == Lengths(tours)
    {
      assert forall x :: 0 <= x < numAnts ==> tours[x] == AntTours(m, d)[x];
    }

    /** The cycle length of each tour. */
    ghost function Lengths(tours: seq<seq<nat>>): (r: seq<real>)
      requires Sized() && forall x :: 0 <= x < |tours| ==> |tours[x]| == numCities && InRange(tours[x], numCities)
      ensures |r| == |tours|
    {
      seq(|tours|, x requires 0 <= x < |tours| => CycleLength(distances, tours[x]))
    }

    /** Complete tours have positive lengths, so each ant's deposit is defined. */
    lemma LengthsPositive(tours: seq<seq<nat>>)
      requires Shaped()
      requires forall x :: 0 <= x < |tours| ==>
        |tours[x]| == numCities && InRange(tours[x], numCities) && IsPermutation(tours[x], numCities)
      ensures PositiveLengths(Lengths(tours))
    {
      forall x | 0 <= x < |tours|
        ensures Lengths(tours)[x] > 0.0
      {
        CycleLengthPositive(distances, tours[x]);
      }
    }

    /** The trails after one iteration that starts from the trails `m` at draw
        number d: all ants build their tours under `m`, then the trails are updated. */
    ghost function Step(m: seq<seq<real>>, d: nat): (r: seq<seq<real>>)
      requires Shaped() && IsSquare(m, numCities) && Symmetric(m) && AllPositive(m)
      ensures IsSquare(r, numCities) && Symmetric(r) && AllPositive(r)
    {
      var tours := AntTours(m, d);
      LengthsPositive(tours);
      UpdatedSymmetric(m, tours, Lengths(tours), evaporationRate, Q);
      UpdatedPositive(m, tours, Lengths(tours), evaporationRate, Q);
      Updated(m, tours, Lengths(tours), evaporationRate, Q)
    }

    /** The draw number after k iterations from draw number d: each iteration's
        numAnts ants consume numCities draws apiece. */
    function Rounds(d: nat, k: nat): (r: nat)
    {
      if k == 0 then d else Advance(Rounds(d, k - 1), numAnts)
    }

    lemma {:induction false} RoundsIsProduct(d: nat, k: nat)
      ensures Rounds(d, k) == d + k * (numAnts * numCities)
    {
      if k > 0 {
        RoundsIsProduct(d, k - 1);
        AdvanceIsProduct(Rounds(d, k - 1), numAnts);
        MulSucc(k, numAnts * numCities);
      }
    }

    /** The trails after k iterations from the trails `m` at draw number d. */
    ghost function TrailsAfter(m: seq<seq<real>>, d: nat, k: nat): (r: seq<seq<real>>)
      requires Shaped() && IsSquare(m, numCities) && Symmetric(m) && AllPositive(m)
      ensures IsSquare(r, numCities) && Symmetric(r) && AllPositive(r)
      decreases k
    {
      if k == 0 then m else Step(TrailsAfter(m, d, k - 1), Rounds(d, k - 1))
    }

    /** The runs one iteration records under the trails `m` from draw number
        d: each ant's tour with its cycle length, in ant order; all measured. */
    ghost function IterationRuns(m: seq<seq<real>>, d: nat): (r: seq<Candidate>)
      requires Shaped() && IsSquare(m, numCities) && AllPositive(m)
      ensures |r| == numAnts && AllMeasured(r)
    {
      var tours := AntTours(m, d);
      Pair(tours, Lengths(tours))
    }

    /** The tours measured in k iterations from the trails `m` at draw number
        d, in the order the ants build them. */
    ghost function RunsAfter(m: seq<seq<real>>, d: nat, k: nat): seq<Candidate>
      requires Shaped() && IsSquare(m, numCities) && Symmetric(m) && AllPositive(m)
      decreases k
    {
      if k == 0 then []
      else
        RunsAfter(m, d, k - 1) + IterationRuns(TrailsAfter(m, d, k - 1), Rounds(d, k - 1))
    }

    /** Every recorded run is a measured tour. */
    ghost predicate AllMeasured(runs: seq<Candidate>)
      requires Sized()
    {
      forall i :: 0 <= i < |runs| ==> Measured(runs[i])
    }

    lemma MeasuredAppend(before: seq<Candidate>, batch: seq<Candidate>)
      requires Sized() && AllMeasured(before) && AllMeasured(batch)
      ensures AllMeasured(before + batch)
    {
      forall i | 0 <= i < |before + batch|
        ensures Measured((before + batch)[i])
      {
        if i >= |before| {
          assert (before + batch)[i] == batch[i - |before|];
        }
      }
    }

    /** k iterations record k * numAnts runs. */
    lemma {:induction false} RunsAfterLength(m: seq<seq<real>>, d: nat, k: nat)
      requires Shaped() && IsSquare(m, numCities) && Symmetric(m) && AllPositive(m)
      ensures |RunsAfter(m, d, k)| == k * numAnts
    {
      if k > 0 {
        RunsAfterLength(m, d, k - 1);
        MulSucc(k, numAnts);
      }
    }

    /** Every run recorded in k iterations is a measured tour. */
    lemma {:induction false} RunsAfterMeasured(m: seq<seq<real>>, d: nat, k: nat)
      requires Shaped() && IsSquare(m, numCities) && Symmetric(m) && AllPositive(m)
      ensures AllMeasured(RunsAfter(m, d, k))
    {
      if k > 0 {
        RunsAfterMeasured(m, d, k - 1);
        MeasuredAppend(RunsAfter(m, d, k - 1), IterationRuns(TrailsAfter(m, d, k - 1), Rounds(d, k - 1)));
      }
    }

    /** One ant's turn, the body of the ant loop: the ant builds its tour from
        the next numCities draws, the tour is measured and appended to the
        iteration's batch, and it becomes the incumbent only when strictly
        shorter. */
    method AntTurn(ghost m: seq<seq<real>>, ghost d0: nat, ghost runs0: seq<Candidate>,
                   tours: seq<seq<nat>>, lengths: seq<real>, bestTour0: seq<nat>, bestTourLength0: real)
      returns (tour: seq<nat>, length: real, bestTour: seq<nat>, bestTourLength: real)
      requires Valid() && Matrix() == m && drawn == Advance(d0, |tours|) && Walked(m, d0, tours, lengths)
      requires Candidate(bestTour0, bestTourLength0) == Best(runs0 + Pair(tours, lengths))
      modifies this`drawn
      ensures drawn == Advance(d0, |tours| + 1) && Walked(m, d0, tours + [tour], lengths + [length])
      ensures Candidate(bestTour, bestTourLength) == Best(runs0 + Pair(tours + [tour], lengths + [length]))
    {
      tour := ConstructTour();
      length := GetTourLength(tour);
      WalkedAppend(m, d0, tours, lengths, tour, length);
      PairAppend(runs0, tours, lengths, tour, length);
      BestAppend(runs0 + Pair(tours, lengths), Candidate(tour, length));
      bestTour, bestTourLength := bestTour0, bestTourLength0;
      if length < bestTourLength {
        bestTourLength := length;
        bestTour := tour;
      }
    }

    /** One iteration's ants: each builds its tour against the same trails with
        the next numCities draws and measures it, and the incumbent is replaced
        only on strict improvement: the incumbent is the best of the tours
        measured before, `runs0`, followed by this iteration's tours. */
    method RunAnts(bestTour0: seq<nat>, bestTourLength0: real, ghost runs0: seq<Candidate>)
      returns (allTours: seq<seq<nat>>, allTourLengths: seq<real>, bestTour: seq<nat>, bestTourLength: real)
      requires Valid() && Candidate(bestTour0, bestTourLength0) == Best(runs0)
      modifies this`drawn
      ensures drawn == Advance(old(drawn), numAnts) == old(drawn) + numAnts * numCities
      ensures allTours == AntTours(Matrix(), old(drawn))
      ensures allTourLengths == Lengths(allTours)
      ensures Candidate(bestTour, bestTourLength) == Best(runs0 + Pair(allTours, allTourLengths))
    {
      ghost var m, d0 := Matrix(), drawn;
      bestTour, bestTourLength := bestTour0, bestTourLength0;
      allTours, allTourLengths := [], [];
      assert runs0 + Pair(allTours, allTourLengths) == runs0;
      for ant := 0 to numAnts
        invariant Valid() && Matrix() == m
        invariant drawn == Advance(d0, ant) && |allTours| == ant && Walked(m, d0, allTours, allTourLengths)
        invariant Candidate(bestTour, bestTourLength) == Best(runs0 + Pair(allTours, allTourLengths))
      {
        var tour, length;
        tour, length, bestTour, bestTourLength := AntTurn(m, d0, runs0, allTours, allTourLengths, bestTour, bestTourLength);
        allTours := allTours + [tour];
        allTourLengths := allTourLengths + [length];
      }
      AntToursFrom(m, d0, allTours, allTourLengths);
      AdvanceIsProduct(d0, numAnts);
    }

    /** k + 1 iterations are k iterations followed by one more. */
    lemma AfterOneMore(m: seq<seq<real>>, d: nat, k: nat)
      requires Shaped() && IsSquare(m, numCities) && Symmetric(m) && AllPositive(m)
      ensures Rounds(d, k + 1) == Advance(Rounds(d, k), numAnts)
      ensures TrailsAfter(m, d, k + 1) == Step(TrailsAfter(m, d, k), Rounds(d, k))
      ensures RunsAfter(m, d, k + 1) == RunsAfter(m, d, k) + IterationRuns(TrailsAfter(m, d, k), Rounds(d, k))
    {
    }

    /** One iteration of the solver: the ants walk against the current trails,
        the incumbent absorbs their tours, and the trails evaporate and take the
        deposits of those tours. */
    method Iterate(bestTour0: seq<nat>, bestTourLength0: real, ghost runs0: seq<Candidate>)
      returns (bestTour: seq<nat>, bestTourLength: real, ghost runs: seq<Candidate>)
      requires Valid() && Candidate(bestTour0, bestTourLength0) == Best(runs0)
      modifies this`drawn, pheromones
      ensures Valid()
      ensures drawn == Advance(old(drawn), numAnts)
      ensures Matrix() == Step(old(Matrix()), old(drawn))
      ensures runs == runs0 + IterationRuns(old(Matrix()), old(drawn))
      ensures Candidate(bestTour, bestTourLength) == Best(runs)
    {
      ghost var snapshot := Matrix();
      var allTours, allTourLengths;
      allTours, allTourLengths, bestTour, bestTourLength := RunAnts(bestTour0, bestTourLength0, runs0);
      runs := runs0 + Pair(allTours, allTourLengths);
      LengthsPositive(allTours);
      UpdatedSymmetric(snapshot, allTours, allTourLengths, evaporationRate, Q);
      UpdatedPositive(snapshot, allTours, allTourLengths, evaporationRate, Q);
      UpdatePheromones(allTours, allTourLengths);
    }

    /** The whole run: maxIterations iterations from the current trails. The
        trails and the draws consumed follow the trajectory TrailsAfter and
        Rounds, every tour walked is recorded in `runs` in order, and the
        result is the first shortest of them (or the sentinel when there were
        none). */
    method Solve() returns (bestTour: seq<nat>, bestTourLength: real, ghost runs: seq<Candidate>)
      requires Valid()
      modifies this`drawn, pheromones
      ensures Valid()
      ensures drawn == Rounds(old(drawn), maxIterations) == old(drawn) + maxIterations * (numAnts * numCities)
      ensures Matrix() == TrailsAfter(old(Matrix()), old(drawn), maxIterations)
      ensures runs == RunsAfter(old(Matrix()), old(drawn), maxIterations)
      ensures |runs| == maxIterations * numAnts
      ensures forall k :: 0 <= k < |runs| ==> Measured(runs[k])
      ensures Candidate(bestTour, bestTourLength) == Best(runs)
      ensures bestTour != [] ==> IsPermutation(bestTour, numCities) && bestTourLength == CycleLength(distances, bestTour)
      ensures maxIterations == 0 ==> bestTour == [] && bestTourLength == DoubleMax
    {
      ghost var m0, d0 := Matrix(), drawn;
      bestTour := [];
      bestTourLength := DoubleMax;
      runs := [];
      for iter := 0 to maxIterations
        invariant Valid()
        invariant Matrix() == TrailsAfter(m0, d0, iter)
        invariant drawn == Rounds(d0, iter)
        invariant runs == RunsAfter(m0, d0, iter)
        invariant Candidate(bestTour, bestTourLength) == Best(runs)
      {
        AfterOneMore(m0, d0, iter);
        bestTour, bestTourLength, runs := Iterate(bestTour, bestTourLength, runs);
      }
      RunsAfterLength(m0, d0, maxIterations);
      RunsAfterMeasured(m0, d0, maxIterations);
      RoundsIsProduct(d0, maxIterations);
      if bestTour != [] {
        BestIsFirstShortest(runs);
      }
    }
  }
}
