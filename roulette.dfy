/** Roulette-wheel selection over a row of city weights.
    A weight vector `w` gives every city a desirability score; `visited` masks
    the cities already on the tour. The wheel scans cities in index order,
    accumulating the weights of the unvisited ones, and stops at the first
    unvisited city whose running total reaches the draw. */
module Roulette {

  datatype Option<T> = None | Some(value: T)

  /** Running total of the weights of the unvisited cities among indices [0, k). */
  function Mass(w: seq<real>, visited: seq<bool>, k: nat): (m: real)
    requires |visited| == |w| && k <= |w|
    ensures NonnegativeOnUnvisited(w, visited) ==> m >= 0.0
  {
    if k == 0 then 0.0
    else Mass(w, visited, k - 1) + (if visited[k - 1] then 0.0 else w[k - 1])
  }

  /** Every unvisited city carries a nonnegative weight. */
  predicate NonnegativeOnUnvisited(w: seq<real>, visited: seq<bool>)
    requires |visited| == |w|
  {
    forall j :: 0 <= j < |w| && !visited[j] ==> w[j] >= 0.0
  }

  predicate SomeUnvisited(visited: seq<bool>)
  {
    exists j :: 0 <= j < |visited| && !visited[j]
  }

  /** Scans indices [i, |w|) for the first unvisited city whose running total
      reaches the threshold `r`; None when the scan runs off the end. */
  function PickFrom(w: seq<real>, visited: seq<bool>, r: real, i: nat): (res: Option<nat>)
    requires |visited| == |w| && i <= |w|
    ensures res.Some? ==> i <= res.value < |w| && !visited[res.value]
    decreases |w| - i
  {
    if i == |w| then None
    else if !visited[i] && Mass(w, visited, i + 1) >= r then Some(i)
    else PickFrom(w, visited, r, i + 1)
  }

  /** The scan from i stops at an unvisited city whose running total reaches
      `r` and passes over every earlier unvisited city whose total falls short;
      it fails only when every unvisited city from i on falls short. */
  lemma {:induction false} PickFromFirstReaching(w: seq<real>, visited: seq<bool>, r: real, i: nat)
    requires |visited| == |w| && i <= |w|
    ensures var res := PickFrom(w, visited, r, i);
      && (res.Some? ==> Mass(w, visited, res.value + 1) >= r
                        && forall j :: i <= j < res.value && !visited[j] ==> Mass(w, visited, j + 1) < r)
      && (res.None? ==> forall j :: i <= j < |w| && !visited[j] ==> Mass(w, visited, j + 1) < r)
    decreases |w| - i
  {
    if i < |w| && !(!visited[i] && Mass(w, visited, i + 1) >= r) {
      PickFromFirstReaching(w, visited, r, i + 1);
    }
  }

  /** The first unvisited city (in ascending index order) whose cumulative weight reaches `r`. */
  function Pick(w: seq<real>, visited: seq<bool>, r: real): Option<nat>
    requires |visited| == |w|
  {
    PickFrom(w, visited, r, 0)
  }

  /** A draw `u`, uniform in [0, 1), scaled to a draw uniform in [0, total). */
  function Scaled(u: real, total: real): real
  {
    u * total
  }

  /** One spin of the wheel: the draw `u` is scaled to [0, total). */
  function Spin(w: seq<real>, visited: seq<bool>, u: real): (res: Option<nat>)
    requires |visited| == |w|
    ensures res.Some? ==> res.value < |w| && !visited[res.value]
  {
    Pick(w, visited, Scaled(u, Mass(w, visited, |w|)))
  }

  /** The cumulative scan of the wheel over arrays of weights and visited
      flags: returns the first unvisited index whose running total reaches `r`. */
  method Scan(weights: array<real>, visited: array<bool>, r: real) returns (res: Option<nat>)
    requires weights.Length == visited.Length
    ensures res == Pick(weights[..], visited[..], r)
  {
    ghost var w, v := weights[..], visited[..];
    var cumulative := 0.0;
    for i := 0 to weights.Length
      invariant cumulative == Mass(w, v, i)
      invariant Pick(w, v, r) == PickFrom(w, v, r, i)
    {
      if !visited[i] {
        cumulative := cumulative + weights[i];
        if cumulative >= r {
          return Some(i);
        }
      }
    }
    return None;
  }

  /** A spin is a pick at the draw scaled by the total weight. */
  lemma {:induction false} SpinAt(w: seq<real>, visited: seq<bool>, u: real, r: real)
    requires |visited| == |w| && r == Scaled(u, Mass(w, visited, |w|))
    ensures Spin(w, visited, u) == Pick(w, visited, r)
  {
  }

  /** The running total never decreases when the unvisited weights are nonnegative. */
  lemma {:induction false} MassMonotone(w: seq<real>, visited: seq<bool>, j: nat, k: nat)
    requires |visited| == |w| && j <= k <= |w|
    requires NonnegativeOnUnvisited(w, visited)
    ensures Mass(w, visited, j) <= Mass(w, visited, k)
    decreases k - j
  {
    if j < k {
      MassMonotone(w, visited, j, k - 1);
    }
  }

  /** Visited cities add nothing: past the last unvisited city the total is flat. */
  lemma {:induction false} MassFlat(w: seq<real>, visited: seq<bool>, j: nat, k: nat)
    requires |visited| == |w| && j <= k <= |w|
    requires forall m :: j <= m < k ==> visited[m]
    ensures Mass(w, visited, k) == Mass(w, visited, j)
    decreases k - j
  {
    if j < k {
      MassFlat(w, visited, j, k - 1);
    }
  }

  /** The highest-indexed unvisited city. */
  lemma {:induction false} LastUnvisited(visited: seq<bool>) returns (last: nat)
    requires SomeUnvisited(visited)
    ensures last < |visited| && !visited[last]
    ensures forall m :: last < m < |visited| ==> visited[m]
  {
    var n := |visited|;
    if !visited[n - 1] {
      last := n - 1;
    } else {
      var j :| 0 <= j < n && !visited[j];
      assert visited[..n - 1][j] == visited[j];
      last := LastUnvisited(visited[..n - 1]);
      assert visited[..n - 1][last] == visited[last];
    }
  }

  /** If some city is unvisited and the threshold does not exceed the total,
      the wheel always selects a city. */
  lemma PickDefined(w: seq<real>, visited: seq<bool>, r: real)
    requires |visited| == |w|
    requires SomeUnvisited(visited)
    requires r <= Mass(w, visited, |w|)
    ensures Pick(w, visited, r).Some?
  {
    var last := LastUnvisited(visited);
    MassFlat(w, visited, last + 1, |w|);
    PickFromFirstReaching(w, visited, r, 0);
  }

  /** With nonnegative weights and a draw in [0, 1), a spin fails exactly when
      every city is already visited. */
  lemma SpinFailsIff(w: seq<real>, visited: seq<bool>, u: real)
    requires |visited| == |w|
    requires NonnegativeOnUnvisited(w, visited)
    requires 0.0 <= u < 1.0
    ensures Spin(w, visited, u).None? <==> !SomeUnvisited(visited)
  {
    if SomeUnvisited(visited) {
      var total := Mass(w, visited, |w|);
      MassMonotone(w, visited, 0, |w|);
      assert Scaled(u, total) == u * total <= total;
      PickDefined(w, visited, Scaled(u, total));
    }
  }

  lemma {:induction false} MassZero(w: seq<real>, visited: seq<bool>, k: nat)
    requires |visited| == |w| && k <= |w|
    requires forall j :: 0 <= j < |w| ==> w[j] == 0.0
    ensures Mass(w, visited, k) == 0.0
  {
    if k > 0 {
      MassZero(w, visited, k - 1);
    }
  }

  /** When every weight is zero the draw is zero too, and the wheel selects the
      first unvisited city rather than failing. */
  lemma ZeroWeightsPickFirstUnvisited(w: seq<real>, visited: seq<bool>, u: real, c: nat)
    requires |visited| == |w|
    requires forall j :: 0 <= j < |w| ==> w[j] == 0.0
    requires c < |w| && !visited[c] && forall j :: 0 <= j < c ==> visited[j]
    ensures Spin(w, visited, u) == Some(c)
  {
    MassZero(w, visited, |w|);
    MassZero(w, visited, c + 1);
    PickFromFirstReaching(w, visited, 0.0, 0);
  }

  /** A scan from i that passes over every unvisited city before j stops at j
      once j's running total reaches the threshold. */
  lemma {:induction false} PickFromStopsAt(w: seq<real>, visited: seq<bool>, r: real, i: nat, j: nat)
    requires |visited| == |w| && i <= j < |w| && !visited[j]
    requires Mass(w, visited, j + 1) >= r
    requires forall k :: i <= k < j && !visited[k] ==> Mass(w, visited, k + 1) < r
    ensures PickFrom(w, visited, r, i) == Some(j)
    decreases j - i
  {
    if i < j {
      PickFromStopsAt(w, visited, r, i + 1, j);
    }
  }

  /** Every unvisited city j of positive weight owns the slice of draws
      (Mass(j) / total, Mass(j + 1) / total] of positive width inside [0, 1]:
      every draw in it selects j, so j has a nonzero chance of selection. */
  lemma SomeDrawSelects(w: seq<real>, visited: seq<bool>, j: nat)
    requires |visited| == |w| && NonnegativeOnUnvisited(w, visited)
    requires j < |w| && !visited[j] && w[j] > 0.0
    ensures var total := Mass(w, visited, |w|);
      && total > 0.0
      && 0.0 <= Mass(w, visited, j) / total < Mass(w, visited, j + 1) / total <= 1.0
      && forall u :: Mass(w, visited, j) / total < u <= Mass(w, visited, j + 1) / total ==>
           Spin(w, visited, u) == Some(j)
    ensures exists u :: 0.0 <= u < 1.0 && Spin(w, visited, u) == Some(j)
  {
    var total := Mass(w, visited, |w|);
    var before, after := Mass(w, visited, j), Mass(w, visited, j + 1);
    assert after == before + w[j] && before >= 0.0;
    MassMonotone(w, visited, j + 1, |w|);
    forall k | 0 <= k < j && !visited[k]
      ensures Mass(w, visited, k + 1) <= before
    {
      MassMonotone(w, visited, k + 1, j);
    }
    Slice(before, after, total);
    forall u | before / total < u <= after / total
      ensures Spin(w, visited, u) == Some(j)
    {
      ScaledWithin(before, after, total, u);
      PickFromStopsAt(w, visited, Scaled(u, total), 0, j);
    }
    var u := Proportion(before + w[j] / 2.0, total);
    PickFromStopsAt(w, visited, Scaled(u, total), 0, j);
    assert 0.0 <= u < 1.0 && Spin(w, visited, u) == Some(j);
  }

  /** The slice of [0, 1] that a running total from `before` to `after` out
      of `total` occupies. */
  lemma Slice(before: real, after: real, total: real)
    requires 0.0 <= before < after <= total
    ensures total > 0.0 && 0.0 <= before / total < after / total <= 1.0
  {
    var p, q := before / total, after / total;
    assert p * total == before && q * total == after;
    assert (q - p) * total == after - before;
    FactorPositive(q - p, total, after - before);
    if before > 0.0 {
      FactorPositive(p, total, before);
    }
    FactorAtMostOne(q, total, after);
  }

  /** A draw inside the slice scales to a threshold inside (before, after]. */
  lemma ScaledWithin(before: real, after: real, total: real, u: real)
    requires total > 0.0 && before / total < u <= after / total
    ensures before < Scaled(u, total) <= after
  {
    var p, q := before / total, after / total;
    assert p * total == before && q * total == after;
    ProductPositive(u - p, total);
    assert (u - p) * total == u * total - before;
    ProductNonnegative(q - u, total);
    assert (q - u) * total == after - u * total;
  }

  lemma ProductPositive(x: real, t: real)
    requires x > 0.0 && t > 0.0
    ensures x * t > 0.0
  {
  }

  lemma ProductNonnegative(x: real, t: real)
    requires x >= 0.0 && t > 0.0
    ensures x * t >= 0.0
  {
  }

  lemma FactorAtMostOne(u: real, t: real, r: real)
    requires u * t == r && r <= t && t > 0.0
    ensures u <= 1.0
  {
  }

  /** The draw that the wheel scales to r. */
  lemma Proportion(r: real, total: real) returns (u: real)
    requires 0.0 < r < total
    ensures 0.0 <= u < 1.0 && Scaled(u, total) == r
  {
    u := r / total;
    assert Scaled(u, total) == u * total == r;
    FactorBelowOne(u, total, r);
    FactorPositive(u, total, r);
  }

  lemma FactorBelowOne(u: real, t: real, r: real)
    requires u * t == r && r < t && t > 0.0
    ensures u < 1.0
  {
    assert u * t < t;
  }

  lemma FactorPositive(u: real, t: real, r: real)
    requires u * t == r && r > 0.0 && t > 0.0
    ensures u > 0.0
  {
    assert u * t > 0.0;
  }
}
