/** The pheromone matrix and its once-per-iteration update: every trail
    evaporates by the factor (1 - rho), then every ant deposits q / length on
    both directions of each edge of its closed tour. */
module Trails {
  import opened Tours

  predicate Symmetric(m: seq<seq<real>>)
    requires IsSquare(m, |m|)
  {
    forall i, j :: 0 <= i < |m| && 0 <= j < |m| ==> m[i][j] == m[j][i]
  }

  predicate AllPositive(m: seq<seq<real>>)
    requires IsSquare(m, |m|)
  {
    forall i, j :: 0 <= i < |m| && 0 <= j < |m| ==> m[i][j] > 0.0
  }

  /** The n-by-n matrix holding v everywhere (the initial trails hold 1.0). */
  function Uniform(n: nat, v: real): (m: seq<seq<real>>)
    ensures IsSquare(m, n)
    ensures forall i, j :: 0 <= i < n && 0 <= j < n ==> m[i][j] == v
  {
    seq(n, _ => seq(n, _ => v))
  }

  /** Edge m of tour t (from position m to its successor) joins cities a and b, in either direction. */
  predicate Joins(t: seq<nat>, m: nat, a: nat, b: nat)
    requires m < |t|
  {
    (t[m] == a && Succ(t, m) == b) || (t[m] == b && Succ(t, m) == a)
  }

  /** A batch of tours with one nonzero length per tour. */
  predicate Batch(tours: seq<seq<nat>>, lengths: seq<real>)
  {
    |tours| == |lengths| && forall x :: 0 <= x < |lengths| ==> lengths[x] != 0.0
  }

  /** What the first k edges of t lay on entry (a, b) when each deposit is
      `share`: every edge a -> b and every edge b -> a adds one share (a loop
      a -> a adds two). */
  function Laid(t: seq<nat>, k: nat, share: real, a: nat, b: nat): real
    requires k <= |t|
  {
    if k == 0 then 0.0 else
      Laid(t, k - 1, share, a, b)
      + (if t[k - 1] == a && Succ(t, k - 1) == b then share else 0.0)
      + (if t[k - 1] == b && Succ(t, k - 1) == a then share else 0.0)
  }

  /** Total deposited on entry (a, b) by the first `ants` tours of the batch,
      tour x laying q / lengths[x] per edge. */
  function Deposit(tours: seq<seq<nat>>, lengths: seq<real>, q: real, ants: nat, a: nat, b: nat): real
    requires Batch(tours, lengths) && ants <= |tours|
  {
    if ants == 0 then 0.0
    else
      var t := tours[ants - 1];
      Deposit(tours, lengths, q, ants - 1, a, b) + Laid(t, |t|, q / lengths[ants - 1], a, b)
  }

  /** What is left of a trail of strength x once a fraction rho has evaporated. */
  function Evaporate(x: real, rho: real): real
  {
    x * (1.0 - rho)
  }

  /** The matrix after one evaporation and deposit step. */
  function Updated(m: seq<seq<real>>, tours: seq<seq<nat>>, lengths: seq<real>, rho: real, q: real): (m': seq<seq<real>>)
    requires IsSquare(m, |m|) && Batch(tours, lengths)
    ensures IsSquare(m', |m|)
    ensures forall i, j :: 0 <= i < |m| && 0 <= j < |m| ==>
      m'[i][j] == Evaporate(m[i][j], rho) + Deposit(tours, lengths, q, |tours|, i, j)
  {
    seq(|m|, i requires 0 <= i < |m| =>
      seq(|m|, j requires 0 <= j < |m| =>
        Evaporate(m[i][j], rho) + Deposit(tours, lengths, q, |tours|, i, j)))
  }

  lemma {:induction false} LaidSymmetric(t: seq<nat>, k: nat, share: real, a: nat, b: nat)
    requires k <= |t|
    ensures Laid(t, k, share, a, b) == Laid(t, k, share, b, a)
  {
    if k > 0 {
      LaidSymmetric(t, k - 1, share, a, b);
    }
  }

  lemma {:induction false} LaidNonnegative(t: seq<nat>, k: nat, share: real, a: nat, b: nat)
    requires k <= |t| && share >= 0.0
    ensures Laid(t, k, share, a, b) >= 0.0
  {
    if k > 0 {
      LaidNonnegative(t, k - 1, share, a, b);
    }
  }

  /** With a positive share, nothing is laid on (a, b) exactly when no edge joins a and b. */
  lemma {:induction false} LaidZeroIff(t: seq<nat>, k: nat, share: real, a: nat, b: nat)
    requires k <= |t| && share > 0.0
    ensures Laid(t, k, share, a, b) == 0.0 <==> forall m :: 0 <= m < k ==> !Joins(t, m, a, b)
  {
    if k > 0 {
      LaidZeroIff(t, k - 1, share, a, b);
      LaidNonnegative(t, k - 1, share, a, b);
      if Joins(t, k - 1, a, b) {
        assert Laid(t, k, share, a, b) >= share;
      } else {
        assert Laid(t, k, share, a, b) == Laid(t, k - 1, share, a, b);
      }
    }
  }

  /** An edge joining a and b lays at least one share on (a, b). */
  lemma {:induction false} LaidAtLeast(t: seq<nat>, k: nat, share: real, a: nat, b: nat, m: nat)
    requires k <= |t| && share >= 0.0
    requires m < k && Joins(t, m, a, b)
    ensures Laid(t, k, share, a, b) >= share
  {
    if m == k - 1 {
      LaidNonnegative(t, k - 1, share, a, b);
    } else {
      LaidAtLeast(t, k - 1, share, a, b, m);
    }
  }

  lemma {:induction false} DepositSymmetric(tours: seq<seq<nat>>, lengths: seq<real>, q: real, ants: nat, a: nat, b: nat)
    requires Batch(tours, lengths) && ants <= |tours|
    ensures Deposit(tours, lengths, q, ants, a, b) == Deposit(tours, lengths, q, ants, b, a)
  {
    if ants > 0 {
      var t := tours[ants - 1];
      DepositSymmetric(tours, lengths, q, ants - 1, a, b);
      LaidSymmetric(t, |t|, q / lengths[ants - 1], a, b);
    }
  }

  predicate PositiveLengths(lengths: seq<real>)
  {
    forall x :: 0 <= x < |lengths| ==> lengths[x] > 0.0
  }

  lemma {:induction false} DepositNonnegative(tours: seq<seq<nat>>, lengths: seq<real>, q: real, ants: nat, a: nat, b: nat)
    requires Batch(tours, lengths) && ants <= |tours|
    requires PositiveLengths(lengths) && q > 0.0
    ensures Deposit(tours, lengths, q, ants, a, b) >= 0.0
  {
    if ants > 0 {
      var t := tours[ants - 1];
      DepositNonnegative(tours, lengths, q, ants - 1, a, b);
      assert q / lengths[ants - 1] > 0.0;
      LaidNonnegative(t, |t|, q / lengths[ants - 1], a, b);
    }
  }

  /** A tour that uses the edge between a and b deposits at least q / its length on (a, b). */
  lemma {:induction false} DepositAtLeast(tours: seq<seq<nat>>, lengths: seq<real>, q: real, ants: nat, a: nat, b: nat, x: nat, m: nat)
    requires Batch(tours, lengths) && ants <= |tours|
    requires PositiveLengths(lengths) && q > 0.0
    requires x < ants && m < |tours[x]| && Joins(tours[x], m, a, b)
    ensures Deposit(tours, lengths, q, ants, a, b) >= q / lengths[x]
  {
    var t := tours[ants - 1];
    var share := q / lengths[ants - 1];
    assert share > 0.0;
    if x == ants - 1 {
      LaidAtLeast(t, |t|, share, a, b, m);
      DepositNonnegative(tours, lengths, q, ants - 1, a, b);
    } else {
      DepositAtLeast(tours, lengths, q, ants - 1, a, b, x, m);
      LaidNonnegative(t, |t|, share, a, b);
    }
  }

  /** Evaporation scales every entry alike and every deposit lands on both
      directions, so a symmetric matrix stays symmetric. */
  lemma UpdatedSymmetric(m: seq<seq<real>>, tours: seq<seq<nat>>, lengths: seq<real>, rho: real, q: real)
    requires IsSquare(m, |m|) && Batch(tours, lengths)
    requires Symmetric(m)
    ensures Symmetric(Updated(m, tours, lengths, rho, q))
  {
    forall i, j | 0 <= i < |m| && 0 <= j < |m|
      ensures Updated(m, tours, lengths, rho, q)[i][j] == Updated(m, tours, lengths, rho, q)[j][i]
    {
      DepositSymmetric(tours, lengths, q, |tours|, i, j);
    }
  }

  /** Positive trails stay positive: evaporation by a factor in (0, 1) keeps
      them above zero and deposits are nonnegative. */
  lemma UpdatedPositive(m: seq<seq<real>>, tours: seq<seq<nat>>, lengths: seq<real>, rho: real, q: real)
    requires IsSquare(m, |m|) && Batch(tours, lengths)
    requires AllPositive(m) && 0.0 < rho < 1.0 && q > 0.0 && PositiveLengths(lengths)
    ensures AllPositive(Updated(m, tours, lengths, rho, q))
  {
    forall i, j | 0 <= i < |m| && 0 <= j < |m|
      ensures Updated(m, tours, lengths, rho, q)[i][j] > 0.0
    {
      DepositNonnegative(tours, lengths, q, |tours|, i, j);
      assert m[i][j] * (1.0 - rho) > 0.0;
    }
  }

  /** An entry whose cities no tour edge joins is only evaporated. */
  lemma UntouchedOnlyScaled(m: seq<seq<real>>, tours: seq<seq<nat>>, lengths: seq<real>, rho: real, q: real, a: nat, b: nat)
    requires IsSquare(m, |m|) && Batch(tours, lengths) && a < |m| && b < |m|
    requires forall x, k :: 0 <= x < |tours| && 0 <= k < |tours[x]| ==> !Joins(tours[x], k, a, b)
    ensures Updated(m, tours, lengths, rho, q)[a][b] == m[a][b] * (1.0 - rho)
  {
    UntouchedDepositZero(tours, lengths, q, |tours|, a, b);
  }

  lemma {:induction false} UntouchedDepositZero(tours: seq<seq<nat>>, lengths: seq<real>, q: real, ants: nat, a: nat, b: nat)
    requires Batch(tours, lengths) && ants <= |tours|
    requires forall x, k :: 0 <= x < |tours| && 0 <= k < |tours[x]| ==> !Joins(tours[x], k, a, b)
    ensures Deposit(tours, lengths, q, ants, a, b) == 0.0
  {
    if ants > 0 {
      var t := tours[ants - 1];
      UntouchedLaidZero(t, |t|, q / lengths[ants - 1], a, b);
      UntouchedDepositZero(tours, lengths, q, ants - 1, a, b);
    }
  }

  lemma {:induction false} UntouchedLaidZero(t: seq<nat>, k: nat, share: real, a: nat, b: nat)
    requires k <= |t|
    requires forall m :: 0 <= m < k ==> !Joins(t, m, a, b)
    ensures Laid(t, k, share, a, b) == 0.0
  {
    if k > 0 {
      UntouchedLaidZero(t, k - 1, share, a, b);
      assert !Joins(t, k - 1, a, b);
    }
  }

  /** An entry whose cities some tour joins is reinforced by at least that tour's share q / length. */
  lemma TouchedReinforced(m: seq<seq<real>>, tours: seq<seq<nat>>, lengths: seq<real>, rho: real, q: real, a: nat, b: nat, x: nat, k: nat)
    requires IsSquare(m, |m|) && Batch(tours, lengths) && a < |m| && b < |m|
    requires PositiveLengths(lengths) && q > 0.0
    requires x < |tours| && k < |tours[x]| && Joins(tours[x], k, a, b)
    ensures Updated(m, tours, lengths, rho, q)[a][b] >= m[a][b] * (1.0 - rho) + q / lengths[x]
  {
    DepositAtLeast(tours, lengths, q, |tours|, a, b, x, k);
  }
}
