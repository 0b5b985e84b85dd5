/** Tours over N cities: a tour is a visiting order, implicitly closed from its
    last city back to its first, so it has one edge per position. */
module Tours {

  /** `d` is an n-by-n table. */
  predicate IsSquare(d: seq<seq<real>>, n: nat)
  {
    |d| == n && forall i :: 0 <= i < n ==> |d[i]| == n
  }

  /** Every city index of `t` lies in [0, n). */
  predicate InRange(t: seq<nat>, n: nat)
  {
    forall k :: 0 <= k < |t| ==> t[k] < n
  }

  predicate Distinct(t: seq<nat>)
  {
    forall a, b :: 0 <= a < b < |t| ==> t[a] != t[b]
  }

  /** A tour visits each of the n cities exactly once. */
  predicate IsPermutation(t: seq<nat>, n: nat)
  {
    |t| == n && InRange(t, n) && Distinct(t)
  }

  /** The visited flags of a partial tour: city c is flagged exactly when it occurs in `prefix`. */
  function Visited(prefix: seq<nat>, n: nat): (v: seq<bool>)
    ensures |v| == n
    ensures forall c :: 0 <= c < n ==> (v[c] <==> c in prefix)
  {
    seq(n, c => c in prefix)
  }

  /** Appending a city to a partial tour flags exactly that city. */
  lemma VisitedAppend(prefix: seq<nat>, c: nat, n: nat)
    requires c < n
    ensures Visited(prefix + [c], n) == Visited(prefix, n)[c := true]
  {
  }

  /** The city that follows position m on the closed tour. */
  function Succ(t: seq<nat>, m: nat): nat
    requires m < |t|
  {
    if m + 1 < |t| then t[m + 1] else t[0]
  }

  /** Sum of the distances of the first k edges of the closed tour. */
  function EdgeSum(d: seq<seq<real>>, t: seq<nat>, k: nat): real
    requires IsSquare(d, |d|) && InRange(t, |d|) && k <= |t|
  {
    if k == 0 then 0.0 else EdgeSum(d, t, k - 1) + d[t[k - 1]][Succ(t, k - 1)]
  }

  /** Length of the closed tour: every consecutive edge plus the edge back to the start. */
  function CycleLength(d: seq<seq<real>>, t: seq<nat>): real
    requires IsSquare(d, |d|) && InRange(t, |d|)
  {
    EdgeSum(d, t, |t|)
  }

  predicate NonnegativeDistances(d: seq<seq<real>>)
    requires IsSquare(d, |d|)
  {
    forall i, j :: 0 <= i < |d| && 0 <= j < |d| ==> d[i][j] >= 0.0
  }

  /** Travelling between two different cities always costs something. */
  predicate PositiveOffDiagonal(d: seq<seq<real>>)
    requires IsSquare(d, |d|)
  {
    forall i, j :: 0 <= i < |d| && 0 <= j < |d| && i != j ==> d[i][j] > 0.0
  }

  /** Cities 0, 1, ..., n - 1 as a set. */
  function CitySet(n: nat): (s: set<nat>)
    ensures |s| == n
    ensures forall c: int :: c in s <==> 0 <= c < n
  {
    if n == 0 then {} else CitySet(n - 1) + {n - 1}
  }

  /** The set of cities a sequence mentions. */
  function Elements(t: seq<nat>): (s: set<nat>)
    ensures forall c :: c in s <==> c in t
  {
    if t == [] then {} else Elements(t[..|t| - 1]) + {t[|t| - 1]}
  }

  lemma {:induction false} DistinctCardinality(t: seq<nat>)
    requires Distinct(t)
    ensures |Elements(t)| == |t|
  {
    if t != [] {
      var init := t[..|t| - 1];
      DistinctCardinality(init);
      assert t[|t| - 1] !in init;
    }
  }

  lemma SubsetCardinality(a: set<nat>, b: set<nat>)
    requires a <= b
    ensures |a| <= |b|
    ensures |a| == |b| ==> a == b
  {
    if a != b {
      var x :| x in b && x !in a;
      assert a <= b - {x};
      SubsetCardinality(a, b - {x});
    }
  }

  /** A permutation omits no city: every index in [0, n) occurs in the tour. */
  lemma PermutationCoversAll(t: seq<nat>, n: nat)
    requires IsPermutation(t, n)
    ensures forall c :: 0 <= c < n ==> c in t
  {
    var cities := Elements(t);
    DistinctCardinality(t);
    assert cities <= CitySet(n);
    SubsetCardinality(cities, CitySet(n));
  }

  /** A partial tour with fewer than n distinct cities leaves some city unvisited. */
  lemma UnvisitedExists(prefix: seq<nat>, n: nat)
    requires InRange(prefix, n) && Distinct(prefix) && |prefix| < n
    ensures exists c :: 0 <= c < n && c !in prefix
  {
    var seen, all := Elements(prefix), CitySet(n);
    DistinctCardinality(prefix);
    assert |seen| < |all|;
    if all <= seen {
      SubsetCardinality(all, seen);
      assert false;
    }
    var c :| c in all && c !in seen;
    assert 0 <= c < n && c !in prefix;
  }

  /** With nonnegative distances every partial edge sum, and so the tour length, is nonnegative. */
  lemma {:induction false} EdgeSumNonnegative(d: seq<seq<real>>, t: seq<nat>, k: nat)
    requires IsSquare(d, |d|) && InRange(t, |d|) && k <= |t|
    requires NonnegativeDistances(d)
    ensures EdgeSum(d, t, k) >= 0.0
  {
    if k > 0 {
      EdgeSumNonnegative(d, t, k - 1);
    }
  }

  /** On a permutation of at least two cities each edge joins two different
      cities, so with positive off-diagonal distances every edge sum grows. */
  lemma {:induction false} EdgeSumPositive(d: seq<seq<real>>, t: seq<nat>, k: nat)
    requires IsSquare(d, |d|) && IsPermutation(t, |d|) && |d| >= 2
    requires NonnegativeDistances(d) && PositiveOffDiagonal(d)
    requires 0 < k <= |t|
    ensures EdgeSum(d, t, k) > 0.0
  {
    assert t[k - 1] != Succ(t, k - 1);
    if k > 1 {
      EdgeSumPositive(d, t, k - 1);
    }
  }

  /** The length of a complete tour is strictly positive, so it can divide the deposit constant. */
  lemma CycleLengthPositive(d: seq<seq<real>>, t: seq<nat>)
    requires IsSquare(d, |d|) && IsPermutation(t, |d|) && |d| >= 2
    requires NonnegativeDistances(d) && PositiveOffDiagonal(d)
    ensures CycleLength(d, t) > 0.0
  {
    EdgeSumPositive(d, t, |t|);
  }
}
