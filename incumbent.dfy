/** The best tour found so far. It starts unset (an empty tour at the largest
    finite double) and a newly measured tour replaces it only when strictly shorter. */
module Incumbent {

  /** The largest finite IEEE 754 double, (2^53 - 1) * 2^971, used as the "no tour yet" length. */
  const DoubleMax: real := 179769313486231570814527423731704356798070567525844996598917476803157260780028538760589558632766878171540458953514382464234321326889464182768467546703537516986049910576551282076245490090389328944075868508455133942304583236903222948165808559332123348274797826204144723168738177180919299881250404026184124858368.0

  /** A measured tour and its length. */
  datatype Candidate = Candidate(tour: seq<nat>, length: real)

  const Unset: Candidate := Candidate([], DoubleMax)

  /** Tours paired with their lengths, in order. */
  function Pair(tours: seq<seq<nat>>, lengths: seq<real>): seq<Candidate>
    requires |tours| == |lengths|
  {
    seq(|tours|, x requires 0 <= x < |tours| => Candidate(tours[x], lengths[x]))
  }

  /** Recording one more measured tour after `runs0` and the tours so far. */
  lemma PairAppend(runs0: seq<Candidate>, tours: seq<seq<nat>>, lengths: seq<real>, tour: seq<nat>, length: real)
    requires |tours| == |lengths|
    ensures runs0 + Pair(tours + [tour], lengths + [length]) == runs0 + Pair(tours, lengths) + [Candidate(tour, length)]
  {
    assert Pair(tours + [tour], lengths + [length]) == Pair(tours, lengths) + [Candidate(tour, length)];
  }

  /** The incumbent after one more candidate is the old incumbent improved by it. */
  lemma BestAppend(runs: seq<Candidate>, c: Candidate)
    ensures Best(runs + [c]) == Improve(Best(runs), c)
  {
    assert (runs + [c])[..|runs|] == runs;
  }

  /** One comparison of the colony loop: the candidate wins only on strict improvement. */
  function Improve(best: Candidate, c: Candidate): (r: Candidate)
    ensures r.length <= best.length && r.length <= c.length
    ensures r != best ==> r == c && c.length < best.length
  {
    if c.length < best.length then c else best
  }

  /** The incumbent after the candidates `runs` have been measured, in order. */
  function Best(runs: seq<Candidate>): Candidate
  {
    if runs == [] then Unset else Improve(Best(runs[..|runs| - 1]), runs[|runs| - 1])
  }

  /** The incumbent is no longer than the sentinel and than any measured tour. */
  lemma {:induction false} BestIsMinimal(runs: seq<Candidate>)
    ensures Best(runs).length <= DoubleMax
    ensures forall k :: 0 <= k < |runs| ==> Best(runs).length <= runs[k].length
  {
    if runs != [] {
      var init := runs[..|runs| - 1];
      BestIsMinimal(init);
      assert forall k :: 0 <= k < |init| ==> runs[k] == init[k];
    }
  }

  /** The incumbent stays unset exactly when no measured tour is shorter than the sentinel. */
  lemma {:induction false} BestUnsetIff(runs: seq<Candidate>)
    ensures Best(runs) == Unset <==> forall k :: 0 <= k < |runs| ==> runs[k].length >= DoubleMax
  {
    if runs != [] {
      var init := runs[..|runs| - 1];
      BestUnsetIff(init);
      BestIsMinimal(init);
      assert forall k :: 0 <= k < |init| ==> runs[k] == init[k];
    }
  }

  /** Position k holds a tour strictly shorter than every tour before it. */
  predicate FirstShortestAt(runs: seq<Candidate>, k: int)
  {
    0 <= k < |runs| && forall j :: 0 <= j < k ==> runs[j].length > runs[k].length
  }

  /** Once set, the incumbent is the first measured tour of least length. */
  lemma {:induction false} BestIsFirstShortest(runs: seq<Candidate>)
    requires Best(runs) != Unset
    ensures exists k :: FirstShortestAt(runs, k) && Best(runs) == runs[k]
  {
    var n := |runs|;
    var init := runs[..n - 1];
    var last := runs[n - 1];
    assert forall k :: 0 <= k < |init| ==> runs[k] == init[k];
    if last.length < Best(init).length {
      BestIsMinimal(init);
      assert FirstShortestAt(runs, n - 1);
    } else {
      BestIsFirstShortest(init);
      var k :| FirstShortestAt(init, k) && Best(init) == init[k];
      assert FirstShortestAt(runs, k);
    }
  }

  /** The incumbent length never increases as more tours are measured. */
  lemma {:induction false} BestMonotone(runs: seq<Candidate>, i: nat, j: nat)
    requires i <= j <= |runs|
    ensures Best(runs[..j]).length <= Best(runs[..i]).length
    decreases j - i
  {
    if i < j {
      BestMonotone(runs, i, j - 1);
      assert runs[..j][..j - 1] == runs[..j - 1];
    }
  }
}
