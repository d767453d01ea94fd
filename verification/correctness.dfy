/** The two algorithms side by side: on duplicate-free input they report
    pairs at the same distance, and a strictly closest pair is found by
    index. */
module Correctness {
  import opened Geometry
  import opened Outcomes
  import opened PairScan
  import opened Views
  import opened DivideAndConquer

  /** Cross-validation: on pairwise-distinct points both algorithms report a
      pair at the same (minimum) distance. */
  lemma AgreesWithBruteForce(points: seq<Point>, p: Pair)
    requires Distinct(points) && IsFirstClosest(points, |points|, p)
    ensures ClosestPair(points).Success?
    ensures var (a, b) := ClosestPair(points).value;
            SqDist(points[a], points[b]) == PairDist(points, p)
  {
    assert |points| >= 2;
    var (a, b) := ClosestPair(points).value;
    var lo, hi := if a < b then a else b, if a < b then b else a;
    SqDistSymmetric(points[a], points[b]);
    assert InWindow(|points|, |points|, lo, hi);
  }

  /** When one pair is strictly closer than every other, the entry point
      returns exactly its two indices (in some order). */
  lemma UniqueClosestFound(points: seq<Point>, i0: int, j0: int)
    requires Distinct(points) && 0 <= i0 < j0 < |points|
    requires forall i, j :: 0 <= i < j < |points| && (i != i0 || j != j0) ==>
               SqDist(points[i0], points[j0]) < SqDist(points[i], points[j])
    ensures ClosestPair(points).Success?
    ensures var (a, b) := ClosestPair(points).value; {a, b} == {i0, j0}
  {
    var (a, b) := ClosestPair(points).value;
    var lo, hi := if a < b then a else b, if a < b then b else a;
    SqDistSymmetric(points[a], points[b]);
    assert SqDist(points[lo], points[hi]) <= SqDist(points[i0], points[j0]);
  }
}
