/** The exhaustive O(n^2) closest-pair routine (`brute_force_closest_points`). */
module BruteForce {
  import opened Geometry
  import opened Outcomes
  import opened PairScan

  /** Compares every pair `i < j` in scan order and keeps the first strictly
      closer one; `None` when there are fewer than two points. The result is
      the first closest pair in lexicographic `(i, j)` order, the same rule
      the base case of the divide-and-conquer recursion follows. */
  method BruteForceClosestPoints(points: seq<Point>) returns (r: Option<Pair>)
    ensures r.None? <==> |points| < 2
    ensures r.Some? ==> IsFirstClosest(points, |points|, r.value)
  {
    var n := |points|;
    if n < 2 {
      return None;
    }
    // `None` plays the part of the source's `d_min = f64::INFINITY`.
    var best: Option<Pair> := None;
    var i := 0;
    while i < n - 1
      invariant 0 <= i <= n - 1
      invariant BestSoFar(points, n, best, i, 0)
    {
      CursorMove(points, n, best, i, 0, i, i + 1);
      var j := i + 1;
      while j < n
        invariant i < j <= n
        invariant BestSoFar(points, n, best, i, j)
      {
        ImproveStep(points, n, best, i, j);
        var d := SqDist(points[i], points[j]);
        if best.None? || d < PairDist(points, best.value) {
          best := Some((i, j));
        }
        j := j + 1;
      }
      CursorMove(points, n, best, i, j, i + 1, 0);
      i := i + 1;
    }
    // The last row holds no pair, so every pair has been compared.
    CursorMove(points, n, best, n - 1, 0, n, 0);
    assert InWindow(n, n, 0, 1);
    r := Some(best.value);
  }
}
