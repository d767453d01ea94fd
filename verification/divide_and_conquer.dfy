/** The O(n log n) divide-and-conquer closest-pair algorithm
    (`divide_and_conquer_closest_points` and its recursion). */
module DivideAndConquer {
  import opened Geometry
  import opened Outcomes
  import opened PairScan
  import opened Views
  import opened CombineStep

  /** Why the top-level call aborts: too few points, or a returned point
      that cannot be found (again) in the input. */
  datatype Error = InsufficientPoints | PointNotFound | NoSecondIndex

  /** The split by count: the left half takes the first `n / 2` points and
      the right half the rest, so for `n >= 4` both halves have at least two
      points and fewer than `n`. */
  function Split(px: seq<Point>): (halves: (seq<Point>, seq<Point>))
    requires |px| >= 4
    ensures halves.0 + halves.1 == px
    ensures |halves.0| == |px| / 2 && |halves.1| == |px| - |px| / 2
    ensures 2 <= |halves.0| < |px| && 2 <= |halves.1| < |px|
  {
    (px[..|px| / 2], px[|px| / 2..])
  }

  /** The recursion. Whatever the input, the two returned points are two
      entries of `px`, or two entries of `py`, taken at different positions.
      On consistent views of distinct points they are a closest pair. */
  function ClosestRec(px: seq<Point>, py: seq<Point>): (res: PointPair)
    requires |px| >= 2
    ensures multiset{res.0, res.1} <= multiset(px) || multiset{res.0, res.1} <= multiset(py)
    ensures ConsistentViews(px, py) ==> IsClosestPair(px, res)
    decreases |px|
  {
    if |px| <= 3 then
      BaseCaseViews(px, py);
      BaseCase(px)
    else
      var (qx, rx) := Split(px);
      var ys := Partition(py, qx);
      var q := ClosestRec(qx, ys.0);
      var r := ClosestRec(rx, ys.1);
      var res := Combine(py, qx[|qx| - 1].x, q, r);
      StepSound(px, py, qx, rx, ys.0, ys.1, q, r, res);
      StepOptimal(px, py, qx, rx, ys.0, ys.1, q, r);
      res
  }

  /** The base case on consistent views: they are duplicate-free, so the
      base case returns a closest pair. */
  lemma BaseCaseViews(px: seq<Point>, py: seq<Point>)
    requires 2 <= |px|
    ensures ConsistentViews(px, py) ==> IsClosestPair(px, BaseCase(px))
  {
  }

  /** Soundness of one recursive step: when each half's pair is drawn from
      that half (or its y-view), the combined pair is drawn from the whole
      (or its y-view). */
  lemma StepSound(px: seq<Point>, py: seq<Point>, qx: seq<Point>, rx: seq<Point>, qy: seq<Point>, ry: seq<Point>,
                  q: PointPair, r: PointPair, res: PointPair)
    requires px == qx + rx && multiset(qy) + multiset(ry) == multiset(py)
    requires multiset{q.0, q.1} <= multiset(qx) || multiset{q.0, q.1} <= multiset(qy)
    requires multiset{r.0, r.1} <= multiset(rx) || multiset{r.0, r.1} <= multiset(ry)
    requires res == q || res == r || multiset{res.0, res.1} <= multiset(py)
    ensures multiset{res.0, res.1} <= multiset(px) || multiset{res.0, res.1} <= multiset(py)
  {
    assert multiset(px) == multiset(qx) + multiset(rx);
  }

  /** Optimality of one recursive step: on consistent views, closest pairs
      of both halves combine into a closest pair of the whole. */
  lemma StepOptimal(px: seq<Point>, py: seq<Point>, qx: seq<Point>, rx: seq<Point>, qy: seq<Point>, ry: seq<Point>,
                    q: PointPair, r: PointPair)
    requires px == qx + rx && 0 < |qx| && 0 < |rx| && (qy, ry) == Partition(py, qx)
    requires ConsistentViews(qx, qy) ==> IsClosestPair(qx, q)
    requires ConsistentViews(rx, ry) ==> IsClosestPair(rx, r)
    ensures ConsistentViews(px, py) ==> IsClosestPair(px, Combine(py, qx[|qx| - 1].x, q, r))
  {
    if ConsistentViews(px, py) {
      var mid := |qx|;
      assert qx == px[..mid] && rx == px[mid..];
      PartitionKeepsViews(px, py, mid);
      CombineOptimal(px, py, mid, q, r);
    }
  }

  /** The first position `i >= k` of `s` holding `p`, other than `avoid`. */
  function FindFrom(s: seq<Point>, p: Point, avoid: int, k: nat): (r: Option<nat>)
    requires k <= |s|
    ensures r.Some? ==> k <= r.value < |s| && s[r.value] == p && r.value != avoid
    ensures r.Some? ==> forall i :: k <= i < r.value && i != avoid ==> s[i] != p
    ensures r.None? ==> forall i :: k <= i < |s| && i != avoid ==> s[i] != p
    decreases |s| - k
  {
    if k == |s| then None
    else if s[k] == p && k != avoid then Some(k)
    else FindFrom(s, p, avoid, k + 1)
  }

  /** Maps the two returned points back to positions of the input: the first
      position holding `p0`, then a position holding `p1` other than that one.
      This succeeds exactly when the two points are a sub-multiset of the input. */
  function RecoverIndices(points: seq<Point>, p0: Point, p1: Point): (r: Result<(nat, nat), Error>)
    ensures r.Success? ==> r.value.0 < |points| && r.value.1 < |points| && r.value.0 != r.value.1
    ensures r.Success? ==> points[r.value.0] == p0 && points[r.value.1] == p1
    ensures r.Success? ==> forall i :: 0 <= i < r.value.0 ==> points[i] != p0
    ensures r.Success? ==> forall i :: 0 <= i < r.value.1 && i != r.value.0 ==> points[i] != p1
    ensures r.Success? <==> multiset{p0, p1} <= multiset(points)
  {
    match FindFrom(points, p0, -1, 0)
    case None =>
      assert p0 !in multiset(points);
      Failure(PointNotFound)
    case Some(i0) =>
      match FindFrom(points, p1, i0, 0)
      case None =>
        if p1 == p0 then
          OnlyOccurrence(points, i0);
          Failure(NoSecondIndex)
        else
          assert p1 !in multiset(points);
          Failure(NoSecondIndex)
      case Some(i1) =>
        TwoPositions(points, i0, i1);
        Success((i0, i1))
  }

  /** The entry point: presort by x and by y, recurse, and recover two
      distinct indices. Fewer than two points is an error, and for two or
      more the index recovery never fails. */
  function ClosestPair(points: seq<Point>): (r: Result<(nat, nat), Error>)
    ensures |points| < 2 ==> r == Failure(InsufficientPoints)
    ensures |points| >= 2 ==> r.Success?
    ensures r.Success? ==> r.value.0 < |points| && r.value.1 < |points| && r.value.0 != r.value.1
    ensures r.Success? && Distinct(points) ==>
              forall i, j :: 0 <= i < j < |points| ==>
                SqDist(points[r.value.0], points[r.value.1]) <= SqDist(points[i], points[j])
  {
    if |points| < 2 then
      Failure(InsufficientPoints)
    else
      var px := Sort(points, ByX);
      var py := Sort(points, ByY);
      var res := ClosestRec(px, py);
      PresortedClosest(points, px, py, res);
      RecoverIndices(points, res.0, res.1)
  }

  /** A closest pair of the x-presorted view of distinct points is no
      farther apart than any two positions of the input. */
  lemma PresortedClosest(points: seq<Point>, px: seq<Point>, py: seq<Point>, res: PointPair)
    requires multiset(px) == multiset(points) && SortedBy(px, ByX)
    requires multiset(py) == multiset(points) && SortedBy(py, ByY)
    requires ConsistentViews(px, py) ==> IsClosestPair(px, res)
    ensures Distinct(points) ==>
              forall i, j :: 0 <= i < j < |points| ==> Dist(res) <= SqDist(points[i], points[j])
  {
    if Distinct(points) {
      PresortConsistent(points, px, py);
      forall i, j | 0 <= i < j < |points|
        ensures Dist(res) <= SqDist(points[i], points[j])
      {
        assert points[i] in multiset(px) && points[j] in multiset(px);
        PairBound(px, res, points[i], points[j]);
      }
    }
  }
}
