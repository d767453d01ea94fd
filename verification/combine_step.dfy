/** The combine step of the divide-and-conquer recursion (the strip around
    the dividing line, its scan, and the decision between the candidates),
    the base case, and why the combine step keeps a closest pair. */
module CombineStep {
  import opened Geometry
  import opened Outcomes
  import opened PairScan
  import opened Views
  import opened Packing

  /** The strip scan compares `Sy[i]` with `Sy[j]` for `j < min(i + 16, len)`. */
  const StripReach: nat := 15

  /** Two point values, as the recursion returns them. */
  type PointPair = (Point, Point)

  function Dist(pr: PointPair): int
  {
    SqDist(pr.0, pr.1)
  }

  function Min(a: int, b: int): int
  {
    if a <= b then a else b
  }

  /** `pr` is two different points of `s` whose distance is the minimum
      over all pairs of positions of `s`. */
  ghost predicate IsClosestPair(s: seq<Point>, pr: PointPair)
  {
    && pr.0 in s
    && pr.1 in s
    && pr.0 != pr.1
    && forall i, j :: 0 <= i < j < |s| ==> Dist(pr) <= SqDist(s[i], s[j])
  }

  /** The decision between the strip pair and the two halves' pairs: the
      strip pair wins only when strictly closer than delta, and the left
      pair only when strictly closer than the right one. */
  function Decide(strip: Option<PointPair>, q: PointPair, r: PointPair): (res: PointPair)
    ensures res == q || res == r || (strip.Some? && res == strip.value)
    ensures Dist(res) <= Dist(q) && Dist(res) <= Dist(r)
    ensures strip.Some? ==> Dist(res) <= Dist(strip.value)
    ensures res == q && q != r ==> Dist(q) < Dist(r)
    ensures strip.Some? && res == strip.value && res != q && res != r ==> Dist(res) < Min(Dist(q), Dist(r))
  {
    var delta2 := Min(Dist(q), Dist(r));
    if strip.Some? && Dist(strip.value) < delta2 then
      strip.value
    else if Dist(q) < Dist(r) then
      q
    else
      r
  }

  /** The combine step: build the strip of `py` within delta of the line
      `x = xStar`, scan it with the fixed lookahead, and decide. */
  function Combine(py: seq<Point>, xStar: int, q: PointPair, r: PointPair): (res: PointPair)
    ensures Dist(res) <= Dist(q) && Dist(res) <= Dist(r)
    ensures res == q || res == r || (multiset{res.0, res.1} <= multiset(py) && Dist(res) < Min(Dist(q), Dist(r)))
  {
    var delta2 := Min(Dist(q), Dist(r));
    var sy := Strip(py, xStar, delta2);
    var s := Scan(sy, StripReach);
    SubseqMultiset(sy, py);
    var strip :=
      if s.Some? then
        TwoPositions(sy, s.value.0, s.value.1);
        Some((sy[s.value.0], sy[s.value.1]))
      else
        None;
    Decide(strip, q, r)
  }

  /** The base case: the first closest pair of `px` in `(i, j)` scan order,
      by value, as the brute-force routine picks it. */
  function BaseCase(px: seq<Point>): (res: PointPair)
    requires |px| >= 2
    ensures exists p: Pair :: IsFirstClosest(px, |px|, p) && res == (px[p.0], px[p.1])
    ensures multiset{res.0, res.1} <= multiset(px)
    ensures Distinct(px) ==> IsClosestPair(px, res)
  {
    var p := Scan(px, |px|).value;
    TwoPositions(px, p.0, p.1);
    FirstClosestIsClosest(px, p);
    (px[p.0], px[p.1])
  }

  /** On distinct points, the first closest pair of the full scan is a
      closest pair. */
  lemma FirstClosestIsClosest(px: seq<Point>, p: Pair)
    requires IsFirstClosest(px, |px|, p)
    ensures Distinct(px) ==> IsClosestPair(px, (px[p.0], px[p.1]))
  {
    assert px[p.0] in px && px[p.1] in px;
    forall i, j | 0 <= i < j < |px|
      ensures PairDist(px, p) <= SqDist(px[i], px[j])
    {
      assert InWindow(|px|, |px|, i, j);
    }
  }

  /** A closest pair of `s` is no farther apart than any two different points of `s`. */
  lemma PairBound(s: seq<Point>, pr: PointPair, u: Point, v: Point)
    requires IsClosestPair(s, pr) && u in s && v in s && u != v
    ensures Dist(pr) <= SqDist(u, v)
  {
    var a :| 0 <= a < |s| && s[a] == u;
    var b :| 0 <= b < |s| && s[b] == v;
    if b < a {
      SqDistSymmetric(u, v);
    }
  }

  /** Left-half points lie on or left of the dividing line, right-half points
      on or right of it. */
  lemma SideOfLine(px: seq<Point>, mid: int, p: Point)
    requires SortedBy(px, ByX) && 0 < mid < |px| && p in px
    ensures p in px[..mid] ==> p.x <= px[mid - 1].x
    ensures p !in px[..mid] ==> px[mid - 1].x <= p.x
  {
    var k :| 0 <= k < |px| && px[k] == p;
    if k < mid {
      assert px[..mid][k] == p;
      assert Key(px[k], ByX) <= Key(px[mid - 1], ByX) || k == mid - 1;
    } else {
      assert Key(px[mid - 1], ByX) <= Key(px[k], ByX);
    }
  }

  /** Strip points from the left half lie on or left of the dividing line,
      the others on or right of it. */
  lemma StripSides(px: seq<Point>, mid: int, sy: seq<Point>)
    requires SortedBy(px, ByX) && 0 < mid < |px|
    requires forall p :: p in sy ==> p in px
    ensures forall k :: 0 <= k < |sy| ==>
              if sy[k] in px[..mid] then sy[k].x <= px[mid - 1].x else px[mid - 1].x <= sy[k].x
  {
    forall k | 0 <= k < |sy|
      ensures if sy[k] in px[..mid] then sy[k].x <= px[mid - 1].x else px[mid - 1].x <= sy[k].x
    {
      assert sy[k] in sy;
      SideOfLine(px, mid, sy[k]);
    }
  }

  /** Two different points from the same half are at least delta apart,
      delta being the smaller of the halves' closest distances. */
  lemma SameHalfApart(px: seq<Point>, mid: int, q: PointPair, r: PointPair, u: Point, v: Point)
    requires 0 < mid < |px| && IsClosestPair(px[..mid], q) && IsClosestPair(px[mid..], r)
    requires u in px && v in px && u != v && (u in px[..mid] <==> v in px[..mid])
    ensures Min(Dist(q), Dist(r)) <= SqDist(u, v)
  {
    if u in px[..mid] {
      PairBound(px[..mid], q, u, v);
    } else {
      InOneHalf(px, mid, u);
      InOneHalf(px, mid, v);
      PairBound(px[mid..], r, u, v);
    }
  }

  /** A point of `s` lies in the part before `mid` or in the part from it. */
  lemma InOneHalf(s: seq<Point>, mid: int, u: Point)
    requires 0 <= mid <= |s| && u in s
    ensures u in s[..mid] || u in s[mid..]
  {
    assert s == s[..mid] + s[mid..];
  }

  /** Two strip points from the same half are at least delta apart. */
  lemma StripSpread(px: seq<Point>, mid: int, q: PointPair, r: PointPair, sy: seq<Point>)
    requires 0 < mid < |px| && Distinct(sy)
    requires IsClosestPair(px[..mid], q) && IsClosestPair(px[mid..], r)
    requires forall p :: p in sy ==> p in px
    ensures forall k, l :: 0 <= k < l < |sy| && (sy[k] in px[..mid] <==> sy[l] in px[..mid]) ==>
              Min(Dist(q), Dist(r)) <= SqDist(sy[k], sy[l])
  {
    forall k, l | 0 <= k < l < |sy| && (sy[k] in px[..mid] <==> sy[l] in px[..mid])
      ensures Min(Dist(q), Dist(r)) <= SqDist(sy[k], sy[l])
    {
      assert sy[k] in sy && sy[l] in sy;
      SameHalfApart(px, mid, q, r, sy[k], sy[l]);
    }
  }

  /** With both halves solved optimally, the strip of the combine step has
      the shape the packing argument needs. */
  lemma StripShapeHolds(px: seq<Point>, py: seq<Point>, mid: int, q: PointPair, r: PointPair)
    requires ConsistentViews(px, py) && 0 < mid < |px|
    requires IsClosestPair(px[..mid], q) && IsClosestPair(px[mid..], r)
    ensures var delta2 := Min(Dist(q), Dist(r));
            var xStar := px[mid - 1].x;
            StripShape(Strip(py, xStar, delta2), xStar, delta2, px[..mid])
  {
    var sy := Strip(py, px[mid - 1].x, Min(Dist(q), Dist(r)));
    SubseqSorted(sy, py, ByY);
    SubseqDistinct(sy, py);
    StripSides(px, mid, sy);
    StripSpread(px, mid, q, r, sy);
  }

  /** Both points of a pair across the dividing line that is closer than
      delta are within delta of the line. */
  lemma CrossPairInStrip(px: seq<Point>, mid: int, delta2: int, i: int, j: int)
    requires SortedBy(px, ByX) && 0 <= i < mid <= j < |px|
    requires SqDist(px[i], px[j]) < delta2
    ensures InStrip(px[i], px[mid - 1].x, delta2) && InStrip(px[j], px[mid - 1].x, delta2)
  {
    var xStar := px[mid - 1].x;
    assert Key(px[i], ByX) <= Key(px[mid - 1], ByX) || i == mid - 1;
    assert Key(px[mid - 1], ByX) <= Key(px[j], ByX);
    SqMono(xStar - px[i].x, px[j].x - px[i].x);
    SqMono(px[j].x - xStar, px[j].x - px[i].x);
    SqNeg(xStar - px[i].x);
    SqNeg(px[i].x - px[j].x);
  }

  /** A pair across the dividing line that is closer than delta lies in the
      strip, within the lookahead, so the strip scan finds a pair at least as
      close. */
  lemma CrossPairSeen(px: seq<Point>, py: seq<Point>, mid: int, q: PointPair, r: PointPair, i: int, j: int)
    requires ConsistentViews(px, py) && 0 < mid < |px|
    requires IsClosestPair(px[..mid], q) && IsClosestPair(px[mid..], r)
    requires 0 <= i < mid <= j < |px|
    requires SqDist(px[i], px[j]) < Min(Dist(q), Dist(r))
    ensures var sy := Strip(py, px[mid - 1].x, Min(Dist(q), Dist(r)));
            var s := Scan(sy, StripReach);
            s.Some? && PairDist(sy, s.value) <= SqDist(px[i], px[j])
  {
    var delta2 := Min(Dist(q), Dist(r));
    var xStar := px[mid - 1].x;
    var sy := Strip(py, xStar, delta2);
    StripShapeHolds(px, py, mid, q, r);
    CrossPairInStrip(px, mid, delta2, i, j);
    assert px[i] in px && px[j] in px;
    assert px[i] in sy && px[j] in sy;
    CloseInStripSeen(sy, xStar, delta2, px[..mid], px[i], px[j]);
  }

  /** Two different points of a strip that are closer than delta sit within
      the lookahead of each other, so the strip scan finds a pair at least as
      close. */
  lemma CloseInStripSeen(sy: seq<Point>, xStar: int, delta2: int, qx: seq<Point>, u: Point, v: Point)
    requires StripShape(sy, xStar, delta2, qx)
    requires u in sy && v in sy && u != v && SqDist(u, v) < delta2
    ensures var s := Scan(sy, StripReach);
            s.Some? && PairDist(sy, s.value) <= SqDist(u, v)
  {
    var k :| 0 <= k < |sy| && sy[k] == u;
    var l :| 0 <= l < |sy| && sy[l] == v;
    var a, b := if k < l then k else l, if k < l then l else k;
    SqDistSymmetric(u, v);
    assert SqDist(sy[a], sy[b]) == SqDist(u, v);
    StripLookahead(sy, xStar, delta2, qx, a, b);
    assert InWindow(|sy|, StripReach, a, b);
  }

  /** The combine step keeps optimality: given closest pairs of both halves,
      it returns a closest pair of the whole. */
  lemma CombineOptimal(px: seq<Point>, py: seq<Point>, mid: int, q: PointPair, r: PointPair)
    requires ConsistentViews(px, py) && 0 < mid < |px|
    requires IsClosestPair(px[..mid], q) && IsClosestPair(px[mid..], r)
    ensures IsClosestPair(px, Combine(py, px[mid - 1].x, q, r))
  {
    CombineFromPx(px, py, mid, q, r);
    CombineMinimal(px, py, mid, q, r);
  }

  /** The combined pair is two different points of `px`. */
  lemma CombineFromPx(px: seq<Point>, py: seq<Point>, mid: int, q: PointPair, r: PointPair)
    requires ConsistentViews(px, py) && 0 < mid < |px|
    requires IsClosestPair(px[..mid], q) && IsClosestPair(px[mid..], r)
    ensures var res := Combine(py, px[mid - 1].x, q, r);
            res.0 in px && res.1 in px && res.0 != res.1
  {
    var delta2 := Min(Dist(q), Dist(r));
    var sy := Strip(py, px[mid - 1].x, delta2);
    var s := Scan(sy, StripReach);
    var res := Combine(py, px[mid - 1].x, q, r);
    var strip := if s.Some? then Some((sy[s.value.0], sy[s.value.1])) else None;
    assert res == Decide(strip, q, r);
    if res == q || res == r {
      InOneHalfBack(px, mid, res.0);
      InOneHalfBack(px, mid, res.1);
    } else {
      SubseqDistinct(sy, py);
      assert sy[s.value.0] in sy && sy[s.value.1] in sy;
    }
  }

  /** The combined pair is no farther apart than any two positions of `px`. */
  lemma CombineMinimal(px: seq<Point>, py: seq<Point>, mid: int, q: PointPair, r: PointPair)
    requires ConsistentViews(px, py) && 0 < mid < |px|
    requires IsClosestPair(px[..mid], q) && IsClosestPair(px[mid..], r)
    ensures var res := Combine(py, px[mid - 1].x, q, r);
            forall i, j :: 0 <= i < j < |px| ==> Dist(res) <= SqDist(px[i], px[j])
  {
    var delta2 := Min(Dist(q), Dist(r));
    var res := Combine(py, px[mid - 1].x, q, r);
    forall i, j | 0 <= i < j < |px|
      ensures Dist(res) <= SqDist(px[i], px[j])
    {
      if j < mid || mid <= i {
        WithinHalf(px, mid, q, r, i, j);
      } else if SqDist(px[i], px[j]) < delta2 {
        CrossPairSeen(px, py, mid, q, r, i, j);
      }
    }
  }

  /** A point of either part of `s` is a point of `s`. */
  lemma InOneHalfBack(s: seq<Point>, mid: int, u: Point)
    requires 0 <= mid <= |s| && (u in s[..mid] || u in s[mid..])
    ensures u in s
  {
    assert s == s[..mid] + s[mid..];
  }

  /** Two positions on the same side of the split are at least delta apart. */
  lemma WithinHalf(px: seq<Point>, mid: int, q: PointPair, r: PointPair, i: int, j: int)
    requires 0 < mid < |px| && IsClosestPair(px[..mid], q) && IsClosestPair(px[mid..], r)
    requires 0 <= i < j < |px| && (j < mid || mid <= i)
    ensures Min(Dist(q), Dist(r)) <= SqDist(px[i], px[j])
  {
    if j < mid {
      assert px[..mid][i] == px[i] && px[..mid][j] == px[j];
    } else {
      assert px[mid..][i - mid] == px[i] && px[mid..][j - mid] == px[j];
    }
  }
}
