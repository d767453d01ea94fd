/** The packing argument behind the strip scan's fixed lookahead.

    Let `delta2` be the square of delta, the smaller of the two halves'
    closest distances, and let the strip hold the points within delta of the
    dividing line `x = xStar`, sorted by y. If two strip points `sy[i]` and
    `sy[j]` (`i < j`) are closer than delta, every strip point between them
    lies in a 2delta-by-delta box. Cut each side of the box into four cells
    of side delta/2: two points on the same side of the line are at least
    delta apart, and two points in one cell are closer than that, so each
    cell holds at most one point. Hence at most 8 points, and `j - i <= 7`:
    the source's lookahead of 15 is more than enough. */
module Packing {
  import opened Geometry
  import opened Views

  /** 0 when the offset `a` (with `0 <= a < delta`) is below delta/2, 1 otherwise. */
  function Half(a: int, delta2: int): int
  {
    if Sq(2 * a) < delta2 then 0 else 1
  }

  /** The cell of a strip point in the box whose bottom edge is `y = y0`:
      side of the line, column and row. */
  function Cell(p: Point, xStar: int, y0: int, delta2: int, left: bool): int
  {
    var u := if left then xStar - p.x else p.x - xStar;
    (if left then 0 else 4) + 2 * Half(u, delta2) + Half(p.y - y0, delta2)
  }

  /** What the strip of one level of the recursion satisfies: sorted by y,
      every point within delta of the line, points of the left half `qx` on
      or left of the line and the others on or right of it, and two points on
      the same side at least delta apart. */
  ghost predicate StripShape(sy: seq<Point>, xStar: int, delta2: int, qx: seq<Point>)
  {
    && SortedBy(sy, ByY)
    && (forall k :: 0 <= k < |sy| ==> InStrip(sy[k], xStar, delta2))
    && (forall k :: 0 <= k < |sy| ==> if sy[k] in qx then sy[k].x <= xStar else xStar <= sy[k].x)
    && (forall k, l :: 0 <= k < l < |sy| && (sy[k] in qx <==> sy[l] in qx) ==>
          delta2 <= SqDist(sy[k], sy[l]))
  }

  lemma Sq2(a: int)
    ensures Sq(2 * a) == 4 * Sq(a)
  {
  }

  /** Two offsets in `[0, delta)` that fall in the same half are less than
      delta/2 apart. */
  lemma SameHalfClose(a: int, b: int, delta2: int)
    requires 0 <= a && 0 <= b && Sq(a) < delta2 && Sq(b) < delta2
    requires Half(a, delta2) == Half(b, delta2)
    ensures Sq(2 * (a - b)) < delta2
  {
    if a < b {
      SameHalfCloseOrdered(b, a, delta2);
      SqNeg(2 * (b - a));
      assert 2 * (a - b) == -(2 * (b - a));
    } else {
      SameHalfCloseOrdered(a, b, delta2);
    }
  }

  lemma SameHalfCloseOrdered(a: int, b: int, delta2: int)
    requires 0 <= b <= a && Sq(a) < delta2 && Sq(b) < delta2
    requires Half(a, delta2) == Half(b, delta2)
    ensures Sq(2 * (a - b)) < delta2
  {
    if Half(a, delta2) == 0 {
      SqMono(2 * (a - b), 2 * a);
    } else {
      SqLtBase(a, 2 * b);
      SqMono(2 * (a - b), a);
    }
  }

  /** Two points of one side in the same cell are closer than delta/sqrt(2). */
  lemma SameCellClose(p: Point, q: Point, xStar: int, y0: int, delta2: int, left: bool)
    requires if left then p.x <= xStar && q.x <= xStar else xStar <= p.x && xStar <= q.x
    requires InStrip(p, xStar, delta2) && InStrip(q, xStar, delta2)
    requires y0 <= p.y && Sq(p.y - y0) < delta2
    requires y0 <= q.y && Sq(q.y - y0) < delta2
    requires Cell(p, xStar, y0, delta2, left) == Cell(q, xStar, y0, delta2, left)
    ensures 2 * SqDist(p, q) < delta2
  {
    var up := if left then xStar - p.x else p.x - xStar;
    var uq := if left then xStar - q.x else q.x - xStar;
    SqNeg(p.x - xStar);
    SqNeg(q.x - xStar);
    assert Sq(up) < delta2 && Sq(uq) < delta2;
    assert Half(up, delta2) == Half(uq, delta2);
    assert Half(p.y - y0, delta2) == Half(q.y - y0, delta2);
    SameHalfClose(up, uq, delta2);
    SameHalfClose(p.y - y0, q.y - y0, delta2);
    Sq2(up - uq);
    Sq2(p.y - y0 - (q.y - y0));
    SqNeg(p.x - q.x);
    assert Sq(p.x - q.x) == Sq(up - uq);
  }

  /** Pigeonhole: a set of integers in `[0, k)` has at most `k` elements. */
  lemma {:induction false} SetBelow(cs: set<int>, k: nat)
    requires forall c :: c in cs ==> 0 <= c < k
    ensures |cs| <= k
    decreases k
  {
    if k == 0 {
      assert forall c :: c !in cs;
      assert cs == {};
    } else {
      SetBelow(cs - {k - 1}, k - 1);
    }
  }

  /** A duplicate-free sequence has as many distinct elements as positions. */
  lemma {:induction false} DistinctElems(cs: seq<int>)
    requires forall k, l :: 0 <= k < l < |cs| ==> cs[k] != cs[l]
    ensures |set c | c in cs| == |cs|
  {
    if |cs| > 0 {
      var init := cs[..|cs| - 1];
      DistinctElems(init);
      assert (set c | c in cs) == (set c | c in init) + {cs[|cs| - 1]};
      assert cs[|cs| - 1] !in init;
    }
  }

  /** Two different positions of the box `sy[i..j+1]` never share a cell. */
  lemma CellsDiffer(sy: seq<Point>, xStar: int, delta2: int, qx: seq<Point>, y0: int, m1: int, m2: int)
    requires StripShape(sy, xStar, delta2, qx)
    requires 0 <= m1 < m2 < |sy|
    requires y0 <= sy[m1].y && Sq(sy[m1].y - y0) < delta2
    requires y0 <= sy[m2].y && Sq(sy[m2].y - y0) < delta2
    ensures BoxCell(sy, xStar, y0, delta2, qx, m1) != BoxCell(sy, xStar, y0, delta2, qx, m2)
  {
    var p, q := sy[m1], sy[m2];
    if Cell(p, xStar, y0, delta2, p in qx) == Cell(q, xStar, y0, delta2, q in qx) {
      assert (p in qx) == (q in qx);
      assert InStrip(p, xStar, delta2) && InStrip(q, xStar, delta2);
      SameCellClose(p, q, xStar, y0, delta2, p in qx);
      SqNonNeg(p.x - xStar);
      assert false;
    }
  }

  /** Every strip point between positions `i` and `j` lies less than
      `sy[j].y - sy[i].y` above `sy[i]`. */
  lemma BoxHeight(sy: seq<Point>, i: int, j: int, m: int, delta2: int)
    requires SortedBy(sy, ByY)
    requires 0 <= i <= m <= j < |sy| && Sq(sy[j].y - sy[i].y) < delta2
    ensures sy[i].y <= sy[m].y && Sq(sy[m].y - sy[i].y) < delta2
  {
    assert Key(sy[i], ByY) <= Key(sy[m], ByY) <= Key(sy[j], ByY);
    SqMono(sy[m].y - sy[i].y, sy[j].y - sy[i].y);
  }

  /** A duplicate-free sequence of integers in `[0, k)` has at most `k` elements. */
  lemma Pigeonhole(cs: seq<int>, k: nat)
    requires forall m :: 0 <= m < |cs| ==> 0 <= cs[m] < k
    requires forall m, l :: 0 <= m < l < |cs| ==> cs[m] != cs[l]
    ensures |cs| <= k
  {
    DistinctElems(cs);
    SetBelow((set c | c in cs), k);
  }

  /** The cell of the strip point at position `m`. */
  function BoxCell(sy: seq<Point>, xStar: int, y0: int, delta2: int, qx: seq<Point>, m: int): (c: int)
    requires 0 <= m < |sy|
    ensures 0 <= c < 8
  {
    Cell(sy[m], xStar, y0, delta2, sy[m] in qx)
  }

  /** The cells of the strip points at positions `lo` up to `hi`, exclusive. */
  function BoxCells(sy: seq<Point>, xStar: int, y0: int, delta2: int, qx: seq<Point>, lo: int, hi: int): (cs: seq<int>)
    requires 0 <= lo <= hi <= |sy|
    ensures |cs| == hi - lo
    ensures forall k :: 0 <= k < |cs| ==> cs[k] == BoxCell(sy, xStar, y0, delta2, qx, lo + k)
    decreases hi - lo
  {
    if lo == hi then [] else [BoxCell(sy, xStar, y0, delta2, qx, lo)] + BoxCells(sy, xStar, y0, delta2, qx, lo + 1, hi)
  }

  /** The lookahead bound: two strip points closer than delta are at most 7
      positions apart in y order. */
  lemma StripLookahead(sy: seq<Point>, xStar: int, delta2: int, qx: seq<Point>, i: int, j: int)
    requires StripShape(sy, xStar, delta2, qx)
    requires 0 <= i < j < |sy| && SqDist(sy[i], sy[j]) < delta2
    ensures j - i <= 7
  {
    SqNeg(sy[i].y - sy[j].y);
    assert Sq(sy[j].y - sy[i].y) < delta2;
    var cs := BoxCells(sy, xStar, sy[i].y, delta2, qx, i, j + 1);
    forall k, l | 0 <= k < l < |cs|
      ensures cs[k] != cs[l]
    {
      CellsDifferInBox(sy, xStar, delta2, qx, i, j, i + k, i + l);
    }
    Pigeonhole(cs, 8);
  }

  lemma CellsDifferInBox(sy: seq<Point>, xStar: int, delta2: int, qx: seq<Point>, i: int, j: int, m1: int, m2: int)
    requires StripShape(sy, xStar, delta2, qx)
    requires 0 <= i <= m1 < m2 <= j < |sy| && Sq(sy[j].y - sy[i].y) < delta2
    ensures BoxCell(sy, xStar, sy[i].y, delta2, qx, m1) != BoxCell(sy, xStar, sy[i].y, delta2, qx, m2)
  {
    BoxHeight(sy, i, j, m1, delta2);
    BoxHeight(sy, i, j, m2, delta2);
    CellsDiffer(sy, xStar, delta2, qx, sy[i].y, m1, m2);
  }
}
