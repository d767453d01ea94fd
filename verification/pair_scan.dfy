/** The "keep the first strictly smaller pair" nested scan.

    The same double loop appears three times in the source: the brute-force
    routine (every pair `i < j`), the base case of the recursion (every pair
    of at most three points) and the strip scan (each point against at most
    15 successors). All three are this scan with a different `reach`, the
    largest `j - i` the inner loop visits. */
module PairScan {
  import opened Geometry
  import opened Outcomes

  /** A pair of positions `(i, j)` into a sequence of points. */
  type Pair = (nat, nat)

  /** `(i, j)` is a pair the scan with the given reach compares. */
  predicate InWindow(n: int, reach: int, i: int, j: int)
  {
    0 <= i < j < n && j - i <= reach
  }

  /** `(i, j)` comes before the cursor `(ci, cj)` in the lexicographic scan order. */
  predicate ScannedBefore(i: int, j: int, ci: int, cj: int)
  {
    i < ci || (i == ci && j < cj)
  }

  /** Exclusive end of the inner loop of row `i`: `min(i + reach + 1, n)`. */
  function RowEnd(n: nat, reach: nat, i: nat): nat
  {
    if i + reach + 1 < n then i + reach + 1 else n
  }

  function PairDist(s: seq<Point>, p: Pair): int
    requires p.0 < |s| && p.1 < |s|
  {
    SqDist(s[p.0], s[p.1])
  }

  /** `p` is a window pair of minimum distance, and every window pair before
      it in scan order is strictly farther apart: the pair a scan that only
      replaces its candidate on a strictly smaller distance ends with. */
  ghost predicate IsFirstClosest(s: seq<Point>, reach: nat, p: Pair)
  {
    && InWindow(|s|, reach, p.0, p.1)
    && (forall i, j :: InWindow(|s|, reach, i, j) ==> PairDist(s, p) <= SqDist(s[i], s[j]))
    && (forall i, j :: InWindow(|s|, reach, i, j) && ScannedBefore(i, j, p.0, p.1) ==>
          PairDist(s, p) < SqDist(s[i], s[j]))
  }

  /** The loop invariant of the scan: `best` is the first closest pair among
      the window pairs scanned before the cursor `(ci, cj)`, and `None`
      (the source's infinite `d_min`) exactly when no pair was scanned yet. */
  ghost predicate BestSoFar(s: seq<Point>, reach: nat, best: Option<Pair>, ci: int, cj: int)
  {
    match best
    case None =>
      forall i, j :: InWindow(|s|, reach, i, j) ==> !ScannedBefore(i, j, ci, cj)
    case Some(p) =>
      && InWindow(|s|, reach, p.0, p.1)
      && ScannedBefore(p.0, p.1, ci, cj)
      && (forall i, j :: InWindow(|s|, reach, i, j) && ScannedBefore(i, j, ci, cj) ==>
            PairDist(s, p) <= SqDist(s[i], s[j]))
      && (forall i, j :: InWindow(|s|, reach, i, j) && ScannedBefore(i, j, p.0, p.1) ==>
            PairDist(s, p) < SqDist(s[i], s[j]))
  }

  /** One step of the inner loop: replace the candidate only on a strictly
      smaller distance. */
  function Improve(s: seq<Point>, best: Option<Pair>, i: nat, j: nat): Option<Pair>
    requires i < |s| && j < |s|
    requires best.Some? ==> best.value.0 < |s| && best.value.1 < |s|
  {
    if best.None? || SqDist(s[i], s[j]) < PairDist(s, best.value) then Some((i, j)) else best
  }

  /** Comparing the pair under the cursor and moving the cursor one step
      keeps the invariant. */
  lemma ImproveStep(s: seq<Point>, reach: nat, best: Option<Pair>, i: nat, j: nat)
    requires InWindow(|s|, reach, i, j)
    requires BestSoFar(s, reach, best, i, j)
    ensures best.Some? ==> best.value.0 < |s| && best.value.1 < |s|
    ensures BestSoFar(s, reach, Improve(s, best, i, j), i, j + 1)
  {
    var nb := Improve(s, best, i, j);
    match best
    case None =>
      assert nb == Some((i, j));
      forall a, b | InWindow(|s|, reach, a, b) && ScannedBefore(a, b, i, j + 1)
        ensures a == i && b == j
      {
        assert !ScannedBefore(a, b, i, j);
      }
    case Some(p) =>
      if SqDist(s[i], s[j]) < PairDist(s, p) {
        assert nb == Some((i, j));
        forall a, b | InWindow(|s|, reach, a, b) && ScannedBefore(a, b, i, j + 1)
          ensures SqDist(s[i], s[j]) <= SqDist(s[a], s[b])
        {
          if ScannedBefore(a, b, i, j) {
            assert PairDist(s, p) <= SqDist(s[a], s[b]);
          }
        }
        forall a, b | InWindow(|s|, reach, a, b) && ScannedBefore(a, b, i, j)
          ensures SqDist(s[i], s[j]) < SqDist(s[a], s[b])
        {
          assert PairDist(s, p) <= SqDist(s[a], s[b]);
        }
      } else {
        assert nb == best;
      }
  }

  /** Two cursors that have passed over the same window pairs carry the same
      invariant. */
  lemma CursorMove(s: seq<Point>, reach: nat, best: Option<Pair>, ci: int, cj: int, ci': int, cj': int)
    requires forall i, j :: InWindow(|s|, reach, i, j) ==>
               (ScannedBefore(i, j, ci, cj) <==> ScannedBefore(i, j, ci', cj'))
    requires BestSoFar(s, reach, best, ci, cj)
    ensures BestSoFar(s, reach, best, ci', cj')
  {
  }

  /** The inner loop over row `i`, from `j` to the row end. */
  function ScanRow(s: seq<Point>, reach: nat, i: nat, j: nat, best: Option<Pair>): (r: Option<Pair>)
    requires i < |s| && i < j
    requires BestSoFar(s, reach, best, i, j)
    ensures BestSoFar(s, reach, r, i + 1, 0)
    decreases |s| - j
  {
    if j >= RowEnd(|s|, reach, i) then
      CursorMove(s, reach, best, i, j, i + 1, 0);
      best
    else
      ImproveStep(s, reach, best, i, j);
      ScanRow(s, reach, i, j + 1, Improve(s, best, i, j))
  }

  /** The outer loop, from row `i` to the last row. */
  function ScanRows(s: seq<Point>, reach: nat, i: nat, best: Option<Pair>): (r: Option<Pair>)
    requires BestSoFar(s, reach, best, i, 0)
    ensures r.None? <==> forall a, b :: !InWindow(|s|, reach, a, b)
    ensures r.Some? ==> IsFirstClosest(s, reach, r.value)
    decreases |s| - i
  {
    if i >= |s| then
      best
    else
      CursorMove(s, reach, best, i, 0, i, i + 1);
      ScanRows(s, reach, i + 1, ScanRow(s, reach, i, i + 1, best))
  }

  /** The whole scan: `None` exactly when no pair lies in the window,
      otherwise the first closest window pair in scan order. */
  function Scan(s: seq<Point>, reach: nat): (r: Option<Pair>)
    ensures r.None? <==> |s| < 2 || reach == 0
    ensures r.Some? ==> IsFirstClosest(s, reach, r.value)
  {
    assert |s| >= 2 && reach >= 1 ==> InWindow(|s|, reach, 0, 1);
    ScanRows(s, reach, 0, None)
  }

  /** The scan order breaks every tie, so the first closest pair is unique. */
  lemma FirstClosestUnique(s: seq<Point>, reach: nat, p: Pair, q: Pair)
    requires IsFirstClosest(s, reach, p) && IsFirstClosest(s, reach, q)
    ensures p == q
  {
  }
}
