/** The sorted views the divide-and-conquer recursion works on, and the
    order-preserving filters that build the sub-views: the partition of the
    y-sorted view by membership in the left half, and the strip around the
    dividing line; and the invariant the recursion keeps on its two views. */
module Views {
  import opened Geometry

  datatype Axis = ByX | ByY

  function Key(p: Point, axis: Axis): int
  {
    match axis
    case ByX => p.x
    case ByY => p.y
  }

  ghost predicate SortedBy(s: seq<Point>, axis: Axis)
  {
    forall i, j :: 0 <= i < j < |s| ==> Key(s[i], axis) <= Key(s[j], axis)
  }

  /** No point occurs twice. */
  ghost predicate Distinct(s: seq<Point>)
  {
    forall i, j :: 0 <= i < j < |s| ==> s[i] != s[j]
  }

  /** `a` is `b` with some elements left out, the rest kept in order. */
  ghost predicate IsSubseq(a: seq<Point>, b: seq<Point>)
    decreases |b|
  {
    if |b| == 0 then |a| == 0
    else (|a| > 0 && a[0] == b[0] && IsSubseq(a[1..], b[1..])) || IsSubseq(a, b[1..])
  }

  lemma {:induction false} SubseqMultiset(a: seq<Point>, b: seq<Point>)
    requires IsSubseq(a, b)
    ensures multiset(a) <= multiset(b)
    decreases |b|
  {
    if |b| > 0 {
      assert b == [b[0]] + b[1..];
      if |a| > 0 && a[0] == b[0] && IsSubseq(a[1..], b[1..]) {
        SubseqMultiset(a[1..], b[1..]);
        assert a == [a[0]] + a[1..];
      } else {
        SubseqMultiset(a, b[1..]);
      }
    }
  }

  lemma SubseqElems(a: seq<Point>, b: seq<Point>)
    requires IsSubseq(a, b)
    ensures forall p :: p in a ==> p in b
  {
    SubseqMultiset(a, b);
    forall p | p in a
      ensures p in b
    {
      assert p in multiset(a);
    }
  }

  /** An order-preserving subsequence of a sorted sequence is sorted. */
  lemma {:induction false} SubseqSorted(a: seq<Point>, b: seq<Point>, axis: Axis)
    requires IsSubseq(a, b) && SortedBy(b, axis)
    ensures SortedBy(a, axis)
    decreases |b|
  {
    if |b| > 0 {
      if |a| > 0 && a[0] == b[0] && IsSubseq(a[1..], b[1..]) {
        SubseqSorted(a[1..], b[1..], axis);
        SubseqElems(a[1..], b[1..]);
        forall k | 0 < k < |a|
          ensures Key(a[0], axis) <= Key(a[k], axis)
        {
          assert a[k] == a[1..][k - 1];
          assert a[k] in a[1..];
          assert a[k] in b[1..];
          var m :| 0 <= m < |b[1..]| && b[1..][m] == a[k];
          assert b[m + 1] == a[k];
        }
      } else {
        SubseqSorted(a, b[1..], axis);
      }
    }
  }

  /** An order-preserving subsequence of a duplicate-free sequence is duplicate-free. */
  lemma {:induction false} SubseqDistinct(a: seq<Point>, b: seq<Point>)
    requires IsSubseq(a, b) && Distinct(b)
    ensures Distinct(a)
    decreases |b|
  {
    if |b| > 0 {
      if |a| > 0 && a[0] == b[0] && IsSubseq(a[1..], b[1..]) {
        SubseqDistinct(a[1..], b[1..]);
        SubseqElems(a[1..], b[1..]);
        forall k | 0 < k < |a|
          ensures a[0] != a[k]
        {
          assert a[k] == a[1..][k - 1];
          assert a[k] in a[1..];
          assert a[k] in b[1..];
          var m :| 0 <= m < |b[1..]| && b[1..][m] == a[k];
          assert b[m + 1] == a[k];
        }
      } else {
        SubseqDistinct(a, b[1..]);
      }
    }
  }

  /** Inserts `p` into a sorted sequence, keeping it sorted. */
  function Insert(p: Point, s: seq<Point>, axis: Axis): (r: seq<Point>)
    requires SortedBy(s, axis)
    ensures SortedBy(r, axis)
    ensures multiset(r) == multiset(s) + multiset{p}
  {
    if |s| == 0 then
      [p]
    else if Key(p, axis) <= Key(s[0], axis) then
      [p] + s
    else
      var rest := Insert(p, s[1..], axis);
      assert s == [s[0]] + s[1..];
      InsertHead(p, s, axis, rest);
      [s[0]] + rest
  }

  lemma InsertHead(p: Point, s: seq<Point>, axis: Axis, rest: seq<Point>)
    requires |s| > 0 && SortedBy(s, axis) && Key(s[0], axis) < Key(p, axis)
    requires SortedBy(rest, axis) && multiset(rest) == multiset(s[1..]) + multiset{p}
    ensures SortedBy([s[0]] + rest, axis)
  {
    forall k | 0 <= k < |rest|
      ensures Key(s[0], axis) <= Key(rest[k], axis)
    {
      assert rest[k] in multiset(rest);
      if rest[k] != p {
        assert rest[k] in multiset(s[1..]);
        var m :| 0 <= m < |s[1..]| && s[1..][m] == rest[k];
        assert s[m + 1] == rest[k];
      }
    }
    var r := [s[0]] + rest;
    forall i, j | 0 <= i < j < |r|
      ensures Key(r[i], axis) <= Key(r[j], axis)
    {
      if i == 0 {
        assert r[j] == rest[j - 1];
      } else {
        assert r[i] == rest[i - 1] && r[j] == rest[j - 1];
      }
    }
  }

  /** A permutation of `s` sorted ascending by the given coordinate: the
      result the library sort of the source promises (its stability is not
      modelled; the proofs only use this contract). */
  function Sort(s: seq<Point>, axis: Axis): (r: seq<Point>)
    ensures SortedBy(r, axis)
    ensures multiset(r) == multiset(s)
  {
    if |s| == 0 then
      []
    else
      assert s == [s[0]] + s[1..];
      Insert(s[0], Sort(s[1..], axis), axis)
  }

  /** Splits the y-sorted view in one pass: points that belong to the left
      half `qx` go to the first result, the others to the second, each in
      the order of `py`. */
  function Partition(py: seq<Point>, qx: seq<Point>): (r: (seq<Point>, seq<Point>))
    ensures IsSubseq(r.0, py) && IsSubseq(r.1, py)
    ensures multiset(r.0) + multiset(r.1) == multiset(py)
    ensures forall p :: p in r.0 <==> p in py && p in qx
    ensures forall p :: p in r.1 <==> p in py && p !in qx
  {
    if |py| == 0 then
      ([], [])
    else
      var rest := Partition(py[1..], qx);
      assert py == [py[0]] + py[1..];
      if py[0] in qx then
        var left := [py[0]] + rest.0;
        assert left[1..] == rest.0;
        (left, rest.1)
      else
        var right := [py[0]] + rest.1;
        assert right[1..] == rest.1;
        (rest.0, right)
  }

  /** `|p.x - xStar| < delta` on squared distances: `delta2` is the square of
      the source's `delta`. */
  predicate InStrip(p: Point, xStar: int, delta2: int)
  {
    Sq(p.x - xStar) < delta2
  }

  /** The points of the y-sorted view that lie strictly within `delta` of the
      dividing line, in y order. */
  function Strip(py: seq<Point>, xStar: int, delta2: int): (r: seq<Point>)
    ensures IsSubseq(r, py)
    ensures forall p :: p in r <==> p in py && InStrip(p, xStar, delta2)
    ensures forall p :: multiset(r)[p] == if InStrip(p, xStar, delta2) then multiset(py)[p] else 0
  {
    if |py| == 0 then
      []
    else
      var rest := Strip(py[1..], xStar, delta2);
      assert py == [py[0]] + py[1..];
      if InStrip(py[0], xStar, delta2) then
        var r := [py[0]] + rest;
        assert r[1..] == rest;
        r
      else
        rest
  }

  /** Two different positions of `s` hold (possibly equal) points of `s`:
      together they form a sub-multiset of `s`. */
  lemma TwoPositions(s: seq<Point>, a: int, b: int)
    requires 0 <= a < |s| && 0 <= b < |s| && a != b
    ensures multiset{s[a], s[b]} <= multiset(s)
  {
    var lo, hi := if a < b then a else b, if a < b then b else a;
    assert s == s[..hi] + s[hi..];
    assert s[..hi][lo] == s[lo] && s[hi..][0] == s[hi];
    assert multiset(s) == multiset(s[..hi]) + multiset(s[hi..]);
    assert multiset{s[a], s[b]} == multiset{s[lo]} + multiset{s[hi]};
  }

  /** A point that occurs at a single position is counted once. */
  lemma OnlyOccurrence(s: seq<Point>, k: int)
    requires 0 <= k < |s|
    requires forall i :: 0 <= i < |s| && i != k ==> s[i] != s[k]
    ensures multiset(s)[s[k]] == 1
  {
    assert s == s[..k] + [s[k]] + s[k + 1..];
    assert s[k] !in s[..k];
    assert s[k] !in s[k + 1..];
  }

  /** A permutation of a duplicate-free sequence is duplicate-free. */
  lemma DistinctPermutation(a: seq<Point>, b: seq<Point>)
    requires multiset(a) == multiset(b) && Distinct(a)
    ensures Distinct(b)
  {
    forall i, j | 0 <= i < j < |b|
      ensures b[i] != b[j]
    {
      if b[i] == b[j] {
        TwoPositions(b, i, j);
        assert b[i] in multiset(a);
        var k :| 0 <= k < |a| && a[k] == b[i];
        OnlyOccurrence(a, k);
        assert false;
      }
    }
  }

  /** Two duplicate-free sequences with the same points are permutations of
      each other. */
  lemma SamePointsPermutation(a: seq<Point>, b: seq<Point>)
    requires Distinct(a) && Distinct(b)
    requires forall p :: p in a <==> p in b
    ensures multiset(a) == multiset(b)
  {
    forall p
      ensures multiset(a)[p] == multiset(b)[p]
    {
      if p in a {
        var k :| 0 <= k < |a| && a[k] == p;
        var l :| 0 <= l < |b| && b[l] == p;
        OnlyOccurrence(a, k);
        OnlyOccurrence(b, l);
      }
    }
  }

  /** The invariant of a recursive call: `px` sorted by x, `py` sorted by y,
      both free of duplicates and holding the same points. */
  ghost predicate ConsistentViews(px: seq<Point>, py: seq<Point>)
  {
    && SortedBy(px, ByX)
    && SortedBy(py, ByY)
    && Distinct(px)
    && Distinct(py)
    && (forall p :: p in px <==> p in py)
  }

  /** Splitting `px` by count and `py` by membership in the left half gives
      two pairs of consistent views. */
  lemma PartitionKeepsViews(px: seq<Point>, py: seq<Point>, mid: int)
    requires ConsistentViews(px, py) && 0 < mid < |px|
    ensures ConsistentViews(px[..mid], Partition(py, px[..mid]).0)
    ensures ConsistentViews(px[mid..], Partition(py, px[..mid]).1)
  {
    var qx, rx := px[..mid], px[mid..];
    var ys := Partition(py, qx);
    SubseqSorted(ys.0, py, ByY);
    SubseqSorted(ys.1, py, ByY);
    SubseqDistinct(ys.0, py);
    SubseqDistinct(ys.1, py);
    assert px == qx + rx;
    forall p
      ensures p in rx <==> p in ys.1
    {
      if p in rx {
        var j :| 0 <= j < |rx| && rx[j] == p;
        assert px[mid + j] == p;
      }
    }
  }

  /** When points are distinct, the y-halves are permutations of the x-halves. */
  lemma PartitionIsPermutation(px: seq<Point>, py: seq<Point>, mid: int)
    requires ConsistentViews(px, py) && 0 < mid < |px|
    ensures multiset(Partition(py, px[..mid]).0) == multiset(px[..mid])
    ensures multiset(Partition(py, px[..mid]).1) == multiset(px[mid..])
  {
    PartitionKeepsViews(px, py, mid);
    var ys := Partition(py, px[..mid]);
    SamePointsPermutation(px[..mid], ys.0);
    SamePointsPermutation(px[mid..], ys.1);
  }

  /** The presorted views of a duplicate-free input are consistent. */
  lemma PresortConsistent(points: seq<Point>, px: seq<Point>, py: seq<Point>)
    requires Distinct(points)
    requires multiset(px) == multiset(points) && SortedBy(px, ByX)
    requires multiset(py) == multiset(points) && SortedBy(py, ByY)
    ensures ConsistentViews(px, py)
  {
    DistinctPermutation(points, px);
    DistinctPermutation(points, py);
    forall p
      ensures p in px <==> p in py
    {
      assert p in px <==> p in multiset(px);
      assert p in py <==> p in multiset(py);
    }
  }
}
