/** The inputs and expected answers of the repository's unit tests, as
    lemmas about the model and as calls of the brute-force method. */
module Examples {
  import opened Geometry
  import opened Outcomes
  import opened PairScan
  import opened Views
  import opened BruteForce
  import opened DivideAndConquer
  import opened Correctness

  /** `[(0,0), (10,10), (0,1)]`: the closest pair is indices 0 and 2. */
  function Three(): seq<Point>
  {
    [Point(0, 0), Point(10, 10), Point(0, 1)]
  }

  /** The six-point test input; its unique closest pair is indices 0 and 1
      (squared distance 5), not the pair 2-4 (squared distance 8). */
  function Six(): seq<Point>
  {
    [Point(1, 2), Point(3, 3), Point(2, 8), Point(8, 1), Point(4, 6), Point(7, 5)]
  }

  /** The brute-force routine (and the base-case scan) answers `Some((0, 2))`.
      (The input is a parameter so that the verifier does not evaluate the
      scan on the literal.) */
  lemma BruteForceThree(s: seq<Point>)
    requires s == Three()
    ensures Scan(s, |s|) == Some((0, 2))
  {
    assert SqDist(s[0], s[1]) == 200 && SqDist(s[0], s[2]) == 1 && SqDist(s[1], s[2]) == 181;
    forall i, j | InWindow(3, 3, i, j)
      ensures SqDist(s[0], s[2]) <= SqDist(s[i], s[j])
      ensures ScannedBefore(i, j, 0, 2) ==> SqDist(s[0], s[2]) < SqDist(s[i], s[j])
    {
      assert (i, j) == (0, 1) || (i, j) == (0, 2) || (i, j) == (1, 2);
    }
    assert IsFirstClosest(s, 3, (0, 2));
    FirstClosestUnique(s, 3, (0, 2), Scan(s, 3).value);
  }

  /** The brute-force routine answers `Some((0, 1))` on the six points. */
  lemma BruteForceSix(s: seq<Point>)
    requires s == Six()
    ensures Scan(s, |s|) == Some((0, 1))
  {
    forall i, j | InWindow(6, 6, i, j)
      ensures SqDist(s[0], s[1]) <= SqDist(s[i], s[j])
    {
      assert 0 <= i < j < 6;
    }
    assert IsFirstClosest(s, 6, (0, 1));
    FirstClosestUnique(s, 6, (0, 1), Scan(s, 6).value);
  }

  /** The brute-force method returns the test's answer on `Three()`. */
  method BruteForceRunThree(s: seq<Point>) returns (r: Option<Pair>)
    requires s == Three()
    ensures r == Some((0, 2))
  {
    r := BruteForceClosestPoints(s);
    BruteForceThree(s);
    FirstClosestUnique(s, |s|, r.value, (0, 2));
  }

  /** The brute-force method returns the test's answer on `Six()`. */
  method BruteForceRunSix(s: seq<Point>) returns (r: Option<Pair>)
    requires s == Six()
    ensures r == Some((0, 1))
  {
    r := BruteForceClosestPoints(s);
    BruteForceSix(s);
    FirstClosestUnique(s, |s|, r.value, (0, 1));
  }

  /** The divide-and-conquer routine answers the index set {0, 2}. (The input
      is a parameter so that the verifier does not evaluate the presort.) */
  lemma DivideAndConquerThree(s: seq<Point>)
    requires s == Three()
    ensures ClosestPair(s).Success?
    ensures var (a, b) := ClosestPair(s).value; {a, b} == {0, 2}
  {
    assert Distinct(s);
    UniqueClosestFound(s, 0, 2);
  }

  /** The divide-and-conquer routine answers the index set {0, 1} on the six points. */
  lemma DivideAndConquerSix(s: seq<Point>)
    requires s == Six()
    ensures ClosestPair(s).Success?
    ensures var (a, b) := ClosestPair(s).value; {a, b} == {0, 1}
  {
    assert Distinct(s);
    forall i, j | 0 <= i < j < 6 && (i != 0 || j != 1)
      ensures SqDist(s[0], s[1]) < SqDist(s[i], s[j])
    {
    }
    UniqueClosestFound(s, 0, 1);
  }
}
