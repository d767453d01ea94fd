/** Points of the plane and the (squared) Euclidean distance between them.

    The benchmark only ever builds points with integer coordinates, so a
    point is a pair of integers. The source compares `sqrt(dx^2 + dy^2)`;
    since the square root is monotone, comparing the squared distances gives
    the same answer to every `<` the algorithms ask, so the model never takes
    a square root. */
module Geometry {

  datatype Point = Point(x: int, y: int)

  function Sq(a: int): int
  {
    a * a
  }

  /** The squared Euclidean distance; the source's `distance` is its square root. */
  function SqDist(p: Point, q: Point): (d: int)
    ensures d >= 0
    ensures d >= Sq(p.x - q.x) && d >= Sq(p.y - q.y)
    ensures d == 0 <==> p == q
  {
    SqNonNeg(p.x - q.x);
    SqNonNeg(p.y - q.y);
    SqZero(p.x - q.x);
    SqZero(p.y - q.y);
    Sq(p.x - q.x) + Sq(p.y - q.y)
  }

  /** Distance does not depend on the order of its arguments. */
  lemma SqDistSymmetric(p: Point, q: Point)
    ensures SqDist(p, q) == SqDist(q, p)
  {
    SqNeg(p.x - q.x);
    SqNeg(p.y - q.y);
  }

  lemma SqNonNeg(a: int)
    ensures Sq(a) >= 0
  {
    if a < 0 {
      SqNeg(a);
      SqMono(0, -a);
    } else {
      SqMono(0, a);
    }
  }

  lemma SqZero(a: int)
    ensures Sq(a) == 0 <==> a == 0
  {
    if a > 0 {
      SqMono(1, a);
    } else if a < 0 {
      SqNeg(a);
      SqMono(1, -a);
    }
  }

  lemma SqNeg(a: int)
    ensures Sq(-a) == Sq(a)
  {
  }

  /** Squaring is monotone on the non-negative integers. */
  lemma SqMono(a: int, b: int)
    requires 0 <= a <= b
    ensures Sq(a) <= Sq(b)
  {
    assert a * a <= a * b by {
      MulLeMono(a, a, b);
    }
    assert a * b <= b * b by {
      MulLeMono(b, a, b);
    }
  }

  lemma MulLeMono(k: int, a: int, b: int)
    requires 0 <= k && a <= b
    ensures k * a <= k * b
  {
    assert k * b - k * a == k * (b - a);
  }

  /** The converse of `SqMono`: a smaller square means a smaller base. */
  lemma SqLtBase(a: int, b: int)
    requires 0 <= a && 0 <= b && Sq(a) < Sq(b)
    ensures a < b
  {
    if b <= a {
      SqMono(b, a);
    }
  }
}
