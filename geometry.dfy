/**
 Points of the plane and the orientation predicate of the monotone-chain
 convex hull. Coordinates are unbounded integers, as Python's ints are.
 */
module Geometry {

  /** A point (x, y); Python represents it as the tuple (x, y). */
  datatype Point = Point(x: int, y: int)

  /**
   The z-component of the cross product (q - p) x (r - p):
   positive when p -> q -> r turns left (counter-clockwise), negative when it
   turns right, zero when the three points are collinear.
   */
  function Orientation(p: Point, q: Point, r: Point): (o: int)
    ensures p == q || q == r || p == r ==> o == 0
  {
    (q.x - p.x) * (r.y - p.y) - (q.y - p.y) * (r.x - p.x)
  }

  /** Two-dimensional cross product of position vectors, used by the shoelace formula. */
  function Cross(a: Point, b: Point): int
  {
    a.x * b.y - a.y * b.x
  }

  /**
   The orientation is twice the signed area of triangle p q r, as given by the
   shoelace formula over its three edges.
   */
  lemma OrientationIsShoelace(p: Point, q: Point, r: Point)
    ensures Orientation(p, q, r) == Cross(p, q) + Cross(q, r) + Cross(r, p)
  {
  }

  /** Exchanging the last two points reverses the turn. */
  lemma OrientationSwapNegates(p: Point, q: Point, r: Point)
    ensures Orientation(p, r, q) == -Orientation(p, q, r)
  {
    OrientationIsShoelace(p, q, r);
    OrientationIsShoelace(p, r, q);
  }

  /** Rotating the triple does not change the turn. */
  lemma OrientationRotates(p: Point, q: Point, r: Point)
    ensures Orientation(q, r, p) == Orientation(p, q, r)
  {
    OrientationIsShoelace(p, q, r);
    OrientationIsShoelace(q, r, p);
  }

  /** Python's tuple order on (x, y): by x, ties broken by y. */
  predicate LexLe(p: Point, q: Point)
  {
    p.x < q.x || (p.x == q.x && p.y <= q.y)
  }

  /** The tuple order is a total order on points. */
  lemma LexLeIsTotalOrder(p: Point, q: Point, r: Point)
    ensures LexLe(p, p)
    ensures LexLe(p, q) || LexLe(q, p)
    ensures LexLe(p, q) && LexLe(q, p) ==> p == q
    ensures LexLe(p, q) && LexLe(q, r) ==> LexLe(p, r)
  {
  }

  /** Shifts a point by the vector d. */
  function Translate(p: Point, d: Point): Point
  {
    Point(p.x + d.x, p.y + d.y)
  }

  /** Shifts every point of s by the vector d. */
  function TranslateAll(s: seq<Point>, d: Point): (r: seq<Point>)
    ensures |r| == |s|
    ensures forall k :: 0 <= k < |s| ==> r[k] == Translate(s[k], d)
  {
    if s == [] then [] else [Translate(s[0], d)] + TranslateAll(s[1..], d)
  }

  /** Translating a prefix is taking the prefix of the translation. */
  lemma TranslateAllPrefix(s: seq<Point>, d: Point, m: nat)
    requires m <= |s|
    ensures TranslateAll(s, d)[..m] == TranslateAll(s[..m], d)
  {
    var l, r := TranslateAll(s, d)[..m], TranslateAll(s[..m], d);
    assert |l| == |r|;
    assert forall k :: 0 <= k < m ==> l[k] == r[k];
  }

  /** Translating a concatenation translates each part. */
  lemma TranslateAllAppend(a: seq<Point>, b: seq<Point>, d: Point)
    ensures TranslateAll(a + b, d) == TranslateAll(a, d) + TranslateAll(b, d)
  {
    var l, r := TranslateAll(a + b, d), TranslateAll(a, d) + TranslateAll(b, d);
    assert |l| == |r|;
    forall k | 0 <= k < |l| ensures l[k] == r[k] {
      if k < |a| { assert (a + b)[k] == a[k]; } else { assert (a + b)[k] == b[k - |a|]; }
    }
  }

  /** Translation preserves both the orientation and the tuple order. */
  lemma TranslateInvariance(p: Point, q: Point, r: Point, d: Point)
    ensures Orientation(Translate(p, d), Translate(q, d), Translate(r, d)) == Orientation(p, q, r)
    ensures LexLe(Translate(p, d), Translate(q, d)) == LexLe(p, q)
  {
  }
}
