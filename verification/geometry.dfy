/** Points, the tolerance predicate and the axis-aligned bounding box that
    the point registry relies on. The registry never looks at coordinates
    except through `Near`, so this is the whole of its geometry. */
module Geometry {

  /** A point in 3D space. */
  datatype Point = Point(x: real, y: real, z: real)

  function Abs(a: real): (r: real)
    ensures r >= 0.0
    ensures r == a || r == -a
  {
    if a < 0.0 then -a else a
  }

  function Max(a: real, b: real): (r: real)
    ensures r >= a && r >= b
    ensures r == a || r == b
  {
    if a < b then b else a
  }

  function Min(a: real, b: real): (r: real)
    ensures r <= a && r <= b
    ensures r == a || r == b
  {
    if a < b then a else b
  }

  /** Maximum-norm (L-infinity) distance: the largest coordinate-wise gap. */
  function MaxNormDist(p: Point, q: Point): (d: real)
    ensures d >= 0.0
    ensures Abs(p.x - q.x) <= d && Abs(p.y - q.y) <= d && Abs(p.z - q.z) <= d
    ensures d == Abs(p.x - q.x) || d == Abs(p.y - q.y) || d == Abs(p.z - q.z)
  {
    Max(Abs(p.x - q.x), Max(Abs(p.y - q.y), Abs(p.z - q.z)))
  }

  /** Two points are treated as the same point when their max-norm distance
      does not exceed the absolute tolerance `eps`. */
  predicate Near(p: Point, q: Point, eps: real)
  {
    MaxNormDist(p, q) <= eps
  }

  /** `Near` is symmetric, and a point is near itself whenever the tolerance
      is non-negative (a negative tolerance makes nothing near). */
  lemma NearProperties(p: Point, q: Point, eps: real)
    ensures Near(p, q, eps) <==> Near(q, p, eps)
    ensures Near(p, p, eps) <==> eps >= 0.0
  {
    assert MaxNormDist(p, p) == 0.0;
    assert Abs(p.x - q.x) == Abs(q.x - p.x);
    assert Abs(p.y - q.y) == Abs(q.y - p.y);
    assert Abs(p.z - q.z) == Abs(q.z - p.z);
  }

  /** Axis-aligned bounding box given by its minimum and maximum corner. */
  datatype Box = Box(lo: Point, hi: Point)

  predicate Contains(b: Box, p: Point)
  {
    && b.lo.x <= p.x <= b.hi.x
    && b.lo.y <= p.y <= b.hi.y
    && b.lo.z <= p.z <= b.hi.z
  }

  /** The box after it has been updated to take in `p`: it contains `p` and
      everything it contained before. */
  function Extend(b: Box, p: Point): (r: Box)
    ensures Contains(r, p)
    ensures forall q :: Contains(b, q) ==> Contains(r, q)
  {
    Box(Point(Min(b.lo.x, p.x), Min(b.lo.y, p.y), Min(b.lo.z, p.z)),
        Point(Max(b.hi.x, p.x), Max(b.hi.y, p.y), Max(b.hi.z, p.z)))
  }

  /** The bounding box of a non-empty sequence of points: the degenerate box
      of the first point, extended by each further point. */
  function BoxOf(pts: seq<Point>): (r: Box)
    requires |pts| >= 1
    ensures forall i :: 0 <= i < |pts| ==> Contains(r, pts[i])
  {
    if |pts| == 1 then Box(pts[0], pts[0])
    else
      var b := BoxOf(pts[..|pts| - 1]);
      assert forall i :: 0 <= i < |pts| - 1 ==> pts[i] == pts[..|pts| - 1][i];
      Extend(b, pts[|pts| - 1])
  }
}
