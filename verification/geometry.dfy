/**
 * Plane geometry shared by the page: points, axis-aligned element boxes
 * (a DOMRect's left/top/right/bottom) and the proximity hit test that decides
 * whether the smoothed blob is "under" an element.
 *
 * Coordinates are exact reals. The source compares a Euclidean distance
 * (obtained with a square root) with a radius; here the comparison is made on
 * squared distances, and `HitMatchesEuclideanDistance` shows the two agree.
 */
module Geometry {

  datatype Point = Point(x: real, y: real)

  /** The window's inner size. */
  datatype Viewport = Viewport(width: real, height: real)

  /** A bounding box as reported by the layout engine. */
  datatype Rect = Rect(left: real, top: real, right: real, bottom: real)

  /** The off-canvas position the pointer is parked at when it leaves the page. */
  const Sentinel: Point := Point(-200.0, -200.0)

  /** Radius of the hit test declared on the page itself. */
  const PageBlobRadius: real := 80.0

  /** Radius used by the name label, the navigation control and the social icons. */
  const ElementBlobRadius: real := 90.0

  function Min(a: real, b: real): real { if a <= b then a else b }

  function Max(a: real, b: real): real { if a >= b then a else b }

  function Abs(a: real): real { if a < 0.0 then -a else a }

  /** `x` to the `n`-th power, for the per-tick factors applied repeatedly. */
  function Pow(x: real, n: nat): real {
    if n == 0 then 1.0 else x * Pow(x, n - 1)
  }

  function Center(v: Viewport): Point {
    Point(v.width / 2.0, v.height / 2.0)
  }

  /** A layout box never has its right edge left of its left edge, nor its bottom above its top. */
  predicate WellFormed(r: Rect) {
    r.left <= r.right && r.top <= r.bottom
  }

  predicate Contains(r: Rect, p: Point) {
    r.left <= p.x <= r.right && r.top <= p.y <= r.bottom
  }

  function SqDist(a: Point, b: Point): real {
    (a.x - b.x) * (a.x - b.x) + (a.y - b.y) * (a.y - b.y)
  }

  /**
   * `max(lo, min(v, hi))`, the order the source applies the two bounds in:
   * on an inverted interval the lower bound wins.
   */
  function Clamp(v: real, lo: real, hi: real): (c: real)
    ensures lo <= hi ==> lo <= c <= hi
    ensures lo <= v <= hi ==> c == v
    ensures v < lo ==> c == lo
    ensures lo <= hi && hi < v ==> c == hi
    ensures hi < lo ==> c == lo
  {
    Max(lo, Min(v, hi))
  }

  /** No point of a well-formed interval is closer to `v` than its clamp. */
  lemma ClampIsNearest(v: real, lo: real, hi: real, w: real)
    requires lo <= w <= hi
    ensures (v - Clamp(v, lo, hi)) * (v - Clamp(v, lo, hi)) <= (v - w) * (v - w)
  {
    var c := Clamp(v, lo, hi);
    if v < lo {
      assert 0.0 <= c - v <= w - v;
      MulMono(c - v, w - v);
    } else if hi < v {
      assert 0.0 <= v - c <= v - w;
      MulMono(v - c, v - w);
    } else {
      assert c == v;
    }
  }

  lemma MulMono(a: real, b: real)
    requires 0.0 <= a <= b
    ensures a * a <= b * b
  {
    var aa, ab, bb := a * a, a * b, b * b;
    assert aa <= ab;
    assert ab <= bb;
  }

  lemma LtSquares(a: real, b: real)
    requires 0.0 <= a < b
    ensures a * a < b * b
  {
    var aa, ab, bb := a * a, a * b, b * b;
    assert aa <= ab;
    assert ab < bb;
  }

  /** The point of the box nearest to `c`: each coordinate clamped to the box's extent. */
  function ClosestPoint(c: Point, r: Rect): (p: Point)
    ensures WellFormed(r) ==> Contains(r, p)
    ensures Contains(r, c) ==> p == c
  {
    Point(Clamp(c.x, r.left, r.right), Clamp(c.y, r.top, r.bottom))
  }

  /** The clamped point is at least as close to `c` as every point of the box. */
  lemma ClosestPointIsNearest(c: Point, r: Rect, q: Point)
    requires Contains(r, q)
    ensures SqDist(c, ClosestPoint(c, r)) <= SqDist(c, q)
  {
    ClampIsNearest(c.x, r.left, r.right, q.x);
    ClampIsNearest(c.y, r.top, r.bottom, q.y);
  }

  /**
   * The blob centred at `center` with the given radius is over the box when
   * the box's nearest point lies strictly inside the blob's circle.
   */
  function IsUnderBlob(center: Point, r: Rect, radius: real): (hit: bool)
    requires radius > 0.0
    ensures Contains(r, center) ==> hit
    ensures WellFormed(r) && hit ==> exists q :: Contains(r, q) && SqDist(center, q) < radius * radius
  {
    var p := ClosestPoint(center, r);
    LtSquares(0.0, radius);
    SqDist(center, p) < radius * radius
  }

  /**
   * The hit test is exactly "the open disk of the given radius meets the box":
   * true iff some point of the box is closer than the radius.
   */
  lemma HitIffDiskMeetsBox(center: Point, r: Rect, radius: real)
    requires radius > 0.0
    requires WellFormed(r)
    ensures IsUnderBlob(center, r, radius)
        <==> exists q :: Contains(r, q) && SqDist(center, q) < radius * radius
  {
    if q :| Contains(r, q) && SqDist(center, q) < radius * radius {
      ClosestPointIsNearest(center, r, q);
    }
  }

  /**
   * With `d` the Euclidean distance to the nearest point (the source's square
   * root), the squared comparison agrees with `d < radius`; in particular a
   * distance equal to the radius is not a hit.
   */
  lemma HitMatchesEuclideanDistance(center: Point, r: Rect, radius: real, d: real)
    requires radius > 0.0
    requires d >= 0.0 && d * d == SqDist(center, ClosestPoint(center, r))
    ensures IsUnderBlob(center, r, radius) <==> d < radius
  {
    if d < radius {
      LtSquares(d, radius);
    } else {
      MulMono(radius, d);
    }
  }

  /** Proximity flag of a page element: the shared test with the element radius. */
  function ElementUnderBlob(smooth: Point, box: Rect): (hit: bool)
    ensures Contains(box, smooth) ==> hit
    ensures WellFormed(box) ==>
      (hit <==> exists q :: Contains(box, q) && SqDist(smooth, q) < 8100.0)
    ensures box.left >= 0.0 && box.top >= 0.0 ==>
      (smooth.x <= -ElementBlobRadius || smooth.y <= -ElementBlobRadius ==> !hit)
  {
    HitTestFacts(smooth, box, ElementBlobRadius);
    IsUnderBlob(smooth, box, ElementBlobRadius)
  }

  /** The two characterisations of the hit test, for any positive radius. */
  lemma HitTestFacts(center: Point, r: Rect, radius: real)
    requires radius > 0.0
    ensures WellFormed(r) ==>
      (IsUnderBlob(center, r, radius) <==> exists q :: Contains(r, q) && SqDist(center, q) < radius * radius)
    ensures r.left >= 0.0 && r.top >= 0.0 ==>
      (center.x <= -radius || center.y <= -radius ==> !IsUnderBlob(center, r, radius))
  {
    if WellFormed(r) {
      HitIffDiskMeetsBox(center, r, radius);
    }
    if (center.x <= -radius || center.y <= -radius) && r.left >= 0.0 && r.top >= 0.0 {
      FarUpLeftHitsNothing(center, r, radius);
    }
  }

  /**
   * A blob whose centre is at least one radius left of, or above, the
   * viewport's origin is never over a box that lies in the visible quadrant.
   */
  lemma FarUpLeftHitsNothing(center: Point, r: Rect, radius: real)
    requires radius > 0.0
    requires center.x <= -radius || center.y <= -radius
    requires r.left >= 0.0 && r.top >= 0.0
    ensures !IsUnderBlob(center, r, radius)
  {
    var p := ClosestPoint(center, r);
    var dx, dy := p.x - center.x, p.y - center.y;
    if center.x <= -radius {
      assert dx >= radius;
      MulMono(radius, dx);
    } else {
      assert dy >= radius;
      MulMono(radius, dy);
    }
    assert SqDist(center, p) == dx * dx + dy * dy;
  }

  /**
   * The parked position (-200, -200) is far enough up and left for either
   * radius the page uses.
   */
  lemma SentinelHitsNothing(r: Rect, radius: real)
    requires r.left >= 0.0 && r.top >= 0.0
    requires radius == PageBlobRadius || radius == ElementBlobRadius
    ensures !IsUnderBlob(Sentinel, r, radius)
  {
    FarUpLeftHitsNothing(Sentinel, r, radius);
  }
}
