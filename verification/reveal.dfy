/**
 * The reveal compositor's geometry: where the hidden image is drawn so that
 * it is "contained" in the viewport, and which points the clip region built
 * each frame lets through (the primary blob's ellipse while the pointer is
 * over the page, plus one circle per trail).
 */
module Reveal {
  import opened Geometry
  import opened Trails

  /** Semi-axes of the primary blob's ellipse. */
  const BlobRadiusX: real := 85.0
  const BlobRadiusY: real := 75.0

  /** The rectangle the hidden image is drawn into. */
  datatype Placement = Placement(x: real, y: real, width: real, height: real)

  /**
   * "Contain" placement of an `imgW` by `imgH` image in a `viewW` by `viewH`
   * canvas: an image relatively wider than the canvas fills its width and is
   * centred vertically; otherwise it fills the height and is centred
   * horizontally.
   */
  function ContainPlacement(imgW: real, imgH: real, viewW: real, viewH: real): (p: Placement)
    requires imgW > 0.0 && imgH > 0.0 && viewW > 0.0 && viewH > 0.0
    ensures 0.0 < p.width <= viewW && 0.0 < p.height <= viewH
    ensures p.width * imgH == p.height * imgW
    ensures p.width == viewW || p.height == viewH
    ensures p.x >= 0.0 && p.y >= 0.0
    ensures p.x * 2.0 + p.width == viewW && p.y * 2.0 + p.height == viewH
  {
    var imgAspect := imgW / imgH;
    var canvasAspect := viewW / viewH;
    if imgAspect > canvasAspect then
      var drawHeight := viewW / imgAspect;
      WiderFitsHeight(imgW, imgH, viewW, viewH);
      Placement(0.0, (viewH - drawHeight) / 2.0, viewW, drawHeight)
    else
      var drawWidth := viewH * imgAspect;
      TallerFitsWidth(imgW, imgH, viewW, viewH);
      Placement((viewW - drawWidth) / 2.0, 0.0, drawWidth, viewH)
  }

  /** Fitting the width of a relatively wider image leaves its height inside the canvas. */
  lemma WiderFitsHeight(imgW: real, imgH: real, viewW: real, viewH: real)
    requires imgW > 0.0 && imgH > 0.0 && viewW > 0.0 && viewH > 0.0
    requires imgW / imgH > viewW / viewH
    ensures 0.0 < viewW / (imgW / imgH) <= viewH
    ensures viewW * imgH == (viewW / (imgW / imgH)) * imgW
  {
    var a := imgW / imgH;
    var h := viewW / a;
    assert a * imgH == imgW;
    assert h * a == viewW;
    assert (viewW / viewH) * viewH == viewW;
    // a > viewW / viewH, so a * viewH > viewW == h * a, and h < viewH.
    MulStrict(viewW / viewH, a, viewH);
    assert a * viewH > a * h;
    CancelLeft(a, h, viewH);
    assert h * imgW == h * (a * imgH);
    assert h * (a * imgH) == (h * a) * imgH;
  }

  /** Fitting the height of a relatively taller image leaves its width inside the canvas. */
  lemma TallerFitsWidth(imgW: real, imgH: real, viewW: real, viewH: real)
    requires imgW > 0.0 && imgH > 0.0 && viewW > 0.0 && viewH > 0.0
    requires imgW / imgH <= viewW / viewH
    ensures 0.0 < viewH * (imgW / imgH) <= viewW
    ensures (viewH * (imgW / imgH)) * imgH == viewH * imgW
  {
    var a := imgW / imgH;
    var c := viewW / viewH;
    assert a * imgH == imgW;
    assert c * viewH == viewW;
    assert 0.0 < a;
    MulRightLe(a, c, viewH);
    assert viewH * a <= viewW;
    assert (viewH * a) * imgH == viewH * (a * imgH);
  }

  lemma MulStrict(a: real, b: real, c: real)
    requires a < b && c > 0.0
    ensures a * c < b * c
  {
    var d := b - a;
    assert b * c == a * c + d * c;
    assert d * c > 0.0;
  }

  lemma MulRightLe(a: real, b: real, c: real)
    requires a <= b && c >= 0.0
    ensures a * c <= b * c
  {
    var d := b - a;
    assert b * c == a * c + d * c;
  }

  lemma CancelLeft(a: real, x: real, y: real)
    requires a > 0.0 && a * x < a * y
    ensures x < y
  {
    if x >= y {
      MulRightLe(y, x, a);
    }
  }

  /**
   * "Contain" draws the image as large as it can be: every rectangle of the
   * image's aspect ratio that fits in the canvas is at most as wide (and so
   * at most as tall) as the placement.
   */
  lemma ContainIsLargest(imgW: real, imgH: real, viewW: real, viewH: real, w: real, h: real)
    requires imgW > 0.0 && imgH > 0.0 && viewW > 0.0 && viewH > 0.0
    requires 0.0 < w <= viewW && 0.0 < h <= viewH
    requires w * imgH == h * imgW
    ensures w <= ContainPlacement(imgW, imgH, viewW, viewH).width
    ensures h <= ContainPlacement(imgW, imgH, viewW, viewH).height
  {
    var p := ContainPlacement(imgW, imgH, viewW, viewH);
    if p.width == viewW {
      // h * imgW == w * imgH <= viewW * imgH == p.height * imgW
      MulRightLe(w, viewW, imgH);
      assert h * imgW <= p.height * imgW;
      if h > p.height {
        MulStrict(p.height, h, imgW);
      }
    } else {
      assert p.height == viewH;
      MulRightLe(h, viewH, imgW);
      assert w * imgH <= p.width * imgH;
      if w > p.width {
        MulStrict(p.width, w, imgH);
      }
    }
  }

  /** `q` is strictly inside the primary blob's ellipse centred at `c`. */
  predicate InBlobEllipse(q: Point, c: Point) {
    var dx := q.x - c.x;
    var dy := q.y - c.y;
    dx * dx * (BlobRadiusY * BlobRadiusY) + dy * dy * (BlobRadiusX * BlobRadiusX)
      < (BlobRadiusX * BlobRadiusX) * (BlobRadiusY * BlobRadiusY)
  }

  /** `q` is strictly inside the circle of radius size/2 around the trail. */
  predicate InTrailCircle(q: Point, t: Trail) {
    SqDist(q, t.center) < (t.size / 2.0) * (t.size / 2.0)
  }

  /**
   * The ellipse has semi-axes 85 (horizontal) and 75 (vertical): it lies
   * strictly within them, and along each axis through its centre it reaches
   * exactly that far.
   */
  lemma EllipseExtent(q: Point, c: Point)
    ensures InBlobEllipse(q, c) ==> Abs(q.x - c.x) < BlobRadiusX && Abs(q.y - c.y) < BlobRadiusY
    ensures q.y == c.y ==> (InBlobEllipse(q, c) <==> Abs(q.x - c.x) < BlobRadiusX)
    ensures q.x == c.x ==> (InBlobEllipse(q, c) <==> Abs(q.y - c.y) < BlobRadiusY)
  {
    var dx, dy := Abs(q.x - c.x), Abs(q.y - c.y);
    var xx, yy := dx * dx, dy * dy;
    assert xx == (q.x - c.x) * (q.x - c.x);
    assert yy == (q.y - c.y) * (q.y - c.y);
    // With the semi-axes squared (7225 and 5625) the ellipse is linear in xx and yy.
    assert InBlobEllipse(q, c) <==> xx * 5625.0 + yy * 7225.0 < 40640625.0;
    assert xx >= 0.0 && yy >= 0.0;
    SquareBelow(dx, BlobRadiusX);
    SquareBelow(dy, BlobRadiusY);
    assert dx < BlobRadiusX <==> xx < 7225.0;
    assert dy < BlobRadiusY <==> yy < 5625.0;
  }

  /** For non-negative `a` and positive `b`: a < b iff a squared is below b squared. */
  lemma SquareBelow(a: real, b: real)
    requires a >= 0.0 && b > 0.0
    ensures a < b <==> a * a < b * b
  {
    if a < b {
      LtSquares(a, b);
    } else {
      MulMono(b, a);
    }
  }

  /**
   * With `d` the Euclidean distance from `q` to the trail's centre, `q` is in
   * the trail's circle iff `d` is below the arc's radius, half the trail's size.
   */
  lemma TrailCircleMatchesRadius(q: Point, t: Trail, d: real)
    requires t.size > 0.0
    requires d >= 0.0 && d * d == SqDist(q, t.center)
    ensures InTrailCircle(q, t) <==> d < t.size / 2.0
  {
    SquareBelow(d, t.size / 2.0);
  }

  /**
   * The clip region: the ellipse around the smoothed position while the
   * pointer is over the page, together with every trail's circle.
   */
  predicate Revealed(q: Point, smooth: Point, hovering: bool, trails: seq<Trail>) {
    (hovering && InBlobEllipse(q, smooth))
    || exists i :: 0 <= i < |trails| && InTrailCircle(q, trails[i])
  }

  /**
   * Decides whether the clip region built for a frame covers `q`, adding the
   * shapes in the order the frame draws them: the ellipse first, then one
   * circle per trail.
   */
  method ClipCovers(q: Point, smooth: Point, hovering: bool, trails: seq<Trail>) returns (covered: bool)
    ensures covered <==> Revealed(q, smooth, hovering, trails)
  {
    covered := hovering && InBlobEllipse(q, smooth);
    var i := 0;
    while i < |trails|
      invariant 0 <= i <= |trails|
      invariant covered <==> (hovering && InBlobEllipse(q, smooth))
                             || exists j :: 0 <= j < i && InTrailCircle(q, trails[j])
    {
      if InTrailCircle(q, trails[i]) {
        covered := true;
      }
      i := i + 1;
    }
  }

  /** With the pointer off the page and no trails left, the region is empty. */
  lemma NothingRevealedWhenIdle(q: Point, smooth: Point)
    ensures !Revealed(q, smooth, false, [])
  {
  }

  /** The ellipse always covers its own centre, so a hovering pointer reveals at least that point. */
  lemma HoveringRevealsBlobCentre(smooth: Point, trails: seq<Trail>)
    ensures Revealed(smooth, smooth, true, trails)
  {
    assert InBlobEllipse(smooth, smooth);
  }

  /** A trail of positive size always covers its own centre. */
  lemma TrailRevealsItsCentre(smooth: Point, hovering: bool, trails: seq<Trail>, i: nat)
    requires i < |trails| && trails[i].size > 0.0
    ensures Revealed(trails[i].center, smooth, hovering, trails)
  {
    var s := trails[i].size / 2.0;
    LtSquares(0.0, s);
    assert InTrailCircle(trails[i].center, trails[i]);
  }
}
