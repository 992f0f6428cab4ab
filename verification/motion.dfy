/**
 * The pointer rules of the page: the per-frame smoothing step that drags the
 * blob toward the pointer, the parallax offset derived from the pointer, and
 * the rule that decides when a pointer move is fast enough to leave a trail
 * and how large that trail is.
 */
module Motion {
  import opened Geometry

  /** Fraction of the remaining gap closed on every animation frame. */
  const SmoothingFactor: real := 0.12

  /** Fraction of the gap that remains after one frame. */
  const Retained: real := 0.88

  /** Parallax offset per pixel of displacement from the viewport centre. */
  const ParallaxFactor: real := -0.02

  /** Pointer speed (pixels per event) a move must exceed to leave a trail. */
  const SpawnSpeed: real := 8.0

  const BaseTrailSize: real := 40.0
  const MaxTrailSize: real := 80.0

  /** `m` lies on the closed segment between `a` and `b`. */
  predicate Between(a: real, m: real, b: real) {
    (a <= m <= b) || (b <= m <= a)
  }

  /**
   * One animation frame of smoothing: each coordinate moves 0.12 of the way
   * from the smoothed position `s` toward the raw pointer position `target`.
   */
  function SmoothStep(s: Point, target: Point): (n: Point)
    ensures Between(s.x, n.x, target.x) && Between(s.y, n.y, target.y)
    ensures target.x - n.x == Retained * (target.x - s.x)
    ensures target.y - n.y == Retained * (target.y - s.y)
    ensures s == target ==> n == target
    ensures n == target ==> s == target
  {
    Point(s.x + (target.x - s.x) * SmoothingFactor, s.y + (target.y - s.y) * SmoothingFactor)
  }

  /** One frame shrinks the squared distance to the target by exactly 0.88 squared. */
  lemma SmoothStepContracts(s: Point, target: Point)
    ensures SqDist(SmoothStep(s, target), target) == Retained * Retained * SqDist(s, target)
    ensures SqDist(SmoothStep(s, target), target) <= SqDist(s, target)
  {
    var n := SmoothStep(s, target);
    var dx, dy := target.x - s.x, target.y - s.y;
    assert n.x - target.x == -(Retained * dx);
    assert n.y - target.y == -(Retained * dy);
    assert (Retained * dx) * (Retained * dx) == Retained * Retained * (dx * dx);
    assert (Retained * dy) * (Retained * dy) == Retained * Retained * (dy * dy);
    assert SqDist(s, target) == dx * dx + dy * dy;
    var q := dx * dx + dy * dy;
    assert q >= 0.0;
    assert Retained * Retained * q <= q;
  }

  /** The smoothed position after `frames` frames with the pointer held at `target`. */
  function Smoothed(s: Point, target: Point, frames: nat): Point {
    if frames == 0 then s else SmoothStep(Smoothed(s, target, frames - 1), target)
  }

  /** After `frames` frames the gap on each axis is the initial gap times 0.88 to that power. */
  lemma {:induction false} SmoothedGap(s: Point, target: Point, frames: nat)
    ensures target.x - Smoothed(s, target, frames).x == Pow(Retained, frames) * (target.x - s.x)
    ensures target.y - Smoothed(s, target, frames).y == Pow(Retained, frames) * (target.y - s.y)
  {
    if frames > 0 {
      SmoothedGap(s, target, frames - 1);
      var p := Pow(Retained, frames - 1);
      assert Retained * (p * (target.x - s.x)) == (Retained * p) * (target.x - s.x);
      assert Retained * (p * (target.y - s.y)) == (Retained * p) * (target.y - s.y);
    }
  }

  /** However many frames pass, the smoothed position stays between its start and the pointer. */
  lemma {:induction false} SmoothedNeverOvershoots(s: Point, target: Point, frames: nat)
    ensures Between(s.x, Smoothed(s, target, frames).x, target.x)
    ensures Between(s.y, Smoothed(s, target, frames).y, target.y)
  {
    if frames > 0 {
      SmoothedNeverOvershoots(s, target, frames - 1);
    }
  }

  /**
   * The smoothed position never lands on the pointer unless it started there:
   * however many frames pass, the blob only approaches a still pointer.
   */
  lemma {:induction false} SmoothedReachesTargetOnlyFromIt(s: Point, target: Point, frames: nat)
    ensures Smoothed(s, target, frames) == target <==> s == target
  {
    if frames > 0 {
      SmoothedReachesTargetOnlyFromIt(s, target, frames - 1);
    }
  }

  /** Bernoulli's bound for the retained fraction: 0.88^n * (1 + 0.12 n) <= 1. */
  lemma {:induction false} RetainedPowBound(n: nat)
    ensures 0.0 < Pow(Retained, n)
    ensures Pow(Retained, n) * (1.0 + SmoothingFactor * n as real) <= 1.0
  {
    if n > 0 {
      RetainedPowBound(n - 1);
      var p := Pow(Retained, n - 1);
      var m := (n - 1) as real;
      assert Pow(Retained, n) == Retained * p;
      assert Retained * (1.0 + SmoothingFactor * (m + 1.0)) <= 1.0 + SmoothingFactor * m;
      var lhs := Retained * (1.0 + SmoothingFactor * (m + 1.0));
      var rhs := 1.0 + SmoothingFactor * m;
      assert p * lhs <= p * rhs;
      assert (Retained * p) * (1.0 + SmoothingFactor * n as real) == p * lhs;
    }
  }

  /**
   * The smoothed position settles on a stationary pointer: once
   * 0.12 * frames * eps covers the initial gap on both axes, the remaining gap
   * is at most eps.
   */
  lemma SmoothingConverges(s: Point, target: Point, frames: nat, eps: real)
    requires eps > 0.0
    requires SmoothingFactor * frames as real * eps >= Abs(target.x - s.x)
    requires SmoothingFactor * frames as real * eps >= Abs(target.y - s.y)
    ensures Abs(target.x - Smoothed(s, target, frames).x) <= eps
    ensures Abs(target.y - Smoothed(s, target, frames).y) <= eps
  {
    SmoothedGap(s, target, frames);
    PointSettles(s, Smoothed(s, target, frames), target, frames, eps);
  }

  /** The horizontal half of `SmoothingConverges`, needing only the horizontal gap to be covered. */
  lemma SmoothingConvergesX(s: Point, target: Point, frames: nat, eps: real)
    requires eps > 0.0
    requires SmoothingFactor * frames as real * eps >= Abs(target.x - s.x)
    ensures Abs(target.x - Smoothed(s, target, frames).x) <= eps
  {
    SmoothedGap(s, target, frames);
    AxisSettles(target.x - s.x, target.x - Smoothed(s, target, frames).x, frames, eps);
  }

  lemma PointSettles(s: Point, m: Point, target: Point, frames: nat, eps: real)
    requires eps > 0.0
    requires SmoothingFactor * frames as real * eps >= Abs(target.x - s.x)
    requires SmoothingFactor * frames as real * eps >= Abs(target.y - s.y)
    requires target.x - m.x == Pow(Retained, frames) * (target.x - s.x)
    requires target.y - m.y == Pow(Retained, frames) * (target.y - s.y)
    ensures Abs(target.x - m.x) <= eps && Abs(target.y - m.y) <= eps
  {
    AxisSettles(target.x - s.x, target.x - m.x, frames, eps);
    AxisSettles(target.y - s.y, target.y - m.y, frames, eps);
  }

  /** One axis of `SmoothingConverges`: `g` is the initial gap, `gap` the gap after `frames` frames. */
  lemma AxisSettles(g: real, gap: real, frames: nat, eps: real)
    requires eps > 0.0
    requires SmoothingFactor * frames as real * eps >= Abs(g)
    requires gap == Pow(Retained, frames) * g
    ensures Abs(gap) <= eps
  {
    RetainedPowBound(frames);
    GapBound(Pow(Retained, frames), frames as real, g, gap, eps);
  }

  /** A gap `p * g` with p * (1 + 0.12 n) <= 1 is at most eps once 0.12 n eps covers g. */
  lemma GapBound(p: real, n: real, g: real, gap: real, eps: real)
    requires 0.0 < p && n >= 0.0 && eps > 0.0
    requires p * (1.0 + SmoothingFactor * n) <= 1.0
    requires SmoothingFactor * n * eps >= Abs(g)
    requires gap == p * g
    ensures Abs(gap) <= eps
  {
    var a := Abs(g);
    var k := 1.0 + SmoothingFactor * n;
    assert k * eps == eps + SmoothingFactor * n * eps;
    assert a <= k * eps;
    MulLeft(p, a, k * eps);
    var pk := p * k;
    assert p * (k * eps) == pk * eps;
    MulRight(pk, 1.0, eps);
    assert Abs(gap) == p * a;
  }

  lemma MulLeft(p: real, a: real, b: real)
    requires p >= 0.0 && a <= b
    ensures p * a <= p * b
  {
    var d := b - a;
    assert p * b == p * a + p * d;
  }

  lemma MulRight(a: real, b: real, c: real)
    requires a <= b && c >= 0.0
    ensures a * c <= b * c
  {
    var d := b - a;
    assert b * c == a * c + d * c;
  }

  /** The parallax offset: the pointer's displacement from the viewport centre, scaled by -0.02. */
  function Parallax(pointer: Point, view: Viewport): (o: Point)
    ensures PointerFromParallax(o, view) == pointer
    ensures o.x * (pointer.x - Center(view).x) <= 0.0
    ensures o.y * (pointer.y - Center(view).y) <= 0.0
    ensures pointer == Center(view) <==> o == Point(0.0, 0.0)
  {
    var c := Center(view);
    Point((pointer.x - c.x) * ParallaxFactor, (pointer.y - c.y) * ParallaxFactor)
  }

  /** Recovers the pointer from an offset: the inverse of `Parallax` for a fixed viewport. */
  function PointerFromParallax(o: Point, view: Viewport): Point {
    Point(Center(view).x - 50.0 * o.x, Center(view).y - 50.0 * o.y)
  }

  /** Pointers mirrored through the viewport centre get opposite offsets. */
  lemma ParallaxIsOdd(pointer: Point, view: Viewport)
    ensures var c := Center(view);
      var mirrored := Point(2.0 * c.x - pointer.x, 2.0 * c.y - pointer.y);
      Parallax(mirrored, view) == Point(-Parallax(pointer, view).x, -Parallax(pointer, view).y)
  {
  }

  /** `speed` is the Euclidean length of the move from `last` to `now`. */
  predicate IsSpeedOf(speed: real, last: Point, now: Point) {
    speed >= 0.0 && speed * speed == SqDist(now, last)
  }

  /** A move leaves a trail when its speed exceeds 8. */
  predicate SpawnsTrail(speed: real) {
    speed > SpawnSpeed
  }

  /** Without the square root: a move leaves a trail iff dx^2 + dy^2 exceeds 64. */
  lemma SpawnsIffSquaredSpeedAbove64(speed: real, last: Point, now: Point)
    requires IsSpeedOf(speed, last, now)
    ensures SpawnsTrail(speed) <==> SqDist(now, last) > 64.0
  {
    if speed > SpawnSpeed {
      LtSquares(SpawnSpeed, speed);
    } else {
      MulMono(speed, SpawnSpeed);
    }
  }

  /** Size of a spawned trail: 40 plus half the speed, capped at 80. */
  function TrailSize(speed: real): (size: real)
    requires SpawnsTrail(speed)
    ensures 44.0 < size <= MaxTrailSize
    ensures size == MaxTrailSize <==> speed >= 80.0
    ensures size < MaxTrailSize ==> size - BaseTrailSize == speed / 2.0
  {
    Min(MaxTrailSize, BaseTrailSize + speed * 0.5)
  }
}
