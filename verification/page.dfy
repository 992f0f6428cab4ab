/**
 * The landing page as one state value updated by its event handlers and
 * periodic callbacks: a pointer move, the pointer leaving the page, an
 * animation frame (smoothing) and a decay tick (every 30 ms in the page).
 * Each is a pure step from the current state; scheduling is left to the caller.
 */
module Page {
  import opened Geometry
  import opened Motion
  import opened Trails
  import opened Reveal

  datatype PageState = PageState(
    mouse: Point,       // raw pointer position, the sentinel when off the page
    smooth: Point,      // lagged blob position, moved once per frame
    parallax: Point,    // offset applied to the layers
    trails: seq<Trail>,
    hovering: bool,
    lastMouse: Point,   // position of the previous move, for the speed
    nextId: int         // trail id counter
  )

  /** The state on first render: pointer and blob parked off-canvas, no trails. */
  const Initial: PageState :=
    PageState(Sentinel, Sentinel, Point(0.0, 0.0), [], false, Point(0.0, 0.0), 0)

  /** What holds between any two events. */
  predicate Valid(s: PageState) {
    s.nextId >= 0 && ValidTrails(s.trails, s.nextId)
  }

  /**
   * A pointer move to `pos`. `speed` is the Euclidean length of the move from
   * the previous position; a move faster than 8 appends a trail at `pos`.
   */
  function OnMouseMove(s: PageState, pos: Point, speed: real, view: Viewport): (r: PageState)
    requires IsSpeedOf(speed, s.lastMouse, pos)
    ensures r.mouse == pos && r.lastMouse == pos && r.hovering
    ensures r.smooth == s.smooth
    ensures r.parallax == Parallax(pos, view)
    ensures SqDist(pos, s.lastMouse) > 64.0 <==> r.nextId == s.nextId + 1
    ensures SpawnsTrail(speed) ==>
      1 <= |r.trails| <= Capacity
      && r.trails[|r.trails| - 1] == Trail(pos, TrailSize(speed), SpawnOpacity, s.nextId)
    ensures SqDist(pos, s.lastMouse) <= 64.0 ==> r.trails == s.trails && r.nextId == s.nextId
  {
    SpawnsIffSquaredSpeedAbove64(speed, s.lastMouse, pos);
    var spawned :=
      if SpawnsTrail(speed)
      then s.(trails := Spawn(s.trails, pos, TrailSize(speed), s.nextId), nextId := s.nextId + 1)
      else s;
    spawned.(mouse := pos, hovering := true, lastMouse := pos, parallax := Parallax(pos, view))
  }

  /**
   * The pointer leaves the page: it is parked at the sentinel and the blob
   * stops hovering. Trails, the blob's position and the last move's position
   * are left as they are.
   */
  function OnMouseLeave(s: PageState): (r: PageState)
    ensures r.mouse == Sentinel && !r.hovering
    ensures r.smooth == s.smooth && r.trails == s.trails && r.lastMouse == s.lastMouse
    ensures r.nextId == s.nextId && r.parallax == s.parallax
  {
    s.(mouse := Sentinel, hovering := false)
  }

  /** An animation frame: the blob moves 0.12 of the way toward the pointer. */
  function OnFrame(s: PageState): (r: PageState)
    ensures Between(s.smooth.x, r.smooth.x, s.mouse.x) && Between(s.smooth.y, r.smooth.y, s.mouse.y)
    ensures r.(smooth := s.smooth) == s
  {
    s.(smooth := SmoothStep(s.smooth, s.mouse))
  }

  /** A decay tick: every trail fades and shrinks, invisible ones are dropped. */
  function OnDecayTick(s: PageState): (r: PageState)
    ensures |r.trails| <= |s.trails|
    ensures forall i :: 0 <= i < |r.trails| ==> Visible(r.trails[i])
    ensures r.(trails := s.trails) == s
  {
    s.(trails := Decay(s.trails))
  }

  lemma InitialIsValid()
    ensures Valid(Initial)
  {
  }

  /** Every step keeps the page valid: at most 16 trails, ids increasing and below the counter, opacities in (0, 0.6]. */
  lemma StepsPreserveValidity(s: PageState, pos: Point, speed: real, view: Viewport)
    requires Valid(s)
    requires IsSpeedOf(speed, s.lastMouse, pos)
    ensures Valid(OnMouseMove(s, pos, speed, view))
    ensures Valid(OnMouseLeave(s))
    ensures Valid(OnFrame(s))
    ensures Valid(OnDecayTick(s))
  {
    if SpawnsTrail(speed) {
      SpawnPreservesValidity(s.trails, pos, TrailSize(speed), s.nextId);
    }
    DecayPreservesValidity(s.trails, s.nextId);
  }

  /** `k` decay ticks with no other event in between. */
  function DecayTicks(s: PageState, k: nat): PageState {
    if k == 0 then s else OnDecayTick(DecayTicks(s, k - 1))
  }

  lemma {:induction false} DecayTicksAreDecayN(s: PageState, k: nat)
    ensures DecayTicks(s, k) == s.(trails := DecayN(s.trails, k))
  {
    if k > 0 {
      DecayTicksAreDecayN(s, k - 1);
    }
  }

  /**
   * Once the pointer has left and 20 decay ticks have passed, the reveal
   * clip region is empty: no point of the hidden image is drawn.
   */
  lemma LeaveThenLifetimeRevealsNothing(s: PageState, q: Point)
    requires Valid(s)
    ensures var r := DecayTicks(OnMouseLeave(s), Lifetime);
      !Revealed(q, r.smooth, r.hovering, r.trails)
    ensures DecayTicks(OnMouseLeave(s), Lifetime).trails == []
  {
    var left := OnMouseLeave(s);
    DecayTicksAreDecayN(left, Lifetime);
    TrailsGoneAfterLifetime(left.trails);
  }

  /**
   * The proximity flags of the name, navigation and social elements, each
   * recomputed from its own box and the current blob position.
   */
  function ProximityFlags(s: PageState, name: Rect, nav: Rect, social: Rect): (flags: (bool, bool, bool))
    ensures Contains(name, s.smooth) ==> flags.0
    ensures Contains(nav, s.smooth) ==> flags.1
    ensures Contains(social, s.smooth) ==> flags.2
    ensures FarUpLeft(s.smooth) && InVisibleQuadrant(name) ==> !flags.0
    ensures FarUpLeft(s.smooth) && InVisibleQuadrant(nav) ==> !flags.1
    ensures FarUpLeft(s.smooth) && InVisibleQuadrant(social) ==> !flags.2
  {
    (ElementUnderBlob(s.smooth, name), ElementUnderBlob(s.smooth, nav), ElementUnderBlob(s.smooth, social))
  }

  /** The blob is at least one element radius left of, or above, the viewport. */
  predicate FarUpLeft(p: Point) {
    p.x <= -ElementBlobRadius || p.y <= -ElementBlobRadius
  }

  /** A box whose top-left corner is on screen or right of and below it. */
  predicate InVisibleQuadrant(r: Rect) {
    r.left >= 0.0 && r.top >= 0.0
  }

  /** `n` animation frames with no other event in between. */
  function Frames(s: PageState, n: nat): PageState {
    if n == 0 then s else OnFrame(Frames(s, n - 1))
  }

  /** `n` frames move only the blob, exactly as `n` smoothing steps toward the pointer would. */
  lemma {:induction false} FramesAreSmoothed(s: PageState, n: nat)
    ensures Frames(s, n) == s.(smooth := Smoothed(s.smooth, s.mouse, n))
  {
    if n > 0 {
      FramesAreSmoothed(s, n - 1);
    }
  }

  /**
   * After the pointer leaves, the blob glides toward the parked position but
   * never reaches it unless it was already there.
   */
  lemma LeftBlobNeverParks(s: PageState, n: nat)
    ensures Frames(OnMouseLeave(s), n).smooth == Sentinel <==> s.smooth == Sentinel
  {
    FramesAreSmoothed(OnMouseLeave(s), n);
    SmoothedReachesTargetOnlyFromIt(s.smooth, Sentinel, n);
  }

  /**
   * After the pointer leaves, enough frames bring the blob within 110 of the
   * parked x coordinate, so at least 90 left of the viewport. Enough means
   * 0.12 * n * 110 covers the blob's horizontal distance from -200.
   */
  lemma LeftBlobGoesFarUpLeft(s: PageState, n: nat)
    requires SmoothingFactor * n as real * 110.0 >= Abs(Sentinel.x - s.smooth.x)
    ensures FarUpLeft(Frames(OnMouseLeave(s), n).smooth)
  {
    FramesAreSmoothed(OnMouseLeave(s), n);
    SmoothingConvergesX(s.smooth, Sentinel, n, 110.0);
  }

  /**
   * A pointer leave resolves an element's proximity test to "nothing under
   * the blob" once enough frames have passed, for an element in the visible
   * quadrant.
   */
  lemma LeaveThenFramesClearsFlag(s: PageState, n: nat, box: Rect)
    requires SmoothingFactor * n as real * 110.0 >= Abs(Sentinel.x - s.smooth.x)
    requires InVisibleQuadrant(box)
    ensures !ElementUnderBlob(Frames(OnMouseLeave(s), n).smooth, box)
  {
    LeftBlobGoesFarUpLeft(s, n);
  }

  /** The same for all three flags at once. */
  lemma LeaveThenFramesClearsFlags(s: PageState, n: nat, name: Rect, nav: Rect, social: Rect)
    requires SmoothingFactor * n as real * 110.0 >= Abs(Sentinel.x - s.smooth.x)
    requires InVisibleQuadrant(name) && InVisibleQuadrant(nav) && InVisibleQuadrant(social)
    ensures ProximityFlags(Frames(OnMouseLeave(s), n), name, nav, social) == (false, false, false)
  {
    LeaveThenFramesClearsFlag(s, n, name);
    LeaveThenFramesClearsFlag(s, n, nav);
    LeaveThenFramesClearsFlag(s, n, social);
  }

  /** A jump from (0, 0) to (50, 0) spawns one trail of size 65 and opacity 0.6 at (50, 0). */
  lemma FastJumpSpawnsTrail(view: Viewport)
    ensures var r := OnMouseMove(Initial, Point(50.0, 0.0), 50.0, view);
      r.trails == [Trail(Point(50.0, 0.0), 65.0, 0.6, 0)] && r.nextId == 1
  {
  }

  /** A move that does not change the position spawns nothing. */
  lemma StillMoveSpawnsNothing(s: PageState, view: Viewport)
    ensures OnMouseMove(s, s.lastMouse, 0.0, view).trails == s.trails
  {
  }

  /** A blob at (150, 120) is over the box from (100, 100) to (200, 140). */
  lemma BlobInsideBoxHits()
    ensures ElementUnderBlob(Point(150.0, 120.0), Rect(100.0, 100.0, 200.0, 140.0))
  {
  }
}
