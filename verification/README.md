# Pointer-reactive landing page: verified model of its state and geometry rules

The page is a single React component (`src/app/page.tsx`) that reveals a hidden
image through a "blob" following the mouse. Under the rendering and hook
plumbing it holds a small set of deterministic rules, modelled here over exact
reals:

- **Trail lifecycle** (`Trails`): a fast pointer move keeps the newest 15 trails
  and appends one with opacity 0.6 and the next id; a decay tick (every 30 ms)
  lowers every opacity by 0.03, scales every size by 0.97 and drops trails whose
  opacity is no longer positive.
- **Pointer rules** (`Motion`): the per-frame smoothing step that moves the blob
  0.12 of the way toward the pointer, the parallax offset (−0.02 × displacement
  from the viewport centre), and the spawn rule (speed > 8, size
  min(80, 40 + speed/2)).
- **Proximity hit test** (`Geometry`): clamp the blob centre to an element's box
  and compare the distance to the clamped point with a radius (80 in the page's
  own helper, 90 in the name, navigation and social elements).
- **Reveal compositor geometry** (`Reveal`): the "contain" placement of the
  hidden image and membership in the clip region (the 85×75 ellipse while
  hovering, plus a circle of radius size/2 per trail).
- **The page as a state machine** (`Page`): one immutable state value and the
  four steps that change it: pointer move, pointer leave, animation frame,
  decay tick.

Square roots are avoided: distances are compared squared
(`Geometry.HitMatchesEuclideanDistance` shows this agrees with the source's
`Math.sqrt` comparison), and where the source uses the speed itself (the trail
size) the speed is a parameter constrained to be the length of the move.

Details of the code's behaviour that the model keeps:

- The radius-80 `isUnderBlob` on the page (lines 165-184) is declared but never
  called; only the radius-90 copies in the three elements are used. Both are
  modelled by the one `Geometry.IsUnderBlob`.
- On mouse leave only the raw position and the hover flag change. The position
  of the last move is not reset, so the first move after re-entry measures its
  speed from the last in-page position (`Page.OnMouseLeave`).
- No coordinate is guarded against NaN; the model has no NaN, so nothing is
  guarded either.

## Model

| member | source | states |
|---|---|---|
| Geometry.Clamp | src/app/page.tsx:170-177 | the clamped value lies in a well-formed interval, equals the input inside it, the nearer bound outside it, and the lower bound on an inverted interval |
| Geometry.ClampIsNearest | src/app/page.tsx:170-177 | no point of the interval is closer to the input than its clamp |
| Geometry.ClosestPoint | src/app/page.tsx:286-287 | the clamped point lies in a well-formed box, and is the centre itself when the centre is in the box |
| Geometry.ClosestPointIsNearest | src/app/page.tsx:286-291 | the clamped point is at least as close to the blob centre as every point of the box |
| Geometry.IsUnderBlob | src/app/page.tsx:165-184 | a centre inside the box always hits (radius > 0); a hit on a well-formed box has a box point closer than the radius |
| Geometry.HitIffDiskMeetsBox | src/app/page.tsx:170-183 | the hit test is true iff the open disk of the radius around the centre meets the box |
| Geometry.HitMatchesEuclideanDistance | src/app/page.tsx:179-183 | with d the square root of the squared distance, the result equals d < radius, so d == radius is not a hit |
| Geometry.ElementUnderBlob | src/app/page.tsx:279-295 | an element's flag is true iff some point of its box is within distance 90, is true when the blob is inside the box, and false whenever the blob is 90 or more left of or above the viewport and the box is in the visible quadrant |
| Geometry.HitTestFacts | src/app/page.tsx:170-183 | for any positive radius: on a well-formed box the test is "some box point is closer than the radius", and a centre one radius or more left of or above the origin misses every box in the visible quadrant |
| Geometry.FarUpLeftHitsNothing | src/app/page.tsx:170-183 | a blob centre with x or y at most −radius is never over a box whose left and top are non-negative |
| Geometry.SentinelHitsNothing | src/app/page.tsx:159-162 | the parked position (−200, −200) hits no box with left, top ≥ 0 at radius 80 or 90 |
| Motion.SmoothStep | src/app/page.tsx:29-32 | each new coordinate lies between the old smoothed value and the pointer, the remaining gap is exactly 0.88 of the old one, and the pointer is the only fixed point |
| Motion.SmoothStepContracts | src/app/page.tsx:29-32 | one frame multiplies the squared distance to the pointer by 0.88², so it never grows |
| Motion.SmoothedGap | src/app/page.tsx:27-35 | after n frames with the pointer still, the gap on each axis is 0.88ⁿ times the initial gap |
| Motion.SmoothedReachesTargetOnlyFromIt | src/app/page.tsx:27-35 | after any number of frames the blob is on a still pointer iff it started there: it approaches but never arrives |
| Motion.SmoothedNeverOvershoots | src/app/page.tsx:27-35 | after any number of frames the blob lies between its start and the pointer on each axis |
| Motion.SmoothingConverges | src/app/page.tsx:27-41 | once 0.12·n·eps covers the initial gap, the gap after n frames is at most eps on both axes |
| Motion.SmoothingConvergesX | src/app/page.tsx:27-41 | the horizontal half of the convergence bound, needing only the horizontal gap to be covered |
| Motion.Parallax | src/app/page.tsx:148-154 | the offset opposes the displacement from the centre, is zero exactly at the centre, and determines the pointer (inverse `PointerFromParallax`) |
| Motion.ParallaxIsOdd | src/app/page.tsx:149-154 | pointers mirrored through the viewport centre get opposite offsets |
| Motion.SpawnsIffSquaredSpeedAbove64 | src/app/page.tsx:127-132 | for the Euclidean speed of a move, speed > 8 iff dx² + dy² > 64 |
| Motion.TrailSize | src/app/page.tsx:133 | a spawned trail's size lies in (44, 80], is 80 exactly when the speed is at least 80, and otherwise is 40 plus half the speed |
| Trails.Recent | src/app/page.tsx:135 | the result is the last min(n, 15) trails of the list, in order |
| Trails.Spawn | src/app/page.tsx:134-143 | the list has at most 16 trails; the new trail is last with opacity 0.6 and the given id; the ones before it are exactly the last min(15, n) old trails in order, all of them when there were fewer than 15 |
| Trails.Fade | src/app/page.tsx:109-113 | one tick keeps a trail's centre and id, lowers its opacity by exactly 0.03, shrinks a positive size, and leaves it visible iff its opacity was above 0.03 |
| Trails.Decay | src/app/page.tsx:107-115 | the result is no longer than the input, holds only visible trails, each one a faded input trail, and an empty list stays empty |
| Trails.SurvivorsAreTheVisible | src/app/page.tsx:114 | the survivor positions are in range, strictly increasing, and name exactly the trails whose faded opacity is positive |
| Trails.DecayFollowsSurvivors | src/app/page.tsx:108-114 | the k-th trail after a tick is the fade of the k-th survivor |
| Trails.DecayIsFadedSurvivors | src/app/page.tsx:107-115 | a tick returns exactly the fades of the surviving trails, each once, in original order, with id and centre kept, opacity 0.03 lower and size 0.97 times |
| Trails.DecayNIsAged | src/app/page.tsx:106-116 | k ticks keep exactly the trails with opacity above 0.03k, in order, with opacity lowered by 0.03k and size scaled by 0.97^k |
| Trails.TrailsGoneAfterLifetime | src/app/page.tsx:111-114 | a list of trails with opacities in (0, 0.6] is empty after 20 ticks |
| Trails.SpawnedTrailLifetime | src/app/page.tsx:140 | a trail spawned at opacity 0.6 is present after k ticks iff k < 20, with opacity 0.6 − 0.03k and its id |
| Trails.SpawnKeepsIdsIncreasing | src/app/page.tsx:141 | spawning with the counter's value keeps ids strictly increasing and below the incremented counter |
| Trails.SuffixKeepsIds | src/app/page.tsx:135 | keeping only the newest trails keeps ids increasing and below the counter |
| Trails.AppendKeepsIds | src/app/page.tsx:136-142 | appending a trail whose id is the counter keeps ids increasing and below the bumped counter |
| Trails.DecayIdsFromInput | src/app/page.tsx:108-114 | a tick introduces no id at or above the counter |
| Trails.DecayKeepsIdsIncreasing | src/app/page.tsx:108-114 | a tick keeps ids strictly increasing |
| Trails.DecayPreservesValidity | src/app/page.tsx:107-115 | a tick keeps the list valid: at most 16 trails, ids increasing and below the counter, opacity in (0, 0.6], size in (0, 80] |
| Trails.SpawnPreservesValidity | src/app/page.tsx:134-143 | a spawn with a size in (0, 80] keeps the list valid under the incremented counter |
| Reveal.ContainPlacement | src/app/page.tsx:580-597 | the draw rectangle fits in the canvas, has the image's aspect ratio, fills one canvas dimension, and is centred with non-negative offsets |
| Reveal.WiderFitsHeight | src/app/page.tsx:585-590 | fitting a relatively wider image to the width keeps its height within the canvas and its aspect ratio |
| Reveal.TallerFitsWidth | src/app/page.tsx:591-596 | fitting a relatively taller image to the height keeps its width within the canvas and its aspect ratio |
| Reveal.ContainIsLargest | src/app/page.tsx:580-597 | every rectangle of the image's aspect ratio that fits the canvas is at most as wide and as tall as the placement |
| Reveal.EllipseExtent | src/app/page.tsx:606-608 | the blob's clip ellipse lies strictly within 85 horizontally and 75 vertically of its centre, and reaches exactly that far along each axis |
| Reveal.TrailCircleMatchesRadius | src/app/page.tsx:611-614 | with d the Euclidean distance to a trail's centre, a point is in the trail's circle iff d is below half the trail's size, the arc's radius |
| Reveal.ClipCovers | src/app/page.tsx:603-616 | adding the ellipse and then each trail circle, the clip covers a point iff it is in the ellipse while hovering or in some trail's circle |
| Reveal.NothingRevealedWhenIdle | src/app/page.tsx:605-614 | with no hover and no trails the clip region is empty |
| Reveal.HoveringRevealsBlobCentre | src/app/page.tsx:606-608 | while hovering, the blob's centre is revealed |
| Reveal.TrailRevealsItsCentre | src/app/page.tsx:611-614 | a trail of positive size reveals its own centre |
| Page.OnMouseMove | src/app/page.tsx:120-157 | the move records the position, sets hovering and the parallax; it spawns (bumping the counter, new trail last, at most 16) iff dx² + dy² > 64, and otherwise leaves trails and counter alone |
| Page.OnMouseLeave | src/app/page.tsx:159-162 | leaving parks the pointer at (−200, −200) and clears hovering, changing nothing else |
| Page.OnFrame | src/app/page.tsx:27-35 | a frame moves only the blob, to a point between its old position and the pointer |
| Page.OnDecayTick | src/app/page.tsx:105-118 | a tick changes only the trails, never lengthens them, and leaves only visible ones |
| Page.InitialIsValid | src/app/page.tsx:16-22 | the first-render state is valid |
| Page.StepsPreserveValidity | src/app/page.tsx:105-162 | move, leave, frame and tick each keep the page valid |
| Page.DecayTicksAreDecayN | src/app/page.tsx:105-118 | k ticks of the page change only its trails, as k list decays |
| Page.LeaveThenLifetimeRevealsNothing | src/app/page.tsx:159-162 | after the pointer leaves and 20 ticks pass, no trail remains and the clip region of the resulting state (not hovering, no trails) is empty |
| Page.ProximityFlags | src/app/page.tsx:279-295 | each of the three elements' flags is true when the blob is inside its box and false when the blob is 90 or more left of or above the viewport and the box is in the visible quadrant |
| Page.FramesAreSmoothed | src/app/page.tsx:27-35 | n animation frames change only the blob's position, exactly as n smoothing steps toward the pointer |
| Page.LeftBlobNeverParks | src/app/page.tsx:27-35 | after the pointer leaves, no number of frames brings the blob exactly to (−200, −200) unless it was already there |
| Page.LeftBlobGoesFarUpLeft | src/app/page.tsx:27-35 | after the pointer leaves, once 0.12·n·110 covers the blob's horizontal distance from −200, n frames put the blob at least 90 left of the viewport |
| Page.LeaveThenFramesClearsFlag | src/app/page.tsx:159-162 | after the pointer leaves and enough frames pass, the radius-90 test behind each proximity flag is false for an element in the visible quadrant |
| Page.LeaveThenFramesClearsFlags | src/app/page.tsx:159-162 | after the pointer leaves and enough frames pass, all three proximity flags are false for elements in the visible quadrant |
| Page.FastJumpSpawnsTrail | src/app/page.tsx:126-143 | a jump from (0, 0) to (50, 0) spawns the single trail at (50, 0) of size 65, opacity 0.6 and id 0 |
| Page.StillMoveSpawnsNothing | src/app/page.tsx:126-132 | a move of length zero spawns no trail |
| Page.BlobInsideBoxHits | src/app/page.tsx:279-293 | a blob at (150, 120) is over the box (100, 100)-(200, 140) |

The three radius-90 copies at src/app/page.tsx:279-295, 323-339 and 654-670 are
identical; `Geometry.ElementUnderBlob` models all three.

Clip membership (`Reveal.Revealed`: the ellipse of `Reveal.InBlobEllipse` while
hovering, or the circle of `Reveal.InTrailCircle` of some trail) is stated in the
canvas's own coordinates. The page shifts the whole canvas on screen by the
parallax offset with a CSS transform (src/app/page.tsx:643), so a point of the
canvas appears on screen displaced by `Motion.Parallax` of the pointer; the model
does not compose the two. Its meaning is pinned down by `Reveal.ClipCovers`,
`Reveal.EllipseExtent` and `Reveal.TrailCircleMatchesRadius`.

## Left out

- Wave renderer (src/app/page.tsx:44-102): sine-based canvas strokes and the phase accumulator; transcendental floating-point drawing with nothing to state beyond the drawing itself.
- React scheduling: `useState`/`useEffect` re-subscription, `requestAnimationFrame`, `setInterval` and teardown. Each periodic callback is a pure step (`Page.OnFrame`, `Page.OnDecayTick`); the caller chooses the order.
- Canvas and image I/O: `getContext`, `clearRect`, `clip`, `drawImage`, resize handlers and the asynchronous image load. Only the placement arithmetic and the clip-region membership are kept.
- Presentational code: the dropdown and its click-outside handling, the portfolio and social link tables, SVG markup, colours, shadows, transitions, the custom cursor and the 1.5× parallax applied to the content layer.
- IEEE-754 rounding: numbers are exact reals. The 20-tick lifetime and the 0.88 contraction are exact-arithmetic facts; with doubles, 0.6 − 20·0.03 may land slightly above or below zero.
- Clip-region boundary: membership is strict (points on an ellipse or circle outline are outside). Canvas anti-aliasing on the outline is not modelled. All subpaths wind the same way, so the non-zero fill rule gives their union.
- Page.LeaveThenFramesClearsFlag: the frame count it asks for is sufficient, not the least; and once the blob has left, decay ticks (which do not move it) may interleave with the frames without changing the result, but the lemma states only uninterrupted frames.
- Page.OnMouseMove: the speed is a parameter required to be the length of the move (`Math.sqrt` is not modelled), so the contract only covers calls that pass the true speed.
- Reveal.ContainPlacement: requires positive image and viewport sizes; with a zero size the source divides by zero and draws with infinite or NaN values, which the model does not represent.
- Geometry.IsUnderBlob: requires a positive radius; the page only uses 80 and 90.
- Motion.SmoothingConverges: states a frame count sufficient for a given tolerance (from 0.88ⁿ·(1 + 0.12n) ≤ 1), not the exact limit.
- Trail ids under React's development double-invocation of state updaters: the counter may then advance twice per spawn. Ids still strictly increase, but they are not consecutive. The model increments once.
