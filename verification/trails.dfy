/**
 * The trail lifecycle: a short, ordered list of fading circles left behind by
 * fast pointer moves. A spawn keeps the newest 15 trails and appends one; a
 * decay tick fades and shrinks every trail and drops the ones that have
 * become invisible.
 *
 * Arithmetic is exact: the lifetime bound of 20 ticks below holds for reals,
 * not necessarily for the floating-point values a browser computes.
 */
module Trails {
  import opened Geometry

  datatype Trail = Trail(center: Point, size: real, opacity: real, id: int)

  /** How many existing trails a spawn keeps. */
  const Retain: nat := 15

  /** Longest the list can be right after a spawn. */
  const Capacity: nat := 16

  const SpawnOpacity: real := 0.6
  const FadeStep: real := 0.03
  const ShrinkFactor: real := 0.97

  /** Ticks after which a freshly spawned trail is gone: 0.6 / 0.03. */
  const Lifetime: nat := 20

  /** Largest size a trail is spawned with. */
  const MaxSize: real := 80.0

  /** The newest `Retain` trails, as `slice(-15)` returns them. */
  function Recent(ts: seq<Trail>): (r: seq<Trail>)
    ensures |r| == (if |ts| < Retain then |ts| else Retain)
    ensures r == ts[|ts| - |r|..]
  {
    if |ts| <= Retain then ts else ts[|ts| - Retain..]
  }

  /** A fast move appends a fresh trail after the newest 15 existing ones. */
  function Spawn(ts: seq<Trail>, center: Point, size: real, id: int): (r: seq<Trail>)
    ensures 1 <= |r| <= Capacity
    ensures |r| == (if |ts| < Retain then |ts| else Retain) + 1
    ensures r[|r| - 1] == Trail(center, size, SpawnOpacity, id)
    ensures forall i :: 0 <= i < |r| - 1 ==> r[i] == ts[|ts| - (|r| - 1) + i]
    ensures |ts| < Retain ==> r[..|ts|] == ts
  {
    Recent(ts) + [Trail(center, size, SpawnOpacity, id)]
  }

  /** A trail one tick older: 0.03 more transparent and 3% smaller. */
  function Fade(t: Trail): (f: Trail)
    ensures f.center == t.center && f.id == t.id
    ensures f.opacity < t.opacity && t.opacity - f.opacity == FadeStep
    ensures t.size > 0.0 ==> 0.0 < f.size < t.size
    ensures Visible(f) <==> t.opacity > FadeStep
  {
    t.(opacity := t.opacity - FadeStep, size := t.size * ShrinkFactor)
  }

  predicate Visible(t: Trail) {
    t.opacity > 0.0
  }

  /** One decay tick: fade every trail, keep those still visible, in order. */
  function Decay(ts: seq<Trail>): (r: seq<Trail>)
    ensures |r| <= |ts|
    ensures forall i :: 0 <= i < |r| ==> Visible(r[i])
    ensures forall t :: t in r ==> exists u :: u in ts && t == Fade(u)
    ensures ts == [] ==> r == []
  {
    if ts == [] then []
    else
      var rest := Decay(ts[1..]);
      assert forall t :: t in rest ==> exists u :: u in ts && t == Fade(u) by {
        forall t | t in rest ensures exists u :: u in ts && t == Fade(u) {
          var u :| u in ts[1..] && t == Fade(u);
          assert u in ts;
        }
      }
      var f := Fade(ts[0]);
      if Visible(f) then [f] + rest else rest
  }

  /** Every position moved one place right. */
  function Shift(s: seq<nat>): (r: seq<nat>)
    ensures |r| == |s|
    ensures forall k :: 0 <= k < |s| ==> r[k] == s[k] + 1
  {
    seq(|s|, k requires 0 <= k < |s| => s[k] + 1)
  }

  lemma ShiftMembership(s: seq<nat>, j: nat)
    ensures j + 1 in Shift(s) <==> j in s
    ensures 0 !in Shift(s)
  {
    var r := Shift(s);
    if j + 1 in r {
      var k :| 0 <= k < |r| && r[k] == j + 1;
      assert s[k] == j;
    }
    if j in s {
      var k :| 0 <= k < |s| && s[k] == j;
      assert r[k] == j + 1;
    }
  }

  /** The positions, in order, of the trails that are still visible after one fade. */
  function Survivors(ts: seq<Trail>): seq<nat> {
    if ts == [] then []
    else if Visible(Fade(ts[0])) then [0] + Shift(Survivors(ts[1..]))
    else Shift(Survivors(ts[1..]))
  }

  /** Survivor positions are in range, strictly increasing, and name exactly the trails that stay visible. */
  lemma {:induction false} SurvivorsAreTheVisible(ts: seq<Trail>)
    ensures forall k :: 0 <= k < |Survivors(ts)| ==> Survivors(ts)[k] < |ts|
    ensures forall k, l :: 0 <= k < l < |Survivors(ts)| ==> Survivors(ts)[k] < Survivors(ts)[l]
    ensures forall j :: 0 <= j < |ts| ==> (Visible(Fade(ts[j])) <==> j in Survivors(ts))
  {
    if ts != [] {
      var tail := ts[1..];
      SurvivorsAreTheVisible(tail);
      var st := Survivors(tail);
      var sh := Shift(st);
      forall j | 1 <= j < |ts|
        ensures Visible(Fade(ts[j])) <==> j in Survivors(ts)
      {
        ShiftMembership(st, j - 1);
        assert ts[j] == tail[j - 1];
      }
      ShiftMembership(st, 0);
    }
  }

  /** The k-th trail a decay tick returns is the fade of the k-th survivor. */
  lemma {:induction false} DecayFollowsSurvivors(ts: seq<Trail>)
    ensures |Decay(ts)| == |Survivors(ts)|
    ensures forall k :: 0 <= k < |Survivors(ts)| ==>
      0 <= Survivors(ts)[k] < |ts| && Decay(ts)[k] == Fade(ts[Survivors(ts)[k]])
  {
    if ts != [] {
      var tail := ts[1..];
      DecayFollowsSurvivors(tail);
      var st := Survivors(tail);
      var idx := Survivors(ts);
      var out := Decay(ts);
      if Visible(Fade(ts[0])) {
        assert idx == [0] + Shift(st);
        assert out == [Fade(ts[0])] + Decay(tail);
        forall k | 0 <= k < |idx|
          ensures 0 <= idx[k] < |ts| && out[k] == Fade(ts[idx[k]])
        {
          if k > 0 {
            assert idx[k] == st[k - 1] + 1;
            assert out[k] == Decay(tail)[k - 1];
            assert ts[idx[k]] == tail[st[k - 1]];
          }
        }
      } else {
        assert idx == Shift(st);
        assert out == Decay(tail);
        forall k | 0 <= k < |idx|
          ensures 0 <= idx[k] < |ts| && out[k] == Fade(ts[idx[k]])
        {
          assert ts[idx[k]] == tail[st[k]];
        }
      }
    }
  }

  /**
   * A decay tick returns exactly the faded images of the trails that survive
   * the fade, each once, in their original order: the k-th output is the
   * fade of input `Survivors(ts)[k]`, those positions increase, and a
   * position is among them iff its trail is still visible once faded.
   */
  lemma DecayIsFadedSurvivors(ts: seq<Trail>)
    ensures |Decay(ts)| == |Survivors(ts)|
    ensures forall k :: 0 <= k < |Survivors(ts)| ==>
      Survivors(ts)[k] < |ts| && Decay(ts)[k] == Fade(ts[Survivors(ts)[k]])
    ensures forall k, l :: 0 <= k < l < |Survivors(ts)| ==> Survivors(ts)[k] < Survivors(ts)[l]
    ensures forall j :: 0 <= j < |ts| ==> (Visible(Fade(ts[j])) <==> j in Survivors(ts))
  {
    SurvivorsAreTheVisible(ts);
    DecayFollowsSurvivors(ts);
  }

  /** `k` decay ticks in a row. */
  function DecayN(ts: seq<Trail>, k: nat): seq<Trail> {
    if k == 0 then ts else Decay(DecayN(ts, k - 1))
  }

  /** A trail aged by `k` ticks in one step: opacity down by 0.03 k, size times 0.97^k. */
  function Age(t: Trail, k: nat): Trail {
    t.(opacity := t.opacity - FadeStep * k as real, size := t.size * Pow(ShrinkFactor, k))
  }

  /** The trails still visible after aging by `k`, aged, in order. */
  function Aged(ts: seq<Trail>, k: nat): seq<Trail> {
    if ts == [] then []
    else if Visible(Age(ts[0], k)) then [Age(ts[0], k)] + Aged(ts[1..], k)
    else Aged(ts[1..], k)
  }

  lemma FadeOfAge(t: Trail, k: nat)
    ensures Fade(Age(t, k)) == Age(t, k + 1)
  {
    var p := Pow(ShrinkFactor, k);
    assert Pow(ShrinkFactor, k + 1) == ShrinkFactor * p;
    assert t.size * p * ShrinkFactor == t.size * (ShrinkFactor * p);
  }

  lemma {:induction false} DecayOfAged(ts: seq<Trail>, k: nat)
    ensures Decay(Aged(ts, k)) == Aged(ts, k + 1)
  {
    if ts != [] {
      DecayOfAged(ts[1..], k);
      FadeOfAge(ts[0], k);
      if Visible(Age(ts[0], k)) {
        assert Aged(ts, k) == [Age(ts[0], k)] + Aged(ts[1..], k);
        assert Aged(ts, k)[1..] == Aged(ts[1..], k);
      } else {
        assert !Visible(Age(ts[0], k + 1));
      }
    }
  }

  lemma {:induction false} AgedZero(ts: seq<Trail>)
    requires forall i :: 0 <= i < |ts| ==> Visible(ts[i])
    ensures Aged(ts, 0) == ts
  {
    if ts != [] {
      AgedZero(ts[1..]);
      assert Age(ts[0], 0) == ts[0];
      assert [ts[0]] + ts[1..] == ts;
    }
  }

  /**
   * Closed form of `k` ticks on a list of visible trails: exactly the trails
   * whose opacity exceeds 0.03 k remain, in order, each with opacity lowered
   * by 0.03 k and size scaled by 0.97^k, and with centre and id unchanged.
   */
  lemma {:induction false} DecayNIsAged(ts: seq<Trail>, k: nat)
    requires forall i :: 0 <= i < |ts| ==> Visible(ts[i])
    ensures DecayN(ts, k) == Aged(ts, k)
  {
    if k == 0 {
      AgedZero(ts);
    } else {
      DecayNIsAged(ts, k - 1);
      DecayOfAged(ts, k - 1);
    }
  }

  lemma {:induction false} AgedEmptyWhenFaded(ts: seq<Trail>, k: nat)
    requires forall i :: 0 <= i < |ts| ==> ts[i].opacity <= FadeStep * k as real
    ensures Aged(ts, k) == []
  {
    if ts != [] {
      assert ts[0].opacity <= FadeStep * k as real;
      AgedEmptyWhenFaded(ts[1..], k);
    }
  }

  /** No visible trail of opacity at most 0.6 survives 20 decay ticks. */
  lemma TrailsGoneAfterLifetime(ts: seq<Trail>)
    requires forall i :: 0 <= i < |ts| ==> 0.0 < ts[i].opacity <= SpawnOpacity
    ensures DecayN(ts, Lifetime) == []
  {
    DecayNIsAged(ts, Lifetime);
    AgedEmptyWhenFaded(ts, Lifetime);
  }

  /**
   * A freshly spawned trail survives exactly 19 ticks: after `k` ticks it is
   * still there, with opacity 0.6 - 0.03 k, iff k < 20.
   */
  lemma SpawnedTrailLifetime(t: Trail, k: nat)
    requires t.opacity == SpawnOpacity
    ensures |DecayN([t], k)| == (if k < Lifetime then 1 else 0)
    ensures k < Lifetime ==> DecayN([t], k)[0].opacity == SpawnOpacity - FadeStep * k as real
    ensures k < Lifetime ==> DecayN([t], k)[0].id == t.id
  {
    DecayNIsAged([t], k);
    assert [t][1..] == [];
    assert Aged([t][1..], k) == [];
  }

  /** Ids strictly increase along the list. */
  predicate IdsIncreasing(ts: seq<Trail>) {
    forall i, j :: 0 <= i < j < |ts| ==> ts[i].id < ts[j].id
  }

  /** Every id is below the next id to hand out. */
  predicate IdsBelow(ts: seq<Trail>, next: int) {
    forall i :: 0 <= i < |ts| ==> ts[i].id < next
  }

  /** A spawn that uses the counter's value keeps ids increasing and below the bumped counter. */
  lemma SpawnKeepsIdsIncreasing(ts: seq<Trail>, center: Point, size: real, next: int)
    requires IdsIncreasing(ts) && IdsBelow(ts, next)
    ensures IdsIncreasing(Spawn(ts, center, size, next))
    ensures IdsBelow(Spawn(ts, center, size, next), next + 1)
  {
    var kept := Recent(ts);
    SuffixKeepsIds(ts, |ts| - |kept|, next);
    AppendKeepsIds(kept, Trail(center, size, SpawnOpacity, next));
  }

  /** Any suffix of a list with increasing ids below `next` has the same two properties. */
  lemma SuffixKeepsIds(ts: seq<Trail>, k: nat, next: int)
    requires k <= |ts|
    requires IdsIncreasing(ts) && IdsBelow(ts, next)
    ensures IdsIncreasing(ts[k..]) && IdsBelow(ts[k..], next)
  {
    var tail := ts[k..];
    forall i | 0 <= i < |tail| ensures tail[i] == ts[k + i] { }
  }

  /** Appending a trail whose id exceeds every id of the list keeps ids increasing. */
  lemma AppendKeepsIds(kept: seq<Trail>, t: Trail)
    requires IdsIncreasing(kept) && IdsBelow(kept, t.id)
    ensures IdsIncreasing(kept + [t]) && IdsBelow(kept + [t], t.id + 1)
  {
    var r := kept + [t];
    forall i | 0 <= i < |kept| ensures r[i] == kept[i] { }
  }

  /** Every id of a decayed list is the id of some trail of the input. */
  lemma DecayIdsFromInput(ts: seq<Trail>, next: int)
    requires IdsBelow(ts, next)
    ensures IdsBelow(Decay(ts), next)
  {
    var r := Decay(ts);
    forall i | 0 <= i < |r| ensures r[i].id < next {
      assert r[i] in r;
      var u :| u in ts && r[i] == Fade(u);
    }
  }

  /** A decay tick keeps ids strictly increasing. */
  lemma {:induction false} DecayKeepsIdsIncreasing(ts: seq<Trail>)
    requires IdsIncreasing(ts)
    ensures IdsIncreasing(Decay(ts))
  {
    if ts != [] {
      DecayKeepsIdsIncreasing(ts[1..]);
      var rest := Decay(ts[1..]);
      forall i | 0 <= i < |rest| ensures ts[0].id < rest[i].id {
        assert rest[i] in rest;
        var u :| u in ts[1..] && rest[i] == Fade(u);
      }
    }
  }

  /** What every trail on the page satisfies between events. */
  predicate WellFormedTrail(t: Trail) {
    0.0 < t.opacity <= SpawnOpacity && 0.0 < t.size <= MaxSize
  }

  predicate ValidTrails(ts: seq<Trail>, next: int) {
    && |ts| <= Capacity
    && IdsIncreasing(ts)
    && IdsBelow(ts, next)
    && forall i :: 0 <= i < |ts| ==> WellFormedTrail(ts[i])
  }

  /**
   * A decay tick keeps a valid list valid (what each survivor becomes is
   * stated by `DecayIsFadedSurvivors`).
   */
  lemma DecayPreservesValidity(ts: seq<Trail>, next: int)
    requires ValidTrails(ts, next)
    ensures ValidTrails(Decay(ts), next)
  {
    DecayKeepsIdsIncreasing(ts);
    DecayIdsFromInput(ts, next);
    var r := Decay(ts);
    forall i | 0 <= i < |r| ensures WellFormedTrail(r[i]) {
      assert r[i] in r;
      var u :| u in ts && r[i] == Fade(u);
      var j :| 0 <= j < |ts| && ts[j] == u;
      assert WellFormedTrail(u);
      assert u.size * ShrinkFactor <= u.size;
    }
  }

  /** A spawn with a size in (0, 80] and the counter's id keeps a valid list valid. */
  lemma SpawnPreservesValidity(ts: seq<Trail>, center: Point, size: real, next: int)
    requires ValidTrails(ts, next)
    requires 0.0 < size <= MaxSize
    ensures ValidTrails(Spawn(ts, center, size, next), next + 1)
  {
    SpawnKeepsIdsIncreasing(ts, center, size, next);
  }
}
