/** The blobs of the hero reveal effect: the main blob that follows the
    pointer and the blobs that orbit it, with the rules by which one
    animation frame moves them.  Coordinates are in the hero container's
    space.  Arithmetic is on mathematical reals; `sin` and `cos` are
    parameters, constrained only where a property needs it. */
module Blobs {

  /** A point of the container. */
  datatype Point = Point(x: real, y: real)

  /** The pointer-following main blob. */
  datatype MainBlob = MainBlob(x: real, y: real, radius: real)

  /** An orbiting blob.  A frame rewrites `x`, `y` and `radius`; `phase`,
      `speed` and `orbitRadius` are drawn once when the blob is created. */
  datatype Blob = Blob(x: real, y: real, radius: real, phase: real, speed: real, orbitRadius: real)

  /** A periodic function of time, standing for `Math.sin` or `Math.cos`. */
  type Wave = real -> real

  /** The one property of `sin` and `cos` the radius bands rely on. */
  ghost predicate UnitBounded(f: Wave) {
    forall t :: -1.0 <= f(t) <= 1.0
  }

  /** The Pythagorean identity, needed for the orbit distance. */
  ghost predicate Pythagorean(sin: Wave, cos: Wave) {
    forall t :: sin(t) * sin(t) + cos(t) * cos(t) == 1.0
  }

  const BlobCount: nat := 5
  /** Where blobs and the target start: well outside the visible area. */
  const Offscreen: real := -200.0
  const Pi: real := 3.141592653589793
  /** The fixed clock increment of one frame. */
  const FrameStep: real := 0.016
  /** Fraction of the remaining distance the main blob covers per frame. */
  const MainFollow: real := 0.1
  /** Fraction of the remaining distance an orbiting blob covers per frame. */
  const OrbitFollow: real := 0.08
  const MainBaseRadius: real := 100.0

  // ---------------------------------------------------------------------
  // Smoothing

  /** Linear interpolation from `a` toward `b` by the fraction `t`: one
      step leaves the fraction `1 - t` of the gap, so `t = 0` stays at `a`
      and `t = 1` lands on `b`. */
  function Lerp(a: real, b: real, t: real): (r: real)
    ensures r - b == (1.0 - t) * (a - b)
    ensures t == 0.0 ==> r == a
    ensures t == 1.0 ==> r == b
  {
    a + (b - a) * t
  }

  /** With `t` in [0, 1] the result lies between the two end points. */
  lemma LerpBetween(a: real, b: real, t: real)
    requires 0.0 <= t <= 1.0
    ensures a <= b ==> a <= Lerp(a, b, t) <= b
    ensures b <= a ==> b <= Lerp(a, b, t) <= a
  {
    var d := b - a;
    if a <= b {
      ProductNonNegative(d, t);
      ProductNonNegative(d, 1.0 - t);
      assert d * (1.0 - t) == d - d * t;
    } else {
      ProductNonNegative(-d, t);
      ProductNonNegative(-d, 1.0 - t);
      assert -d * (1.0 - t) == d * t - d;
    }
  }

  lemma ProductNonNegative(x: real, y: real)
    requires 0.0 <= x && 0.0 <= y
    ensures 0.0 <= x * y
  {
  }

  function Abs(x: real): real {
    if x < 0.0 then -x else x
  }

  /** Scaling by a factor in [-1, 1] does not increase the magnitude. */
  lemma UnitScaled(c: real, d: real)
    requires -1.0 <= c <= 1.0
    ensures Abs(c * d) <= Abs(d)
  {
    if d >= 0.0 {
      ProductNonNegative(1.0 - c, d);
      ProductNonNegative(1.0 + c, d);
    } else {
      ProductNonNegative(1.0 - c, -d);
      ProductNonNegative(1.0 + c, -d);
    }
  }

  /** A point moved from `m` by `c * d` with `c` in [-1, 1] stays within
      `|d|` of `m`. */
  lemma OffsetWithin(m: real, c: real, d: real)
    requires -1.0 <= c <= 1.0
    ensures Abs((m + c * d) - m) <= Abs(d)
  {
    UnitScaled(c, d);
    assert (m + c * d) - m == c * d;
  }

  function Power(x: real, n: nat): real {
    if n == 0 then 1.0 else x * Power(x, n - 1)
  }

  /** The coordinate reached after `frames` steps of smoothing toward a
      target that does not move. */
  function Follow(a: real, target: real, t: real, frames: nat): real {
    if frames == 0 then a else Lerp(Follow(a, target, t, frames - 1), target, t)
  }

  /** Exponential convergence: after `n` frames the gap to a fixed target
      is `(1 - t)^n` times the initial gap. */
  lemma {:induction false} FollowGap(a: real, target: real, t: real, frames: nat)
    ensures Follow(a, target, t, frames) - target == Power(1.0 - t, frames) * (a - target)
  {
    if frames > 0 {
      FollowGap(a, target, t, frames - 1);
    }
  }

  // ---------------------------------------------------------------------
  // Radii

  /** The main blob's pulsating radius. */
  function MainRadius(time: real, sin: Wave): (r: real)
    requires UnitBounded(sin)
    ensures MainBaseRadius - 25.0 <= r <= MainBaseRadius + 25.0
  {
    var s1, s2 := sin(time * 2.0), sin(time * 3.7);
    assert -1.0 <= s1 <= 1.0 && -1.0 <= s2 <= 1.0;
    MainBaseRadius + s1 * 15.0 + s2 * 10.0
  }

  /** The baseline radius of orbiting blob `i`: larger for later blobs. */
  function OrbitingBaseRadius(i: nat): real {
    30.0 + (i as real) * 5.0
  }

  /** The pulsating radius of orbiting blob `i`: within 12 of its baseline,
      so always positive. */
  function OrbitingRadius(i: nat, time: real, sin: Wave): (r: real)
    requires UnitBounded(sin)
    ensures OrbitingBaseRadius(i) - 12.0 <= r <= OrbitingBaseRadius(i) + 12.0
    ensures r >= 18.0
  {
    var s := sin(time * 3.0 + (i as real) * 0.7);
    assert -1.0 <= s <= 1.0;
    OrbitingBaseRadius(i) + s * 12.0
  }

  /** The orbit radius of blob `i` this frame: its fixed orbit radius plus a
      pulsation of at most 20. */
  function DynamicOrbitRadius(b: Blob, i: nat, time: real, sin: Wave): (r: real)
    requires UnitBounded(sin)
    ensures b.orbitRadius - 20.0 <= r <= b.orbitRadius + 20.0
  {
    var s := sin(time * 1.5 + (i as real) * 0.8);
    assert -1.0 <= s <= 1.0;
    b.orbitRadius + s * 20.0
  }

  // ---------------------------------------------------------------------
  // One frame

  /** The main blob after one frame at clock `time`, following `target`. */
  function StepMain(m: MainBlob, target: Point, time: real, sin: Wave): (r: MainBlob)
    requires UnitBounded(sin)
    ensures r.x - target.x == (1.0 - MainFollow) * (m.x - target.x)
    ensures r.y - target.y == (1.0 - MainFollow) * (m.y - target.y)
    ensures 75.0 <= r.radius <= 125.0
  {
    MainBlob(Lerp(m.x, target.x, MainFollow), Lerp(m.y, target.y, MainFollow), MainRadius(time, sin))
  }

  /** The angle of blob `b` on its orbit at clock `time`: its creation
      phase at time 0. */
  function OrbitAngle(b: Blob, time: real): (angle: real)
    ensures time == 0.0 ==> angle == b.phase
  {
    b.phase + time * b.speed
  }

  /** The angle advances by the blob's speed per unit of clock time. */
  lemma OrbitAngleAdvance(b: Blob, time: real, elapsed: real)
    ensures OrbitAngle(b, time + elapsed) == OrbitAngle(b, time) + elapsed * b.speed
  {
  }

  /** The point on blob `i`'s orbit around the main blob at clock `time`:
      on each axis it is no farther from the main blob than this frame's
      orbit radius. */
  function OrbitPoint(b: Blob, i: nat, time: real, main: MainBlob, sin: Wave, cos: Wave): (p: Point)
    requires UnitBounded(sin) && UnitBounded(cos)
    ensures var d := DynamicOrbitRadius(b, i, time, sin);
      Abs(p.x - main.x) <= Abs(d) && Abs(p.y - main.y) <= Abs(d)
  {
    var angle := OrbitAngle(b, time);
    var radius := DynamicOrbitRadius(b, i, time, sin);
    var c, s := cos(angle), sin(angle);
    assert -1.0 <= c <= 1.0 && -1.0 <= s <= 1.0;
    OffsetWithin(main.x, c, radius);
    OffsetWithin(main.y, s, radius);
    Point(main.x + c * radius, main.y + s * radius)
  }

  /** What blob `i` moves toward this frame: its orbit point plus a wobble of
      at most 15 on each axis. */
  function OrbitGoal(b: Blob, i: nat, time: real, main: MainBlob, sin: Wave, cos: Wave): (g: Point)
    requires UnitBounded(sin) && UnitBounded(cos)
    ensures var d := DynamicOrbitRadius(b, i, time, sin);
      Abs(g.x - main.x) <= Abs(d) + 15.0 && Abs(g.y - main.y) <= Abs(d) + 15.0
  {
    var p := OrbitPoint(b, i, time, main, sin, cos);
    var sx, cy := sin(time * 2.5 + (i as real) * 1.2), cos(time * 2.1 + (i as real) * 0.9);
    assert -1.0 <= sx <= 1.0 && -1.0 <= cy <= 1.0;
    Point(p.x + sx * 15.0, p.y + cy * 15.0)
  }

  /** Orbiting blob `i` after one frame at clock `time`: it covers 8% of the
      way to its goal, takes its new pulsating radius, and keeps its phase,
      speed and orbit radius. */
  function StepOrbiting(b: Blob, i: nat, time: real, main: MainBlob, sin: Wave, cos: Wave): (r: Blob)
    requires UnitBounded(sin) && UnitBounded(cos)
    ensures r.phase == b.phase && r.speed == b.speed && r.orbitRadius == b.orbitRadius
    ensures var goal := OrbitGoal(b, i, time, main, sin, cos);
      r.x - goal.x == (1.0 - OrbitFollow) * (b.x - goal.x) &&
      r.y - goal.y == (1.0 - OrbitFollow) * (b.y - goal.y)
    ensures OrbitingBaseRadius(i) - 12.0 <= r.radius <= OrbitingBaseRadius(i) + 12.0
  {
    var goal := OrbitGoal(b, i, time, main, sin, cos);
    b.(x := Lerp(b.x, goal.x, OrbitFollow),
       y := Lerp(b.y, goal.y, OrbitFollow),
       radius := OrbitingRadius(i, time, sin))
  }

  /** The orbit point lies at exactly this frame's orbit radius from the
      main blob, when `sin` and `cos` satisfy the Pythagorean identity. */
  lemma OrbitPointDistance(b: Blob, i: nat, time: real, main: MainBlob, sin: Wave, cos: Wave)
    requires UnitBounded(sin) && UnitBounded(cos) && Pythagorean(sin, cos)
    ensures var p := OrbitPoint(b, i, time, main, sin, cos);
      var d := DynamicOrbitRadius(b, i, time, sin);
      (p.x - main.x) * (p.x - main.x) + (p.y - main.y) * (p.y - main.y) == d * d
  {
  }

  // ---------------------------------------------------------------------
  // Creation

  /** The fixed starting angle of blob `i`: the five blobs start at
      angles in [0, 2π). */
  function BlobPhase(i: nat): (phase: real)
    ensures 0.0 <= phase
    ensures i < BlobCount ==> phase < 2.0 * Pi
  {
    (Pi * 2.0 * (i as real)) / 5.0
  }

  /** Consecutive blobs start a fifth of the circle apart. */
  lemma BlobPhasesEvenlySpaced(i: nat)
    ensures BlobPhase(i + 1) - BlobPhase(i) == 2.0 * Pi / 5.0
  {
  }

  /** The parameters drawn at creation lie in their ranges, and the phase is
      blob `i`'s share of the circle. */
  ghost predicate CreatedParameters(b: Blob, i: nat) {
    b.phase == BlobPhase(i) &&
    0.4 <= b.speed < 0.8 &&
    80.0 <= b.orbitRadius < 120.0
  }

  /** Blob `i` as created from three random draws in [0, 1), taken in the
      order radius, speed, orbit radius. */
  function CreatedBlob(i: nat, forRadius: real, forSpeed: real, forOrbit: real): (b: Blob)
    requires 0.0 <= forRadius < 1.0 && 0.0 <= forSpeed < 1.0 && 0.0 <= forOrbit < 1.0
    ensures b.x == Offscreen && b.y == Offscreen
    ensures 30.0 <= b.radius < 55.0
    ensures CreatedParameters(b, i)
  {
    Blob(Offscreen, Offscreen,
         30.0 + forRadius * 25.0,
         BlobPhase(i),
         0.4 + forSpeed * 0.4,
         80.0 + forOrbit * 40.0)
  }

  /** The random draws a sequence of blobs consumes: three per blob. */
  ghost predicate Draws(random: seq<real>) {
    |random| == 3 * BlobCount && forall k :: 0 <= k < |random| ==> 0.0 <= random[k] < 1.0
  }

  /** The mount-time initialisation: five blobs pushed one by one, each from
      the next three random draws. */
  method CreateOrbitingBlobs(random: seq<real>) returns (blobs: seq<Blob>)
    requires Draws(random)
    ensures |blobs| == BlobCount
    ensures forall i :: 0 <= i < BlobCount ==>
      blobs[i] == CreatedBlob(i, random[3 * i], random[3 * i + 1], random[3 * i + 2])
    ensures forall i :: 0 <= i < |blobs| ==> CreatedParameters(blobs[i], i)
  {
    blobs := [];
    var i := 0;
    while i < BlobCount
      invariant 0 <= i <= BlobCount && |blobs| == i
      invariant forall j :: 0 <= j < i ==>
        blobs[j] == CreatedBlob(j, random[3 * j], random[3 * j + 1], random[3 * j + 2])
    {
      blobs := blobs + [CreatedBlob(i, random[3 * i], random[3 * i + 1], random[3 * i + 2])];
      i := i + 1;
    }
  }
}
