/** The agents' behaviour in hooks/useSwarmSimulation.ts as functions on agent
    values: construction, force accumulation, integration, the four steering
    rules, the nearest-wasp search and one whole animation tick. The in-place
    methods of module Simulation are proved to compute exactly these values. */
module Steering {
  import opened Types
  import opened Host
  import opened RealArith
  import opened VectorOps

  const NUM_WASPS: nat := 3
  const BEES_PER_WASP: nat := 20
  const PADDING: real := 100.0

  const WASP_SIZE: real := 2.0
  const WASP_MAX_SPEED: real := 3.5
  const WASP_MAX_FORCE: real := 0.05
  const BEE_SIZE: real := 2.0
  const BEE_MAX_SPEED: real := 4.0
  const BEE_MAX_FORCE: real := 0.2

  // The steering constants (wander radius 50, wander distance 100, wander
  // change 0.3, arrival radius 100, separation 2.5 body sizes) appear as
  // literals where they multiply, so that the products stay linear.

  /** A `Math.random()` result: a real in [0, 1). */
  predicate Unit(r: real)
  {
    0.0 <= r < 1.0
  }

  /** The four `Math.random()` results one `createBoid` call consumes, in the
      order it consumes them. */
  datatype Draw = Draw(x: real, y: real, heading: real, wander: real)
  {
    predicate Valid()
    {
      Unit(x) && Unit(y) && Unit(heading) && Unit(wander)
    }
  }

  /** The fields no step ever reassigns. */
  predicate SameAgent(a: BoidState, b: BoidState)
  {
    a.id == b.id && a.maxSpeed == b.maxSpeed && a.maxForce == b.maxForce && a.size == b.size
  }

  /** Inside the drawing area [0, width) x [0, height). */
  predicate InArea(p: Vector, width: real, height: real)
  {
    0.0 <= p.x < width && 0.0 <= p.y < height
  }

  // ---- construction ----

  /** A draw r in [0, 1) scaled by a positive w lands in [0, w). */
  lemma ScaledDraw(r: real, w: real, p: real)
    requires p == r * w
    ensures Unit(r) && 0.0 < w ==> 0.0 <= p < w
  {
    if Unit(r) && 0.0 < w {
      MulNonneg(r, w, p);
      MulLt(r, 1.0, w, p, w);
    }
  }

  /** `createBoid`: a random position in the area, a random unit heading, a
      random wander angle in [0, 2*PI), no acceleration and angle 0. */
  function CreateBoid(m: Math, width: real, height: real, size: real, maxSpeed: real, maxForce: real,
                      id: Id, d: Draw): (b: BoidState)
    requires m.Valid()
    ensures b.id == id && b.size == size && b.maxSpeed == maxSpeed && b.maxForce == maxForce
    ensures b.acceleration == Zero && b.angle == 0.0
    ensures MagSq(b.velocity) == 1.0
    ensures d.Valid() && 0.0 < width && 0.0 < height ==> InArea(b.position, width, height)
    ensures d.Valid() ==> 0.0 <= b.wanderAngle < PI * 2.0
  {
    ScaledDraw(d.x, width, d.x * width);
    ScaledDraw(d.y, height, d.y * height);
    ScaledDraw(d.wander, PI * 2.0, d.wander * (PI * 2.0));
    BoidState(id, Vector(d.x * width, d.y * height), FromAngle(m, d.heading * (PI * 2.0)), Zero,
              maxSpeed, maxForce, size, 0.0, d.wander * (PI * 2.0))
  }

  function SpawnWasp(m: Math, width: real, height: real, id: Id, d: Draw): (r: BoidState)
    requires m.Valid()
    ensures r.id == id && r.size == 2.0 && r.maxSpeed == 3.5 && r.maxForce == 0.05
    ensures d.Valid() && 0.0 < width && 0.0 < height ==> InArea(r.position, width, height)
  {
    CreateBoid(m, width, height, WASP_SIZE, WASP_MAX_SPEED, WASP_MAX_FORCE, id, d)
  }

  function SpawnBee(m: Math, width: real, height: real, id: Id, d: Draw): (r: BeeState)
    requires m.Valid()
    ensures r.body.id == id && r.body.size == 2.0 && r.body.maxSpeed == 4.0 && r.body.maxForce == 0.2
    ensures r.targetWaspId == None
    ensures d.Valid() && 0.0 < width && 0.0 < height ==> InArea(r.body.position, width, height)
  {
    BeeState(CreateBoid(m, width, height, BEE_SIZE, BEE_MAX_SPEED, BEE_MAX_FORCE, id, d), None)
  }

  /** Both populations of the simulation. */
  datatype World = World(wasps: seq<BoidState>, bees: seq<BeeState>)

  /** How many draws `initialize` consumes: one per agent. */
  const POPULATION: nat := NUM_WASPS + NUM_WASPS * BEES_PER_WASP

  /** The wasps `initialize` builds: the k-th takes id firstId + k and the k-th draw. */
  function InitialWasps(m: Math, width: real, height: real, draws: seq<Draw>, firstId: Id): (ws: seq<BoidState>)
    requires m.Valid() && NUM_WASPS <= |draws|
    ensures |ws| == NUM_WASPS
    ensures forall i :: 0 <= i < |ws| ==> ws[i] == SpawnWasp(m, width, height, firstId + i, draws[i])
  {
    seq(NUM_WASPS, i requires 0 <= i < NUM_WASPS => SpawnWasp(m, width, height, firstId + i, draws[i]))
  }

  /** The bees `initialize` builds after the wasps: the k-th takes id
      firstId + NUM_WASPS + k and draw NUM_WASPS + k. */
  function InitialBees(m: Math, width: real, height: real, draws: seq<Draw>, firstId: Id): (bs: seq<BeeState>)
    requires m.Valid() && |draws| == POPULATION
    ensures |bs| == NUM_WASPS * BEES_PER_WASP
    ensures forall i :: 0 <= i < |bs| ==>
      bs[i] == SpawnBee(m, width, height, firstId + NUM_WASPS + i, draws[NUM_WASPS + i])
  {
    seq(NUM_WASPS * BEES_PER_WASP, i requires 0 <= i < NUM_WASPS * BEES_PER_WASP =>
      SpawnBee(m, width, height, firstId + NUM_WASPS + i, draws[NUM_WASPS + i]))
  }

  /** The populations `initialize` builds: NUM_WASPS wasps, then
      NUM_WASPS * BEES_PER_WASP bees, the k-th agent built taking id firstId + k
      and the k-th draw. */
  function InitialWorld(m: Math, width: real, height: real, draws: seq<Draw>, firstId: Id): (r: World)
    requires m.Valid() && |draws| == POPULATION
    ensures |r.wasps| == NUM_WASPS && |r.bees| == NUM_WASPS * BEES_PER_WASP
  {
    World(InitialWasps(m, width, height, draws, firstId), InitialBees(m, width, height, draws, firstId))
  }

  /** `initialize` yields exactly 3 wasps and 60 bees with the source's sizes,
      speeds and forces, fresh consecutive ids, no acceleration, angle 0, no
      target, and (for valid draws and a positive area) positions inside the area. */
  lemma InitialWorldShape(m: Math, width: real, height: real, draws: seq<Draw>, firstId: Id)
    requires m.Valid() && |draws| == POPULATION
    ensures var w := InitialWorld(m, width, height, draws, firstId);
      && |w.wasps| == 3 && |w.bees| == 60
      && (forall i :: 0 <= i < |w.wasps| ==>
            w.wasps[i].size == 2.0 && w.wasps[i].maxSpeed == 3.5 && w.wasps[i].maxForce == 0.05
            && w.wasps[i].acceleration == Zero && w.wasps[i].angle == 0.0 && w.wasps[i].id == firstId + i)
      && (forall i :: 0 <= i < |w.bees| ==>
            w.bees[i].body.size == 2.0 && w.bees[i].body.maxSpeed == 4.0 && w.bees[i].body.maxForce == 0.2
            && w.bees[i].targetWaspId == None
            && w.bees[i].body.acceleration == Zero && w.bees[i].body.angle == 0.0
            && w.bees[i].body.id == firstId + 3 + i)
      && ((forall k :: 0 <= k < |draws| ==> draws[k].Valid()) && 0.0 < width && 0.0 < height ==>
            (forall i :: 0 <= i < |w.wasps| ==> InArea(w.wasps[i].position, width, height)) &&
            (forall i :: 0 <= i < |w.bees| ==> InArea(w.bees[i].body.position, width, height)))
  {
    var w := InitialWorld(m, width, height, draws, firstId);
    forall i | 0 <= i < |w.bees|
      ensures w.bees[i].body == CreateBoid(m, width, height, BEE_SIZE, BEE_MAX_SPEED, BEE_MAX_FORCE, firstId + 3 + i, draws[3 + i])
    {
    }
  }

  // ---- applyForce and update ----

  /** `applyForce`: the force is added to the acceleration. */
  function Push(b: BoidState, force: Vector): (r: BoidState)
    ensures r == b.(acceleration := r.acceleration)
    ensures Sub(r.acceleration, b.acceleration) == force
  {
    b.(acceleration := Add(b.acceleration, force))
  }

  /** Forces accumulate: applying f and then g is applying their sum. */
  lemma PushAccumulates(b: BoidState, f: Vector, g: Vector)
    ensures Push(Push(b, f), g) == Push(b, Add(f, g))
  {
  }

  /** An angle in radians, converted to degrees. */
  function Degrees(radians: real): (r: real)
    ensures r * PI == radians * 180.0
  {
    radians * (180.0 / PI)
  }

  /** `update`: the acceleration is added to the velocity, which is limited to
      maxSpeed; the position moves by the new velocity; the acceleration is
      cleared; the angle follows the new heading, in degrees. */
  function Integrate(m: Math, b: BoidState): (r: BoidState)
    requires m.Valid()
    ensures SameAgent(r, b) && r.wanderAngle == b.wanderAngle
    ensures r.acceleration == Zero
    ensures MagSq(r.velocity) <= Sq(b.maxSpeed)
    ensures MagSq(Add(b.velocity, b.acceleration)) <= Sq(b.maxSpeed) ==>
      r.velocity == Add(b.velocity, b.acceleration)
    ensures r.position == Add(b.position, r.velocity)
  {
    var velocity := Limit(m, Add(b.velocity, b.acceleration), b.maxSpeed);
    b.(velocity := velocity, position := Add(b.position, velocity), acceleration := Zero,
       angle := Degrees(m.atan2(velocity.y, velocity.x)))
  }

  // ---- boundaries ----

  /** At least PADDING away from every edge of the area. */
  predicate InSafeZone(p: Vector, width: real, height: real)
  {
    PADDING <= p.x <= width - PADDING && PADDING <= p.y <= height - PADDING
  }

  /** The desired velocity of `boundaries`: full speed away from a near edge,
      keeping the other component. The y test comes last and overrides the x one. */
  function BoundaryDesired(width: real, height: real, b: BoidState): (r: Option<Vector>)
    ensures r.None? <==> InSafeZone(b.position, width, height)
    ensures b.position.y < PADDING ==> r == Some(Vector(b.velocity.x, b.maxSpeed))
    ensures PADDING <= b.position.y && height - PADDING < b.position.y ==>
      r == Some(Vector(b.velocity.x, -b.maxSpeed))
    ensures PADDING <= b.position.y <= height - PADDING && b.position.x < PADDING ==>
      r == Some(Vector(b.maxSpeed, b.velocity.y))
    ensures PADDING <= b.position.y <= height - PADDING && PADDING <= b.position.x && width - PADDING < b.position.x ==>
      r == Some(Vector(-b.maxSpeed, b.velocity.y))
  {
    var p := b.position;
    var fromX :=
      if p.x < PADDING then Some(Vector(b.maxSpeed, b.velocity.y))
      else if p.x > width - PADDING then Some(Vector(-b.maxSpeed, b.velocity.y))
      else None;
    if p.y < PADDING then Some(Vector(b.velocity.x, b.maxSpeed))
    else if p.y > height - PADDING then Some(Vector(b.velocity.x, -b.maxSpeed))
    else fromX
  }

  /** The limit on the steering force of `boundaries`: twice maxForce. */
  function EdgeForce(maxForce: real): real
  {
    maxForce * 2.0
  }

  /** `boundaries`: inside the safe zone nothing happens; otherwise one steering
      force toward the desired velocity, at most twice maxForce long, is applied. */
  function Boundaries(m: Math, width: real, height: real, b: BoidState): (r: BoidState)
    requires m.Valid()
    ensures InSafeZone(b.position, width, height) ==> r == b
    ensures r == b.(acceleration := r.acceleration)
  {
    var desired := BoundaryDesired(width, height, b);
    if desired.None? then b
    else
      var steer := Sub(Mult(Normalize(m, desired.value), b.maxSpeed), b.velocity);
      Push(b, Limit(m, steer, EdgeForce(b.maxForce)))
  }

  /** The force `boundaries` applies is at most twice maxForce long. */
  lemma BoundariesBounded(m: Math, width: real, height: real, b: BoidState)
    requires m.Valid()
    ensures MagSq(Sub(Boundaries(m, width, height, b).acceleration, b.acceleration)) <= Sq(EdgeForce(b.maxForce))
  {
    var desired := BoundaryDesired(width, height, b);
    if desired.None? {
      ZeroPush(b, EdgeForce(b.maxForce));
    } else {
      var steer := Sub(Mult(Normalize(m, desired.value), b.maxSpeed), b.velocity);
    }
  }

  /** `boundaries` steers back toward the area, for a boid no faster than its
      positive maxSpeed: below the top padding its push has no downward
      (negative y) part, beyond the bottom padding no upward part; between the
      two, left of the left padding its push has no leftward part, beyond the
      right padding no rightward part. (In a corner the y rule decides, and the
      x part may point outward: CornerPushesOut.) */
  lemma BoundariesTurnInward(m: Math, width: real, height: real, b: BoidState)
    requires m.Valid() && 0.0 < b.maxSpeed && 0.0 <= b.maxForce && MagSq(b.velocity) <= Sq(b.maxSpeed)
    ensures var push := Sub(Boundaries(m, width, height, b).acceleration, b.acceleration);
      && (b.position.y < PADDING ==> 0.0 <= push.y)
      && (PADDING <= b.position.y && height - PADDING < b.position.y ==> push.y <= 0.0)
      && (PADDING <= b.position.y <= height - PADDING && b.position.x < PADDING ==> 0.0 <= push.x)
      && (PADDING <= b.position.y <= height - PADDING && PADDING <= b.position.x && width - PADDING < b.position.x ==>
            push.x <= 0.0)
  {
    var desired := BoundaryDesired(width, height, b);
    if desired.Some? {
      var d, v := desired.value, b.velocity;
      var steer := Sub(Mult(Normalize(m, d), b.maxSpeed), v);
      LimitKeepsSigns(m, steer, EdgeForce(b.maxForce));
      if b.position.y < PADDING || height - PADDING < b.position.y {
        SteerOnY(m, d, b.maxSpeed, v);
      } else {
        SteerOnX(m, d, b.maxSpeed, v);
      }
    }
  }

  /** The steer of `boundaries` on the y axis, where the desired velocity d
      holds s or -s: its unit vector rescaled to speed s is, on that axis,
      never behind a velocity v no faster than s. */
  lemma SteerOnY(m: Math, d: Vector, s: real, v: Vector)
    requires m.Valid() && 0.0 < s && MagSq(v) <= Sq(s) && (d == Vector(v.x, s) || d == Vector(v.x, -s))
    ensures d.y == s ==> 0.0 <= Sub(Mult(Normalize(m, d), s), v).y
    ensures d.y == -s ==> Sub(Mult(Normalize(m, d), s), v).y <= 0.0
  {
    var n, l := Normalize(m, d), Mag(m, d);
    UnitComponents(m, d, n, l);
    AxisSteer(s, d.y, v.x, v.y, n.y, l);
  }

  /** The same on the x axis. */
  lemma SteerOnX(m: Math, d: Vector, s: real, v: Vector)
    requires m.Valid() && 0.0 < s && MagSq(v) <= Sq(s) && (d == Vector(s, v.y) || d == Vector(-s, v.y))
    ensures d.x == s ==> 0.0 <= Sub(Mult(Normalize(m, d), s), v).x
    ensures d.x == -s ==> Sub(Mult(Normalize(m, d), s), v).x <= 0.0
  {
    var n, l := Normalize(m, d), Mag(m, d);
    UnitComponents(m, d, n, l);
    AxisSteer(s, d.x, v.y, v.x, n.x, l);
  }

  /** The unit vector n of a nonzero d and its length l: n scaled by l is d,
      and l is positive with l * l the squared magnitude of d. */
  lemma UnitComponents(m: Math, d: Vector, n: Vector, l: real)
    requires m.Valid() && d != Zero && n == Normalize(m, d) && l == Mag(m, d)
    ensures 0.0 < l && l * l == d.x * d.x + d.y * d.y
    ensures n.x * l == d.x && n.y * l == d.y
  {
    MagSqSign(d, MagSq(d));
    assert Mult(n, l) == d;
  }

  /** In a corner the y rule overrides the x one, and the x part of the push
      can point out of the area: 50 units from the left and top edges, moving
      right at speed 3 with maxSpeed 4 and maxForce 0.2, the boid is pushed
      to the left. */
  lemma CornerPushesOut(m: Math, width: real, height: real)
    requires m.Valid()
    ensures var b := BoidState(0, Vector(50.0, 50.0), Vector(3.0, 0.0), Vector(0.0, 0.0), 4.0, 0.2, 2.0, 0.0, 0.0);
      Sub(Boundaries(m, width, height, b).acceleration, b.acceleration).x < 0.0
  {
    var b := BoidState(0, Vector(50.0, 50.0), Vector(3.0, 0.0), Vector(0.0, 0.0), 4.0, 0.2, 2.0, 0.0, 0.0);
    var d := Vector(3.0, 4.0);
    assert BoundaryDesired(width, height, b) == Some(d);
    var l := Mag(m, d);
    SquareInjective(l, 5.0, 25.0);
    var n := Normalize(m, d);
    assert n == Vector(0.6, 0.8);
    var steer := Sub(Mult(n, 4.0), b.velocity);
    assert steer == Vector(-0.6, 3.2);
    var r := Limit(m, steer, 0.4);
    var k := Mag(m, steer);
    assert r.x * k == -0.24;
    if 0.0 <= r.x {
      MulNonneg(r.x, k, r.x * k);
    }
  }

  /** A push by a force within a bound changes the acceleration by no more than that bound. */
  lemma PushBounded(b: BoidState, f: Vector, k: real)
    requires MagSq(f) <= Sq(k)
    ensures MagSq(Sub(Push(b, f).acceleration, b.acceleration)) <= Sq(k)
  {
  }

  /** A boid left alone gains no acceleration, which is within any bound k. */
  lemma ZeroPush(b: BoidState, k: real)
    ensures MagSq(Sub(b.acceleration, b.acceleration)) <= Sq(k)
  {
    assert Sub(b.acceleration, b.acceleration) == Zero;
    SquareNonneg(k, Sq(k));
  }

  // ---- seek ----

  /** The speed `seek` asks for: maxSpeed, scaled down by d / 100
      inside the arrival radius. */
  function ArrivalSpeed(maxSpeed: real, d: real): (s: real)
    ensures 0.0 <= maxSpeed && 0.0 <= d ==> 0.0 <= s <= maxSpeed
    ensures d < 100.0 ==> s == maxSpeed * (d / 100.0)
    ensures 100.0 <= d ==> s == maxSpeed
  {
    var f := if d < 100.0 then d / 100.0 else 1.0;
    ArrivalFactor(maxSpeed, f, maxSpeed * f);
    maxSpeed * f
  }

  lemma ArrivalFactor(maxSpeed: real, f: real, s: real)
    requires s == maxSpeed * f
    ensures 0.0 <= maxSpeed && 0.0 <= f <= 1.0 ==> 0.0 <= s <= maxSpeed
    ensures f == 1.0 ==> s == maxSpeed
  {
    if 0.0 <= maxSpeed && 0.0 <= f <= 1.0 {
      MulNonneg(maxSpeed, f, s);
      MulLe(f, 1.0, maxSpeed, s, maxSpeed);
    }
  }

  /** A farther target never asks for a lower speed. */
  lemma {:induction false} ArrivalSpeedMonotone(maxSpeed: real, d1: real, d2: real)
    requires 0.0 <= maxSpeed && d1 <= d2
    ensures ArrivalSpeed(maxSpeed, d1) <= ArrivalSpeed(maxSpeed, d2)
  {
    var f1 := if d1 < 100.0 then d1 / 100.0 else 1.0;
    var f2 := if d2 < 100.0 then d2 / 100.0 else 1.0;
    MulLe(f1, f2, maxSpeed, f1 * maxSpeed, f2 * maxSpeed);
  }

  /** The velocity `seek` wants: toward the target, at the arrival speed
      (nothing at all at the target itself, see SeekAtTarget). */
  function SeekDesired(m: Math, b: BoidState, target: Vector): (r: Vector)
    requires m.Valid()
    ensures Dist(m, target, b.position) == 0.0 ==> MagSq(r) == 0.0
    ensures 0.0 < Dist(m, target, b.position) ==>
      var speed := ArrivalSpeed(b.maxSpeed, Dist(m, target, b.position));
      MagSq(r) == Sq(speed) && Mult(r, Dist(m, target, b.position)) == Mult(Sub(target, b.position), speed)
  {
    var desired := Sub(target, b.position);
    SetMag(m, desired, ArrivalSpeed(b.maxSpeed, Mag(m, desired)))
  }

  /** At the target itself `seek` wants the zero velocity. */
  lemma SeekAtTarget(m: Math, b: BoidState, target: Vector)
    requires m.Valid() && target == b.position
    ensures SeekDesired(m, b, target) == Zero
  {
    var desired := Sub(target, b.position);
    SubZero(target, b.position);
    SetMagZero(m, desired, ArrivalSpeed(b.maxSpeed, Mag(m, desired)));
  }

  /** `seek`: the steering force toward the target, at most maxForce long. */
  function Seek(m: Math, b: BoidState, target: Vector): (f: Vector)
    requires m.Valid()
    ensures MagSq(f) <= Sq(b.maxForce)
    ensures MagSq(Sub(SeekDesired(m, b, target), b.velocity)) <= Sq(b.maxForce) ==>
      f == Sub(SeekDesired(m, b, target), b.velocity)
  {
    Limit(m, Sub(SeekDesired(m, b, target), b.velocity), b.maxForce)
  }

  // ---- wander ----

  /** The centre of the wander circle: 100 units ahead along the velocity
      (the position itself when the boid is at rest). */
  function WanderCenter(m: Math, b: BoidState): (c: Vector)
    requires m.Valid()
    ensures MagSq(b.velocity) == 0.0 ==> c == b.position
    ensures 0.0 < MagSq(b.velocity) ==> MagSq(Sub(c, b.position)) == Sq(100.0)
    ensures 0.0 < MagSq(b.velocity) ==> Mult(Sub(c, b.position), Mag(m, b.velocity)) == Mult(b.velocity, 100.0)
  {
    var ahead := Mult(Normalize(m, b.velocity), 100.0);
    ScaledUnit(m, b.velocity, 100.0);
    AddZero(b.position);
    AddSubInverse(b.position, ahead);
    Add(b.position, ahead)
  }

  /** The wander target: on the circle of radius 50 around the
      centre, at the boid's wander angle. */
  function WanderTarget(m: Math, b: BoidState): (t: Vector)
    requires m.Valid()
    ensures MagSq(Sub(t, WanderCenter(m, b))) == Sq(50.0)
  {
    var heading := FromAngle(m, b.wanderAngle);
    var offset := Mult(heading, 50.0);
    MagSqScale(heading, 50.0, Sq(50.0), MagSq(heading), MagSq(heading) * Sq(50.0));
    MulOne(MagSq(heading), Sq(50.0), MagSq(heading) * Sq(50.0));
    AddSubInverse(WanderCenter(m, b), offset);
    Add(WanderCenter(m, b), offset)
  }

  /** The wander angle after one random drift of draw * 0.3 - 0.15. */
  function DriftWanderAngle(draw: real, b: BoidState): (r: BoidState)
    ensures Unit(draw) ==> b.wanderAngle - 0.15 <= r.wanderAngle < b.wanderAngle + 0.15
    ensures r == b.(wanderAngle := r.wanderAngle)
  {
    b.(wanderAngle := b.wanderAngle + draw * 0.3 - 0.3 * 0.5)
  }

  /** `wander`: the wander angle drifts, then the boid seeks its wander target. */
  function Wander(m: Math, draw: real, b: BoidState): (r: BoidState)
    requires m.Valid()
    ensures Unit(draw) ==> b.wanderAngle - 0.15 <= r.wanderAngle < b.wanderAngle + 0.15
    ensures r == b.(wanderAngle := r.wanderAngle, acceleration := r.acceleration)
  {
    var turned := DriftWanderAngle(draw, b);
    Push(turned, Seek(m, turned, WanderTarget(m, turned)))
  }

  /** The force `wander` applies is at most maxForce long. */
  lemma WanderBounded(m: Math, draw: real, b: BoidState)
    requires m.Valid()
    ensures MagSq(Sub(Wander(m, draw, b).acceleration, b.acceleration)) <= Sq(b.maxForce)
  {
    var t := DriftWanderAngle(draw, b);
    var f := Seek(m, t, WanderTarget(m, t));
    assert Wander(m, draw, b) == Push(t, f);
  }

  // ---- separate ----

  /** Whether `other` pushes `me` away: another agent, not at the same spot,
      closer than 2.5 body sizes. */
  predicate Repels(m: Math, me: BoidState, other: BoidState)
    requires m.Valid()
    ensures Repels(m, me, other) ==> me.id != other.id && me.position != other.position
  {
    DistZero(m, me.position, other.position);
    me.id != other.id && 0.0 < Dist(m, me.position, other.position) < me.size * 2.5
  }

  /** What the loop of `separate` accumulates: the summed push and how many
      peers contributed to it. */
  datatype Crowd = Crowd(sum: Vector, count: nat)

  /** The loop of `separate` over `others`, in order: the sum of the unit vectors
      away from each repelling peer, each divided by its distance, and how many
      peers repel. */
  function SeparationSum(m: Math, me: BoidState, others: seq<BoidState>): (r: Crowd)
    requires m.Valid()
    ensures r.count <= |others|
    ensures r.count == 0 ==> r.sum == Zero
    decreases |others|
  {
    if |others| == 0 then Crowd(Zero, 0)
    else
      var n := |others| - 1;
      var prefix := SeparationSum(m, me, others[..n]);
      var other := others[n];
      if Repels(m, me, other) then
        var d := Dist(m, me.position, other.position);
        Crowd(Add(prefix.sum, Div(Normalize(m, Sub(me.position, other.position)), d)), prefix.count + 1)
      else
        prefix
  }

  /** The loop counts nobody exactly when no peer repels. */
  lemma {:induction false} NoCrowdIffNoneRepels(m: Math, me: BoidState, others: seq<BoidState>)
    requires m.Valid()
    ensures SeparationSum(m, me, others).count == 0 <==> forall j :: 0 <= j < |others| ==> !Repels(m, me, others[j])
    decreases |others|
  {
    if |others| > 0 {
      var n := |others| - 1;
      NoCrowdIffNoneRepels(m, me, others[..n]);
      assert forall j :: 0 <= j < n ==> others[..n][j] == others[j];
    }
  }

  /** The force `separate` applies, if any: the average push, turned into a
      velocity at maxSpeed, minus the current velocity, limited to maxForce. */
  function SeparationForce(m: Math, me: BoidState, others: seq<BoidState>): (r: Option<Vector>)
    requires m.Valid()
    ensures r.None? <==> SeparationSum(m, me, others).count == 0
    ensures r.Some? ==> MagSq(r.value) <= Sq(me.maxForce)
  {
    var crowd := SeparationSum(m, me, others);
    if crowd.count > 0 then
      var average := Div(crowd.sum, crowd.count as real);
      Some(Limit(m, Sub(Mult(Normalize(m, average), me.maxSpeed), me.velocity), me.maxForce))
    else
      None
  }

  /** `separate`: applies the separation force, if there is one. */
  function Separate(m: Math, me: BoidState, others: seq<BoidState>): (r: BoidState)
    requires m.Valid()
    ensures r == me.(acceleration := r.acceleration)
  {
    var force := SeparationForce(m, me, others);
    if force.None? then me else Push(me, force.value)
  }

  /** Without a repelling peer `separate` changes nothing; with one it applies
      exactly the separation force. */
  lemma SeparateSpec(m: Math, me: BoidState, others: seq<BoidState>, k: nat)
    requires m.Valid()
    ensures (forall j :: 0 <= j < |others| ==> !Repels(m, me, others[j])) ==> Separate(m, me, others) == me
    ensures k < |others| && Repels(m, me, others[k]) ==>
      SeparationForce(m, me, others).Some? && Separate(m, me, others) == Push(me, SeparationForce(m, me, others).value)
  {
    NoCrowdIffNoneRepels(m, me, others);
  }

  /** With a single repelling peer k, the loop's sum is that peer's push
      alone: the unit vector away from it, divided by its distance. */
  lemma {:induction false} LoneRepeller(m: Math, me: BoidState, others: seq<BoidState>, k: nat)
    requires m.Valid() && k < |others| && Repels(m, me, others[k])
    requires forall j :: 0 <= j < |others| && j != k ==> !Repels(m, me, others[j])
    ensures SeparationSum(m, me, others) ==
      Crowd(Div(Normalize(m, Sub(me.position, others[k].position)), Dist(m, me.position, others[k].position)), 1)
    decreases |others|
  {
    var n := |others| - 1;
    var prefix := others[..n];
    assert forall j :: 0 <= j < n ==> prefix[j] == others[j];
    if k < n {
      LoneRepeller(m, me, prefix, k);
    } else {
      NoCrowdIffNoneRepels(m, me, prefix);
    }
  }

  /** With a single repelling peer and the boid at rest, the separation force
      points straight away from that peer: it is me.position - other.position
      scaled by a positive factor. */
  lemma SeparationAway(m: Math, me: BoidState, others: seq<BoidState>, k: nat)
    requires m.Valid() && 0.0 < me.maxSpeed && 0.0 < me.maxForce && me.velocity == Zero
    requires k < |others| && Repels(m, me, others[k])
    requires forall j :: 0 <= j < |others| && j != k ==> !Repels(m, me, others[j])
    ensures SeparationForce(m, me, others).Some?
    ensures exists c :: 0.0 < c && SeparationForce(m, me, others).value == Mult(Sub(me.position, others[k].position), c)
  {
    LoneRepeller(m, me, others, k);
    var away := Sub(me.position, others[k].position);
    var d := Dist(m, me.position, others[k].position);
    var n := Normalize(m, away);
    var u := Div(n, d);
    DivThenMult(n, d);
    DivByOne(u);
    SubZero(me.position, others[k].position);
    var ik := UnitAway(m, away, d, u);
    var speed := ik * me.maxSpeed;
    MulPos(ik, me.maxSpeed, speed);
    var desired := Mult(Normalize(m, Div(u, 1.0)), me.maxSpeed);
    MultMult(away, ik, me.maxSpeed, speed);
    AddZero(desired);
    var t := LimitAlong(m, desired, me.maxForce);
    var c := speed * t;
    MultMult(away, speed, t, c);
    MulPos(speed, t, c);
    assert SeparationForce(m, me, others).value == Mult(away, c);
  }

  /** The average push u of a lone repelling peer, which scaled twice by the
      distance d gives `away`, normalizes to `away` scaled by a positive factor. */
  lemma UnitAway(m: Math, away: Vector, d: real, u: Vector) returns (ik: real)
    requires m.Valid() && 0.0 < d && Mult(Mult(u, d), d) == away && away != Zero
    ensures 0.0 < ik && Normalize(m, u) == Mult(away, ik)
  {
    if u == Zero {
      ScaleZero(d);
      assert false;
    }
    MagSqSign(u, MagSq(u));
    ik := ScaleBack(Normalize(m, u), Mag(m, u), d, u, away);
  }

  /** Scaling the zero vector twice leaves it zero. */
  lemma ScaleZero(d: real)
    ensures Mult(Mult(Zero, d), d) == Zero
  {
  }

  /** A vector n that scaled by l > 0 gives u, and u scaled twice by d > 0 gives
      `away`, is `away` scaled back by a positive factor. */
  lemma ScaleBack(n: Vector, l: real, d: real, u: Vector, away: Vector) returns (ik: real)
    requires 0.0 < l && 0.0 < d && Mult(n, l) == u && Mult(Mult(u, d), d) == away
    ensures 0.0 < ik && n == Mult(away, ik)
  {
    var p := l * d;
    MultMult(n, l, d, p);
    var K := p * d;
    MultMult(n, p, d, K);
    MulPos(l, d, p);
    MulPos(p, d, K);
    MultUndo(n, K, away);
    InversePositive(0.0, K);
    ik := 1.0 / K;
  }

  /** The force `separate` applies is at most maxForce long. */
  lemma SeparateBounded(m: Math, me: BoidState, others: seq<BoidState>)
    requires m.Valid()
    ensures MagSq(Sub(Separate(m, me, others).acceleration, me.acceleration)) <= Sq(me.maxForce)
  {
    var force := SeparationForce(m, me, others);
    if force.None? {
      assert Separate(m, me, others) == me;
      ZeroPush(me, me.maxForce);
    } else {
      assert Separate(m, me, others) == Push(me, force.value);
      PushBounded(me, force.value, me.maxForce);
    }
  }

  // ---- nearest wasp ----

  /** The search loop of `animate`: the index of the first wasp at the least
      distance from p, or None when there are no wasps. */
  function Nearest(m: Math, p: Vector, wasps: seq<BoidState>): (r: Option<nat>)
    requires m.Valid()
    ensures r.None? <==> |wasps| == 0
    ensures r.Some? ==> r.value < |wasps|
    decreases |wasps|
  {
    if |wasps| == 0 then None
    else
      var best := Nearest(m, p, wasps[..|wasps| - 1]);
      var k := |wasps| - 1;
      if best.None? || Dist(m, p, wasps[k].position) < Dist(m, p, wasps[best.value].position) then Some(k)
      else best
  }

  /** The wasp `Nearest` picks is at least as close as every wasp and strictly
      closer than every wasp before it: ties go to the first in list order. */
  lemma {:induction false} NearestIsFirstMinimum(m: Math, p: Vector, wasps: seq<BoidState>)
    requires m.Valid() && |wasps| > 0
    ensures var k := Nearest(m, p, wasps).value;
      && (forall j :: 0 <= j < |wasps| ==> Dist(m, p, wasps[k].position) <= Dist(m, p, wasps[j].position))
      && (forall j :: 0 <= j < k ==> Dist(m, p, wasps[k].position) < Dist(m, p, wasps[j].position))
    decreases |wasps|
  {
    var n := |wasps| - 1;
    var prefix := wasps[..n];
    assert forall j :: 0 <= j < n ==> prefix[j] == wasps[j];
    if n > 0 {
      NearestIsFirstMinimum(m, p, prefix);
    }
  }

  // ---- one tick ----

  /** What every turn ends with: the same agent, no acceleration left, and a
      speed of at most maxSpeed. */
  predicate Settled(before: BoidState, after: BoidState)
  {
    SameAgent(after, before) && after.acceleration == Zero && MagSq(after.velocity) <= Sq(before.maxSpeed)
  }

  /** The target is the id of one of the wasps. */
  predicate TargetAmong(t: Option<Id>, wasps: seq<BoidState>)
  {
    t.Some? && exists k :: 0 <= k < |wasps| && wasps[k].id == t.value
  }

  /** A wasp's turn: wander, keep off the edges, integrate. */
  function WaspStep(m: Math, width: real, height: real, draw: real, w: BoidState): (r: BoidState)
    requires m.Valid()
    ensures Settled(w, r)
  {
    Integrate(m, Boundaries(m, width, height, Wander(m, draw, w)))
  }

  /** Every wasp's turn, wasp i taking wander draw i; a wasp's turn looks at
      that wasp alone (a wasp without a draw is left as it is). */
  function WaspTurn(m: Math, width: real, height: real, draws: seq<real>): (turn: (seq<BoidState>, nat) --> BoidState)
    requires m.Valid()
    ensures forall cur: seq<BoidState>, i: nat :: i < |cur| ==> turn.requires(cur, i)
  {
    (cur: seq<BoidState>, i: nat) requires i < |cur| =>
      if i < |draws| then WaspStep(m, width, height, draws[i], cur[i]) else cur[i]
  }

  /** The wasps' turns, in list order, each with its own wander draw. */
  function StepWasps(m: Math, width: real, height: real, draws: seq<real>, wasps: seq<BoidState>): (r: seq<BoidState>)
    requires m.Valid() && |draws| == |wasps|
    ensures |r| == |wasps|
  {
    Sweep(WaspTurn(m, width, height, draws), wasps, |wasps|)
  }

  /** A turn that looks only at its own element sees, whatever the earlier
      turns did, the element as it was: the sweep is then an element-wise map. */
  lemma {:induction false} SweepLocal<T(!new)>(turn: (seq<T>, nat) --> T, xs: seq<T>, n: nat, j: nat)
    requires j < n <= |xs|
    requires forall cur: seq<T>, i: nat :: i < |cur| ==> turn.requires(cur, i)
    requires forall cur: seq<T>, other: seq<T>, i: nat :: i < |cur| && i < |other| && cur[i] == other[i] ==> turn(cur, i) == turn(other, i)
    ensures Sweep(turn, xs, n)[j] == turn(xs, j)
    decreases n
  {
    var cur := Sweep(turn, xs, n - 1);
    if j < n - 1 {
      SweepLocal(turn, xs, n - 1, j);
      assert Sweep(turn, xs, n)[j] == cur[j];
    } else {
      assert cur[j] == xs[j];
    }
  }

  /** The wasps do not see each other: after the sweep, wasp j is exactly the
      result of its own turn on its own state and draw. */
  lemma StepWaspsEach(m: Math, width: real, height: real, draws: seq<real>, wasps: seq<BoidState>, j: nat)
    requires m.Valid() && |draws| == |wasps| && j < |wasps|
    ensures StepWasps(m, width, height, draws, wasps)[j] == WaspStep(m, width, height, draws[j], wasps[j])
  {
    var turn := WaspTurn(m, width, height, draws);
    forall cur: seq<BoidState>, other: seq<BoidState>, i: nat | i < |cur| && i < |other| && cur[i] == other[i]
      ensures turn(cur, i) == turn(other, i)
    {
    }
    SweepLocal(turn, wasps, |wasps|, j);
  }

  /** The boid parts of the bees, in list order. */
  function Bodies(bees: seq<BeeState>): (r: seq<BoidState>)
    ensures |r| == |bees| && forall i :: 0 <= i < |bees| ==> r[i] == bees[i].body
  {
    seq(|bees|, i requires 0 <= i < |bees| => bees[i].body)
  }

  /** The bee once it has chosen and sought its target: the first nearest wasp
      becomes its target; with no wasp the bee is left as it was. */
  function Pursue(m: Math, wasps: seq<BoidState>, bee: BeeState): (r: BeeState)
    requires m.Valid()
    ensures |wasps| == 0 ==> r == bee
    ensures |wasps| > 0 ==> r.targetWaspId == Some(wasps[Nearest(m, bee.body.position, wasps).value].id)
    ensures r.body == bee.body.(acceleration := r.body.acceleration)
  {
    var k := Nearest(m, bee.body.position, wasps);
    if k.None? then bee
    else BeeState(Push(bee.body, Seek(m, bee.body, wasps[k.value].position)), Some(wasps[k.value].id))
  }

  /** The force the chase applies is at most maxForce long. */
  lemma PursueBounded(m: Math, wasps: seq<BoidState>, bee: BeeState)
    requires m.Valid()
    ensures MagSq(Sub(Pursue(m, wasps, bee).body.acceleration, bee.body.acceleration)) <= Sq(bee.body.maxForce)
  {
    var k := Nearest(m, bee.body.position, wasps);
    if k.None? {
      ZeroPush(bee.body, bee.body.maxForce);
    } else {
    }
  }

  /** Bee i's turn, given the bee list `cur` as it stands (bees before i have
      already moved this tick): pursue the nearest wasp, separate from the
      others as they now are, keep off the edges, integrate. */
  function BeeStep(m: Math, width: real, height: real, wasps: seq<BoidState>, cur: seq<BeeState>, i: nat): (r: BeeState)
    requires m.Valid() && i < |cur|
    ensures Settled(cur[i].body, r.body)
    ensures |wasps| == 0 ==> r.targetWaspId == cur[i].targetWaspId
    ensures |wasps| > 0 ==> TargetAmong(r.targetWaspId, wasps)
  {
    FinishTurn(m, width, height, cur, i, Pursue(m, wasps, cur[i]))
  }

  /** The rest of bee i's turn once it has sought its target: separate from
      the bees as they stand, with bee i itself as it now is, keep off the
      edges, integrate; the target stays. */
  function FinishTurn(m: Math, width: real, height: real, cur: seq<BeeState>, i: nat, sought: BeeState): (r: BeeState)
    requires m.Valid() && i < |cur|
    ensures Settled(sought.body, r.body) && r.targetWaspId == sought.targetWaspId
  {
    var separated := Separate(m, sought.body, Bodies(cur[i := sought]));
    BeeState(Integrate(m, Boundaries(m, width, height, separated)), sought.targetWaspId)
  }

  /** A `forEach` over a list whose elements are updated in place, in list
      order: after n turns, element j < n has been replaced by the result of
      its turn, which saw the list as the earlier turns left it. */
  function Sweep<T(!new)>(turn: (seq<T>, nat) --> T, xs: seq<T>, n: nat): (r: seq<T>)
    requires n <= |xs|
    requires forall cur: seq<T>, i: nat :: i < |cur| ==> turn.requires(cur, i)
    ensures |r| == |xs|
    ensures forall j :: n <= j < |xs| ==> r[j] == xs[j]
    decreases n
  {
    if n == 0 then xs
    else
      var cur := Sweep(turn, xs, n - 1);
      cur[n - 1 := turn(cur, n - 1)]
  }

  /** Whatever relation every single turn establishes between an element
      before and after its turn holds, after n turns, for each of the first n
      elements, although later turns saw the updated list. */
  lemma {:induction false} SweepKeeps<T(!new)>(turn: (seq<T>, nat) --> T, rel: (T, T) -> bool, xs: seq<T>, n: nat, j: nat)
    requires j < n <= |xs|
    requires forall cur: seq<T>, i: nat :: i < |cur| ==> turn.requires(cur, i)
    requires forall cur: seq<T>, i: nat :: i < |cur| ==> rel(cur[i], turn(cur, i))
    ensures rel(xs[j], Sweep(turn, xs, n)[j])
    decreases n
  {
    var cur := Sweep(turn, xs, n - 1);
    if j < n - 1 {
      SweepKeeps(turn, rel, xs, n - 1, j);
      assert Sweep(turn, xs, n)[j] == cur[j];
    } else {
      assert cur[j] == xs[j];
    }
  }

  /** Every bee's turn against the wasps as they stand. */
  function BeeTurn(m: Math, width: real, height: real, wasps: seq<BoidState>): (turn: (seq<BeeState>, nat) --> BeeState)
    requires m.Valid()
    ensures forall cur: seq<BeeState>, i: nat :: i < |cur| ==> turn.requires(cur, i)
  {
    (cur: seq<BeeState>, i: nat) requires i < |cur| => BeeStep(m, width, height, wasps, cur, i)
  }

  /** The bees' turns, in list order, against the given wasps. */
  function StepBees(m: Math, width: real, height: real, wasps: seq<BoidState>, bees: seq<BeeState>): (r: seq<BeeState>)
    requires m.Valid()
    ensures |r| == |bees|
  {
    Sweep(BeeTurn(m, width, height, wasps), bees, |bees|)
  }

  /** After the bees' turns every bee is settled. */
  lemma StepBeesSettled(m: Math, width: real, height: real, wasps: seq<BoidState>, bees: seq<BeeState>, j: nat)
    requires m.Valid() && j < |bees|
    ensures Settled(bees[j].body, StepBees(m, width, height, wasps, bees)[j].body)
  {
    var turn := BeeTurn(m, width, height, wasps);
    var rel := (a: BeeState, b: BeeState) => Settled(a.body, b.body);
    forall cur: seq<BeeState>, i: nat | i < |cur| ensures rel(cur[i], turn(cur, i)) {
      assert turn(cur, i) == BeeStep(m, width, height, wasps, cur, i);
    }
    SweepKeeps(turn, rel, bees, |bees|, j);
  }

  /** With wasps about, every bee targets one of them after its turn. */
  lemma StepBeesTarget(m: Math, width: real, height: real, wasps: seq<BoidState>, bees: seq<BeeState>, j: nat)
    requires m.Valid() && j < |bees| && |wasps| > 0
    ensures TargetAmong(StepBees(m, width, height, wasps, bees)[j].targetWaspId, wasps)
  {
    var turn := BeeTurn(m, width, height, wasps);
    var rel := (a: BeeState, b: BeeState) => TargetAmong(b.targetWaspId, wasps);
    forall cur: seq<BeeState>, i: nat | i < |cur| ensures rel(cur[i], turn(cur, i)) {
      assert turn(cur, i) == BeeStep(m, width, height, wasps, cur, i);
    }
    SweepKeeps(turn, rel, bees, |bees|, j);
  }

  /** With no wasp, no bee's target changes. */
  lemma StepBeesNoTarget(m: Math, width: real, height: real, wasps: seq<BoidState>, bees: seq<BeeState>, j: nat)
    requires m.Valid() && j < |bees| && |wasps| == 0
    ensures StepBees(m, width, height, wasps, bees)[j].targetWaspId == bees[j].targetWaspId
  {
    var turn := BeeTurn(m, width, height, wasps);
    var rel := (a: BeeState, b: BeeState) => b.targetWaspId == a.targetWaspId;
    forall cur: seq<BeeState>, i: nat | i < |cur| ensures rel(cur[i], turn(cur, i)) {
      assert turn(cur, i) == BeeStep(m, width, height, wasps, cur, i);
    }
    SweepKeeps(turn, rel, bees, |bees|, j);
  }

  /** One `animate` tick: every wasp takes its turn, then every bee in order,
      bees seeing the wasps' new positions. */
  function Step(m: Math, width: real, height: real, draws: seq<real>, w: World): (r: World)
    requires m.Valid() && |draws| == |w.wasps|
    ensures |r.wasps| == |w.wasps| && |r.bees| == |w.bees|
  {
    var wasps := StepWasps(m, width, height, draws, w.wasps);
    World(wasps, StepBees(m, width, height, wasps, w.bees))
  }

  /** After one tick every agent is settled, the same agent as before with no
      acceleration and a speed of at most maxSpeed; when there are wasps, each
      bee targets one of the new wasps; with none, no bee's target changes. */
  lemma StepSettles(m: Math, width: real, height: real, draws: seq<real>, w: World)
    requires m.Valid() && |draws| == |w.wasps|
    ensures var r := Step(m, width, height, draws, w);
      && (forall i :: 0 <= i < |r.wasps| ==> Settled(w.wasps[i], r.wasps[i]))
      && (forall i :: 0 <= i < |r.bees| ==> Settled(w.bees[i].body, r.bees[i].body))
      && (|w.wasps| > 0 ==> forall i :: 0 <= i < |r.bees| ==> TargetAmong(r.bees[i].targetWaspId, r.wasps))
      && (|w.wasps| == 0 ==> forall i :: 0 <= i < |r.bees| ==> r.bees[i].targetWaspId == w.bees[i].targetWaspId)
  {
    var wasps := StepWasps(m, width, height, draws, w.wasps);
    forall i | 0 <= i < |w.wasps| ensures Settled(w.wasps[i], wasps[i]) {
      StepWaspsEach(m, width, height, draws, w.wasps, i);
    }
    forall i | 0 <= i < |w.bees|
      ensures var b := StepBees(m, width, height, wasps, w.bees)[i];
        && Settled(w.bees[i].body, b.body)
        && (|wasps| > 0 ==> TargetAmong(b.targetWaspId, wasps))
        && (|wasps| == 0 ==> b.targetWaspId == w.bees[i].targetWaspId)
    {
      StepBeesSettled(m, width, height, wasps, w.bees, i);
      if |wasps| > 0 {
        StepBeesTarget(m, width, height, wasps, w.bees, i);
      } else {
        StepBeesNoTarget(m, width, height, wasps, w.bees, i);
      }
    }
  }
}
