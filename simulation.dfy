/** The in-place half of hooks/useSwarmSimulation.ts: the closures that
    reassign a boid's fields (`applyForce`, `update`, `boundaries`, `wander`,
    `separate`), the nearest-wasp loop, one `animate` tick over working copies,
    and the hook's state with `initialize`. Each method is proved to leave its
    objects holding exactly the values the functions of module Steering give. */
module Simulation {
  import opened Types
  import opened Host
  import opened VectorOps
  import opened Steering

  /** The values the wasp objects hold, in list order. */
  function WaspValues(ws: seq<Wasp>): (r: seq<BoidState>)
    reads ws
    ensures |r| == |ws| && forall i :: 0 <= i < |ws| ==> r[i] == ws[i].Value()
  {
    seq(|ws|, i reads ws requires 0 <= i < |ws| => ws[i].Value())
  }

  /** The values the bee objects hold, in list order. */
  function BeeValues(bs: seq<Bee>): (r: seq<BeeState>)
    reads bs, set b | b in bs :: b.body
    ensures |r| == |bs| && forall i :: 0 <= i < |bs| ==> r[i] == bs[i].Value()
  {
    seq(|bs|, i reads bs, set b | b in bs :: b.body requires 0 <= i < |bs| => bs[i].Value())
  }

  /** No two bees share an object, no two bees share a boid, and no bee's boid
      is one of the wasps: updating one agent changes no other. */
  predicate Disjoint(ws: seq<Wasp>, bs: seq<Bee>)
  {
    && (forall i, j :: 0 <= i < j < |ws| ==> ws[i] != ws[j])
    && (forall i, j :: 0 <= i < j < |bs| ==> bs[i] != bs[j] && bs[i].body != bs[j].body)
    && (forall i, k :: 0 <= i < |bs| && 0 <= k < |ws| ==> bs[i].body != ws[k])
  }

  // ---- the closures of the animation effect ----

  /** `applyForce`: the force is added to the boid's acceleration. */
  method ApplyForce(boid: Boid, force: Vector)
    modifies boid
    ensures boid.Value() == Push(old(boid.Value()), force)
  {
    boid.acceleration := Add(boid.acceleration, force);
  }

  /** `update`: integrate the acceleration into velocity and position. */
  method Update(m: Math, boid: Boid)
    requires m.Valid()
    modifies boid
    ensures boid.Value() == Integrate(m, old(boid.Value()))
  {
    ghost var before := boid.Value();
    boid.velocity := Add(boid.velocity, boid.acceleration);
    boid.velocity := Limit(m, boid.velocity, boid.maxSpeed);
    boid.position := Add(boid.position, boid.velocity);
    boid.acceleration := Zero;
    boid.angle := Degrees(m.atan2(boid.velocity.y, boid.velocity.x));
    assert boid.velocity == Limit(m, Add(before.velocity, before.acceleration), before.maxSpeed);
  }

  /** `boundaries`: steer back from the padded edges; the y test overrides the x one. */
  method Boundaries(m: Math, width: real, height: real, boid: Boid)
    requires m.Valid()
    modifies boid
    ensures boid.Value() == Steering.Boundaries(m, width, height, old(boid.Value()))
  {
    ghost var before := boid.Value();
    var desired: Option<Vector> := None;
    if boid.position.x < PADDING {
      desired := Some(Vector(boid.maxSpeed, boid.velocity.y));
    } else if boid.position.x > width - PADDING {
      desired := Some(Vector(-boid.maxSpeed, boid.velocity.y));
    }
    if boid.position.y < PADDING {
      desired := Some(Vector(boid.velocity.x, boid.maxSpeed));
    } else if boid.position.y > height - PADDING {
      desired := Some(Vector(boid.velocity.x, -boid.maxSpeed));
    }
    assert desired == BoundaryDesired(width, height, before);

    if desired.Some? {
      var wanted := Normalize(m, desired.value);
      wanted := Mult(wanted, boid.maxSpeed);
      var steer := Sub(wanted, boid.velocity);
      ApplyForce(boid, Limit(m, steer, EdgeForce(boid.maxForce)));
    }
  }

  /** `wander`: drift the wander angle by the draw, then seek the point on the
      wander circle ahead of the boid. */
  method Wander(m: Math, draw: real, boid: Boid)
    requires m.Valid()
    modifies boid
    ensures boid.Value() == Steering.Wander(m, draw, old(boid.Value()))
  {
    ghost var turned := DriftWanderAngle(draw, boid.Value());
    boid.wanderAngle := boid.wanderAngle + draw * 0.3 - 0.3 * 0.5;
    assert boid.Value() == turned;

    var circlePos := boid.velocity;
    var normalizedCirclePos := Normalize(m, circlePos);
    var scaledCirclePos := Mult(normalizedCirclePos, 100.0);
    var circleOffset := Add(boid.position, scaledCirclePos);

    var heading := FromAngle(m, boid.wanderAngle);
    var headingScaled := Mult(heading, 50.0);
    var target := Add(circleOffset, headingScaled);
    assert circleOffset == WanderCenter(m, turned);
    assert target == WanderTarget(m, turned);

    var seekForce := Seek(m, boid.Value(), target);
    ApplyForce(boid, seekForce);
  }

  /** The loop of `separate`: the summed, distance-weighted push away from
      every repelling bee, and how many bees repel. */
  method SeparationLoop(m: Math, bee: Bee, allBees: seq<Bee>) returns (sum: Vector, count: nat)
    requires m.Valid()
    ensures Crowd(sum, count) == SeparationSum(m, bee.body.Value(), Bodies(BeeValues(allBees)))
  {
    ghost var me, others := bee.body.Value(), Bodies(BeeValues(allBees));
    var desiredSeparation := bee.body.size * 2.5;
    sum, count := Zero, 0;
    for k := 0 to |allBees|
      invariant Crowd(sum, count) == SeparationSum(m, me, others[..k])
    {
      var other := allBees[k].body;
      assert others[..k + 1][..k] == others[..k];
      assert others[k] == other.Value();
      if bee.body.id == other.id {
        continue;
      }
      var d := Dist(m, bee.body.position, other.position);
      if d > 0.0 && d < desiredSeparation {
        var diff := Sub(bee.body.position, other.position);
        diff := Normalize(m, diff);
        diff := Div(diff, d);
        sum := Add(sum, diff);
        count := count + 1;
      }
    }
    assert others[..|allBees|] == others;
  }

  /** `separate`: push the bee away from the bees crowding it. */
  method Separate(m: Math, bee: Bee, allBees: seq<Bee>)
    requires m.Valid()
    modifies bee.body
    ensures bee.body.Value() == Steering.Separate(m, old(bee.body.Value()), old(Bodies(BeeValues(allBees))))
  {
    ghost var me, others := bee.body.Value(), Bodies(BeeValues(allBees));
    var sum, count := SeparationLoop(m, bee, allBees);
    ghost var crowd := SeparationSum(m, me, others);
    assert crowd.sum == sum && crowd.count == count;
    if count > 0 {
      assert crowd.count as real == count as real;
      sum := Div(sum, count as real);
      sum := Normalize(m, sum);
      sum := Mult(sum, bee.body.maxSpeed);
      var steer := Sub(sum, bee.body.velocity);
      assert SeparationForce(m, me, others) == Some(Limit(m, steer, bee.body.maxForce));
      ApplyForce(bee.body, Limit(m, steer, bee.body.maxForce));
    } else {
      assert SeparationForce(m, me, others) == None;
    }
  }

  /** The nearest-wasp search of `animate`: the index of the first wasp at the
      least distance from p (None, standing for `closestWasp == null`, when the
      list is empty). An absent best plays the role of `minDistance = Infinity`. */
  method ClosestWasp(m: Math, p: Vector, wasps: seq<Wasp>) returns (closest: Option<nat>)
    requires m.Valid()
    ensures closest == Nearest(m, p, WaspValues(wasps))
    ensures closest.None? <==> |wasps| == 0
    ensures closest.Some? ==>
      && closest.value < |wasps|
      && (forall j :: 0 <= j < |wasps| ==> Dist(m, p, wasps[closest.value].position) <= Dist(m, p, wasps[j].position))
      && (forall j :: 0 <= j < closest.value ==> Dist(m, p, wasps[closest.value].position) < Dist(m, p, wasps[j].position))
  {
    ghost var values := WaspValues(wasps);
    closest := None;
    var minDistance := 0.0;
    for k := 0 to |wasps|
      invariant closest == Nearest(m, p, values[..k])
      invariant closest.Some? ==> minDistance == Dist(m, p, wasps[closest.value].position)
    {
      assert values[..k + 1][..k] == values[..k];
      var d := Dist(m, p, wasps[k].position);
      if closest.None? || d < minDistance {
        minDistance := d;
        closest := Some(k);
      }
    }
    assert values[..|wasps|] == values;
    if closest.Some? {
      NearestIsFirstMinimum(m, p, values);
    }
  }

  // ---- one animation tick ----
  // `animate` applies the closures to one agent of the working copies at a
  // time. Each wrapper below is one such call, stated on the values of both
  // lists: the agent's entry changes as the closure's function says and no
  // other entry changes.

  /** `wander` on wasp k. */
  method WanderWasp(m: Math, draw: real, wasps: seq<Wasp>, bees: seq<Bee>, k: nat)
    requires m.Valid() && k < |wasps| && Disjoint(wasps, bees)
    modifies wasps[k]
    ensures WaspValues(wasps) == old(WaspValues(wasps))[k := Steering.Wander(m, draw, old(wasps[k].Value()))]
    ensures BeeValues(bees) == old(BeeValues(bees))
  {
    ghost var ws, bs := WaspValues(wasps), BeeValues(bees);
    Wander(m, draw, wasps[k]);
    assert WaspValues(wasps) == ws[k := wasps[k].Value()] by {
      forall j | 0 <= j < |wasps| && j != k ensures wasps[j].Value() == ws[j] {
        assert wasps[j] != wasps[k];
      }
    }
    assert BeeValues(bees) == bs by {
      forall j | 0 <= j < |bees| ensures bees[j].Value() == bs[j] {
        assert bees[j].body != wasps[k];
      }
    }
  }

  /** `boundaries` on wasp k. */
  method BoundWasp(m: Math, width: real, height: real, wasps: seq<Wasp>, bees: seq<Bee>, k: nat)
    requires m.Valid() && k < |wasps| && Disjoint(wasps, bees)
    modifies wasps[k]
    ensures WaspValues(wasps) == old(WaspValues(wasps))[k := Steering.Boundaries(m, width, height, old(wasps[k].Value()))]
    ensures BeeValues(bees) == old(BeeValues(bees))
  {
    ghost var ws, bs := WaspValues(wasps), BeeValues(bees);
    Boundaries(m, width, height, wasps[k]);
    assert WaspValues(wasps) == ws[k := wasps[k].Value()] by {
      forall j | 0 <= j < |wasps| && j != k ensures wasps[j].Value() == ws[j] {
        assert wasps[j] != wasps[k];
      }
    }
    assert BeeValues(bees) == bs by {
      forall j | 0 <= j < |bees| ensures bees[j].Value() == bs[j] {
        assert bees[j].body != wasps[k];
      }
    }
  }

  /** `update` on wasp k. */
  method UpdateWasp(m: Math, wasps: seq<Wasp>, bees: seq<Bee>, k: nat)
    requires m.Valid() && k < |wasps| && Disjoint(wasps, bees)
    modifies wasps[k]
    ensures WaspValues(wasps) == old(WaspValues(wasps))[k := Integrate(m, old(wasps[k].Value()))]
    ensures BeeValues(bees) == old(BeeValues(bees))
  {
    ghost var ws, bs := WaspValues(wasps), BeeValues(bees);
    Update(m, wasps[k]);
    assert WaspValues(wasps) == ws[k := wasps[k].Value()] by {
      forall j | 0 <= j < |wasps| && j != k ensures wasps[j].Value() == ws[j] {
        assert wasps[j] != wasps[k];
      }
    }
    assert BeeValues(bees) == bs by {
      forall j | 0 <= j < |bees| ensures bees[j].Value() == bs[j] {
        assert bees[j].body != wasps[k];
      }
    }
  }

  /** Wasp k's turn of `animate`: wander, keep off the edges, integrate.
      Only wasp k changes. */
  method MoveWasp(m: Math, width: real, height: real, draw: real, wasps: seq<Wasp>, bees: seq<Bee>, k: nat)
    requires m.Valid() && k < |wasps| && Disjoint(wasps, bees)
    modifies wasps[k]
    ensures WaspValues(wasps) == old(WaspValues(wasps))[k := WaspStep(m, width, height, draw, old(wasps[k].Value()))]
    ensures BeeValues(bees) == old(BeeValues(bees))
  {
    ghost var ws := WaspValues(wasps);
    ghost var wandered := Steering.Wander(m, draw, ws[k]);
    WanderWasp(m, draw, wasps, bees, k);
    assert wasps[k].Value() == WaspValues(wasps)[k] == wandered;
    ghost var bounded := Steering.Boundaries(m, width, height, wandered);
    BoundWasp(m, width, height, wasps, bees, k);
    ReplaceTwice(ws, k, wandered, bounded);
    assert wasps[k].Value() == WaspValues(wasps)[k] == bounded;
    UpdateWasp(m, wasps, bees, k);
    ReplaceTwice(ws, k, bounded, Integrate(m, bounded));
  }

  /** The chase of bee i's turn: the nearest wasp, if any, becomes the bee's
      target and the bee seeks its position. */
  method Chase(m: Math, wasps: seq<Wasp>, bees: seq<Bee>, i: nat)
    requires m.Valid() && i < |bees| && Disjoint(wasps, bees)
    modifies bees[i], bees[i].body
    ensures BeeValues(bees) == old(BeeValues(bees))[i := Pursue(m, old(WaspValues(wasps)), old(bees[i].Value()))]
    ensures WaspValues(wasps) == old(WaspValues(wasps))
  {
    ghost var ws, cur := WaspValues(wasps), BeeValues(bees);
    var bee := bees[i];
    var closest := ClosestWasp(m, bee.body.position, wasps);
    if closest.Some? {
      var target := wasps[closest.value];
      assert target.Value() == ws[closest.value];
      bee.targetWaspId := Some(target.id);
      var seekForce := Seek(m, bee.body.Value(), target.position);
      ApplyForce(bee.body, seekForce);
    }
    assert BeeValues(bees) == cur[i := bee.Value()] by {
      forall j | 0 <= j < |bees| && j != i ensures bees[j].Value() == cur[j] {
        assert bees[j] != bee && bees[j].body != bee.body;
      }
    }
    assert WaspValues(wasps) == ws by {
      forall k | 0 <= k < |wasps| ensures wasps[k].Value() == ws[k] {
        assert wasps[k] != bee.body;
      }
    }
  }

  /** `separate` on bee i, against the bees as they stand. */
  method SeparateBee(m: Math, wasps: seq<Wasp>, bees: seq<Bee>, i: nat)
    requires m.Valid() && i < |bees| && Disjoint(wasps, bees)
    modifies bees[i].body
    ensures var cur := old(BeeValues(bees));
      BeeValues(bees) == cur[i := cur[i].(body := Steering.Separate(m, cur[i].body, Bodies(cur)))]
    ensures WaspValues(wasps) == old(WaspValues(wasps))
  {
    ghost var ws, cur := WaspValues(wasps), BeeValues(bees);
    var bee := bees[i];
    Separate(m, bee, bees);
    assert BeeValues(bees) == cur[i := bee.Value()] by {
      forall j | 0 <= j < |bees| && j != i ensures bees[j].Value() == cur[j] {
        assert bees[j] != bee && bees[j].body != bee.body;
      }
    }
    assert WaspValues(wasps) == ws by {
      forall k | 0 <= k < |wasps| ensures wasps[k].Value() == ws[k] {
        assert wasps[k] != bee.body;
      }
    }
  }

  /** `boundaries` on bee i. */
  method BoundBee(m: Math, width: real, height: real, wasps: seq<Wasp>, bees: seq<Bee>, i: nat)
    requires m.Valid() && i < |bees| && Disjoint(wasps, bees)
    modifies bees[i].body
    ensures var cur := old(BeeValues(bees));
      BeeValues(bees) == cur[i := cur[i].(body := Steering.Boundaries(m, width, height, cur[i].body))]
    ensures WaspValues(wasps) == old(WaspValues(wasps))
  {
    ghost var ws, cur := WaspValues(wasps), BeeValues(bees);
    var bee := bees[i];
    Boundaries(m, width, height, bee.body);
    assert BeeValues(bees) == cur[i := bee.Value()] by {
      forall j | 0 <= j < |bees| && j != i ensures bees[j].Value() == cur[j] {
        assert bees[j] != bee && bees[j].body != bee.body;
      }
    }
    assert WaspValues(wasps) == ws by {
      forall k | 0 <= k < |wasps| ensures wasps[k].Value() == ws[k] {
        assert wasps[k] != bee.body;
      }
    }
  }

  /** `update` on bee i. */
  method UpdateBee(m: Math, wasps: seq<Wasp>, bees: seq<Bee>, i: nat)
    requires m.Valid() && i < |bees| && Disjoint(wasps, bees)
    modifies bees[i].body
    ensures var cur := old(BeeValues(bees));
      BeeValues(bees) == cur[i := cur[i].(body := Integrate(m, cur[i].body))]
    ensures WaspValues(wasps) == old(WaspValues(wasps))
  {
    ghost var ws, cur := WaspValues(wasps), BeeValues(bees);
    var bee := bees[i];
    Update(m, bee.body);
    assert BeeValues(bees) == cur[i := bee.Value()] by {
      forall j | 0 <= j < |bees| && j != i ensures bees[j].Value() == cur[j] {
        assert bees[j] != bee && bees[j].body != bee.body;
      }
    }
    assert WaspValues(wasps) == ws by {
      forall k | 0 <= k < |wasps| ensures wasps[k].Value() == ws[k] {
        assert wasps[k] != bee.body;
      }
    }
  }

  /** Bee i's turn of `animate`: chase the nearest wasp, separate from the
      bees as they now stand, keep off the edges, integrate. Only bee i changes. */
  method MoveBee(m: Math, width: real, height: real, wasps: seq<Wasp>, bees: seq<Bee>, i: nat)
    requires m.Valid() && i < |bees| && Disjoint(wasps, bees)
    modifies bees[i], bees[i].body
    ensures var cur := old(BeeValues(bees));
      BeeValues(bees) == cur[i := FinishTurn(m, width, height, cur, i, Pursue(m, old(WaspValues(wasps)), cur[i]))]
    ensures WaspValues(wasps) == old(WaspValues(wasps))
  {
    ghost var ws, cur := WaspValues(wasps), BeeValues(bees);
    ghost var sought := Pursue(m, ws, cur[i]);
    Chase(m, wasps, bees, i);
    ghost var chased := BeeValues(bees);
    SeparateBee(m, wasps, bees, i);
    ghost var separated := sought.(body := Steering.Separate(m, sought.body, Bodies(chased)));
    ReplaceTwice(cur, i, sought, separated);
    BoundBee(m, width, height, wasps, bees, i);
    ghost var bounded := separated.(body := Steering.Boundaries(m, width, height, separated.body));
    ReplaceTwice(cur, i, separated, bounded);
    UpdateBee(m, wasps, bees, i);
    ReplaceTwice(cur, i, bounded, bounded.(body := Integrate(m, bounded.body)));
  }

  /** Replacing element i twice keeps only the second replacement. */
  lemma ReplaceTwice<T>(s: seq<T>, i: nat, a: T, b: T)
    requires i < |s|
    ensures s[i := a][i := b] == s[i := b]
  {
  }

  /** The spread copies `wasps.map(w => ({ ...w, ... }))`: a fresh object per
      wasp, holding the same value. */
  method CopyWasps(wasps: seq<Wasp>) returns (copies: seq<Wasp>)
    ensures WaspValues(copies) == WaspValues(wasps)
    ensures forall j :: 0 <= j < |copies| ==> fresh(copies[j])
    ensures forall i, j :: 0 <= i < j < |copies| ==> copies[i] != copies[j]
  {
    copies := [];
    for k := 0 to |wasps|
      invariant |copies| == k
      invariant forall j :: 0 <= j < k ==> fresh(copies[j]) && copies[j].Value() == wasps[j].Value()
      invariant forall i, j :: 0 <= i < j < k ==> copies[i] != copies[j]
    {
      var copy := new Boid(wasps[k].Value());
      copies := copies + [copy];
    }
  }

  /** The spread copies `bees.map(b => ({ ...b, ... }))`: a fresh bee with a
      fresh boid per bee, holding the same value. */
  method CopyBees(bees: seq<Bee>) returns (copies: seq<Bee>)
    ensures BeeValues(copies) == BeeValues(bees)
    ensures forall j :: 0 <= j < |copies| ==> fresh(copies[j]) && fresh(copies[j].body)
    ensures forall i, j :: 0 <= i < j < |copies| ==> copies[i] != copies[j] && copies[i].body != copies[j].body
  {
    copies := [];
    for k := 0 to |bees|
      invariant |copies| == k
      invariant forall j :: 0 <= j < k ==> fresh(copies[j]) && fresh(copies[j].body) && copies[j].Value() == bees[j].Value()
      invariant forall i, j :: 0 <= i < j < k ==> copies[i] != copies[j] && copies[i].body != copies[j].body
    {
      var copy := new Bee(bees[k].Value());
      copies := copies + [copy];
    }
  }

  /** The wasps' turns of `animate`, in list order, each with its draw; the
      bees are untouched. */
  method MoveWasps(m: Math, width: real, height: real, draws: seq<real>, wasps: seq<Wasp>, bees: seq<Bee>)
    requires m.Valid() && |draws| == |wasps| && Disjoint(wasps, bees)
    modifies set w | w in wasps
    ensures WaspValues(wasps) == StepWasps(m, width, height, draws, old(WaspValues(wasps)))
    ensures BeeValues(bees) == old(BeeValues(bees))
  {
    ghost var ws, bs := WaspValues(wasps), BeeValues(bees);
    ghost var turn := WaspTurn(m, width, height, draws);
    for k := 0 to |wasps|
      invariant WaspValues(wasps) == Sweep(turn, ws, k)
      invariant BeeValues(bees) == bs
    {
      ghost var cur := WaspValues(wasps);
      MoveWasp(m, width, height, draws[k], wasps, bees, k);
      assert turn(cur, k) == WaspStep(m, width, height, draws[k], cur[k]);
    }
  }

  /** The bees' turns of `animate`, in list order, against the wasps as they
      stand; the wasps are untouched. */
  method MoveBees(m: Math, width: real, height: real, wasps: seq<Wasp>, bees: seq<Bee>)
    requires m.Valid() && Disjoint(wasps, bees)
    modifies set b | b in bees, set b | b in bees :: b.body
    ensures BeeValues(bees) == StepBees(m, width, height, old(WaspValues(wasps)), old(BeeValues(bees)))
    ensures WaspValues(wasps) == old(WaspValues(wasps))
  {
    ghost var ws, bs := WaspValues(wasps), BeeValues(bees);
    ghost var turn := BeeTurn(m, width, height, ws);
    for i := 0 to |bees|
      invariant WaspValues(wasps) == ws
      invariant BeeValues(bees) == Sweep(turn, bs, i)
    {
      ghost var cur := BeeValues(bees);
      MoveBee(m, width, height, wasps, bees, i);
      assert turn(cur, i) == BeeStep(m, width, height, ws, cur, i);
    }
  }

  /** The turns of one `animate` tick on the working lists: every wasp in
      list order, then every bee in list order against the moved wasps. */
  method Tick(m: Math, width: real, height: real, draws: seq<real>, wasps: seq<Wasp>, bees: seq<Bee>)
    requires m.Valid() && |draws| == |wasps| && Disjoint(wasps, bees)
    modifies set w | w in wasps, set b | b in bees, set b | b in bees :: b.body
    ensures World(WaspValues(wasps), BeeValues(bees)) == Step(m, width, height, draws, old(World(WaspValues(wasps), BeeValues(bees))))
  {
    ghost var before := World(WaspValues(wasps), BeeValues(bees));
    MoveWasps(m, width, height, draws, wasps, bees);
    assert WaspValues(wasps) == StepWasps(m, width, height, draws, before.wasps);
    MoveBees(m, width, height, wasps, bees);
  }

  /** The spread copies of both lists at the start of `animate`: fresh
      objects throughout, holding the same values and sharing nothing. */
  method CopyWorld(wasps: seq<Wasp>, bees: seq<Bee>) returns (nextWasps: seq<Wasp>, nextBees: seq<Bee>)
    ensures World(WaspValues(nextWasps), BeeValues(nextBees)) == World(WaspValues(wasps), BeeValues(bees))
    ensures Disjoint(nextWasps, nextBees)
    ensures forall j :: 0 <= j < |nextWasps| ==> fresh(nextWasps[j])
    ensures forall j :: 0 <= j < |nextBees| ==> fresh(nextBees[j]) && fresh(nextBees[j].body)
  {
    nextWasps := CopyWasps(wasps);
    nextBees := CopyBees(bees);
  }

  /** One `animate` tick: copy both lists, let every agent take its turn on the
      copies; the objects passed in are left untouched and the new lists hold
      exactly the world `Step` gives. */
  method Animate(m: Math, width: real, height: real, draws: seq<real>, wasps: seq<Wasp>, bees: seq<Bee>)
    returns (nextWasps: seq<Wasp>, nextBees: seq<Bee>)
    requires m.Valid() && |draws| == |wasps|
    ensures World(WaspValues(nextWasps), BeeValues(nextBees)) == Step(m, width, height, draws, old(World(WaspValues(wasps), BeeValues(bees))))
    ensures Disjoint(nextWasps, nextBees)
    ensures forall j :: 0 <= j < |nextWasps| ==> fresh(nextWasps[j])
    ensures forall j :: 0 <= j < |nextBees| ==> fresh(nextBees[j]) && fresh(nextBees[j].body)
  {
    nextWasps, nextBees := CopyWorld(wasps, bees);
    Tick(m, width, height, draws, nextWasps, nextBees);
  }
}
