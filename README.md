# Swarm simulation: a verified model

This project models the simulation core of the `swarm` React application. There are two parts.

- **2D vector operations** (`VectorOps` in `vector.ts`).
- **The steering and integration engine of `useSwarmSimulation`** (`hooks/useSwarmSimulation.ts`):
  - `createBoid` and the two population loops of `initialize`;
  - the closures `applyForce`, `update`, `boundaries`, `wander`, `seek` and `separate`;
  - one `animate` tick:
    1. copy both populations;
    2. each wasp wanders, keeps off the edges and integrates;
    3. each bee, in list order, picks the first nearest wasp, seeks it, separates from the bees as they currently stand, keeps off the edges and integrates.

Numbers are modelled as Dafny `real`s. `Math.sqrt`, `Math.cos`, `Math.sin` and `Math.atan2` belong to a `Host.Math` value that callers pass in. Its `Valid()` predicate states the only facts the proofs use:

- `sqrt` is the nonnegative square root;
- `(cos t, sin t)` lies on the unit circle.

Every `Math.random()` result is a parameter. Each `createBoid` call takes a `Draw` of four numbers, and each wasp's wander turn takes one number. `crypto.randomUUID()` becomes a caller-supplied `firstId + k`.

The model has two layers.

- **Module `Steering`** (`steering.dfy`) states every operation as a function on agent values (`BoidState`, `BeeState`, `World`) and proves the properties about those functions.
- **Module `Simulation`** (`simulation.dfy`) and **module `Hook`** (`hook.dfy`) hold the source's imperative code as methods:
  - the closures assign fields of `Boid` and `Bee` objects in place;
  - `separate` and the nearest-wasp search are loops;
  - the `forEach` turns mutate the copied objects one at a time;
  - `initialize` pushes fresh objects in counted loops.

  Each method is proved to leave exactly the value that the matching `Steering` function computes.

Some members are plumbing and have no row of their own in the table below:

- `Simulation.WaspValues` and `Simulation.BeeValues` are abstraction functions. They read the values that a list of objects holds, and the method contracts are stated through them.
- `Steering.WaspTurn` and `Steering.BeeTurn` are the `forEach` callbacks handed to `Sweep`. Their contracts only say that they accept every index of the list, which `Sweep` needs.
- `Steering.Bodies` lists the boid parts of the bees, which `separate` reads.
- `VectorOps.Add`, `Sub`, `Mult` and `Div` are the component-wise operations of `vector.ts:9-23`. Their laws are stated as lemmas: `AddSubInverse`, `AddZero`, `SubZero`, `MultThenDiv`, `DivThenMult` and `MagSqScale`.

The remaining modules are:

- `Types` (`types.dfy`): the records of `types.ts`;
- `VectorOps` (`vector.dfy`): the vector operations;
- `RealArith` (`arith.dfy`): sign facts about real products that the vector proofs use;
- `Host` (`host.dfy`): the `Math` parameter.

Two orders of the source are kept in the model. `Step` and `Simulation.Tick` state both:

- All wasps move before any bee searches, so bees chase this tick's wasp positions.
- Bee i's `separate` sees bees 0..i-1 already moved this tick (`Sweep` in `Steering`).

## Model

| member | source | states |
|---|---|---|
| Types.Boid.constructor | types.ts:7-17 | A new boid object holds exactly the given field values (object literal and spread copy). |
| Types.Bee.constructor | types.ts:21-23 | A new bee object, with a fresh boid part, holds exactly the given value. |
| VectorOps.MagSq | vector.ts:25-27 | The squared magnitude x*x + y*y is never negative. |
| VectorOps.Mag | vector.ts:25-27 | `mag` is nonnegative and its square is x*x + y*y. It is zero exactly when the squared magnitude is zero. |
| VectorOps.Normalize | vector.ts:29-35 | For a vector of squared magnitude zero, the result also has squared magnitude zero, and no division happens. For any other vector, the result has squared magnitude 1, and scaling it by `mag(v)` gives `v` back, so the direction is kept. |
| VectorOps.NormalizeZero | vector.ts:29-35 | `normalize(v)` is the zero vector `create()` exactly when `v` is the zero vector. |
| VectorOps.NormalizeIdempotent | vector.ts:29-33 | For a nonzero vector, `normalize` gives magnitude exactly 1, and normalizing again changes nothing. |
| VectorOps.Limit | vector.ts:37-44 | If x²+y² <= max², the vector comes back unchanged. If it is longer, the result is `v` scaled by max/\|v\|: it has squared magnitude max², and for max >= 0 the direction of `v`. Either way, the squared magnitude is at most max². |
| VectorOps.LimitIdempotent | vector.ts:37-44 | `limit(limit(v, max), max) == limit(v, max)`. |
| VectorOps.SetMag | vector.ts:46-49 | A vector of squared magnitude zero still has squared magnitude zero. Any other vector is scaled by mag/\|v\|: it gets squared magnitude mag², along its own direction for mag >= 0. |
| VectorOps.SetMagZero | vector.ts:46-49 | `setMag` returns a vector of squared magnitude zero unchanged, for any requested length. Such a vector is the zero vector (MagSqZero). |
| VectorOps.SetMagLength | vector.ts:46-49 | For a nonzero vector and mag >= 0, `mag(setMag(v, mag)) == mag`. |
| VectorOps.Dist | vector.ts:51-55 | `dist` is nonnegative, and its square is the squared magnitude of `sub(v1, v2)`. |
| VectorOps.DistZero | vector.ts:51-55 | Two points are at distance zero exactly when they are equal. |
| VectorOps.DistSymmetric | vector.ts:51-55 | `dist(a, b) == dist(b, a)`. |
| VectorOps.FromAngle | vector.ts:57-59 | `fromAngle` gives a point on the unit circle. |
| VectorOps.MagSqZero | vector.ts:25-27 | The squared magnitude is zero exactly at the zero vector. |
| VectorOps.AddSubInverse | vector.ts:9-15 | `sub(add(v, w), w) == v`, `sub(add(v, w), v) == w` and `add(sub(v, w), w) == v`. |
| VectorOps.AddZero | vector.ts:5-15 | `create()` is the identity of `add` and `sub`. |
| VectorOps.SubZero | vector.ts:13-15 | `sub(v, w)` is the zero vector exactly when v == w. |
| VectorOps.MultThenDiv | vector.ts:17-23 | For k != 0, `div(mult(v, k), k) == v`. |
| VectorOps.DivThenMult | vector.ts:17-23 | For k != 0, `mult(div(v, k), k) == v`. |
| VectorOps.MagSqScale | vector.ts:17-19 | `mult(v, k)` has squared magnitude \|v\|² · k². |
| VectorOps.LimitKeepsSigns | vector.ts:37-44 | For max >= 0, `limit` never flips the sign of a component: a nonnegative (nonpositive) component stays nonnegative (nonpositive). |
| VectorOps.LimitAlong | vector.ts:37-44 | For a positive bound, `limit(v, max)` is `v` scaled by some factor t with 0 < t <= 1. |
| Steering.ScaledDraw | hooks/useSwarmSimulation.ts:19-23 | A draw in [0, 1) scaled by a positive bound lies in [0, bound). |
| Steering.CreateBoid | hooks/useSwarmSimulation.ts:10-30 | The new boid has the given id, size, maxSpeed and maxForce, zero acceleration, angle 0 and a unit velocity. For valid draws and a positive area, it is at a position inside [0,width)×[0,height), and its wander angle is in [0, 2π). |
| Steering.SpawnWasp | hooks/useSwarmSimulation.ts:42 | A wasp of `initialize` has the given id, size 2, maxSpeed 3.5 and maxForce 0.05. For a valid draw and a positive area, it starts inside the area. |
| Steering.SpawnBee | hooks/useSwarmSimulation.ts:49-51 | A bee of `initialize` has the given id, size 2, maxSpeed 4, maxForce 0.2 and no target. For a valid draw and a positive area, it starts inside the area. |
| Steering.InitialWasps | hooks/useSwarmSimulation.ts:39-43 | There are NUM_WASPS wasps. The k-th is `createBoid(width, height, 2, 3.5, 0.05)` with draw k and id firstId + k. |
| Steering.InitialBees | hooks/useSwarmSimulation.ts:46-52 | There are NUM_WASPS·BEES_PER_WASP bees. The k-th is `createBoid(width, height, 2, 4, 0.2, {targetWaspId: null})` with draw NUM_WASPS + k. |
| Steering.InitialWorld | hooks/useSwarmSimulation.ts:37-54 | `initialize` builds NUM_WASPS wasps and NUM_WASPS·BEES_PER_WASP bees. |
| Steering.InitialWorldShape | hooks/useSwarmSimulation.ts:6-7 | `initialize` builds exactly 3 wasps and 60 bees, with the source's sizes, speeds and forces, consecutive ids starting at firstId, zero acceleration, angle 0 and no target. For valid draws and a positive area, every position is inside the area. |
| Steering.Push | hooks/useSwarmSimulation.ts:66-68 | `applyForce` changes nothing but the acceleration, and changes it by exactly the force. |
| Steering.PushAccumulates | hooks/useSwarmSimulation.ts:66-68 | Applying force f and then force g equals applying f + g. |
| Steering.Degrees | hooks/useSwarmSimulation.ts:75 | The conversion to degrees is undone by multiplying by π/180: degrees·π == radians·180. |
| Steering.Integrate | hooks/useSwarmSimulation.ts:70-76 | `update` keeps the agent (id, size, speeds) and the wander angle. Afterwards the acceleration is zero, the speed² is at most maxSpeed², and the position is the old position plus the new velocity. When velocity + acceleration is within maxSpeed, that sum is the new velocity. |
| Steering.BoundaryDesired | hooks/useSwarmSimulation.ts:79-89 | No desired velocity exactly inside the padded safe zone. Otherwise, each of the four edge cases gives its vector, and the y test overrides the x choice. |
| Steering.Boundaries | hooks/useSwarmSimulation.ts:78-97 | Inside the safe zone the boid is unchanged. Otherwise only the acceleration changes. Which way it changes is stated by BoundariesTurnInward. |
| Steering.BoundariesBounded | hooks/useSwarmSimulation.ts:91-96 | The force that `boundaries` adds has squared magnitude at most (2·maxForce)². |
| Steering.BoundariesTurnInward | hooks/useSwarmSimulation.ts:78-97 | For a boid no faster than maxSpeed, the force points back into the area on the axis whose rule decides. Above the top padding its y part is >= 0, and below the bottom padding it is <= 0. With y inside the safe band, its x part is >= 0 left of the left padding and <= 0 right of the right padding. |
| Steering.CornerPushesOut | hooks/useSwarmSimulation.ts:80-89 | In a corner the y rule overwrites the x rule. A boid at (50, 50) moving at (3, 0), with maxSpeed 4 and maxForce 0.2, gets a force whose x part is negative: it points out through the left edge. |
| Steering.ArrivalSpeed | hooks/useSwarmSimulation.ts:121 | The desired speed is maxSpeed·d/100 below distance 100, and maxSpeed from 100 on. It lies in [0, maxSpeed]. |
| Steering.ArrivalSpeedMonotone | hooks/useSwarmSimulation.ts:121 | A farther target never asks for a lower speed. |
| Steering.SeekDesired | hooks/useSwarmSimulation.ts:119-122 | The desired velocity points from the boid toward the target with the arrival speed. It has length zero at distance zero. |
| Steering.SeekAtTarget | hooks/useSwarmSimulation.ts:119-122 | At the target itself, `seek` wants the zero velocity. |
| Steering.Seek | hooks/useSwarmSimulation.ts:118-125 | The steering force is at most maxForce long. It is exactly desired − velocity when that is short enough. |
| Steering.WanderCenter | hooks/useSwarmSimulation.ts:105-108 | The circle centre is 100 ahead along the velocity: the offset from the position has length 100, and scaled by the speed it equals velocity·100. At rest, the centre is the position itself. |
| Steering.WanderTarget | hooks/useSwarmSimulation.ts:110-112 | The wander target lies on the circle of radius 50 around the centre. |
| Steering.Wander | hooks/useSwarmSimulation.ts:99-116 | `wander` changes nothing but the wander angle and the acceleration. For a draw in [0, 1), the wander angle moves by an amount in [−0.15, 0.15). |
| Steering.DriftWanderAngle | hooks/useSwarmSimulation.ts:103 | For a draw in [0, 1), the wander angle moves by an amount in [−0.15, 0.15). Nothing else changes. |
| Steering.WanderBounded | hooks/useSwarmSimulation.ts:114-115 | The force `wander` applies is at most maxForce long. |
| Steering.Repels | hooks/useSwarmSimulation.ts:132-134 | A peer that repels is another agent (another id) at another position. |
| Steering.SeparationSum | hooks/useSwarmSimulation.ts:129-141 | The loop counts at most one contribution per peer. With no contribution, the sum stays the zero vector. |
| Steering.NoCrowdIffNoneRepels | hooks/useSwarmSimulation.ts:131-141 | The count is zero exactly when no peer repels. A peer repels when it has another id and a distance strictly between 0 and 2.5·size. |
| Steering.SeparationForce | hooks/useSwarmSimulation.ts:142-148 | There is a force exactly when the count is positive, and it is at most maxForce long. Its direction is stated by SeparationAway. |
| Steering.LoneRepeller | hooks/useSwarmSimulation.ts:131-141 | With exactly one repelling peer, the loop's sum is that peer's unit push away, divided by its distance, and the count is 1. |
| Steering.SeparationAway | hooks/useSwarmSimulation.ts:127-149 | With exactly one repelling peer and a bee at rest, there is a force, and it is `sub(bee.position, other.position)` scaled by a positive factor: it points straight away from the peer. |
| Steering.Separate | hooks/useSwarmSimulation.ts:127-149 | `separate` changes nothing but the acceleration. |
| Steering.SeparateSpec | hooks/useSwarmSimulation.ts:127-149 | When no peer repels, `separate` changes nothing: it skips the bee itself, coincident peers and distant ones. When some peer repels, it applies exactly the separation force. |
| Steering.SeparateBounded | hooks/useSwarmSimulation.ts:142-148 | The force `separate` applies is at most maxForce long. |
| Steering.Nearest | hooks/useSwarmSimulation.ts:162-170 | The search finds no wasp exactly when the list is empty. Otherwise it returns an index into the list. |
| Steering.NearestIsFirstMinimum | hooks/useSwarmSimulation.ts:162-170 | The chosen wasp is at least as close as every wasp, and strictly closer than every earlier wasp. This is the first minimum, because the test is a strict `<`. |
| Steering.WaspStep | hooks/useSwarmSimulation.ts:155-159 | After its turn, a wasp is the same agent, with zero acceleration and speed at most maxSpeed. |
| Steering.StepWasps | hooks/useSwarmSimulation.ts:155-159 | The wasps' in-place `forEach` keeps the list length. |
| Steering.SweepLocal | hooks/useSwarmSimulation.ts:155-159 | Suppose each turn of an in-order, in-place sweep looks only at its own element. Then the sweep equals mapping each turn over the original list. |
| Steering.StepWaspsEach | hooks/useSwarmSimulation.ts:155-159 | After the wasps' sweep, wasp j is exactly its own turn applied to its old state and draw j. Wasps never see each other. |
| Steering.Pursue | hooks/useSwarmSimulation.ts:162-176 | With no wasp, the bee is untouched, including its target. Otherwise the target is the first nearest wasp's id, and only the acceleration changes. |
| Steering.PursueBounded | hooks/useSwarmSimulation.ts:172-176 | The chase force is at most maxForce long. |
| Steering.FinishTurn | hooks/useSwarmSimulation.ts:178-180 | After `separate`, `boundaries` and `update`, the bee is settled and its target stays. |
| Steering.BeeStep | hooks/useSwarmSimulation.ts:161-181 | After its turn, a bee is settled. With wasps, it targets one of them. With none, its target is unchanged. |
| Steering.Sweep | hooks/useSwarmSimulation.ts:161-181 | An in-order, in-place `forEach`: after n turns, elements from n on are untouched. |
| Steering.SweepKeeps | hooks/useSwarmSimulation.ts:161-181 | Any relation that each single turn establishes holds for every element after the sweep, although later turns see the updated list. |
| Steering.StepBees | hooks/useSwarmSimulation.ts:161-181 | The bees' `forEach` keeps the list length. |
| Steering.StepBeesSettled | hooks/useSwarmSimulation.ts:161-181 | Every bee is settled after the bees' turns. |
| Steering.StepBeesTarget | hooks/useSwarmSimulation.ts:172-173 | With wasps present, every bee's target is the id of one of them after the turns. |
| Steering.StepBeesNoTarget | hooks/useSwarmSimulation.ts:172-173 | With no wasps, no bee's target changes. |
| Steering.Step | hooks/useSwarmSimulation.ts:151-184 | One tick keeps both population lengths. |
| Steering.StepSettles | hooks/useSwarmSimulation.ts:151-184 | After one tick, every wasp and every bee is the same agent (id, size, maxSpeed, maxForce), with zero acceleration and speed at most maxSpeed. Bees target one of the moved wasps, or keep their target when there is none. |
| Simulation.ApplyForce | hooks/useSwarmSimulation.ts:66-68 | The boid's new value is `Push` of its old value. |
| Simulation.Update | hooks/useSwarmSimulation.ts:70-76 | The five field assignments leave the boid at `Integrate` of its old value. |
| Simulation.Boundaries | hooks/useSwarmSimulation.ts:78-97 | The two `if` chains and the push leave the boid at `Steering.Boundaries` of its old value. |
| Simulation.Wander | hooks/useSwarmSimulation.ts:99-116 | The in-place wander leaves the boid at `Steering.Wander` of its old value. |
| Simulation.SeparationLoop | hooks/useSwarmSimulation.ts:128-141 | The loop's sum and count are `SeparationSum` over the bees' bodies. |
| Simulation.Separate | hooks/useSwarmSimulation.ts:127-149 | The bee's boid ends at `Steering.Separate` against the bees as they stood. |
| Simulation.ClosestWasp | hooks/useSwarmSimulation.ts:162-170 | The loop with `minDistance` returns `Nearest`: none exactly for no wasps, otherwise the first wasp at minimum distance. |
| Simulation.WanderWasp | hooks/useSwarmSimulation.ts:156 | `wander` on wasp k changes entry k of the wasps' values only. The bees are untouched. |
| Simulation.BoundWasp | hooks/useSwarmSimulation.ts:157 | `boundaries` on wasp k changes entry k only. |
| Simulation.UpdateWasp | hooks/useSwarmSimulation.ts:158 | `update` on wasp k changes entry k only. |
| Simulation.MoveWasp | hooks/useSwarmSimulation.ts:155-159 | Wasp k's turn replaces entry k by `WaspStep` of its old value. Nothing else changes. |
| Simulation.Chase | hooks/useSwarmSimulation.ts:162-176 | Bee i's entry becomes `Pursue` against the wasps. Other bees and all wasps are unchanged. |
| Simulation.SeparateBee | hooks/useSwarmSimulation.ts:178 | Bee i's boid is separated against the bees as they now stand. Nothing else changes. |
| Simulation.BoundBee | hooks/useSwarmSimulation.ts:179 | `boundaries` on bee i changes entry i only. |
| Simulation.UpdateBee | hooks/useSwarmSimulation.ts:180 | `update` on bee i changes entry i only. |
| Simulation.MoveBee | hooks/useSwarmSimulation.ts:161-181 | Bee i's whole turn replaces entry i by `FinishTurn` after `Pursue`. Nothing else changes. |
| Simulation.CopyWasps | hooks/useSwarmSimulation.ts:152 | The copies are fresh, distinct objects holding the same values. |
| Simulation.CopyBees | hooks/useSwarmSimulation.ts:153 | The copies are fresh, distinct bees with fresh, distinct boids holding the same values. |
| Simulation.CopyWorld | hooks/useSwarmSimulation.ts:152-153 | Both copies hold the old world, share no object, and are fresh. |
| Simulation.MoveWasps | hooks/useSwarmSimulation.ts:155-159 | The wasps' `forEach` leaves the wasps at `StepWasps` and the bees untouched. |
| Simulation.MoveBees | hooks/useSwarmSimulation.ts:161-181 | The bees' `forEach` leaves the bees at `StepBees` against the wasps as they stand. |
| Simulation.Tick | hooks/useSwarmSimulation.ts:155-181 | The two `forEach` loops on the working lists produce exactly `Step` of the old world. |
| Simulation.Animate | hooks/useSwarmSimulation.ts:151-184 | The new lists hold exactly `Step` of the input world, and no two agents share an object. The agents of the new lists are fresh objects (the boid part of each bee too). The input objects are not modified (the method may modify nothing). |
| Hook.SpawnWasps | hooks/useSwarmSimulation.ts:39-43 | The first loop of `initialize` builds fresh, distinct wasps holding `InitialWasps`. |
| Hook.SpawnBees | hooks/useSwarmSimulation.ts:46-52 | The second loop builds fresh, distinct bees holding `InitialBees`. |
| Hook.Swarm.constructor | hooks/useSwarmSimulation.ts:33-35 | Both lists of the hook's state start empty. |
| Hook.Swarm.Initialize | hooks/useSwarmSimulation.ts:37-55 | For a positive area, the state becomes `InitialWorld`, with no object shared. Otherwise both lists are unchanged. |
| Hook.Swarm.Frame | hooks/useSwarmSimulation.ts:62 | When a list is empty or the width or height is 0, nothing happens. Otherwise both lists are replaced by lists of fresh, unshared objects (bee boids included) holding `Step` of the old world. |
| Hook.Swarm.Replace | hooks/useSwarmSimulation.ts:183-184 | After the two setters, the lists are the ones `animate` built, and the state holds the values those agents had before the assignment. |

## Left out

- React wiring is not modelled: `useState`, `useEffect`, `useCallback`, the `requestAnimationFrame`/`cancelAnimationFrame` loop and the cleanup function. `Hook.Swarm.Frame` is one run of `animate` behind the effect's guard.
- `Math.random` and `crypto.randomUUID` are parameters: `Draw` values, wander draws and `firstId`. The model does not say how they are distributed.
- `Math.sqrt`, `Math.cos`, `Math.sin` and `Math.atan2` are the fields of a `Math` parameter. Only the square-root and unit-circle facts are assumed about them. `Math.PI` is the real 3.141592653589793.
- IEEE doubles are not modelled: no rounding, NaN or Infinity, and numbers are reals. JavaScript's `!width` is also true for NaN, which reals do not have. The model's `Div` requires a nonzero divisor; every call site in the source divides by a positive number.
- VectorOps.Normalize: the zero branch returns `v` itself rather than a new `create()`. A vector of magnitude zero over the reals is the zero vector, so the value is the same (NormalizeZero).
- `create(x, y)` is the `Vector` constructor, and `create()` is `Zero`. Fresh-object identity of vector literals is not modelled, because vectors are values.
- The `angle` field is computed as `atan2 · 180/π`, but no property of it is proved.
- Wasp ids are naturals rather than UUID strings, so `targetWaspId` is an `Option<nat>`.
- Steering.BoundariesTurnInward: the direction of the `boundaries` force is proved only on the axis whose rule decides, and only for a boid no faster than maxSpeed, which every boid is after `update`. In a corner the x part of the force can point outward (CornerPushesOut), so the model does not claim that `boundaries` always steers inward on both axes.
- Steering.SeparationAway: the direction of the `separate` force is proved only for one repelling peer and a bee at rest. With several peers, the sum of their pushes has no simple closed form, and a nonzero velocity is subtracted before `limit`.
- `App.tsx` and `components/Icons.tsx` are not part of this model.
