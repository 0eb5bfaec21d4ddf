/** The state `useSwarmSimulation(width, height)` keeps between renders and
    the two closures that change it: `initialize`, run by the first effect, and
    one frame of the animation effect. */
module Hook {
  import opened Types
  import opened Host
  import opened Steering
  import opened Simulation

  /** The first loop of `initialize`: NUM_WASPS fresh wasps, the k-th built
      from draw k with id firstId + k. */
  method SpawnWasps(m: Math, width: real, height: real, draws: seq<Draw>, firstId: Id) returns (wasps: seq<Wasp>)
    requires m.Valid() && |draws| == POPULATION
    ensures WaspValues(wasps) == InitialWasps(m, width, height, draws, firstId)
    ensures forall j :: 0 <= j < |wasps| ==> fresh(wasps[j])
    ensures forall j, k :: 0 <= j < k < |wasps| ==> wasps[j] != wasps[k]
  {
    wasps := [];
    for i := 0 to NUM_WASPS
      invariant |wasps| == i
      invariant forall j :: 0 <= j < i ==>
        fresh(wasps[j]) && wasps[j].Value() == SpawnWasp(m, width, height, firstId + j, draws[j])
      invariant forall j, k :: 0 <= j < k < i ==> wasps[j] != wasps[k]
    {
      var wasp := new Boid(SpawnWasp(m, width, height, firstId + i, draws[i]));
      wasps := wasps + [wasp];
    }
  }

  /** The second loop of `initialize`: NUM_WASPS * BEES_PER_WASP fresh bees
      without a target, the k-th built from draw NUM_WASPS + k with id
      firstId + NUM_WASPS + k. */
  method SpawnBees(m: Math, width: real, height: real, draws: seq<Draw>, firstId: Id) returns (bees: seq<Bee>)
    requires m.Valid() && |draws| == POPULATION
    ensures BeeValues(bees) == InitialBees(m, width, height, draws, firstId)
    ensures forall j :: 0 <= j < |bees| ==> fresh(bees[j]) && fresh(bees[j].body)
    ensures forall j, k :: 0 <= j < k < |bees| ==> bees[j] != bees[k] && bees[j].body != bees[k].body
  {
    bees := [];
    for i := 0 to NUM_WASPS * BEES_PER_WASP
      invariant |bees| == i
      invariant forall j :: 0 <= j < i ==>
        && fresh(bees[j]) && fresh(bees[j].body)
        && bees[j].Value() == SpawnBee(m, width, height, firstId + NUM_WASPS + j, draws[NUM_WASPS + j])
      invariant forall j, k :: 0 <= j < k < i ==> bees[j] != bees[k] && bees[j].body != bees[k].body
    {
      var bee := new Bee(SpawnBee(m, width, height, firstId + NUM_WASPS + i, draws[NUM_WASPS + i]));
      bees := bees + [bee];
    }
  }

  /** The hook's state: the two lists `useState` holds, for the drawing area
      the hook was called with. */
  class Swarm {
    const width: real
    const height: real
    var wasps: seq<Wasp>
    var bees: seq<Bee>

    /** The values both lists hold. */
    function State(): World
      reads this, wasps, bees, set b | b in bees :: b.body
    {
      World(WaspValues(wasps), BeeValues(bees))
    }

    /** `useState([])` twice: both lists start empty. */
    constructor (width: real, height: real)
      ensures this.width == width && this.height == height
      ensures wasps == [] && bees == []
    {
      this.width := width;
      this.height := height;
      wasps := [];
      bees := [];
    }

    /** `initialize`: for a positive area, NUM_WASPS fresh wasps and then
        NUM_WASPS * BEES_PER_WASP fresh bees, the k-th agent built from the
        k-th draw with id firstId + k; any other area leaves both lists as
        they were. */
    method Initialize(m: Math, draws: seq<Draw>, firstId: Id)
      requires m.Valid() && |draws| == POPULATION
      modifies this
      ensures 0.0 < width && 0.0 < height ==>
        State() == InitialWorld(m, width, height, draws, firstId) && Disjoint(wasps, bees)
      ensures !(0.0 < width && 0.0 < height) ==> wasps == old(wasps) && bees == old(bees)
    {
      if !(0.0 < width && 0.0 < height) {
        return;
      }
      var newWasps := SpawnWasps(m, width, height, draws, firstId);
      wasps := newWasps;
      var newBees := SpawnBees(m, width, height, draws, firstId);
      bees := newBees;
    }

    /** One frame of the animation effect. The effect does nothing while
        either list is empty or the width or height is 0 (`!width`,
        `!height`); otherwise `animate` replaces both lists by fresh ones
        holding the world after one tick, with wasp i taking draws[i]. */
    method Frame(m: Math, draws: seq<real>)
      requires m.Valid() && |draws| == |wasps|
      modifies this
      ensures |old(wasps)| == 0 || |old(bees)| == 0 || width == 0.0 || height == 0.0 ==>
        wasps == old(wasps) && bees == old(bees)
      ensures |old(wasps)| > 0 && |old(bees)| > 0 && width != 0.0 && height != 0.0 ==>
        State() == Step(m, width, height, draws, old(State())) && Disjoint(wasps, bees)
      ensures |old(wasps)| > 0 && |old(bees)| > 0 && width != 0.0 && height != 0.0 ==>
        (forall j :: 0 <= j < |wasps| ==> fresh(wasps[j])) &&
        (forall j :: 0 <= j < |bees| ==> fresh(bees[j]) && fresh(bees[j].body))
    {
      if |wasps| > 0 && |bees| > 0 && width != 0.0 && height != 0.0 {
        var nextWasps, nextBees := Animate(m, width, height, draws, wasps, bees);
        Replace(nextWasps, nextBees);
      }
    }

    /** The two setters `animate` ends with: both lists are replaced, and
        the agents they now hold keep the values they had. */
    method Replace(nextWasps: seq<Wasp>, nextBees: seq<Bee>)
      modifies this
      ensures wasps == nextWasps && bees == nextBees
      ensures State() == old(World(WaspValues(nextWasps), BeeValues(nextBees)))
    {
      wasps, bees := nextWasps, nextBees;
    }
  }
}
