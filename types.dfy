/** The shapes of `types.ts`: vectors, the common boid state and the bee's extra
    field, as values (for specifications) and as objects (for the in-place step). */
module Types {

  datatype Option<T> = None | Some(value: T)

  /** Agent identifiers; the source draws UUIDs, the model takes fresh naturals. */
  type Id = nat

  datatype Vector = Vector(x: real, y: real)

  /** The value of a `Boid`, field for field. */
  datatype BoidState = BoidState(
    id: Id,
    position: Vector,
    velocity: Vector,
    acceleration: Vector,
    maxSpeed: real,
    maxForce: real,
    size: real,
    angle: real,
    wanderAngle: real)

  /** The value of a `Bee`: a boid plus the id of the wasp it pursues. */
  datatype BeeState = BeeState(body: BoidState, targetWaspId: Option<Id>)

  /** A boid object. The fields the step reassigns are `var`s; the ones no code
      reassigns after construction are `const`s. */
  class Boid {
    const id: Id
    var position: Vector
    var velocity: Vector
    var acceleration: Vector
    const maxSpeed: real
    const maxForce: real
    const size: real
    var angle: real
    var wanderAngle: real

    /** A fresh boid holding the fields of `s` (object literal or spread copy). */
    constructor (s: BoidState)
      ensures Value() == s
    {
      id := s.id;
      position := s.position;
      velocity := s.velocity;
      acceleration := s.acceleration;
      maxSpeed := s.maxSpeed;
      maxForce := s.maxForce;
      size := s.size;
      angle := s.angle;
      wanderAngle := s.wanderAngle;
    }

    function Value(): BoidState
      reads this
    {
      BoidState(id, position, velocity, acceleration, maxSpeed, maxForce, size, angle, wanderAngle)
    }
  }

  /** A wasp adds nothing to a boid. */
  type Wasp = Boid

  /** A bee: its boid part and the target it records each tick. */
  class Bee {
    const body: Boid
    var targetWaspId: Option<Id>

    constructor (s: BeeState)
      ensures fresh(body)
      ensures Value() == s
    {
      body := new Boid(s.body);
      targetWaspId := s.targetWaspId;
    }

    function Value(): BeeState
      reads this, body
    {
      BeeState(body.Value(), targetWaspId)
    }
  }
}
