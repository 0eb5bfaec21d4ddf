/** The parts of the JavaScript `Math` object the simulation calls.
    Transcendental functions are supplied by the caller as a `Math` value;
    `Valid()` states the only facts the model relies on. */
module Host {

  /** `Math.PI`, as the double it denotes prints. */
  const PI: real := 3.141592653589793

  /** `Math.sqrt`, `Math.cos`, `Math.sin` and `Math.atan2`. */
  datatype Math = Math(sqrt: real -> real, cos: real -> real, sin: real -> real, atan2: (real, real) -> real)
  {
    /** `sqrt` is the nonnegative square root and (cos t, sin t) lies on the unit circle. */
    ghost predicate Valid()
    {
      && (forall x :: 0.0 <= x ==> 0.0 <= sqrt(x) && sqrt(x) * sqrt(x) == x)
      && (forall t :: cos(t) * cos(t) + sin(t) * sin(t) == 1.0)
    }
  }
}
