/** `VectorOps` of vector.ts: pure 2D vector arithmetic over the reals. Every
    operation returns a fresh value; `Vector(x, y)` is `create(x, y)` and `Zero`
    is `create()`. */
module VectorOps {
  import opened Types
  import opened Host
  import opened RealArith

  const Zero := Vector(0.0, 0.0)

  /** The squared magnitude `x*x + y*y` that `mag` and `limit` compute; it is
      nonnegative (and vanishes exactly at the zero vector, see MagSqZero). */
  function MagSq(v: Vector): (r: real)
    ensures 0.0 <= r
  {
    MagSqSign(v, v.x * v.x + v.y * v.y);
    v.x * v.x + v.y * v.y
  }

  function Add(v1: Vector, v2: Vector): Vector
  {
    Vector(v1.x + v2.x, v1.y + v2.y)
  }

  function Sub(v1: Vector, v2: Vector): Vector
  {
    Vector(v1.x - v2.x, v1.y - v2.y)
  }

  function Mult(v: Vector, scalar: real): Vector
  {
    Vector(v.x * scalar, v.y * scalar)
  }

  /** Division by a scalar; every caller in the simulation divides by a positive number. */
  function Div(v: Vector, scalar: real): Vector
    requires scalar != 0.0
  {
    Vector(v.x / scalar, v.y / scalar)
  }

  /** `mag`: the nonnegative root of the squared magnitude; zero exactly when
      the squared magnitude is. */
  function Mag(m: Math, v: Vector): (r: real)
    requires m.Valid()
    ensures 0.0 <= r && Sq(r) == MagSq(v)
    ensures r == 0.0 <==> MagSq(v) == 0.0
  {
    var q := MagSq(v);
    RootFacts(m, q);
    m.sqrt(q)
  }

  /** `normalize`: a vector of length zero comes back with length zero (no
      division happens; NormalizeZero: it is `create()`); any other vector
      becomes a unit vector that, scaled by the magnitude, gives v back. */
  function Normalize(m: Math, v: Vector): (r: Vector)
    requires m.Valid()
    ensures MagSq(v) == 0.0 ==> MagSq(r) == 0.0
    ensures 0.0 < MagSq(v) ==> MagSq(r) == 1.0 && Mult(r, Mag(m, v)) == v
  {
    var magnitude := Mag(m, v);
    if magnitude > 0.0 then
      UnitAfterDiv(v, magnitude);
      DivThenMult(v, magnitude);
      Div(v, magnitude)
    else
      // `create()`: a vector of magnitude zero is the zero vector itself
      // (NormalizeZero), and it is returned as such.
      v
  }

  /** `limit`: a vector whose squared magnitude is at most max*max comes back
      unchanged; a longer one is v scaled by max/|v|: its squared magnitude is
      max*max, and for max >= 0 it keeps the direction of v. Either way the
      result is no longer than max. */
  function Limit(m: Math, v: Vector, max: real): (r: Vector)
    requires m.Valid()
    ensures MagSq(v) <= Sq(max) ==> r == v
    ensures Sq(max) < MagSq(v) ==> MagSq(r) == Sq(max) && Mult(r, Mag(m, v)) == Mult(v, max)
    ensures MagSq(r) <= Sq(max)
  {
    SquareNonneg(max, Sq(max));
    var magSq := MagSq(v);
    if magSq > Sq(max) then
      ScaledUnit(m, v, max);
      Mult(Normalize(m, v), max)
    else
      v
  }

  /** `setMag`: a vector of length zero stays of length zero (SetMagZero: it
      comes back unchanged, and is the zero vector); any other vector is v scaled
      by mag/|v|, of squared magnitude mag*mag, along its own direction for mag >= 0. */
  function SetMag(m: Math, v: Vector, mag: real): (r: Vector)
    requires m.Valid()
    ensures MagSq(v) == 0.0 ==> MagSq(r) == 0.0
    ensures 0.0 < MagSq(v) ==> MagSq(r) == Sq(mag) && Mult(r, Mag(m, v)) == Mult(v, mag)
  {
    ScaledUnit(m, v, mag);
    Mult(Normalize(m, v), mag)
  }

  /** `dist`: the root of dx*dx + dy*dy over the coordinate differences, which
      is the expression `mag` evaluates on `sub(v1, v2)`; it is written as that. */
  function Dist(m: Math, v1: Vector, v2: Vector): (r: real)
    requires m.Valid()
    ensures 0.0 <= r && Sq(r) == MagSq(Sub(v1, v2))
  {
    Mag(m, Sub(v1, v2))
  }

  /** `fromAngle`: the point at the given angle on the unit circle. */
  function FromAngle(m: Math, angle: real): (r: Vector)
    requires m.Valid()
    ensures MagSq(r) == 1.0
  {
    Vector(m.cos(angle), m.sin(angle))
  }

  // ---- the zero vector ----

  /** The squared magnitude vanishes exactly at the zero vector. */
  lemma MagSqZero(v: Vector)
    ensures MagSq(v) == 0.0 <==> v == Zero
  {
    MagSqSign(v, MagSq(v));
  }

  /** `normalize` returns `create()`, the zero vector, for the zero vector. */
  lemma NormalizeZero(m: Math, v: Vector)
    requires m.Valid()
    ensures v == Zero <==> Normalize(m, v) == Zero
  {
    MagSqZero(v);
    MagSqZero(Normalize(m, v));
  }

  /** Scaling a vector of squared magnitude zero, the zero vector (MagSqZero),
      gives it back. The requirement is MagSq(v) == 0.0 written out. */
  lemma MultLengthZero(v: Vector, k: real)
    requires v.x * v.x + v.y * v.y == 0.0
    ensures Mult(v, k) == v
  {
    var a, b := v.x, v.y;
    SquareNonneg(a, a * a);
    SquareNonneg(b, b * b);
    if a != 0.0 {
      SquarePositive(a, a * a);
    } else if b != 0.0 {
      SquarePositive(b, b * b);
    }
  }

  /** `setMag` returns a vector of length zero, the zero vector, unchanged,
      whatever the length asked for. */
  lemma SetMagZero(m: Math, v: Vector, mag: real)
    requires m.Valid() && MagSq(v) == 0.0
    ensures SetMag(m, v, mag) == v
  {
    assert Normalize(m, v) == v;
    MultLengthZero(v, mag);
  }

  /** Two points are at distance zero exactly when they coincide. */
  lemma DistZero(m: Math, v1: Vector, v2: Vector)
    requires m.Valid()
    ensures Dist(m, v1, v2) == 0.0 <==> v1 == v2
  {
    SubZero(v1, v2);
    MagSqZero(Sub(v1, v2));
  }

  // ---- algebraic laws ----

  /** Subtraction undoes addition and addition undoes subtraction. */
  lemma AddSubInverse(v: Vector, w: Vector)
    ensures Sub(Add(v, w), w) == v
    ensures Sub(Add(v, w), v) == w
    ensures Add(Sub(v, w), w) == v
  {
  }

  /** The zero vector is the identity of addition and subtraction. */
  lemma AddZero(v: Vector)
    ensures Add(v, Zero) == v && Sub(v, Zero) == v
  {
  }

  /** The difference of two vectors is zero exactly when they are equal. */
  lemma SubZero(v: Vector, w: Vector)
    ensures Sub(v, w) == Zero <==> v == w
  {
  }

  /** Division undoes scaling by the same nonzero scalar. */
  lemma MultThenDiv(v: Vector, k: real)
    requires k != 0.0
    ensures Div(Mult(v, k), k) == v
  {
  }

  /** Scaling back a quotient gives the dividend. */
  lemma DivThenMult(v: Vector, k: real)
    requires k != 0.0
    ensures Mult(Div(v, k), k) == v
  {
  }

  /** Scaling by k multiplies the squared magnitude by c = k*k: the result is p = t*c
      where t is the old squared magnitude. The products are parameters that the
      caller names, so that the solver relates them as plain values instead of
      rewriting the squares (see module RealArith). */
  lemma MagSqScale(v: Vector, k: real, c: real, t: real, p: real)
    requires c == Sq(k) && t == MagSq(v) && p == t * c
    ensures MagSq(Mult(v, k)) == p
  {
  }

  /** Scaling twice is scaling once by the product p = a*b. */
  lemma MultMult(v: Vector, a: real, b: real, p: real)
    requires p == a * b
    ensures Mult(Mult(v, a), b) == Mult(v, p)
  {
  }

  /** A vector scaled by a nonzero k to w is w scaled back by 1/k. */
  lemma MultUndo(v: Vector, k: real, w: Vector)
    requires k != 0.0 && Mult(v, k) == w
    ensures v == Mult(w, 1.0 / k)
  {
  }

  /** Scaling by a nonnegative factor keeps the sign of each component. */
  lemma SignOfScaled(v: Vector, k: real)
    requires 0.0 <= k
    ensures (0.0 <= v.x ==> 0.0 <= Mult(v, k).x) && (v.x <= 0.0 ==> Mult(v, k).x <= 0.0)
    ensures (0.0 <= v.y ==> 0.0 <= Mult(v, k).y) && (v.y <= 0.0 ==> Mult(v, k).y <= 0.0)
  {
    if 0.0 <= v.x {
      MulNonneg(v.x, k, v.x * k);
    } else {
      MulNonposNonneg(v.x, k, v.x * k);
    }
    if 0.0 <= v.y {
      MulNonneg(v.y, k, v.y * k);
    } else {
      MulNonposNonneg(v.y, k, v.y * k);
    }
  }

  /** Two scalings commute. */
  lemma MultSwap(u: Vector, k: real, s: real)
    ensures Mult(Mult(u, k), s) == Mult(Mult(u, s), k)
  {
  }

  /** Distance does not depend on the order of its arguments. */
  lemma DistSymmetric(m: Math, v1: Vector, v2: Vector)
    requires m.Valid()
    ensures Dist(m, v1, v2) == Dist(m, v2, v1)
  {
    assert MagSq(Sub(v1, v2)) == MagSq(Sub(v2, v1));
  }

  /** Limiting twice with the same bound is limiting once. */
  lemma LimitIdempotent(m: Math, v: Vector, max: real)
    requires m.Valid()
    ensures Limit(m, Limit(m, v, max), max) == Limit(m, v, max)
  {
  }

  /** A normalized nonzero vector has length one, so normalizing it again changes nothing. */
  lemma NormalizeIdempotent(m: Math, v: Vector)
    requires m.Valid() && v != Zero
    ensures Mag(m, Normalize(m, v)) == 1.0
    ensures Normalize(m, Normalize(m, v)) == Normalize(m, v)
  {
    MagSqZero(v);
    var n := Normalize(m, v);
    var s := Mag(m, n);
    UnitRoot(s);
    DivByOne(n);
  }

  /** For a nonnegative mag, setMag of a nonzero vector has magnitude exactly mag. */
  lemma SetMagLength(m: Math, v: Vector, mag: real)
    requires m.Valid() && v != Zero && 0.0 <= mag
    ensures Mag(m, SetMag(m, v, mag)) == mag
  {
    MagSqZero(v);
    var r := SetMag(m, v, mag);
    var s := Mag(m, r);
    var q := Sq(mag);
    SquareInjective(s, mag, q);
  }

  // ---- steps of the proofs above ----

  /** Dividing by one changes nothing. */
  lemma DivByOne(v: Vector)
    ensures Div(v, 1.0) == v
  {
  }

  /** Scaling the unit vector of v by k: squared magnitude k*k, direction of v. */
  lemma ScaledUnit(m: Math, v: Vector, k: real)
    requires m.Valid()
    ensures MagSq(v) == 0.0 ==> Mult(Normalize(m, v), k) == Zero
    ensures 0.0 < MagSq(v) ==> MagSq(Mult(Normalize(m, v), k)) == Sq(k)
    ensures 0.0 < MagSq(v) ==> Mult(Mult(Normalize(m, v), k), Mag(m, v)) == Mult(v, k)
  {
    var u := Normalize(m, v);
    var c := Sq(k);
    var t := MagSq(u);
    var p := t * c;
    MagSqScale(u, k, c, t, p);
    MagSqZero(v);
    if 0.0 < MagSq(v) {
      MulOne(t, c, p);
    }
    MultSwap(u, k, Mag(m, v));
  }

  /** The sign of s = x*x + y*y: nonnegative, and zero exactly at the origin. */
  lemma MagSqSign(v: Vector, s: real)
    requires s == v.x * v.x + v.y * v.y
    ensures 0.0 <= s
    ensures s == 0.0 <==> v == Zero
  {
    var a, b := v.x, v.y;
    var p, q := a * a, b * b;
    SquareNonneg(a, p);
    SquareNonneg(b, q);
    if a != 0.0 {
      SquarePositive(a, p);
    } else if b != 0.0 {
      SquarePositive(b, q);
    } else {
      SquareZero(a, p);
      SquareZero(b, q);
    }
  }

  /** What the host's square root guarantees at one argument. */
  lemma RootFacts(m: Math, q: real)
    requires m.Valid() && 0.0 <= q
    ensures 0.0 <= m.sqrt(q) && m.sqrt(q) * m.sqrt(q) == q
    ensures m.sqrt(q) == 0.0 <==> q == 0.0
  {
    var r := m.sqrt(q);
    var p := r * r;
    if r != 0.0 {
      SquarePositive(r, p);
    } else {
      SquareZero(r, p);
    }
  }

  /** Dividing a vector by its length s > 0 gives squared magnitude one. */
  lemma UnitAfterDiv(v: Vector, s: real)
    requires 0.0 < s && Sq(s) == MagSq(v)
    ensures MagSq(Div(v, s)) == 1.0
  {
    var u := Div(v, s);
    var c := Sq(s);
    var t := MagSq(u);
    var p := t * c;
    DivThenMult(v, s);
    MagSqScale(u, s, c, t, p);
    MulPos(s, s, c);
    CancelPositive(t, c, p);
  }

  /** For max >= 0, `limit` never turns a component around: each component of
      the result has the sign of the same component of v. */
  lemma LimitKeepsSigns(m: Math, v: Vector, max: real)
    requires m.Valid() && 0.0 <= max
    ensures var r := Limit(m, v, max);
      && (0.0 <= v.x ==> 0.0 <= r.x) && (v.x <= 0.0 ==> r.x <= 0.0)
      && (0.0 <= v.y ==> 0.0 <= r.y) && (v.y <= 0.0 ==> r.y <= 0.0)
  {
    if Sq(max) < MagSq(v) {
      var k := Mag(m, v);
      var n := Normalize(m, v);
      DivThenMult(v, k);
      SignThroughPositive(n.x, k, v.x, 1.0, v.x);
      SignThroughPositive(n.y, k, v.y, 1.0, v.y);
      SignOfScaled(n, max);
    }
  }

  /** For a positive max, `limit` scales v along itself by a factor in (0, 1]. */
  lemma LimitAlong(m: Math, v: Vector, max: real) returns (t: real)
    requires m.Valid() && 0.0 < max
    ensures 0.0 < t <= 1.0 && Limit(m, v, max) == Mult(v, t)
  {
    if Sq(max) < MagSq(v) {
      var k := Mag(m, v);
      if k <= max {
        MulLe(k, max, k, Sq(k), k * max);
        MulLe(k, max, max, k * max, Sq(max));
      }
      MultUndo(Limit(m, v, max), k, Mult(v, max));
      InversePositive(max, k);
      t := max * (1.0 / k);
      MultMult(v, max, 1.0 / k, t);
      MulPos(max, 1.0 / k, t);
    } else {
      t := 1.0;
      assert Mult(v, 1.0) == v;
    }
  }
}
