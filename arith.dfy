/** Facts about products of reals, each stated over named values (`p == a * k`)
    so that a caller can apply them to squares without the product being
    simplified away. The vector algebra is built on these. */
module RealArith {
  /** The square of a real. Contracts state squared bounds through `Sq` so that
      they compare plain values. */
  function Sq(a: real): real
  {
    a * a
  }

  lemma MulLe(a: real, b: real, k: real, p: real, q: real)
    requires a <= b && 0.0 <= k && p == a * k && q == b * k
    ensures p <= q
  {
  }

  lemma MulLt(a: real, b: real, k: real, p: real, q: real)
    requires a < b && 0.0 < k && p == a * k && q == b * k
    ensures p < q
  {
  }

  lemma MulNonneg(a: real, b: real, p: real)
    requires 0.0 <= a && 0.0 <= b && p == a * b
    ensures 0.0 <= p
  {
  }

  lemma MulNonposNonpos(a: real, b: real, p: real)
    requires a <= 0.0 && b <= 0.0 && p == a * b
    ensures 0.0 <= p
  {
  }

  lemma MulPos(a: real, b: real, p: real)
    requires 0.0 < a && 0.0 < b && p == a * b
    ensures 0.0 < p
  {
  }

  lemma MulNegNeg(a: real, b: real, p: real)
    requires a < 0.0 && b < 0.0 && p == a * b
    ensures 0.0 < p
  {
  }

  lemma MulNonposNonneg(a: real, b: real, p: real)
    requires a <= 0.0 && 0.0 <= b && p == a * b
    ensures p <= 0.0
  {
  }

  lemma MulOne(t: real, c: real, p: real)
    requires t == 1.0 && p == t * c
    ensures p == c
  {
  }

  /** t * c == c with c positive forces t == 1. */
  lemma CancelPositive(t: real, c: real, p: real)
    requires 0.0 < c && p == t * c && p == c
    ensures t == 1.0
  {
  }

  lemma SquareNonneg(a: real, q: real)
    requires q == a * a
    ensures 0.0 <= q
  {
    if 0.0 <= a {
      MulNonneg(a, a, q);
    } else {
      MulNonposNonpos(a, a, q);
    }
  }

  lemma SquarePositive(a: real, q: real)
    requires a != 0.0 && q == a * a
    ensures 0.0 < q
  {
    if 0.0 < a {
      MulPos(a, a, q);
    } else {
      MulNegNeg(a, a, q);
    }
  }

  lemma SquareZero(a: real, q: real)
    requires a == 0.0 && q == a * a
    ensures q == 0.0
  {
    MulNonneg(a, a, q);
    MulNonposNonneg(a, a, q);
  }

  /** Squaring is strictly increasing on the nonnegative reals. */
  lemma SquareLess(a: real, b: real, p: real, q: real)
    requires 0.0 <= a < b && p == a * a && q == b * b
    ensures p < q
  {
    var r := a * b;
    MulLe(a, b, a, p, r);
    MulLt(a, b, b, r, q);
  }

  /** Two nonnegative reals with the same square are equal. */
  lemma SquareInjective(a: real, b: real, q: real)
    requires 0.0 <= a && 0.0 <= b && a * a == q && b * b == q
    ensures a == b
  {
    if a < b {
      SquareLess(a, b, q, q);
    } else if b < a {
      SquareLess(b, a, q, q);
    }
  }

  /** The only nonnegative square root of one is one. */
  lemma UnitRoot(s: real)
    requires 0.0 <= s && s * s == 1.0
    ensures s == 1.0
  {
    var p := s * s;
    if s < 1.0 {
      MulLe(s, 1.0, s, p, s);
    } else if 1.0 < s {
      MulLt(1.0, s, s, s, p);
    }
  }

  /** The inverse of a positive real is positive, and a smaller positive
      real divided by it is below one. */
  lemma InversePositive(a: real, k: real)
    requires 0.0 < k
    ensures 0.0 < 1.0 / k
    ensures 0.0 <= a < k ==> a * (1.0 / k) < 1.0
  {
    var i := 1.0 / k;
    assert i * k == 1.0 && k * i == 1.0;
    if i <= 0.0 {
      MulNonposNonneg(i, k, i * k);
    }
    if 0.0 <= a < k {
      var ai, ki := a * i, k * i;
      MulLt(a, k, i, ai, ki);
      assert ai < 1.0;
      assert a * (1.0 / k) == ai;
    }
  }

  /** A product a * k with k positive has the sign of a: if a * k equals
      b * c with c nonnegative, a has (weakly) the sign of b. */
  lemma SignThroughPositive(a: real, k: real, b: real, c: real, p: real)
    requires 0.0 < k && 0.0 <= c && p == b * c && a * k == p
    ensures 0.0 <= b ==> 0.0 <= a
    ensures b <= 0.0 ==> a <= 0.0
  {
    var q := a * k;
    if 0.0 <= b {
      MulNonneg(b, c, p);
      if a < 0.0 {
        MulLt(a, 0.0, k, q, 0.0);
      }
    } else {
      MulNonposNonneg(b, c, p);
      if 0.0 < a {
        MulPos(a, k, q);
      }
    }
  }

  /** One axis of a steer toward full speed s: the desired velocity has a,
      which is s or -s, on this axis and w on the other, its length is l, and
      n is the component of its unit vector on this axis (n * l == a). A
      velocity (x, w) no faster than s then has x <= n * s when a is s, and
      n * s <= x when a is -s: on this axis the desired velocity, rescaled to
      speed s, is never behind the current one. */
  lemma AxisSteer(s: real, a: real, w: real, x: real, n: real, l: real)
    requires 0.0 < s && 0.0 < l && l * l == a * a + w * w && n * l == a && x * x + w * w <= s * s
    ensures a == s ==> x <= n * s
    ensures a == -s ==> n * s <= x
  {
    if a == s {
      AheadOnAxis(s, w, x, n, l);
    } else if a == -s {
      assert a * a == s * s;
      AheadOnAxis(s, w, -x, -n, l);
    }
  }

  /** AxisSteer for a == s. */
  lemma AheadOnAxis(s: real, w: real, x: real, n: real, l: real)
    requires 0.0 < s && 0.0 < l && l * l == s * s + w * w && n * l == s && x * x + w * w <= s * s
    ensures x <= n * s
  {
    var e := n * s;
    var S, X, W := s * s, x * x, w * w;
    assert e * l == S by {
      assert e * l == (n * l) * s;
    }
    if e < x {
      SquareNonneg(w, W);
      SquarePositive(s, S);
      var xl := x * l;
      MulLt(e, x, l, S, xl);
      var S2, P := S * S, xl * xl;
      SquareLess(S, xl, S2, P);
      MulLe(X, S - W, S + W, X * (S + W), (S - W) * (S + W));
      SquareNonneg(W, W * W);
    }
  }
}
