/** The few pieces of JavaScript's `Math` object the animation relies on.

    Sine and `Math.hypot` are not computed here: they travel as fields of a
    `Math` record, and the predicate `Sound` states everything the model
    assumes about them. All arithmetic is over `real`; floating-point rounding
    is not modelled. */
module Maths {

  /** `Math.PI`, taken as 3.141592653589793, the shortest decimal that rounds
      to that double. */
  const Pi: real := 3.141592653589793

  /** The host's sine and two-argument hypotenuse functions. */
  datatype Math = Math(sin: real -> real, hypot: (real, real) -> real)

  /** What the model assumes of the host: sine stays in [-1, 1], and
      `hypot(dx, dy)` is the non-negative square root of dx*dx + dy*dy. */
  ghost predicate Sound(m: Math) {
    && (forall t :: -1.0 <= m.sin(t) <= 1.0)
    && (forall dx, dy :: 0.0 <= Hypot(m, dx, dy) && Hypot(m, dx, dy) * Hypot(m, dx, dy) == Dist2(dx, dy))
  }

  /** Squared length of the offset (dx, dy). */
  function Dist2(dx: real, dy: real): real {
    dx * dx + dy * dy
  }

  /** `m.hypot` under a name of its own: the square-root fact in `Sound` is
      stated on this name, so the solver brings it in only where a proof
      mentions `Hypot` and not at every use of `m.hypot`. */
  function Hypot(m: Math, dx: real, dy: real): real {
    m.hypot(dx, dy)
  }

  /** For non-negative reals, comparing two values is the same as comparing
      their squares. */
  lemma SquareMonotone(a: real, b: real)
    requires 0.0 <= a && 0.0 <= b
    ensures a <= b <==> a * a <= b * b
    ensures a < b <==> a * a < b * b
  {
    if a < b {
      SquareGrows(a, b - a);
      assert a + (b - a) == b;
    } else if b < a {
      SquareGrows(b, a - b);
      assert b + (a - b) == a;
    }
  }

  lemma SquareGrows(a: real, d: real)
    requires 0.0 <= a && 0.0 < d
    ensures a * a < (a + d) * (a + d)
  {
    NonNegativeProduct(a, d);
    assert 0.0 <= a * d;
    PositiveProduct(d, d);
    assert 0.0 < d * d;
    Expand(a, d);
    assert (a + d) * (a + d) == a * a + 2.0 * (a * d) + d * d;
  }

  lemma NonNegativeProduct(x: real, y: real)
    requires 0.0 <= x && 0.0 <= y
    ensures 0.0 <= x * y
  {
  }

  lemma PositiveProduct(x: real, y: real)
    requires 0.0 < x && 0.0 < y
    ensures 0.0 < x * y
  {
  }

  lemma MulBelow(x: real, y: real, z: real)
    requires x < y && 0.0 < z
    ensures x * z < y * z
  {
  }

  lemma MulBetween(c: real, lo: real, s: real, hi: real)
    requires lo <= s <= hi
    ensures 0.0 <= c ==> c * lo <= c * s <= c * hi
  {
  }

  /** Scaling a draw from [0, 1) by a non-negative dimension lands in
      [0, dimension), or exactly on 0 when the dimension is 0. */
  lemma ScaleUnit(r: real, w: real)
    requires 0.0 <= r < 1.0 && 0.0 <= w
    ensures 0.0 <= r * w
    ensures 0.0 < w ==> r * w < w
    ensures w == 0.0 ==> r * w == 0.0
  {
    NonNegativeProduct(r, w);
    if 0.0 < w {
      MulBelow(r, 1.0, w);
    }
  }

  lemma Expand(a: real, d: real)
    ensures (a + d) * (a + d) == a * a + 2.0 * (a * d) + d * d
  {
  }

  /** `Math.hypot` orders offsets exactly as their squared lengths do, so a
      comparator built on hypot distances can be replaced by one built on
      squared distances without changing any comparison's outcome. */
  lemma HypotOrdersLikeSquares(m: Math, dx1: real, dy1: real, dx2: real, dy2: real)
    requires Sound(m)
    ensures Hypot(m, dx1, dy1) <= Hypot(m, dx2, dy2) <==> Dist2(dx1, dy1) <= Dist2(dx2, dy2)
    ensures Hypot(m, dx1, dy1) < Hypot(m, dx2, dy2) <==> Dist2(dx1, dy1) < Dist2(dx2, dy2)
  {
    var h1, h2 := Hypot(m, dx1, dy1), Hypot(m, dx2, dy2);
    assert h1 * h1 == Dist2(dx1, dy1);
    assert h2 * h2 == Dist2(dx2, dy2);
    SquareMonotone(h1, h2);
  }

  /** A hypot distance is below a non-negative bound exactly when the squared
      distance is below the bound's square. */
  lemma HypotBelow(m: Math, dx: real, dy: real, bound: real)
    requires Sound(m)
    requires 0.0 <= bound
    ensures Hypot(m, dx, dy) < bound <==> Dist2(dx, dy) < bound * bound
  {
    var h := Hypot(m, dx, dy);
    assert h * h == Dist2(dx, dy);
    SquareMonotone(h, bound);
  }
}
