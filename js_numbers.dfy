/** The parts of JavaScript number semantics that the geometry code relies on.
    Numbers are modelled as reals (no rounding); `Math.atan2`, `Math.sqrt` and
    `Math.PI` are passed in as a record of values that only promise the facts
    the code uses. */
module JsNumbers {

  /** JavaScript's `a % m` for a positive modulus: truncated division, so the
      remainder has the sign of the dividend. */
  function Rem(a: real, m: real): (r: real)
    requires m > 0.0
    ensures a >= 0.0 ==> 0.0 <= r < m
    ensures a < 0.0 ==> -m < r <= 0.0
  {
    if a >= 0.0 then
      FloorDivBounds(a, m);
      a - (a / m).Floor as real * m
    else
      FloorDivBounds(-a, m);
      -((-a) - ((-a) / m).Floor as real * m)
  }

  /** Within one turn either side of zero the remainder needs at most one
      subtraction of the modulus. */
  lemma RemOfSmall(a: real, m: real)
    requires m > 0.0 && -m < a < 2.0 * m
    ensures 0.0 <= a < m ==> Rem(a, m) == a
    ensures m <= a ==> Rem(a, m) == a - m
    ensures a <= 0.0 ==> Rem(a, m) == a
  {
    if a >= 0.0 {
      FloorDivSmall(a, m);
    } else {
      FloorDivSmall(-a, m);
    }
  }

  /** Floor division of a non-negative number leaves a remainder in [0, m). */
  lemma FloorDivBounds(a: real, m: real)
    requires a >= 0.0 && m > 0.0
    ensures (a / m).Floor as real * m <= a < (a / m).Floor as real * m + m
  {
    var x := a / m;
    var q := x.Floor as real;
    assert q <= x < q + 1.0;
    assert x * m == a;
    MulStrictMonotonic(x, q + 1.0, m);
    MulMonotonic(q, x, m);
    assert (q + 1.0) * m == q * m + m;
    assert a < q * m + m;
    assert q * m <= a;
  }

  /** The only integer quotient that fits a number below 2m. */
  lemma QuotientOfSmall(a: real, m: real, n: int)
    requires m > 0.0 && n as real * m <= a < n as real * m + m
    ensures 0.0 <= a < m ==> n == 0
    ensures m <= a < 2.0 * m ==> n == 1
  {
    if n >= 2 {
      MulMonotonic(2.0, n as real, m);
    } else if n <= -1 {
      MulMonotonic(n as real, -1.0, m);
    } else if n == 1 {
      assert n as real * m == m;
    } else {
      assert n as real * m == 0.0;
    }
  }

  lemma FloorDivSmall(a: real, m: real)
    requires m > 0.0 && 0.0 <= a < 2.0 * m
    ensures a < m ==> (a / m).Floor == 0
    ensures m <= a ==> (a / m).Floor == 1
  {
    FloorDivBounds(a, m);
    QuotientOfSmall(a, m, (a / m).Floor);
  }

  lemma MulMonotonic(u: real, v: real, m: real)
    requires u <= v && m > 0.0
    ensures u * m <= v * m
  {
  }

  lemma MulStrictMonotonic(u: real, v: real, m: real)
    requires u < v && m > 0.0
    ensures u * m < v * m
  {
  }

  /** A real square is never negative. */
  lemma SquareNonNegative(v: real)
    ensures v * v >= 0.0
  {
    if v > 0.0 {
      MulStrictMonotonic(0.0, v, v);
    } else if v < 0.0 {
      MulStrictMonotonic(0.0, -v, -v);
    }
  }

  /** `Math.atan2`, `Math.sqrt` and `Math.PI`, given as values. */
  datatype MathPrimitives = MathPrimitives(atan2: (real, real) -> real, sqrt: real -> real, pi: real)
  {
    /** The facts the code relies on: atan2 lies in [-pi, pi], and sqrt of a
        non-negative number is its non-negative square root. */
    ghost predicate Valid()
    {
      && 3.14 < pi < 3.15
      && (forall y, x :: -pi <= atan2(y, x) <= pi)
      && (forall v :: 0.0 <= v ==> 0.0 <= sqrt(v) && sqrt(v) * sqrt(v) == v)
    }
  }
}
