/**
 Vectors: displacements (offsets) between locations in 3-space, with the
 vector-space operations of class `Vector3d`, the degenerate-length tolerance
 and the standard basis.

 All arithmetic is over exact `real`s: the contracts and lemmas describe exact
 arithmetic, not IEEE-754 floating-point rounding, infinities or NaN.
 */
module Vectors {

  /** A displacement in 3-space, not a location. */
  datatype Vector3d = Vector3d(dx: real, dy: real, dz: real)

  /** Lengths below this tolerance count as degenerate in `Unit`. */
  const EPSILON3D: real := 0.00000001

  /** The zero displacement (the additive identity). */
  function Zero(): Vector3d {
    Vector3d(0.0, 0.0, 0.0)
  }

  /** The standard basis. */
  function XAxis(): Vector3d {
    Vector3d(1.0, 0.0, 0.0)
  }

  function YAxis(): Vector3d {
    Vector3d(0.0, 1.0, 0.0)
  }

  function ZAxis(): Vector3d {
    Vector3d(0.0, 0.0, 1.0)
  }

  /** The components in the order dx, dy, dz. */
  function Components(v: Vector3d): seq<real> {
    [v.dx, v.dy, v.dz]
  }

  /** Builds a vector from the first three entries of `cs`; later entries are ignored. */
  function WithComponents(cs: seq<real>): Vector3d
    requires |cs| >= 3
  {
    Vector3d(cs[0], cs[1], cs[2])
  }

  function Plus(v: Vector3d, other: Vector3d): Vector3d {
    Vector3d(v.dx + other.dx, v.dy + other.dy, v.dz + other.dz)
  }

  function Times(v: Vector3d, scalar: real): Vector3d {
    Vector3d(scalar * v.dx, scalar * v.dy, scalar * v.dz)
  }

  /** The additive inverse, computed as a scaling by -1. */
  function Neg(v: Vector3d): (r: Vector3d)
    ensures Plus(v, r) == Zero()
    ensures Plus(r, v) == Zero()
  {
    Times(v, -1.0)
  }

  /** Subtraction, computed as adding the negation; it undoes `Plus`. */
  function Minus(v: Vector3d, other: Vector3d): (r: Vector3d)
    ensures Plus(r, other) == v
  {
    Plus(v, Neg(other))
  }

  function Dot(v: Vector3d, other: Vector3d): real {
    v.dx * other.dx + v.dy * other.dy + v.dz * other.dz
  }

  /** The right-handed cross product; it is perpendicular to both factors. */
  function Cross(v: Vector3d, other: Vector3d): (r: Vector3d)
    ensures Dot(v, r) == 0.0
    ensures Dot(other, r) == 0.0
  {
    Vector3d(v.dy * other.dz - v.dz * other.dy,
             v.dz * other.dx - v.dx * other.dz,
             v.dx * other.dy - v.dy * other.dx)
  }

  /** The squared length; it is never negative. */
  function Norm2(v: Vector3d): (r: real)
    ensures r >= 0.0
  {
    DotSelfNonNegative(v);
    Dot(v, v)
  }

  /** `n` is the length of `v`: the non-negative square root of its squared length. */
  predicate IsNorm(v: Vector3d, n: real) {
    n >= 0.0 && n * n == Norm2(v)
  }

  /** Scaling by the reciprocal of a non-zero divisor; scaling back recovers `v`. */
  function Div(v: Vector3d, scalar: real): (r: Vector3d)
    requires scalar != 0.0
    ensures Times(r, scalar) == v
  {
    TimesTimes(v, 1.0 / scalar, scalar);
    Times(v, 1.0 / scalar)
  }

  /**
   The unit vector in the direction of `v`, where `n` is the length of `v`
   (the value `norm()` obtains with a square root). A length below
   `EPSILON3D` yields the fallback direction (1, 0, 0) instead of dividing.
   */
  function Unit(v: Vector3d, n: real): (r: Vector3d)
    requires IsNorm(v, n)
    ensures n < EPSILON3D ==> r == XAxis()
    ensures n >= EPSILON3D ==> Norm2(r) == 1.0 && Times(r, n) == v
  {
    if n < EPSILON3D then
      Vector3d(1.0, 0.0, 0.0)
    else
      UnitLength(v, n);
      TimesTimes(v, 1.0 / n, n);
      Times(v, 1.0 / n)
  }

  // ---------------------------------------------------------------------
  // Helpers for the nonlinear arithmetic
  // ---------------------------------------------------------------------

  /** A square is never negative. */
  lemma SquareNonNegative(a: real)
    ensures a * a >= 0.0
  {
    if a < 0.0 {
      assert (-a) * (-a) > 0.0;
    }
  }

  /** A sum of three non-negative terms is non-negative. */
  lemma SumNonNegative(p: real, q: real, t: real, s: real)
    requires s == p + q + t
    requires p >= 0.0 && q >= 0.0 && t >= 0.0
    ensures s >= 0.0
  {
  }

  /** The inner product of a vector with itself is a sum of squares, hence never negative. */
  lemma DotSelfNonNegative(v: Vector3d)
    ensures Dot(v, v) >= 0.0
  {
    SquareNonNegative(v.dx);
    SquareNonNegative(v.dy);
    SquareNonNegative(v.dz);
    SumNonNegative(v.dx * v.dx, v.dy * v.dy, v.dz * v.dz, Dot(v, v));
  }

  /** Squaring is strictly monotone on the non-negative reals. */
  lemma SquareStrictlyMonotone(a: real, b: real)
    requires a >= 0.0 && b >= 0.0
    ensures a < b ==> a * a < b * b
  {
    if a < b {
      ProductPositive(b - a, b + a);
      assert (b - a) * (b + a) == b * b - a * a;
    }
  }

  lemma ProductPositive(a: real, b: real)
    requires a > 0.0 && b > 0.0
    ensures a * b > 0.0
  {
  }

  /** Scaling twice is scaling by the product. */
  lemma TimesTimes(v: Vector3d, s: real, t: real)
    ensures Times(Times(v, s), t) == Times(v, s * t)
  {
    assert t * (s * v.dx) == (s * t) * v.dx;
    assert t * (s * v.dy) == (s * t) * v.dy;
    assert t * (s * v.dz) == (s * t) * v.dz;
  }

  /** Scaling scales the squared length by the square of the factor. */
  lemma Norm2Times(v: Vector3d, s: real)
    ensures Norm2(Times(v, s)) == s * s * Norm2(v)
  {
    assert (s * v.dx) * (s * v.dx) == s * s * (v.dx * v.dx);
    assert (s * v.dy) * (s * v.dy) == s * s * (v.dy * v.dy);
    assert (s * v.dz) * (s * v.dz) == s * s * (v.dz * v.dz);
  }

  /** Dividing by a positive length leaves a vector of squared length 1. */
  lemma UnitLength(v: Vector3d, n: real)
    requires IsNorm(v, n) && n > 0.0
    ensures Norm2(Times(v, 1.0 / n)) == 1.0
  {
    Norm2Times(v, 1.0 / n);
    var k := 1.0 / n;
    assert k * n == 1.0;
    calc {
      k * k * Norm2(v);
      k * k * (n * n);
      (k * n) * (k * n);
      1.0;
    }
  }

  // ---------------------------------------------------------------------
  // Properties
  // ---------------------------------------------------------------------

  /** Rebuilding a vector from its components gives the vector back. */
  lemma ComponentsRoundTrip(v: Vector3d)
    ensures |Components(v)| == 3
    ensures WithComponents(Components(v)) == v
  {
  }

  /** Reading the components of a built vector gives the first three entries back. */
  lemma WithComponentsRoundTrip(cs: seq<real>)
    requires |cs| >= 3
    ensures Components(WithComponents(cs)) == cs[..3]
  {
  }

  /** Vector addition forms a commutative group with identity `Zero`. */
  lemma PlusCommutativeGroup(u: Vector3d, v: Vector3d, w: Vector3d)
    ensures Plus(u, v) == Plus(v, u)
    ensures Plus(Plus(u, v), w) == Plus(u, Plus(v, w))
    ensures Plus(u, Zero()) == u
  {
  }

  /** Subtraction is componentwise difference and is anti-symmetric. */
  lemma MinusComponentwise(u: Vector3d, v: Vector3d)
    ensures Minus(u, v) == Vector3d(u.dx - v.dx, u.dy - v.dy, u.dz - v.dz)
    ensures Minus(u, v) == Neg(Minus(v, u))
    ensures Minus(u, u) == Zero()
  {
  }

  /** Scaling distributes over vector addition and over scalar addition. */
  lemma TimesDistributes(u: Vector3d, v: Vector3d, s: real, t: real)
    ensures Times(Plus(u, v), s) == Plus(Times(u, s), Times(v, s))
    ensures Times(u, s + t) == Plus(Times(u, s), Times(u, t))
    ensures Times(u, 1.0) == u
    ensures Times(u, 0.0) == Zero()
  {
  }

  /** The inner product is symmetric, and the squared length is a vector's inner product with itself. */
  lemma DotSymmetric(u: Vector3d, v: Vector3d)
    ensures Dot(u, v) == Dot(v, u)
    ensures Norm2(u) == Dot(u, u)
  {
  }

  /** The inner product is linear in its first factor, hence (by symmetry) in both. */
  lemma DotBilinear(u: Vector3d, v: Vector3d, w: Vector3d, s: real)
    ensures Dot(Plus(u, v), w) == Dot(u, w) + Dot(v, w)
    ensures Dot(Times(u, s), w) == s * Dot(u, w)
  {
  }

  /**
   Lagrange's identity: the squared length of the cross product is the
   product of the squared lengths minus the squared inner product.
   */
  lemma CrossLagrange(u: Vector3d, v: Vector3d)
    ensures Norm2(Cross(u, v)) == Norm2(u) * Norm2(v) - Dot(u, v) * Dot(u, v)
  {
  }

  /** The cross product is anti-commutative and vanishes on parallel factors. */
  lemma CrossAnticommutative(u: Vector3d, v: Vector3d, s: real)
    ensures Cross(u, v) == Neg(Cross(v, u))
    ensures Cross(u, u) == Zero()
    ensures Cross(u, Times(u, s)) == Zero()
  {
    assert u.dy * (s * u.dz) - u.dz * (s * u.dy) == 0.0;
    assert u.dz * (s * u.dx) - u.dx * (s * u.dz) == 0.0;
    assert u.dx * (s * u.dy) - u.dy * (s * u.dx) == 0.0;
  }

  /** The basis vectors are mutually perpendicular. */
  lemma BasisOrthogonal()
    ensures Dot(XAxis(), YAxis()) == 0.0
    ensures Dot(YAxis(), ZAxis()) == 0.0
    ensures Dot(ZAxis(), XAxis()) == 0.0
  {
    XAxisDotYAxis();
    YAxisDotZAxis();
    ZAxisDotXAxis();
  }

  // One fact per lemma: the solver runs out of resource when it has to
  // evaluate several products of literals in one proof obligation, so the
  // basis lemmas above only collect these single facts.
  lemma XAxisDotYAxis() ensures Dot(XAxis(), YAxis()) == 0.0 {}
  lemma YAxisDotZAxis() ensures Dot(YAxis(), ZAxis()) == 0.0 {}
  lemma ZAxisDotXAxis() ensures Dot(ZAxis(), XAxis()) == 0.0 {}

  /** The basis vectors have length 1. */
  lemma BasisUnitLength()
    ensures Norm2(XAxis()) == 1.0
    ensures Norm2(YAxis()) == 1.0
    ensures Norm2(ZAxis()) == 1.0
  {
    XAxisUnit();
    YAxisUnit();
    ZAxisUnit();
  }

  lemma XAxisUnit() ensures Norm2(XAxis()) == 1.0 {}
  lemma YAxisUnit() ensures Norm2(YAxis()) == 1.0 {}
  lemma ZAxisUnit() ensures Norm2(ZAxis()) == 1.0 {}

  /** The basis is right-handed: each cross product gives the next axis. */
  lemma BasisRightHanded()
    ensures Cross(XAxis(), YAxis()) == ZAxis()
    ensures Cross(YAxis(), ZAxis()) == XAxis()
    ensures Cross(ZAxis(), XAxis()) == YAxis()
  {
    XAxisCrossYAxis();
    YAxisCrossZAxis();
    ZAxisCrossXAxis();
  }

  lemma XAxisCrossYAxis() ensures Cross(XAxis(), YAxis()) == ZAxis() {}
  lemma YAxisCrossZAxis() ensures Cross(YAxis(), ZAxis()) == XAxis() {}
  lemma ZAxisCrossXAxis() ensures Cross(ZAxis(), XAxis()) == YAxis() {}

  /** Negation preserves the squared length. */
  lemma Norm2Neg(v: Vector3d)
    ensures Norm2(Neg(v)) == Norm2(v)
  {
    Norm2Times(v, -1.0);
  }

  /** Vectors of equal squared length have the same lengths. */
  lemma IsNormOfEqualLength(u: Vector3d, v: Vector3d, n: real)
    requires Norm2(u) == Norm2(v)
    ensures IsNorm(u, n) <==> IsNorm(v, n)
  {
  }

  /** A length, when it exists, is unique. */
  lemma NormUnique(v: Vector3d, n: real, m: real)
    requires IsNorm(v, n) && IsNorm(v, m)
    ensures n == m
  {
    SquareStrictlyMonotone(n, m);
    SquareStrictlyMonotone(m, n);
  }

  /**
   Comparing the length with `EPSILON3D` is the same as comparing the squared
   length with its square, so the fallback of `Unit` needs no square root.
   */
  lemma UnitFallbackIff(v: Vector3d, n: real)
    requires IsNorm(v, n)
    ensures n < EPSILON3D <==> Norm2(v) < EPSILON3D * EPSILON3D
    ensures Norm2(v) < EPSILON3D * EPSILON3D ==> Unit(v, n) == XAxis()
  {
    SquareStrictlyMonotone(n, EPSILON3D);
    SquareStrictlyMonotone(EPSILON3D, n);
  }

  /** The zero vector has length 0, so `Unit` falls back to (1, 0, 0). */
  lemma UnitOfZero()
    ensures IsNorm(Zero(), 0.0)
    ensures Unit(Zero(), 0.0) == Vector3d(1.0, 0.0, 0.0)
  {
  }
}
