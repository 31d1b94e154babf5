/**
 Points: locations in 3-space and the affine operations of class `Point3d`.

 A point and a vector are never interchangeable: point + vector is a point,
 point - point is a vector and point - vector is a point. The TypeScript
 method `minus`, which dispatches on the run-time class of its argument, is split
 into `MinusPoint` and `MinusVector`.

 All arithmetic is over exact `real`s: the contracts and lemmas describe exact
 arithmetic, not IEEE-754 floating-point rounding.
 */
module Points {
  import Vectors

  type Vector3d = Vectors.Vector3d

  /** A location in 3-space. */
  datatype Point3d = Point3d(x: real, y: real, z: real)

  /** The origin (0, 0, 0). */
  function Origin(): Point3d {
    Point3d(0.0, 0.0, 0.0)
  }

  /** The coordinates in the order x, y, z. */
  function Components(p: Point3d): seq<real> {
    [p.x, p.y, p.z]
  }

  /** Builds a point from the first three entries of `cs`; later entries are ignored. */
  function WithComponents(cs: seq<real>): Point3d
    requires |cs| >= 3
  {
    Point3d(cs[0], cs[1], cs[2])
  }

  /** Point-vector sum: the point reached by displacing `p` by `offset`. */
  function Plus(p: Point3d, offset: Vector3d): Point3d {
    Point3d(p.x + offset.dx, p.y + offset.dy, p.z + offset.dz)
  }

  /** Point-point difference: the displacement that carries `other` to `p`. */
  function MinusPoint(p: Point3d, other: Point3d): (r: Vector3d)
    ensures Plus(other, r) == p
  {
    Vectors.Vector3d(p.x - other.x, p.y - other.y, p.z - other.z)
  }

  /** Point-vector difference: the point that `offset` carries to `p`. */
  function MinusVector(p: Point3d, offset: Vector3d): (r: Point3d)
    ensures Plus(r, offset) == p
  {
    Point3d(p.x - offset.dx, p.y - offset.dy, p.z - offset.dz)
  }

  /** The squared distance between two points; it is never negative. */
  function Dist2(p: Point3d, other: Point3d): (r: real)
    ensures r >= 0.0
  {
    Vectors.Norm2(MinusPoint(p, other))
  }

  /**
   The affine combination (1 - scalar)*p + scalar*other, computed as
   p + scalar*(other - p). A scalar outside [0, 1] extrapolates.
   */
  function Combo(p: Point3d, scalar: real, other: Point3d): (r: Point3d)
    ensures r.x == (1.0 - scalar) * p.x + scalar * other.x
    ensures r.y == (1.0 - scalar) * p.y + scalar * other.y
    ensures r.z == (1.0 - scalar) * p.z + scalar * other.z
  {
    Plus(p, Vectors.Times(MinusPoint(other, p), scalar))
  }

  /** The number of terms `Combos` uses: the length of the shorter sequence. */
  function TermCount(scalars: seq<real>, others: seq<Point3d>): (n: nat)
    ensures n <= |scalars| && n <= |others|
    ensures n == |scalars| || n == |others|
  {
    if |scalars| <= |others| then |scalars| else |others|
  }

  /** Term i of `Combos`: scalars[i] times the offset of others[i], measured from the receiver `p`. */
  function Term(p: Point3d, scalars: seq<real>, others: seq<Point3d>, i: nat): Vector3d
    requires i < |scalars| && i < |others|
  {
    Vectors.Times(MinusPoint(others[i], p), scalars[i])
  }

  /** Reference definition: the sum of the first `n` terms. */
  function OffsetSum(p: Point3d, scalars: seq<real>, others: seq<Point3d>, n: nat): Vector3d
    requires n <= |scalars| && n <= |others|
  {
    if n == 0 then Vectors.Zero()
    else Vectors.Plus(OffsetSum(p, scalars, others, n - 1), Term(p, scalars, others, n - 1))
  }

  /**
   The loop of `combos` from iteration `i` up to `n`, with `running` the
   running point. Every term is measured from the receiver `p`, not from
   `running`.
   */
  function CombosFrom(p: Point3d, running: Point3d, scalars: seq<real>, others: seq<Point3d>, i: nat, n: nat): Point3d
    requires i <= n && n <= |scalars| && n <= |others|
    decreases n - i
  {
    if i == n then running
    else CombosFrom(p, Plus(running, Term(p, scalars, others, i)), scalars, others, i + 1, n)
  }

  /**
   Iterated affine combination: starting from `p`, adds scalars[i] times
   (others[i] - p) for every index both sequences have. The result is `p`
   displaced by the sum of all terms.
   */
  function Combos(p: Point3d, scalars: seq<real>, others: seq<Point3d>): (r: Point3d)
    ensures r == Plus(p, OffsetSum(p, scalars, others, TermCount(scalars, others)))
  {
    var n := TermCount(scalars, others);
    CombosFromMatchesOffsetSum(p, scalars, others, 0, n);
    CombosFrom(p, p, scalars, others, 0, n)
  }

  /** The largest of two coordinates, as `Math.max` computes it. */
  function MaxCoord(a: real, b: real): (r: real)
    ensures a <= r && b <= r
    ensures r == a || r == b
  {
    if a >= b then a else b
  }

  /** The smallest of two coordinates, as `Math.min` computes it. */
  function MinCoord(a: real, b: real): (r: real)
    ensures r <= a && r <= b
    ensures r == a || r == b
  {
    if a <= b then a else b
  }

  /** Bounding-box order: every coordinate of `p` is at most that of `q`. */
  predicate Below(p: Point3d, q: Point3d) {
    p.x <= q.x && p.y <= q.y && p.z <= q.z
  }

  /** Componentwise maximum: the upper corner of the bounding box of the two points. */
  function Max(p: Point3d, other: Point3d): (r: Point3d)
    ensures Below(p, r) && Below(other, r)
    ensures (r.x == p.x || r.x == other.x) && (r.y == p.y || r.y == other.y) && (r.z == p.z || r.z == other.z)
  {
    Point3d(MaxCoord(p.x, other.x), MaxCoord(p.y, other.y), MaxCoord(p.z, other.z))
  }

  /** Componentwise minimum: the lower corner of the bounding box of the two points. */
  function Min(p: Point3d, other: Point3d): (r: Point3d)
    ensures Below(r, p) && Below(r, other)
    ensures (r.x == p.x || r.x == other.x) && (r.y == p.y || r.y == other.y) && (r.z == p.z || r.z == other.z)
  {
    Point3d(MinCoord(p.x, other.x), MinCoord(p.y, other.y), MinCoord(p.z, other.z))
  }

  // ---------------------------------------------------------------------
  // Properties
  // ---------------------------------------------------------------------

  /** Rebuilding a point from its coordinates gives the point back; the origin is (0, 0, 0). */
  lemma ComponentsRoundTrip(p: Point3d)
    ensures |Components(p)| == 3
    ensures WithComponents(Components(p)) == p
    ensures Components(Origin()) == [0.0, 0.0, 0.0]
  {
  }

  /** Reading the coordinates of a built point gives the first three entries back. */
  lemma WithComponentsRoundTrip(cs: seq<real>)
    requires |cs| >= 3
    ensures Components(WithComponents(cs)) == cs[..3]
  {
  }

  /** Displacing a point and then subtracting the same vector returns the point, and vice versa. */
  lemma PlusMinusVectorRoundTrip(p: Point3d, v: Vector3d)
    ensures MinusVector(Plus(p, v), v) == p
    ensures Plus(MinusVector(p, v), v) == p
    ensures MinusPoint(Plus(p, v), p) == v
  {
  }

  /** Displacing `p` by the difference `q - p` reaches `q`. */
  lemma PlusDifference(p: Point3d, q: Point3d)
    ensures Plus(p, MinusPoint(q, p)) == q
  {
  }

  /** Point difference is anti-symmetric, and subtracting a vector adds its negation. */
  lemma MinusAntisymmetric(p: Point3d, q: Point3d, v: Vector3d)
    ensures MinusPoint(p, q) == Vectors.Neg(MinusPoint(q, p))
    ensures MinusPoint(p, p) == Vectors.Zero()
    ensures MinusVector(p, v) == Plus(p, Vectors.Neg(v))
  {
  }

  /** Chasles' relation: the displacement from r to p goes through q. */
  lemma MinusPointChain(p: Point3d, q: Point3d, r: Point3d)
    ensures Vectors.Plus(MinusPoint(p, q), MinusPoint(q, r)) == MinusPoint(p, r)
  {
  }

  /** Displacing by two vectors in turn is displacing by their sum. */
  lemma PlusPlus(p: Point3d, u: Vector3d, v: Vector3d)
    ensures Plus(Plus(p, u), v) == Plus(p, Vectors.Plus(u, v))
    ensures Plus(p, Vectors.Zero()) == p
  {
  }

  /** The squared distance is symmetric and is the squared length of the point difference. */
  lemma Dist2Symmetric(p: Point3d, q: Point3d)
    ensures Dist2(p, q) == Dist2(q, p)
    ensures Dist2(p, q) == Vectors.Dot(MinusPoint(p, q), MinusPoint(p, q))
    ensures Dist2(p, p) == 0.0
  {
    assert MinusPoint(q, p) == Vectors.Neg(MinusPoint(p, q));
    Vectors.Norm2Neg(MinusPoint(p, q));
  }

  /** A distance from p to q is also a distance from q to p. */
  lemma DistSymmetric(p: Point3d, q: Point3d, d: real)
    ensures Vectors.IsNorm(MinusPoint(p, q), d) <==> Vectors.IsNorm(MinusPoint(q, p), d)
  {
    var u := MinusPoint(p, q);
    assert MinusPoint(q, p) == Vectors.Neg(u);
    Vectors.Norm2Neg(u);
    Vectors.IsNormOfEqualLength(u, Vectors.Neg(u), d);
  }

  /** The endpoints of a combination are its two points, and 1/2 gives the midpoint. */
  lemma ComboEndpoints(p: Point3d, q: Point3d)
    ensures Combo(p, 0.0, q) == p
    ensures Combo(p, 1.0, q) == q
    ensures Combo(p, 0.5, q) == Point3d((p.x + q.x) / 2.0, (p.y + q.y) / 2.0, (p.z + q.z) / 2.0)
  {
  }

  /**
   The rest of the loop of `combos`: started at iteration `i` from the receiver
   plus the sum of the first `i` terms, it reaches the receiver plus the sum of
   all `n` terms.
   */
  lemma {:induction false} CombosFromMatchesOffsetSum(p: Point3d, scalars: seq<real>, others: seq<Point3d>, i: nat, n: nat)
    requires i <= n && n <= |scalars| && n <= |others|
    ensures CombosFrom(p, Plus(p, OffsetSum(p, scalars, others, i)), scalars, others, i, n)
            == Plus(p, OffsetSum(p, scalars, others, n))
    decreases n - i
  {
    if i < n {
      var s := OffsetSum(p, scalars, others, i);
      var t := Term(p, scalars, others, i);
      PlusPlus(p, s, t);
      assert OffsetSum(p, scalars, others, i + 1) == Vectors.Plus(s, t);
      CombosFromMatchesOffsetSum(p, scalars, others, i + 1, n);
    }
  }

  /** With no terms, `Combos` returns the receiver unchanged. */
  lemma CombosEmpty(p: Point3d, scalars: seq<real>, others: seq<Point3d>)
    requires |scalars| == 0 || |others| == 0
    ensures Combos(p, scalars, others) == p
  {
  }

  /** With one term, `Combos` is `Combo`. */
  lemma CombosSingle(p: Point3d, s: real, q: Point3d)
    ensures Combos(p, [s], [q]) == Combo(p, s, q)
  {
    assert OffsetSum(p, [s], [q], 1) == Vectors.Plus(Vectors.Zero(), Term(p, [s], [q], 0));
  }

  /** The partial sums depend only on the entries they read. */
  lemma {:induction false} OffsetSumPrefix(p: Point3d, scalars: seq<real>, others: seq<Point3d>,
                                           scalars': seq<real>, others': seq<Point3d>, n: nat)
    requires n <= |scalars| && n <= |others| && n <= |scalars'| && n <= |others'|
    requires scalars[..n] == scalars'[..n] && others[..n] == others'[..n]
    ensures OffsetSum(p, scalars, others, n) == OffsetSum(p, scalars', others', n)
  {
    if n > 0 {
      assert scalars[..n - 1] == scalars[..n][..n - 1];
      assert scalars'[..n - 1] == scalars'[..n][..n - 1];
      assert others[..n - 1] == others[..n][..n - 1];
      assert others'[..n - 1] == others'[..n][..n - 1];
      assert scalars[n - 1] == scalars[..n][n - 1] == scalars'[n - 1];
      assert others[n - 1] == others[..n][n - 1] == others'[n - 1];
      OffsetSumPrefix(p, scalars, others, scalars', others', n - 1);
    }
  }

  /** Entries past the length of the shorter sequence are ignored. */
  lemma CombosIgnoresExtra(p: Point3d, scalars: seq<real>, others: seq<Point3d>)
    ensures var n := TermCount(scalars, others);
            Combos(p, scalars, others) == Combos(p, scalars[..n], others[..n])
  {
    var n := TermCount(scalars, others);
    assert TermCount(scalars[..n], others[..n]) == n;
    assert scalars[..n][..n] == scalars[..n];
    assert others[..n][..n] == others[..n];
    OffsetSumPrefix(p, scalars, others, scalars[..n], others[..n], n);
  }

  /** The position of a point: its displacement from the origin. */
  function Position(p: Point3d): Vector3d {
    MinusPoint(p, Origin())
  }

  /** The sum of the first `n` scalars. */
  function WeightTotal(scalars: seq<real>, n: nat): real
    requires n <= |scalars|
  {
    if n == 0 then 0.0 else WeightTotal(scalars, n - 1) + scalars[n - 1]
  }

  /** The sum of scalars[i] times the position of others[i], over the first `n` indices. */
  function WeightedPositions(scalars: seq<real>, others: seq<Point3d>, n: nat): Vector3d
    requires n <= |scalars| && n <= |others|
  {
    if n == 0 then Vectors.Zero()
    else Vectors.Plus(WeightedPositions(scalars, others, n - 1), Vectors.Times(Position(others[n - 1]), scalars[n - 1]))
  }

  /** The partial sum of terms, expanded into weighted positions. */
  lemma {:induction false} OffsetSumAffine(p: Point3d, scalars: seq<real>, others: seq<Point3d>, n: nat)
    requires n <= |scalars| && n <= |others|
    ensures OffsetSum(p, scalars, others, n)
            == Vectors.Minus(WeightedPositions(scalars, others, n), Vectors.Times(Position(p), WeightTotal(scalars, n)))
  {
    if n > 0 {
      OffsetSumAffine(p, scalars, others, n - 1);
      var s, o := scalars[n - 1], others[n - 1];
      var w := WeightTotal(scalars, n - 1);
      var a := WeightedPositions(scalars, others, n - 1);
      var b := Vectors.Times(Position(p), w);
      TermAffine(p, o, s);
      Vectors.TimesDistributes(Position(p), Position(p), w, s);
      VectorStep(a, b, Vectors.Times(Position(o), s), Vectors.Times(Position(p), s));
    }
  }

  /** One term as a difference of weighted positions. */
  lemma TermAffine(p: Point3d, o: Point3d, s: real)
    ensures Vectors.Times(MinusPoint(o, p), s) == Vectors.Minus(Vectors.Times(Position(o), s), Vectors.Times(Position(p), s))
  {
    assert s * (o.x - p.x) == s * o.x - s * p.x;
    assert s * (o.y - p.y) == s * o.y - s * p.y;
    assert s * (o.z - p.z) == s * o.z - s * p.z;
  }

  /** (a - b) + (c - d) == (a + c) - (b + d) for vectors. */
  lemma VectorStep(a: Vector3d, b: Vector3d, c: Vector3d, d: Vector3d)
    ensures Vectors.Plus(Vectors.Minus(a, b), Vectors.Minus(c, d)) == Vectors.Minus(Vectors.Plus(a, c), Vectors.Plus(b, d))
  {
  }

  /**
   `Combos` is the affine combination of the receiver and the others with
   weights 1 - (s_0 + ... + s_{n-1}) and s_0, ..., s_{n-1}: measured from the
   origin, its position is the same weighted sum of their positions.
   */
  lemma CombosAffine(p: Point3d, scalars: seq<real>, others: seq<Point3d>)
    ensures var n := TermCount(scalars, others);
            Position(Combos(p, scalars, others))
            == Vectors.Plus(Vectors.Times(Position(p), 1.0 - WeightTotal(scalars, n)), WeightedPositions(scalars, others, n))
  {
    var n := TermCount(scalars, others);
    OffsetSumAffine(p, scalars, others, n);
    var w := WeightTotal(scalars, n);
    Vectors.TimesDistributes(Position(p), Position(p), 1.0, -w);
  }

  /**
   `Combos` is not an iterated `Combo`: the second term is measured from the
   receiver, not from the point the first term reached. Going halfway towards
   `q` twice, `Combos` reaches `q` while the iterated `Combo` stops three
   quarters of the way there, short of `q` whenever `p != q`.
   */
  lemma CombosIsNotIteratedCombo(p: Point3d, q: Point3d)
    ensures Combos(p, [0.5, 0.5], [q, q]) == q
    ensures Combo(Combo(p, 0.5, q), 0.5, q) == Combo(p, 0.75, q)
    ensures p != q ==> Combo(Combo(p, 0.5, q), 0.5, q) != q
  {
    var scalars, others := [0.5, 0.5], [q, q];
    var t := Term(p, scalars, others, 0);
    assert Term(p, scalars, others, 1) == t;
    assert OffsetSum(p, scalars, others, 1) == Vectors.Plus(Vectors.Zero(), t);
    assert OffsetSum(p, scalars, others, 2) == Vectors.Plus(OffsetSum(p, scalars, others, 1), t);
  }

  /** `Max` is the least upper bound and `Min` the greatest lower bound in the bounding-box order. */
  lemma MaxMinBounds(p: Point3d, q: Point3d, b: Point3d)
    ensures Below(Min(p, q), p) && Below(p, Max(p, q))
    ensures Below(Min(p, q), q) && Below(q, Max(p, q))
    ensures Below(p, b) && Below(q, b) ==> Below(Max(p, q), b)
    ensures Below(b, p) && Below(b, q) ==> Below(b, Min(p, q))
  {
  }

  /** `Max` and `Min` are commutative and idempotent. */
  lemma MaxMinCommutative(p: Point3d, q: Point3d)
    ensures Max(p, q) == Max(q, p)
    ensures Min(p, q) == Min(q, p)
    ensures Max(p, p) == p && Min(p, p) == p
  {
  }
}
