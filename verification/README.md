# geometry-3d in Dafny

A Dafny model of `_geometry-3d.ts`. This is a small affine-geometry library for 3-space. It has
two value types: `Point3d`, a location, and `Vector3d`, a displacement between locations.
No operation mutates its operands; the model makes them Dafny datatypes. Following
coordinate-free geometric programming, only these operations are allowed between them:
point + vector is a point, point − point is a vector, point − vector is a point, and vectors
form a vector space with dot and cross products. Points also have affine
combinations (`combo`, `combos`) and componentwise bounding-box corners (`max`, `min`).

Two modules follow the two classes:

- `Vectors` (`vector3d.dfy`) has `Vector3d`, `EPSILON3D`, the basis `XAxis`/`YAxis`/`ZAxis`,
  and `Plus`, `Minus`, `Times`, `Neg`, `Dot`, `Cross`, `Norm2`, `Div`, `Unit`, `Components`
  and `WithComponents`.
- `Points` (`point3d.dfy`) has `Point3d`, `Origin`, and `Plus`, `MinusPoint`, `MinusVector`,
  `Dist2`, `Combo`, `Combos`, `Max`, `Min`, `Components` and `WithComponents`.

Every number is a Dafny `real`. The contracts and lemmas are about exact arithmetic, not
IEEE-754 rounding.

Modelling decisions:

- The overloaded TypeScript `minus(other: Point3d | Vector3d)` becomes two functions,
  `Points.MinusPoint` and `Points.MinusVector`. Its last branch, `else return this`, cannot be
  reached with typed arguments and is not modelled.
- `Math.sqrt` has no counterpart over `real`. So a length is a parameter `n` with the predicate
  `Vectors.IsNorm(v, n)`: `n >= 0` and `n * n == Norm2(v)`. `Vectors.Unit(v, n)` takes the
  length computed by `norm()` and models both branches of `unit`.
- The name suggests folding `combo` over the inputs. The code does not do that: each term
  is `others[i].minus(this)`, measured from the original receiver and not from the running
  point. The model follows the code. `Points.CombosFrom` mirrors the loop,
  and `Points.OffsetSum` is an independent reference sum. `Points.CombosIsNotIteratedCombo`
  shows that the two readings differ.
- The componentwise `Math.max`/`Math.min` of `max`/`min` (_geometry-3d.ts:122-133) become
  `Points.MaxCoord`/`Points.MinCoord` on reals. The `Math.min` of the two lengths in `combos`
  becomes `Points.TermCount`.
- The functions attached to the prototypes afterwards (`withComponents`) become ordinary
  functions.

## Model

| member | source | states |
|---|---|---|
| `Vectors.XAxis` | _geometry-3d.ts:284 | the first basis vector, as written; no contract of its own, its laws are in `BasisOrthogonal`, `BasisUnitLength` and `BasisRightHanded` |
| `Vectors.YAxis` | _geometry-3d.ts:285 | the second basis vector, as written; no contract of its own, its laws are in the three basis lemmas |
| `Vectors.ZAxis` | _geometry-3d.ts:286 | the third basis vector, as written; no contract of its own, its laws are in the three basis lemmas |
| `Vectors.Components` | _geometry-3d.ts:169-174 | the components as a sequence, as written; no contract of its own, inverted by `WithComponents` in `ComponentsRoundTrip` |
| `Vectors.WithComponents` | _geometry-3d.ts:258-263 | the vector built from the first three entries, as written; no contract of its own, inverted in `WithComponentsRoundTrip` |
| `Vectors.ComponentsRoundTrip` | _geometry-3d.ts:169-174 | a vector has three components, and rebuilding a vector from them gives it back |
| `Vectors.WithComponentsRoundTrip` | _geometry-3d.ts:258-263 | building a vector from a sequence of at least three entries and reading it back gives the first three entries |
| `Vectors.Plus` | _geometry-3d.ts:176-183 | componentwise addition, as written; no contract of its own, its laws are in `PlusCommutativeGroup` |
| `Vectors.Times` | _geometry-3d.ts:192-199 | scaling, as written; no contract of its own, its laws are in `TimesDistributes` |
| `Vectors.Dot` | _geometry-3d.ts:208-213 | the inner product, as written; no contract of its own, its laws are in `DotSymmetric`, `DotBilinear`, `Cross` and `BasisOrthogonal` |
| `Vectors.PlusCommutativeGroup` | _geometry-3d.ts:176-183 | vector addition is commutative and associative and has `Zero` as identity |
| `Vectors.Neg` | _geometry-3d.ts:201-206 | the negation is the additive inverse: adding it to `v`, on either side, gives `Zero` |
| `Vectors.Minus` | _geometry-3d.ts:185-190 | subtraction undoes addition: `Plus(Minus(v, w), w) == v` |
| `Vectors.MinusComponentwise` | _geometry-3d.ts:185-190 | subtraction via negation equals the componentwise difference, is anti-symmetric, and `v - v` is zero |
| `Vectors.TimesDistributes` | _geometry-3d.ts:192-199 | scaling distributes over vector and scalar addition; scaling by 1 is the identity and by 0 gives zero |
| `Vectors.DotSymmetric` | _geometry-3d.ts:208-213 | the dot product is symmetric, and `Norm2(u) == Dot(u, u)` |
| `Vectors.DotBilinear` | _geometry-3d.ts:208-213 | the dot product is additive and homogeneous in its first factor, and so, by symmetry, bilinear |
| `Vectors.Cross` | _geometry-3d.ts:215-222 | the cross product is perpendicular to both factors: `Dot(v, r) == 0` and `Dot(other, r) == 0` |
| `Vectors.CrossAnticommutative` | _geometry-3d.ts:215-222 | `u × v == −(v × u)`, and the cross product of parallel vectors is zero |
| `Vectors.CrossLagrange` | _geometry-3d.ts:215-222 | Lagrange's identity: `|u × v|² == |u|²·|v|² − (u · v)²`, which fixes the size of the cross product |
| `Vectors.Norm2` | _geometry-3d.ts:224-229 | the squared length is never negative |
| `Vectors.Norm2Neg` | _geometry-3d.ts:224-229 | a vector and its negation have the same squared length |
| `Vectors.IsNorm` | _geometry-3d.ts:231-236 | `n` is the length `norm()` returns: `n >= 0` and `n * n == Norm2(v)`; no contract of its own, its laws are in `NormUnique` and `IsNormOfEqualLength` |
| `Vectors.IsNormOfEqualLength` | _geometry-3d.ts:231-236 | vectors with equal squared length have the same lengths |
| `Vectors.NormUnique` | _geometry-3d.ts:231-236 | a vector has at most one non-negative length, so `norm` is well defined |
| `Vectors.Unit` | _geometry-3d.ts:238-248 | below `EPSILON3D` the result is exactly (1, 0, 0); otherwise it has squared length 1 and scales back to `v` by `n` |
| `Vectors.UnitFallbackIff` | _geometry-3d.ts:242-244 | the length is below `EPSILON3D` exactly when the squared length is below `EPSILON3D²`, and then `Unit` is (1, 0, 0) |
| `Vectors.UnitOfZero` | _geometry-3d.ts:242-244 | the zero vector has length 0 and `Unit` falls back to (1, 0, 0) |
| `Vectors.Div` | _geometry-3d.ts:250-255 | for a non-zero divisor, scaling the quotient back by the divisor recovers `v` |
| `Vectors.BasisOrthogonal` | _geometry-3d.ts:284-286 | the three basis vectors are pairwise perpendicular |
| `Vectors.BasisUnitLength` | _geometry-3d.ts:284-286 | each basis vector has squared length 1 |
| `Vectors.BasisRightHanded` | _geometry-3d.ts:284-286 | `X × Y == Z`, `Y × Z == X`, `Z × X == Y` |
| `Points.Origin` | _geometry-3d.ts:283 | the origin, as written; no contract of its own, its components are stated in `ComponentsRoundTrip` and it anchors `Position` in `CombosAffine` |
| `Points.Components` | _geometry-3d.ts:38-43 | the coordinates as a sequence, as written; no contract of its own, inverted by `WithComponents` in `ComponentsRoundTrip` |
| `Points.WithComponents` | _geometry-3d.ts:137-142 | the point built from the first three entries, as written; no contract of its own, inverted in `WithComponentsRoundTrip` |
| `Points.ComponentsRoundTrip` | _geometry-3d.ts:38-43 | a point has three coordinates, rebuilding a point from them gives it back, and the origin's components are `[0, 0, 0]` |
| `Points.WithComponentsRoundTrip` | _geometry-3d.ts:137-142 | building a point from a sequence of at least three entries and reading it back gives the first three entries |
| `Points.Plus` | _geometry-3d.ts:52-59 | point + vector, as written; no contract of its own, its laws are in `PlusPlus`, `PlusMinusVectorRoundTrip` and `PlusDifference` |
| `Points.MinusPoint` | _geometry-3d.ts:69-72 | point − point is the displacement that carries `other` to `p`: `Plus(other, r) == p` |
| `Points.MinusVector` | _geometry-3d.ts:73-76 | point − vector is the point that `offset` carries to `p`: `Plus(r, offset) == p` |
| `Points.PlusMinusVectorRoundTrip` | _geometry-3d.ts:52-59 | adding then subtracting a vector returns the point, and so does the reverse order; the difference of `p + v` and `p` is `v` |
| `Points.PlusDifference` | _geometry-3d.ts:52-59 | `P + (Q − P) == Q` |
| `Points.MinusAntisymmetric` | _geometry-3d.ts:61-80 | `P − Q == −(Q − P)`, `P − P` is zero, and subtracting a vector is adding its negation |
| `Points.MinusPointChain` | _geometry-3d.ts:69-72 | `(P − Q) + (Q − R) == P − R` |
| `Points.PlusPlus` | _geometry-3d.ts:52-59 | adding `u` then `v` to a point is adding `u + v`; adding zero changes nothing |
| `Points.Dist2` | _geometry-3d.ts:82-87 | the squared distance is never negative |
| `Points.Dist2Symmetric` | _geometry-3d.ts:82-87 | the squared distance is symmetric, equals the dot product of the point difference with itself, and is 0 from a point to itself |
| `Points.DistSymmetric` | _geometry-3d.ts:89-94 | `d` is a length of `P − Q` exactly when it is a length of `Q − P`, so `dist` is symmetric |
| `Points.Combo` | _geometry-3d.ts:96-104 | each coordinate of the result is `(1 − s)·p + s·other` |
| `Points.ComboEndpoints` | _geometry-3d.ts:96-104 | `combo(0, Q) == P`, `combo(1, Q) == Q`, and `combo(0.5, Q)` is the midpoint |
| `Points.TermCount` | _geometry-3d.ts:111 | the number of terms is the length of one sequence and no more than either length |
| `Points.Combos` | _geometry-3d.ts:106-116 | the result is the receiver plus the sum of the `min(|scalars|, |others|)` terms `s_i·(others_i − receiver)` |
| `Points.CombosFrom` | _geometry-3d.ts:110-115 | the loop as written, each term measured from the receiver; no contract of its own, its result is given by `CombosFromMatchesOffsetSum` |
| `Points.CombosFromMatchesOffsetSum` | _geometry-3d.ts:112-114 | from any iteration on, the loop reaches the receiver plus the reference sum of all terms |
| `Points.CombosEmpty` | _geometry-3d.ts:110-115 | with an empty sequence of scalars or points, the receiver comes back unchanged |
| `Points.CombosSingle` | _geometry-3d.ts:106-116 | `combos([s], [Q]) == combo(s, Q)` |
| `Points.CombosIgnoresExtra` | _geometry-3d.ts:111-114 | entries beyond the shorter sequence's length do not change the result |
| `Points.OffsetSumAffine` | _geometry-3d.ts:113 | the sum of terms equals the weighted sum of positions minus the receiver's position scaled by the total weight |
| `Points.CombosAffine` | _geometry-3d.ts:106-116 | measured from the origin, the result is the affine combination with weights `1 − Σ s_i` on the receiver and `s_i` on `others_i` |
| `Points.CombosIsNotIteratedCombo` | _geometry-3d.ts:113 | two half-steps towards `Q` reach `Q` with `combos`; iterated `combo` stops at `combo(0.75, Q)`, short of `Q` when `P ≠ Q` |
| `Points.MaxCoord` | _geometry-3d.ts:122-124 | `Math.max` of two coordinates: at least both, and equal to one of them |
| `Points.MinCoord` | _geometry-3d.ts:131-133 | `Math.min` of two coordinates: at most both, and equal to one of them |
| `Points.Max` | _geometry-3d.ts:118-125 | the result bounds both points from above, and each coordinate is one of the inputs' |
| `Points.Min` | _geometry-3d.ts:127-134 | the result bounds both points from below, and each coordinate is one of the inputs' |
| `Points.MaxMinBounds` | _geometry-3d.ts:118-134 | `min(P, Q) ≤ P, Q ≤ max(P, Q)` in every coordinate; `max` is the least upper bound and `min` the greatest lower bound |
| `Points.MaxMinCommutative` | _geometry-3d.ts:118-134 | `max` and `min` are commutative, and `P.max(P) == P.min(P) == P` |

## Left out

- `randomUnit`: it draws from `Math.random` and uses `acos`, `sin` and `cos`. Its promise, a uniform direction on the sphere, is statistical, not a contract.
- `glVertex3fv`, `glNormal3fv` and the no-op `glVertex3f`/`glNormal3f` hooks: graphics side effects with no result.
- `norm` and `dist` as functions: they need `Math.sqrt`. A length appears as a parameter constrained by `Vectors.IsNorm` instead (see `Vectors.Unit`, `Vectors.NormUnique`, `Points.DistSymmetric`).
- Vectors.Div: requires a non-zero divisor. With a zero divisor the code produces IEEE infinities or NaN, which exact reals cannot represent.
- Vectors.WithComponents: requires at least three entries. With fewer, the missing entries are read as `undefined` and stored as such in the new vector; they become NaN only once arithmetic uses them. Exact reals have no such value.
- Points.WithComponents: requires at least three entries, for the same reason. With fewer, the new point gets `undefined` coordinates, which become NaN in arithmetic.
- Vectors.Norm2: states non-negativity only. The fact that only the zero vector has squared length 0 is left unstated, because no contract in the model relies on it and the solver cannot prove `a*a + b*b + c*c == 0 ==> a == 0 && b == 0 && c == 0` over reals here.
- Floating-point rounding, overflow and NaN in general, including `Math.max`/`Math.min` on NaN.
- The unreachable `else return this` branch of the overloaded `minus`.
- Object identity and aliasing: the TypeScript fields are writable, and `combos` with no terms returns the receiver object itself rather than a copy. Datatype values have no identity, so `Points.CombosEmpty` states only that the result equals the receiver.
- Attaching methods to the prototypes after the class definitions; they are ordinary functions here.
