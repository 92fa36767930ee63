/** Three-component vectors over the reals, standing in for OpenCL `float3`
    and three-element numpy arrays. */
module Vectors {

  datatype Vec3 = Vec3(x: real, y: real, z: real)

  const Zero := Vec3(0.0, 0.0, 0.0)

  function Add(a: Vec3, b: Vec3): Vec3 {
    Vec3(a.x + b.x, a.y + b.y, a.z + b.z)
  }

  function Sub(a: Vec3, b: Vec3): Vec3 {
    Vec3(a.x - b.x, a.y - b.y, a.z - b.z)
  }

  function Neg(a: Vec3): Vec3 {
    Vec3(-a.x, -a.y, -a.z)
  }

  function Scale(k: real, a: Vec3): Vec3 {
    Vec3(k * a.x, k * a.y, k * a.z)
  }

  function Dot(a: Vec3, b: Vec3): real {
    a.x * b.x + a.y * b.y + a.z * b.z
  }

  /** Squared Euclidean length. */
  function Norm2(a: Vec3): real {
    Dot(a, a)
  }

  /** Squared distance between two points. */
  function Dist2(a: Vec3, b: Vec3): real {
    Norm2(Sub(a, b))
  }

  /** The point reached after travelling `t` along `ray` from `origin`. */
  function PointAt(origin: Vec3, ray: Vec3, t: real): Vec3 {
    Add(origin, Scale(t, ray))
  }

  /** Coordinate `k` (0, 1 or 2) of a vector. */
  function Coord(a: Vec3, k: nat): real
    requires k < 3
  {
    if k == 0 then a.x else if k == 1 then a.y else a.z
  }

  /** `sqrt` behaves as the real square root on non-negative arguments.
      The device `native_sqrt`, numpy's `sqrt` and `vec_norm` are taken as
      parameters constrained by this predicate. */
  ghost predicate IsSqrt(sqrt: real -> real) {
    forall x :: 0.0 <= x ==> 0.0 <= sqrt(x) && sqrt(x) * sqrt(x) == x
  }

  lemma NormNonNegative(a: Vec3)
    ensures Norm2(a) >= 0.0
  {
  }

  /** The distance along a ray is linear in `t`: dotting the ray point with a
      fixed vector gives the origin's value plus `t` times the ray's. */
  lemma DotAlongRay(origin: Vec3, ray: Vec3, t: real, n: Vec3)
    ensures Dot(PointAt(origin, ray, t), n) == Dot(origin, n) + t * Dot(ray, n)
  {
  }

  /** Squared length along a ray: a quadratic in `t`. */
  lemma Norm2AlongRay(u: Vec3, v: Vec3, t: real)
    ensures Norm2(PointAt(u, v, t)) == Norm2(u) + 2.0 * t * Dot(u, v) + t * t * Norm2(v)
  {
    var p := PointAt(u, v, t);
    assert p.x * p.x == u.x * u.x + 2.0 * t * u.x * v.x + t * t * (v.x * v.x);
    assert p.y * p.y == u.y * u.y + 2.0 * t * u.y * v.y + t * t * (v.y * v.y);
    assert p.z * p.z == u.z * u.z + 2.0 * t * u.z * v.z + t * t * (v.z * v.z);
  }

  /** `Norm2AlongRay` with the coefficients named by the caller. */
  lemma Norm2AlongRayWith(u: Vec3, v: Vec3, t: real, P: real, q: real, k: real)
    requires P == Norm2(u) && q == Dot(u, v) && k == Norm2(v)
    ensures Norm2(PointAt(u, v, t)) == P + 2.0 * t * q + t * t * k
  {
    Norm2AlongRay(u, v, t);
  }

  /** For `s >= 0`, `x*x <= s*s` exactly when `x` lies in `[-s, s]`. */
  lemma SquareWithin(x: real, s: real)
    requires s >= 0.0
    ensures x * x <= s * s <==> -s <= x && x <= s
  {
    assert x * x - s * s == (x - s) * (x + s);
    if x > s {
      MulPositive(x - s, x + s);
      assert x * x - s * s > 0.0;
    } else if x < -s {
      var y := -x;
      assert y > s;
      MulPositive(y - s, y + s);
      assert (y - s) * (y + s) == y * y - s * s;
      assert y * y == x * x;
    } else {
      assert (x - s) * (x + s) <= 0.0;
    }
  }

  lemma MulPositive(a: real, b: real)
    requires a > 0.0 && b > 0.0
    ensures a * b > 0.0
  {
  }

  lemma MulNonNegative(a: real, b: real)
    requires a >= 0.0 && b >= 0.0
    ensures a * b >= 0.0
  {
    if a > 0.0 && b > 0.0 {
      MulPositive(a, b);
    }
  }
}
