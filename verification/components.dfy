/** The interval producers of the convex-intersection components. Each
    component's tracer receives the ray origin relative to the component's
    position and narrows the running interval through two pointers
    (`p_isec_begin`, `p_isec_end`) and a subobject pointer; a pointer it
    does not write keeps its previous value. An interval with begin 1 and
    end 0 is the "missed" marker. */
module Components {
  import opened Wrappers
  import opened Strings
  import opened Vectors
  import CI = ConvexIntersection

  /** What a component tracer writes through its pointers. */
  datatype Writes = Writes(begin: Option<real>, end: Option<real>, subobject: Option<int>)

  /** The "ray misses" marker: begin 1 after end 0. */
  const EmptyMarker: Writes := Writes(Some(1.0), Some(0.0), None)

  /** The running interval after the call, from its values before it. */
  function After(w: Writes, begin0: real, end0: real): (r: (real, real))
    ensures w.begin.Some? ==> r.0 == w.begin.value
    ensures w.begin.None? ==> r.0 == begin0
    ensures w.end.Some? ==> r.1 == w.end.value
    ensures w.end.None? ==> r.1 == end0
  {
    (if w.begin.Some? then w.begin.value else begin0, if w.end.Some? then w.end.value else end0)
  }

  // ---------------------------------------------------------------------
  // Arithmetic helpers.

  /** The sign of a product with a non-zero factor. */
  lemma ProductSign(a: real, b: real)
    requires b != 0.0
    ensures b > 0.0 ==> (a * b <= 0.0 <==> a <= 0.0) && (a * b >= 0.0 <==> a >= 0.0)
    ensures b < 0.0 ==> (a * b <= 0.0 <==> a >= 0.0) && (a * b >= 0.0 <==> a <= 0.0)
  {
    if a > 0.0 && b > 0.0 {
      MulPositive(a, b);
    } else if a < 0.0 && b > 0.0 {
      MulPositive(-a, b);
    } else if a > 0.0 && b < 0.0 {
      MulPositive(a, -b);
    } else if a < 0.0 && b < 0.0 {
      MulPositive(-a, -b);
    }
  }

  /** Comparing with a quotient by a positive number. */
  lemma DivPos(x: real, k: real, t: real)
    requires k > 0.0
    ensures x / k <= t <==> x <= k * t
    ensures t <= x / k <==> k * t <= x
  {
    assert (t - x / k) * k == k * t - x;
    ProductSign(t - x / k, k);
  }

  /** Comparing with a quotient by a negative number. */
  lemma DivNeg(x: real, k: real, t: real)
    requires k < 0.0
    ensures x / k <= t <==> k * t <= x
    ensures t <= x / k <==> x <= k * t
  {
    assert (t - x / k) * k == k * t - x;
    ProductSign(t - x / k, k);
  }

  /** The axial and perpendicular parts of a vector along `axis`. */
  function Perp(p: Vec3, axis: Vec3): Vec3 {
    Sub(p, Scale(Dot(p, axis), axis))
  }

  /** Squared distance from the line through the origin along a unit
      `axis`. */
  function AxisDist2(p: Vec3, axis: Vec3): real {
    Norm2(Perp(p, axis))
  }

  /** The perpendicular part moves linearly along the ray. */
  lemma PerpAlongRay(origin: Vec3, ray: Vec3, axis: Vec3, t: real)
    ensures Perp(PointAt(origin, ray, t), axis) == PointAt(Perp(origin, axis), Perp(ray, axis), t)
  {
    DotAlongRay(origin, ray, t, axis);
  }

  // ---------------------------------------------------------------------
  // HalfSpaceComponent: the half-space `p . normal <= h`.

  function HalfSpaceTracer(origin: Vec3, ray: Vec3, normal: Vec3, h: real): (w: Writes)
    requires Dot(ray, normal) != 0.0
    ensures w.subobject == Some(0)
    ensures Dot(ray, normal) < 0.0 ==>
      w.end.None? && w.begin.Some? && Dot(PointAt(origin, ray, w.begin.value), normal) == h
    ensures Dot(ray, normal) > 0.0 ==>
      w.begin.None? && w.end.Some? && Dot(PointAt(origin, ray, w.end.value), normal) == h
  {
    var slope := Dot(ray, normal);
    var dist := (Dot(Neg(origin), normal) + h) / slope;
    DotAlongRay(origin, ray, dist, normal);
    if slope < 0.0 then Writes(Some(dist), None, Some(0)) else Writes(None, Some(dist), Some(0))
  }

  /** The written bound is where the ray crosses the plane: a ray going
      against the normal is in the half-space from `begin` on, one going
      with it up to `end`. */
  lemma HalfSpaceRegion(origin: Vec3, ray: Vec3, normal: Vec3, h: real, t: real)
    requires Dot(ray, normal) != 0.0
    ensures var w := HalfSpaceTracer(origin, ray, normal, h);
      var inside := Dot(PointAt(origin, ray, t), normal) <= h;
      (Dot(ray, normal) < 0.0 ==> (inside <==> t >= w.begin.value))
      && (Dot(ray, normal) > 0.0 ==> (inside <==> t <= w.end.value))
  {
    var slope := Dot(ray, normal);
    var w := HalfSpaceTracer(origin, ray, normal, h);
    var dist := if slope < 0.0 then w.begin.value else w.end.value;
    DotAlongRay(origin, ray, t, normal);
    DotAlongRay(origin, ray, dist, normal);
    assert Dot(PointAt(origin, ray, t), normal) - h == (t - dist) * slope;
    ProductSign(t - dist, slope);
  }

  // ---------------------------------------------------------------------
  // LayerComponent: the slab `0 <= p . uax <= h`.

  function LayerTracer(origin: Vec3, ray: Vec3, uax: Vec3, h: real, inside: bool): (w: Writes)
    requires Dot(ray, uax) != 0.0
    ensures w.begin.Some? && w.end.Some?
    ensures w.subobject == Some(if (Dot(ray, uax) > 0.0) == inside then 1 else 0)
  {
    var slope := Dot(ray, uax);
    var d1 := if slope > 0.0 then Dot(Neg(origin), uax) else Dot(Neg(origin), uax) + h;
    var d2 := if slope > 0.0 then Dot(Neg(origin), uax) + h else Dot(Neg(origin), uax);
    var sub := if (slope > 0.0) == inside then 1 else 0;
    Writes(Some(d1 / slope), Some(d2 / slope), Some(sub))
  }

  /** For a non-negative thickness the written interval is exactly the
      part of the ray inside the slab, so in particular begin <= end. */
  lemma LayerRegion(origin: Vec3, ray: Vec3, uax: Vec3, h: real, inside: bool, t: real)
    requires Dot(ray, uax) != 0.0 && h >= 0.0
    ensures var w := LayerTracer(origin, ray, uax, h, inside);
      var z := Dot(PointAt(origin, ray, t), uax);
      (w.begin.value <= t <= w.end.value <==> 0.0 <= z <= h)
      && w.begin.value <= w.end.value
  {
    var slope := Dot(ray, uax);
    var z0 := Dot(origin, uax);
    assert Dot(Neg(origin), uax) == -z0;
    DotAlongRay(origin, ray, t, uax);
    LayerScalar(z0, slope, h, t);
  }

  /** The slab test on the axial coordinate `z0 + t*slope`. */
  lemma LayerScalar(z0: real, slope: real, h: real, t: real)
    requires slope != 0.0 && h >= 0.0
    ensures var b := if slope > 0.0 then -z0 / slope else (-z0 + h) / slope;
      var e := if slope > 0.0 then (-z0 + h) / slope else -z0 / slope;
      (b <= t <= e <==> 0.0 <= z0 + t * slope <= h) && b <= e
  {
    if slope > 0.0 {
      DivPos(-z0, slope, t);
      DivPos(-z0 + h, slope, t);
      DivPos(-z0 + h, slope, -z0 / slope);
      assert slope * (-z0 / slope) == -z0;
    } else {
      DivNeg(-z0, slope, t);
      DivNeg(-z0 + h, slope, t);
      DivNeg(-z0, slope, (-z0 + h) / slope);
      assert slope * ((-z0 + h) / slope) == -z0 + h;
    }
  }

  /** `subobject == 1` selects `uax`, anything else `-uax`. */
  function LayerNormal(uax: Vec3, subobject: int): Vec3 {
    if subobject == 1 then uax else Neg(uax)
  }

  /** The subobject picked by the layer tracer names the face the ray
      crosses: from outside its normal faces the ray, from inside it
      points along the ray. */
  lemma LayerNormalFacesRay(origin: Vec3, ray: Vec3, uax: Vec3, h: real, inside: bool)
    requires Dot(ray, uax) != 0.0
    ensures var n := LayerNormal(uax, LayerTracer(origin, ray, uax, h, inside).subobject.value);
      (inside ==> Dot(n, ray) > 0.0) && (!inside ==> Dot(n, ray) < 0.0)
  {
  }

  /** The layer thickness: `vec_norm(axis)` when omitted. */
  function LayerThickness(axis: Vec3, h: Option<real>, sqrt: real -> real): (r: real)
    requires IsSqrt(sqrt)
    ensures h.Some? ==> r == h.value
    ensures h.None? ==> r >= 0.0 && r * r == Norm2(axis)
  {
    NormNonNegative(axis);
    if h.None? then sqrt(Norm2(axis)) else h.value
  }

  // ---------------------------------------------------------------------
  // SphereComponent: the ball `|p|^2 <= R2` around the component position.

  function SphereDiscr(origin: Vec3, ray: Vec3, R2: real): real {
    var dotp := -Dot(ray, origin);
    dotp * dotp - Dot(origin, origin) + R2
  }

  function SphereTracer(origin: Vec3, ray: Vec3, R2: real, sqrt: real -> real): (w: Writes)
    requires IsSqrt(sqrt)
    ensures SphereDiscr(origin, ray, R2) < 0.0 ==> w == EmptyMarker
    ensures SphereDiscr(origin, ray, R2) >= 0.0 ==>
      w.begin.Some? && w.end.Some? && w.subobject.None? && w.begin.value <= w.end.value
  {
    var dotp := -Dot(ray, origin);
    var discr := SphereDiscr(origin, ray, R2);
    if discr < 0.0 then EmptyMarker
    else
      var s := sqrt(discr);
      Writes(Some(dotp - s), Some(dotp + s), None)
  }

  /** For a unit ray the written interval is exactly the part of the ray
      inside the ball, and the missed marker is written only when the ray
      misses it. */
  lemma SphereRegion(origin: Vec3, ray: Vec3, R2: real, sqrt: real -> real, t: real)
    requires IsSqrt(sqrt) && Norm2(ray) == 1.0
    ensures var w := SphereTracer(origin, ray, R2, sqrt);
      var n := Norm2(PointAt(origin, ray, t));
      (SphereDiscr(origin, ray, R2) < 0.0 ==> n > R2)
      && (SphereDiscr(origin, ray, R2) >= 0.0 ==> (w.begin.value <= t <= w.end.value <==> n <= R2))
  {
    var dotp := -Dot(ray, origin);
    var psq := Dot(origin, origin);
    Norm2AlongRayWith(origin, ray, t, psq, -dotp, 1.0);
    SphereScalar(psq, dotp, R2, t, Norm2(PointAt(origin, ray, t)), SphereDiscr(origin, ray, R2), sqrt);
  }

  /** The ball test on the quadratic `psq - 2 t dotp + t^2`. */
  lemma SphereScalar(psq: real, dotp: real, R2: real, t: real, n: real, discr: real, sqrt: real -> real)
    requires IsSqrt(sqrt)
    requires n == psq + 2.0 * t * -dotp + t * t * 1.0 && discr == dotp * dotp - psq + R2
    ensures discr < 0.0 ==> n > R2
    ensures discr >= 0.0 ==> (dotp - sqrt(discr) <= t <= dotp + sqrt(discr) <==> n <= R2)
  {
    var x := t - dotp;
    assert n - R2 == x * x - discr;
    if discr >= 0.0 {
      SquareWithin(x, sqrt(discr));
    } else {
      assert x * x >= 0.0;
    }
  }

  // ---------------------------------------------------------------------
  // CylinderComponent: the infinite cylinder `AxisDist2(p) <= R2`.

  function CylinderDiscr(origin: Vec3, ray: Vec3, axis: Vec3, R2: real): real {
    var perp := Perp(origin, axis);
    var rayPerp := Perp(ray, axis);
    var dotp := Dot(rayPerp, perp);
    dotp * dotp - Norm2(rayPerp) * (Norm2(perp) - R2)
  }

  function CylinderTracer(origin: Vec3, ray: Vec3, axis: Vec3, R2: real, sqrt: real -> real): (w: Writes)
    requires IsSqrt(sqrt) && Norm2(Perp(ray, axis)) > 0.0
    ensures CylinderDiscr(origin, ray, axis, R2) < 0.0 ==> w == EmptyMarker
    ensures CylinderDiscr(origin, ray, axis, R2) >= 0.0 ==>
      w.begin.Some? && w.end.Some? && w.subobject.None? && w.begin.value <= w.end.value
  {
    var perp := Perp(origin, axis);
    var rayPerp := Perp(ray, axis);
    var dotp := Dot(rayPerp, perp);
    var rayPerp2 := Norm2(rayPerp);
    var discr := CylinderDiscr(origin, ray, axis, R2);
    if discr < 0.0 then EmptyMarker
    else
      var s := sqrt(discr);
      var d1 := -dotp - s;
      assert d1 <= d1 + 2.0 * s;
      Writes(Some(d1 / rayPerp2), Some((d1 + 2.0 * s) / rayPerp2), None)
  }

  /** `lo/k <= t <= hi/k` iff `lo <= k*t <= hi` for `k > 0`. */
  lemma DivideBounds(lo: real, hi: real, k: real, t: real)
    requires k > 0.0
    ensures lo / k <= t <= hi / k <==> lo <= k * t <= hi
  {
    ProductSign(t - lo / k, k);
    ProductSign(t - hi / k, k);
    assert (t - lo / k) * k == k * t - lo;
    assert (t - hi / k) * k == k * t - hi;
  }

  /** The written interval is exactly the part of the ray within distance
      sqrt(R2) of the axis; the missed marker means no such part. */
  lemma CylinderRegion(origin: Vec3, ray: Vec3, axis: Vec3, R2: real, sqrt: real -> real, t: real)
    requires IsSqrt(sqrt) && Norm2(Perp(ray, axis)) > 0.0
    ensures var w := CylinderTracer(origin, ray, axis, R2, sqrt);
      var d := AxisDist2(PointAt(origin, ray, t), axis);
      (CylinderDiscr(origin, ray, axis, R2) < 0.0 ==> d > R2)
      && (CylinderDiscr(origin, ray, axis, R2) >= 0.0 ==> (w.begin.value <= t <= w.end.value <==> d <= R2))
  {
    var perp := Perp(origin, axis);
    var rayPerp := Perp(ray, axis);
    var q := Dot(rayPerp, perp);
    var k := Norm2(rayPerp);
    PerpAlongRay(origin, ray, axis, t);
    Norm2AlongRayWith(perp, rayPerp, t, Norm2(perp), q, k);
    var d := AxisDist2(PointAt(origin, ray, t), axis);
    assert d == Norm2(PointAt(perp, rayPerp, t));
    var discr := CylinderDiscr(origin, ray, axis, R2);
    CylinderScalar(Norm2(perp), q, k, R2, t, d, discr, sqrt);
    var w := CylinderTracer(origin, ray, axis, R2, sqrt);
    if discr >= 0.0 {
      assert w.begin.value == (-q - sqrt(discr)) / k;
      assert w.end.value == (-q - sqrt(discr) + 2.0 * sqrt(discr)) / k;
    }
  }

  /** The cylinder test on the quadratic `P + 2 t q + t^2 k` with
      `k > 0`. */
  lemma CylinderScalar(P: real, q: real, k: real, R2: real, t: real, d: real, discr: real, sqrt: real -> real)
    requires IsSqrt(sqrt) && k > 0.0
    requires d == P + 2.0 * t * q + t * t * k && discr == q * q - k * (P - R2)
    ensures discr < 0.0 ==> d > R2
    ensures discr >= 0.0 ==>
      ((-q - sqrt(discr)) / k <= t <= (-q - sqrt(discr) + 2.0 * sqrt(discr)) / k <==> d <= R2)
  {
    var x := k * t + q;
    CylinderIdentity(P, q, k, R2, t, d, discr, x);
    if discr >= 0.0 {
      var s := sqrt(discr);
      BandFromSquare(d, R2, k, x, discr, s, t, q);
      assert -q - s + 2.0 * s == -q + s;
    } else {
      OutsideWhenNegative(d, R2, k, x, discr);
    }
  }

  lemma OutsideWhenNegative(d: real, R2: real, k: real, x: real, discr: real)
    requires k > 0.0 && discr < 0.0 && k * (d - R2) == x * x - discr
    ensures d > R2
  {
    assert x * x >= 0.0;
    ProductSign(d - R2, k);
  }

  lemma BandFromSquare(d: real, R2: real, k: real, x: real, discr: real, s: real, t: real, q: real)
    requires k > 0.0 && k * (d - R2) == x * x - discr && x == k * t + q
    requires s >= 0.0 && s * s == discr
    ensures (-q - s) / k <= t <= (-q + s) / k <==> d <= R2
  {
    ProductSign(d - R2, k);
    SquareWithin(x, s);
    DivPos(-q - s, k, t);
    DivPos(-q + s, k, t);
  }

  lemma CylinderIdentity(P: real, q: real, k: real, R2: real, t: real, d: real, discr: real, x: real)
    requires d == P + 2.0 * t * q + t * t * k && discr == q * q - k * (P - R2) && x == k * t + q
    ensures k * (d - R2) == x * x - discr
  {
  }

  // ---------------------------------------------------------------------
  // ConeComponent: the cone `AxisDist2(p) <= s2 * (p . axis)^2` with
  // `p . axis >= 0`.

  /** The scalars the cone tracer derives from origin and ray: the axial
      coordinates `z0` and `ray_par_len`, and the squared lengths and
      cross term of their perpendicular parts. */
  datatype ConeTerms = ConeTerms(z0: real, zs: real, relPerp2: real, cross: real, rayPerp2: real)

  function ConeTermsOf(origin: Vec3, ray: Vec3, axis: Vec3): ConeTerms {
    ConeTerms(Dot(origin, axis), Dot(ray, axis), Norm2(Perp(origin, axis)),
              Dot(Perp(origin, axis), Perp(ray, axis)), Norm2(Perp(ray, axis)))
  }

  /** The coefficients of the cone quadratic `a t^2 + 2 hb t + c`. */
  function ConeA(ct: ConeTerms, s2: real): real {
    ct.rayPerp2 - s2 * ct.zs * ct.zs
  }

  function ConeHB(ct: ConeTerms, s2: real): real {
    ct.cross - s2 * ct.zs * ct.z0
  }

  function ConeC(ct: ConeTerms, s2: real): real {
    ct.relPerp2 - s2 * ct.z0 * ct.z0
  }

  function ConeDiscr(ct: ConeTerms, s2: real): real {
    ConeHB(ct, s2) * ConeHB(ct, s2) - ConeA(ct, s2) * ConeC(ct, s2)
  }

  /** The cone quadratic at `t`. */
  function ConeQuad(ct: ConeTerms, s2: real, t: real): real {
    ConeA(ct, s2) * t * t + 2.0 * ConeHB(ct, s2) * t + ConeC(ct, s2)
  }

  /** How far `p` lies outside the double cone: zero exactly on its
      surface, negative inside. */
  function ConeExpr(p: Vec3, axis: Vec3, s2: real): real {
    AxisDist2(p, axis) - s2 * Dot(p, axis) * Dot(p, axis)
  }

  /** The two roots `(-hb - s)/a` and `(-hb - s)/a + 2 s/a`, in
      increasing order (`dist1`, `dist2`). */
  function QuadRoots(a: real, hb: real, s: real): (r: (real, real))
    requires a != 0.0 && s >= 0.0
    ensures r.0 <= r.1
    ensures {r.0, r.1} == {(-hb - s) / a, (-hb - s) / a + 2.0 * s / a}
  {
    var dist := (-hb - s) / a;
    var w := 2.0 * s / a;
    assert w * a == 2.0 * s;
    ProductSign(w, a);
    if a >= 0.0 then (dist, dist + w) else (dist + w, dist)
  }

  function ConeRoots(ct: ConeTerms, s2: real, sqrt: real -> real): (r: (real, real))
    requires IsSqrt(sqrt) && ConeA(ct, s2) != 0.0 && ConeDiscr(ct, s2) >= 0.0
  {
    QuadRoots(ConeA(ct, s2), ConeHB(ct, s2), sqrt(ConeDiscr(ct, s2)))
  }

  /** The axial coordinate `z0 + ray_par_len * t` of the ray point at
      distance `t`. */
  function AxialAt(ct: ConeTerms, t: real): real {
    ct.z0 + ct.zs * t
  }

  function ConeTracer(origin: Vec3, ray: Vec3, axis: Vec3, s2: real, sqrt: real -> real): (w: Writes)
    requires IsSqrt(sqrt) && ConeA(ConeTermsOf(origin, ray, axis), s2) != 0.0
    ensures var ct := ConeTermsOf(origin, ray, axis);
      (ConeDiscr(ct, s2) < 0.0 ==> w == EmptyMarker)
      && (ConeDiscr(ct, s2) >= 0.0 ==>
        var (d1, d2) := ConeRoots(ct, s2, sqrt);
        var z1 := AxialAt(ct, d1);
        var z2 := AxialAt(ct, d2);
        (z1 < 0.0 && z2 < 0.0 ==> w == EmptyMarker)
        && (z1 < 0.0 && z2 >= 0.0 ==> w == Writes(Some(d2), None, None))
        && (z1 >= 0.0 && z2 < 0.0 ==> w == Writes(None, Some(d1), None))
        && (z1 >= 0.0 && z2 >= 0.0 ==> w == Writes(Some(d1), Some(d2), None)))
  {
    var ct := ConeTermsOf(origin, ray, axis);
    if ConeDiscr(ct, s2) < 0.0 then EmptyMarker
    else
      var (d1, d2) := ConeRoots(ct, s2, sqrt);
      var z1 := AxialAt(ct, d1);
      var z2 := AxialAt(ct, d2);
      if z1 < 0.0 && z2 < 0.0 then EmptyMarker
      else if z1 < 0.0 then Writes(Some(d2), None, None)
      else if z2 < 0.0 then Writes(None, Some(d1), None)
      else Writes(Some(d1), Some(d2), None)
  }

  /** Along the ray, the cone expression is the cone quadratic in `t`. */
  lemma ConeQuadraticMeaning(origin: Vec3, ray: Vec3, axis: Vec3, s2: real, t: real)
    ensures ConeExpr(PointAt(origin, ray, t), axis, s2) == ConeQuad(ConeTermsOf(origin, ray, axis), s2, t)
  {
    var ct := ConeTermsOf(origin, ray, axis);
    var p := PointAt(origin, ray, t);
    var d := AxisDist2(p, axis);
    var zp := Dot(p, axis);
    ConeExprSplit(p, axis, s2, d, zp);
    AxisDistAlongRay(origin, ray, axis, t, ct);
    AxialAlongRay(origin, ray, axis, t, ct);
    ConeChain(ConeExpr(p, axis, s2), d, zp, ct, s2, t);
  }

  lemma ConeExprSplit(p: Vec3, axis: Vec3, s2: real, d: real, zp: real)
    requires d == AxisDist2(p, axis) && zp == Dot(p, axis)
    ensures ConeExpr(p, axis, s2) == d - s2 * zp * zp
  {
  }

  /** The squared axis distance along a ray is a quadratic in `t`. */
  lemma AxisDistAlongRay(origin: Vec3, ray: Vec3, axis: Vec3, t: real, ct: ConeTerms)
    requires ct == ConeTermsOf(origin, ray, axis)
    ensures AxisDist2(PointAt(origin, ray, t), axis) == ct.relPerp2 + 2.0 * t * ct.cross + t * t * ct.rayPerp2
  {
    var perp, rayPerp := Perp(origin, axis), Perp(ray, axis);
    PerpAlongRay(origin, ray, axis, t);
    Norm2AlongRayWith(perp, rayPerp, t, ct.relPerp2, ct.cross, ct.rayPerp2);
    assert AxisDist2(PointAt(origin, ray, t), axis) == Norm2(PointAt(perp, rayPerp, t));
  }

  lemma AxialAlongRay(origin: Vec3, ray: Vec3, axis: Vec3, t: real, ct: ConeTerms)
    requires ct == ConeTermsOf(origin, ray, axis)
    ensures Dot(PointAt(origin, ray, t), axis) == AxialAt(ct, t)
  {
    DotAlongRay(origin, ray, t, axis);
  }

  /** Collecting `d - s2 zp^2` by powers of `t`. */
  lemma ConeChain(e: real, d: real, zp: real, ct: ConeTerms, s2: real, t: real)
    requires e == d - s2 * zp * zp
    requires d == ct.relPerp2 + 2.0 * t * ct.cross + t * t * ct.rayPerp2
    requires zp == AxialAt(ct, t)
    ensures e == ConeQuad(ct, s2, t)
  {
    ConeIdentity(ct.relPerp2, ct.cross, ct.rayPerp2, ct.z0, ct.zs, s2, t, d, zp);
  }

  lemma ConeIdentity(P: real, q: real, k: real, z0: real, zs: real, s2: real, t: real, d: real, zp: real)
    requires d == P + 2.0 * t * q + t * t * k && zp == z0 + zs * t
    ensures d - s2 * zp * zp
      == (k - s2 * zs * zs) * t * t + 2.0 * (q - s2 * zs * z0) * t + (P - s2 * z0 * z0)
  {
  }

  /** `a t^2 + 2 hb t + c` vanishes at both roots `QuadRoots` finds when
      `s * s` is the discriminant. */
  lemma QuadRootsAreRoots(a: real, hb: real, c: real, s: real)
    requires a != 0.0 && s >= 0.0 && s * s == hb * hb - a * c
    ensures var (d1, d2) := QuadRoots(a, hb, s);
      a * d1 * d1 + 2.0 * hb * d1 + c == 0.0 && a * d2 * d2 + 2.0 * hb * d2 + c == 0.0
  {
    var (d1, d2) := QuadRoots(a, hb, s);
    var dist := (-hb - s) / a;
    RootAt(a, hb, c, s, dist, -s);
    RootAt(a, hb, c, s, dist + 2.0 * s / a, s);
    assert d1 == dist || d1 == dist + 2.0 * s / a;
    assert d2 == dist || d2 == dist + 2.0 * s / a;
  }

  lemma RootAt(a: real, hb: real, c: real, s: real, t: real, x: real)
    requires a != 0.0 && s * s == hb * hb - a * c
    requires (x == -s && t == (-hb - s) / a) || (x == s && t == (-hb - s) / a + 2.0 * s / a)
    ensures a * t * t + 2.0 * hb * t + c == 0.0
  {
    assert a * t + hb == x;
    assert a * (a * t * t + 2.0 * hb * t + c) == x * x - s * s;
  }

  /** Both roots lie on the double cone. */
  lemma ConeRootsOnCone(origin: Vec3, ray: Vec3, axis: Vec3, s2: real, sqrt: real -> real)
    requires var ct := ConeTermsOf(origin, ray, axis);
      IsSqrt(sqrt) && ConeA(ct, s2) != 0.0 && ConeDiscr(ct, s2) >= 0.0
    ensures var (d1, d2) := ConeRoots(ConeTermsOf(origin, ray, axis), s2, sqrt);
      ConeExpr(PointAt(origin, ray, d1), axis, s2) == 0.0
      && ConeExpr(PointAt(origin, ray, d2), axis, s2) == 0.0
  {
    var ct := ConeTermsOf(origin, ray, axis);
    var (d1, d2) := ConeRoots(ct, s2, sqrt);
    ConeRootsScalar(ct, s2, sqrt);
    ConeQuadraticMeaning(origin, ray, axis, s2, d1);
    ConeQuadraticMeaning(origin, ray, axis, s2, d2);
  }

  /** The cone quadratic vanishes at both `ConeRoots`. */
  lemma ConeRootsScalar(ct: ConeTerms, s2: real, sqrt: real -> real)
    requires IsSqrt(sqrt) && ConeA(ct, s2) != 0.0 && ConeDiscr(ct, s2) >= 0.0
    ensures var (d1, d2) := ConeRoots(ct, s2, sqrt);
      ConeQuad(ct, s2, d1) == 0.0 && ConeQuad(ct, s2, d2) == 0.0
  {
    var a, hb, c := ConeA(ct, s2), ConeHB(ct, s2), ConeC(ct, s2);
    var discr := ConeDiscr(ct, s2);
    var s := sqrt(discr);
    assert s * s == discr && s >= 0.0;
    assert discr == hb * hb - a * c;
    QuadRootsAreRoots(a, hb, c, s);
  }

  /** With a negative discriminant no point of the ray (forward or
      backward) is on the double cone, so the "missed" marker is right. */
  lemma ConeMissedWhenNegative(origin: Vec3, ray: Vec3, axis: Vec3, s2: real, t: real)
    requires var ct := ConeTermsOf(origin, ray, axis);
      ConeA(ct, s2) != 0.0 && ConeDiscr(ct, s2) < 0.0
    ensures ConeExpr(PointAt(origin, ray, t), axis, s2) != 0.0
  {
    var ct := ConeTermsOf(origin, ray, axis);
    ConeQuadraticMeaning(origin, ray, axis, s2, t);
    ConeNoRoot(ct, s2, t);
  }

  lemma ConeNoRoot(ct: ConeTerms, s2: real, t: real)
    requires ConeA(ct, s2) != 0.0 && ConeDiscr(ct, s2) < 0.0
    ensures ConeQuad(ct, s2, t) != 0.0
  {
    var a, hb, c := ConeA(ct, s2), ConeHB(ct, s2), ConeC(ct, s2);
    assert ConeDiscr(ct, s2) == hb * hb - a * c;
    NoRootWhenNegative(a, hb, c, t);
    assert ConeQuad(ct, s2, t) == a * t * t + 2.0 * hb * t + c;
  }

  lemma NoRootWhenNegative(a: real, hb: real, c: real, t: real)
    requires a != 0.0 && hb * hb - a * c < 0.0
    ensures a * t * t + 2.0 * hb * t + c != 0.0
  {
    var x := a * t + hb;
    assert a * (a * t * t + 2.0 * hb * t + c) == x * x - (hb * hb - a * c);
    assert x * x >= 0.0;
  }

  /** The upper nappe: on the cone surface with a non-negative axial
      coordinate. */
  predicate OnUpperNappe(p: Vec3, axis: Vec3, s2: real) {
    Dot(p, axis) >= 0.0 && ConeExpr(p, axis, s2) == 0.0
  }

  /** A bound the cone tracer writes is a point of the upper nappe. */
  lemma ConeWritesUpperNappe(origin: Vec3, ray: Vec3, axis: Vec3, s2: real, sqrt: real -> real, t: real)
    requires IsSqrt(sqrt) && ConeA(ConeTermsOf(origin, ray, axis), s2) != 0.0
    requires var w := ConeTracer(origin, ray, axis, s2, sqrt);
      w != EmptyMarker && (w.begin == Some(t) || w.end == Some(t))
    ensures OnUpperNappe(PointAt(origin, ray, t), axis, s2)
  {
    var ct := ConeTermsOf(origin, ray, axis);
    var (d1, d2) := ConeRoots(ct, s2, sqrt);
    ConeRootsOnCone(origin, ray, axis, s2, sqrt);
    AxialAlongRay(origin, ray, axis, d1, ct);
    AxialAlongRay(origin, ray, axis, d2, ct);
    assert t == d1 || t == d2;
  }

  // ---------------------------------------------------------------------
  // Normals and constructors.

  function SphereNormal(pos: Vec3, invR: real): Vec3 {
    Scale(invR, pos)
  }

  function CylinderNormal(pos: Vec3, axis: Vec3, invR: real): Vec3 {
    Scale(invR, Perp(pos, axis))
  }

  lemma Norm2Scale(k: real, v: Vec3)
    ensures Norm2(Scale(k, v)) == k * k * Norm2(v)
  {
  }

  /** On the surface, the sphere and cylinder normals are unit vectors. */
  lemma SurfaceNormalsUnit(pos: Vec3, axis: Vec3, R: real)
    requires R != 0.0
    ensures Norm2(pos) == R * R ==> Norm2(SphereNormal(pos, 1.0 / R)) == 1.0
    ensures AxisDist2(pos, axis) == R * R ==> Norm2(CylinderNormal(pos, axis, 1.0 / R)) == 1.0
  {
    Norm2Scale(1.0 / R, pos);
    Norm2Scale(1.0 / R, Perp(pos, axis));
    assert (1.0 / R) * (1.0 / R) * (R * R) == 1.0;
  }

  /** A component's shape and its constructor arguments. */
  datatype Shape =
    | HalfSpaceShape(normal: Vec3, h: real)
    | LayerShape(uax: Vec3, h: real)
    | SphereShape(R: real)
    | CylinderShape(uax: Vec3, R: real)
    | ConeShape(axis: Vec3, slope: real)

  datatype Component = Component(position: Vec3, shape: Shape)

  datatype ArgValue = VecArg(v: Vec3) | RealArg(r: real)

  function Kind(s: Shape): CI.ComponentKind {
    match s
    case HalfSpaceShape(_, _) => CI.HalfSpaceComponent
    case LayerShape(_, _) => CI.LayerComponent
    case SphereShape(_) => CI.SphereComponent
    case CylinderShape(_, _) => CI.CylinderComponent
    case ConeShape(_, _) => CI.ConeComponent
  }

  function NSubobjects(s: Shape): nat {
    if s.LayerShape? then 2 else 1
  }

  /** The subobject a layer or half-space tracer writes is below the
      component's `n_subobjects`: two faces for a layer, one otherwise. */
  lemma SubobjectsWithinCount(origin: Vec3, ray: Vec3, v: Vec3, h: real, inside: bool)
    requires Dot(ray, v) != 0.0
    ensures var w := LayerTracer(origin, ray, v, h, inside);
      NSubobjects(LayerShape(v, h)) == 2 && 0 <= w.subobject.value < 2
    ensures var w := HalfSpaceTracer(origin, ray, v, h);
      NSubobjects(HalfSpaceShape(v, h)) == 1 && 0 <= w.subobject.value < 1
  {
  }

  function ExtraTracerDefs(s: Shape): seq<string> {
    match s
    case HalfSpaceShape(_, _) => ["const float3 normal", "const float h"]
    case LayerShape(_, _) => ["const float3 uax", "const float h"]
    case SphereShape(_) => ["const float R2"]
    case CylinderShape(_, _) => ["const float3 axis", "const float R2"]
    case ConeShape(_, _) => ["const float3 axis", "const float s2"]
  }

  function ExtraNormalDefs(s: Shape): seq<string> {
    match s
    case HalfSpaceShape(_, _) => ["const float3 normal"]
    case LayerShape(_, _) => ["const float3 uax"]
    case SphereShape(_) => ["const float invR"]
    case CylinderShape(_, _) => ["const float3 axis", "const float invR"]
    case ConeShape(_, _) => ["const float3 axis", "const float slope"]
  }

  /** The values passed for the extra tracer arguments. */
  function ExtraTracerArgs(s: Shape): seq<ArgValue> {
    match s
    case HalfSpaceShape(n, h) => [VecArg(n), RealArg(h)]
    case LayerShape(u, h) => [VecArg(u), RealArg(h)]
    case SphereShape(R) => [RealArg(R * R)]
    case CylinderShape(u, R) => [VecArg(u), RealArg(R * R)]
    case ConeShape(a, slope) => [VecArg(a), RealArg(slope * slope)]
  }

  /** The values passed for the extra normal arguments. */
  function ExtraNormalArgs(s: Shape): seq<ArgValue>
    requires (s.SphereShape? || s.CylinderShape?) ==> s.R != 0.0
  {
    match s
    case HalfSpaceShape(n, _) => [VecArg(n)]
    case LayerShape(u, _) => [VecArg(u)]
    case SphereShape(R) => [RealArg(1.0 / R)]
    case CylinderShape(u, R) => [VecArg(u), RealArg(1.0 / R)]
    case ConeShape(a, slope) => [VecArg(a), RealArg(slope)]
  }

  predicate DeclaresVector(def: string) {
    StartsWith(def, "const float3 ")
  }

  /** One value per declaration, a vector exactly where a `float3` is
      declared. */
  predicate ArgsMatch(args: seq<ArgValue>, defs: seq<string>) {
    |args| == |defs| && forall i :: 0 <= i < |args| ==> (args[i].VecArg? <==> DeclaresVector(defs[i]))
  }

  /** Every constructed component passes arguments that match its extra
      declarations, for the tracer and for the normal function. */
  lemma ArgumentsMatchDeclarations(s: Shape)
    requires (s.SphereShape? || s.CylinderShape?) ==> s.R != 0.0
    ensures ArgsMatch(ExtraTracerArgs(s), ExtraTracerDefs(s))
    ensures ArgsMatch(ExtraNormalArgs(s), ExtraNormalDefs(s))
  {
    assert DeclaresVector("const float3 normal");
    assert DeclaresVector("const float3 uax");
    assert DeclaresVector("const float3 axis");
    NotVector("const float h");
    NotVector("const float R2");
    NotVector("const float s2");
    NotVector("const float invR");
    NotVector("const float slope");
  }

  lemma NotVector(def: string)
    requires |def| >= 12 && def[..12] == "const float "
    ensures !DeclaresVector(def)
  {
    assert def[11] == "const float "[11] == ' ';
  }

  /** `HalfSpaceComponent(normal, h)`; `normalize` stands for
      `normalize_tuple`. */
  function MakeHalfSpaceComponent(normal: Vec3, h: real, normalize: Vec3 -> Vec3): (c: Component)
    ensures c == Component(Zero, HalfSpaceShape(normalize(normal), h))
  {
    Component(Zero, HalfSpaceShape(normalize(normal), h))
  }

  /** `LayerComponent(axis, h=None)`: the thickness defaults to the axis
      length. */
  function MakeLayerComponent(axis: Vec3, h: Option<real>, normalize: Vec3 -> Vec3, sqrt: real -> real)
    : (c: Component)
    requires IsSqrt(sqrt)
    ensures c.position == Zero && c.shape.LayerShape? && c.shape.uax == normalize(axis)
    ensures h.Some? ==> c.shape.h == h.value
    ensures h.None? ==> c.shape.h >= 0.0 && c.shape.h * c.shape.h == Norm2(axis)
  {
    Component(Zero, LayerShape(normalize(axis), LayerThickness(axis, h, sqrt)))
  }

  /** `SphereComponent(pos, R)`: `1.0 / R` raises for a zero radius. */
  function MakeSphereComponent(pos: Vec3, R: real): (r: Result<Component>)
    ensures R == 0.0 <==> r == Err(ZeroDivisionError)
    ensures r.Ok? ==> r.value == Component(pos, SphereShape(R))
  {
    if R == 0.0 then Err(ZeroDivisionError) else Ok(Component(pos, SphereShape(R)))
  }

  /** `CylinderComponent(axis, R)`: `1.0 / R` raises for a zero radius. */
  function MakeCylinderComponent(axis: Vec3, R: real, normalize: Vec3 -> Vec3): (r: Result<Component>)
    ensures R == 0.0 <==> r == Err(ZeroDivisionError)
    ensures r.Ok? ==> r.value == Component(Zero, CylinderShape(normalize(axis), R))
  {
    if R == 0.0 then Err(ZeroDivisionError) else Ok(Component(Zero, CylinderShape(normalize(axis), R)))
  }

  function MakeConeComponent(pos: Vec3, axis: Vec3, slope: real, normalize: Vec3 -> Vec3): (c: Component)
    ensures c == Component(pos, ConeShape(normalize(axis), slope))
  {
    Component(pos, ConeShape(normalize(axis), slope))
  }
}
