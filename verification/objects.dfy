/** The stand-alone tracer objects: the sphere, its bounding-sphere
    pre-test, the half-space, and the composite shapes built as convex
    intersections of components. Each tracer either writes one distance
    through `p_new_isec_dist` or leaves it alone; `Option<real>` is what it
    writes. Rays are unit vectors, as the renderer normalises them. */
module Objects {
  import opened Wrappers
  import opened Vectors
  import Comp = Components
  import CI = ConvexIntersection
  import Tr = Tracer

  // ---------------------------------------------------------------------
  // Sphere.

  /** The sphere test's scalars: `dotp = dot(ray, center - origin)` and
      `psq = |center - origin|^2`. */
  function SphereDotp(center: Vec3, origin: Vec3, ray: Vec3): real {
    Dot(ray, Sub(center, origin))
  }

  function SpherePsq(center: Vec3, origin: Vec3): real {
    Norm2(Sub(center, origin))
  }

  function SphereDiscr(center: Vec3, R2: real, origin: Vec3, ray: Vec3): real {
    var dotp := SphereDotp(center, origin, ray);
    dotp * dotp - SpherePsq(center, origin) + R2
  }

  /** `Sphere.tracer_code`: the distance written, if any. From its own
      surface (`origin_self`) and outside, a convex body is never hit. */
  function SphereHit(center: Vec3, R2: real, origin: Vec3, ray: Vec3, originSelf: bool, inside: bool,
                     sqrt: real -> real): (r: Option<real>)
    requires IsSqrt(sqrt)
    ensures originSelf && !inside ==> r.None?
    ensures !inside && SphereDotp(center, origin, ray) <= 0.0 ==> r.None?
    ensures SphereDiscr(center, R2, origin, ray) < 0.0 ==> r.None?
    ensures r.Some? ==> r.value > 0.0
  {
    if originSelf && !inside then None
    else
      var dotp := SphereDotp(center, origin, ray);
      if dotp <= 0.0 && !inside then None
      else
        var discr := SphereDiscr(center, R2, origin, ray);
        if discr < 0.0 then None
        else
          var s := sqrt(discr);
          var dist := if inside then dotp + s else dotp - s;
          if dist <= 0.0 then None else Some(dist)
  }

  /** The squared distance from the center along a unit ray is the
      quadratic `psq - 2 t dotp + t^2`. */
  lemma SphereAlongRay(center: Vec3, origin: Vec3, ray: Vec3, t: real)
    requires Norm2(ray) == 1.0
    ensures Dist2(PointAt(origin, ray, t), center)
      == SpherePsq(center, origin) + 2.0 * t * -SphereDotp(center, origin, ray) + t * t * 1.0
  {
    var u := Sub(origin, center);
    assert Sub(PointAt(origin, ray, t), center) == PointAt(u, ray, t);
    assert Norm2(u) == SpherePsq(center, origin);
    assert Dot(u, ray) == -SphereDotp(center, origin, ray);
    Norm2AlongRayWith(u, ray, t, SpherePsq(center, origin), -SphereDotp(center, origin, ray), 1.0);
  }

  /** A written sphere distance is a point of the sphere. */
  lemma SphereHitOnSurface(center: Vec3, R2: real, origin: Vec3, ray: Vec3, originSelf: bool, inside: bool,
                           sqrt: real -> real)
    requires IsSqrt(sqrt) && Norm2(ray) == 1.0
    requires SphereHit(center, R2, origin, ray, originSelf, inside, sqrt).Some?
    ensures Dist2(PointAt(origin, ray, SphereHit(center, R2, origin, ray, originSelf, inside, sqrt).value), center)
      == R2
  {
    var t := SphereHit(center, R2, origin, ray, originSelf, inside, sqrt).value;
    var dotp := SphereDotp(center, origin, ray);
    var discr := SphereDiscr(center, R2, origin, ray);
    assert discr >= 0.0 && (t == dotp + sqrt(discr) || t == dotp - sqrt(discr));
    SphereAlongRay(center, origin, ray, t);
    SphereRoot(SpherePsq(center, origin), dotp, R2, t, Dist2(PointAt(origin, ray, t), center), discr, sqrt(discr));
  }

  lemma SphereRoot(psq: real, dotp: real, R2: real, t: real, n: real, discr: real, s: real)
    requires n == psq + 2.0 * t * -dotp + t * t * 1.0 && discr == dotp * dotp - psq + R2
    requires s * s == discr && (t == dotp + s || t == dotp - s)
    ensures n == R2
  {
    var x := t - dotp;
    assert n - R2 == x * x - discr;
  }

  /** From outside, the written distance is the first point of the ball
      along the ray: every earlier forward point is outside it. */
  lemma SphereHitNearest(center: Vec3, R2: real, origin: Vec3, ray: Vec3, originSelf: bool,
                         sqrt: real -> real, t: real)
    requires IsSqrt(sqrt) && Norm2(ray) == 1.0
    requires SphereHit(center, R2, origin, ray, originSelf, false, sqrt).Some?
    requires 0.0 <= t < SphereHit(center, R2, origin, ray, originSelf, false, sqrt).value
    ensures Dist2(PointAt(origin, ray, t), center) > R2
  {
    var discr := SphereDiscr(center, R2, origin, ray);
    SphereAlongRay(center, origin, ray, t);
    Comp.SphereScalar(SpherePsq(center, origin), SphereDotp(center, origin, ray), R2, t,
                      Dist2(PointAt(origin, ray, t), center), discr, sqrt);
  }

  /** From inside, the written distance is the exit point: every later
      point is outside the ball. */
  lemma SphereInsideHitIsExit(center: Vec3, R2: real, origin: Vec3, ray: Vec3, originSelf: bool,
                              sqrt: real -> real, t: real)
    requires IsSqrt(sqrt) && Norm2(ray) == 1.0
    requires SphereHit(center, R2, origin, ray, originSelf, true, sqrt).Some?
    requires t > SphereHit(center, R2, origin, ray, originSelf, true, sqrt).value
    ensures Dist2(PointAt(origin, ray, t), center) > R2
  {
    var discr := SphereDiscr(center, R2, origin, ray);
    var dotp := SphereDotp(center, origin, ray);
    assert discr >= 0.0 && SphereHit(center, R2, origin, ray, originSelf, true, sqrt).value == dotp + sqrt(discr);
    SphereAlongRay(center, origin, ray, t);
    Comp.SphereScalar(SpherePsq(center, origin), dotp, R2, t, Dist2(PointAt(origin, ray, t), center), discr, sqrt);
  }

  /** No hit from an origin strictly outside the ball means that no
      forward point of the ray is in the ball. */
  lemma SphereMissFromOutside(center: Vec3, R2: real, origin: Vec3, ray: Vec3, sqrt: real -> real, t: real)
    requires IsSqrt(sqrt) && Norm2(ray) == 1.0
    requires SpherePsq(center, origin) > R2
    requires SphereHit(center, R2, origin, ray, false, false, sqrt).None?
    requires t > 0.0
    ensures Dist2(PointAt(origin, ray, t), center) > R2
  {
    var dotp := SphereDotp(center, origin, ray);
    var psq := SpherePsq(center, origin);
    var discr := SphereDiscr(center, R2, origin, ray);
    var n := Dist2(PointAt(origin, ray, t), center);
    SphereAlongRay(center, origin, ray, t);
    if dotp <= 0.0 {
      AwayFromCenter(psq, dotp, t, n);
    } else if discr >= 0.0 {
      NearRootPositive(psq, dotp, R2, discr, sqrt(discr));
      assert false;
    } else {
      Comp.SphereScalar(psq, dotp, R2, t, n, discr, sqrt);
    }
  }

  lemma AwayFromCenter(psq: real, dotp: real, t: real, n: real)
    requires n == psq + 2.0 * t * -dotp + t * t * 1.0 && dotp <= 0.0 && t > 0.0
    ensures n > psq
  {
    MulPositive(t, t);
    MulNonNegative(2.0 * t, -dotp);
  }

  /** From outside the ball, a ray towards the center that meets the
      sphere meets it at a positive distance. */
  lemma NearRootPositive(psq: real, dotp: real, R2: real, discr: real, s: real)
    requires psq > R2 && dotp > 0.0 && discr == dotp * dotp - psq + R2 && s >= 0.0 && s * s == discr
    ensures dotp - s > 0.0
  {
    assert s * s < dotp * dotp;
    SquareWithin(s, dotp);
  }

  /** `Sphere.normal_code`: `(pos - center) * invR`. */
  function SphereNormal(pos: Vec3, center: Vec3, invR: real): Vec3 {
    Scale(invR, Sub(pos, center))
  }

  /** On the sphere the normal is a unit vector pointing away from the
      center. */
  lemma SphereNormalUnit(pos: Vec3, center: Vec3, R: real)
    requires R > 0.0 && Dist2(pos, center) == R * R
    ensures Norm2(SphereNormal(pos, center, 1.0 / R)) == 1.0
    ensures Dot(SphereNormal(pos, center, 1.0 / R), Sub(pos, center)) == R
  {
    var d := Sub(pos, center);
    Comp.Norm2Scale(1.0 / R, d);
    assert (1.0 / R) * (1.0 / R) * (R * R) == 1.0;
    assert Dot(Scale(1.0 / R, d), d) == (1.0 / R) * Norm2(d);
    assert (1.0 / R) * (R * R) == R;
  }

  const SphereTracerDefs: seq<string> := ["const float3 center", "const float R2"]
  const SphereNormalDefs: seq<string> := ["const float3 center", "const float invR"]

  lemma SphereDefsKinds()
    ensures Comp.DeclaresVector(SphereTracerDefs[0]) && !Comp.DeclaresVector(SphereTracerDefs[1])
    ensures Comp.DeclaresVector(SphereNormalDefs[0]) && !Comp.DeclaresVector(SphereNormalDefs[1])
  {
    assert Comp.DeclaresVector("const float3 center");
    Comp.NotVector("const float R2");
    Comp.NotVector("const float invR");
  }

  /** `Sphere.extra_tracer_arguments`: `(center, R**2)`. */
  function SphereTracerArgs(pos: Vec3, R: real): (r: seq<Comp.ArgValue>)
    ensures Comp.ArgsMatch(r, SphereTracerDefs)
    ensures r[0] == Comp.VecArg(pos) && r[1].RealArg? && r[1].r >= 0.0 && r[1].r == R * R
  {
    SphereDefsKinds();
    [Comp.VecArg(pos), Comp.RealArg(R * R)]
  }

  /** `Sphere.extra_normal_arguments`: `(center, 1.0/R)`; the division
      raises for a zero radius. */
  function SphereNormalArgs(pos: Vec3, R: real): (r: Result<seq<Comp.ArgValue>>)
    ensures R == 0.0 <==> r == Err(ZeroDivisionError)
    ensures r.Ok? ==> (Comp.ArgsMatch(r.value, SphereNormalDefs) && r.value[0] == Comp.VecArg(pos)
      && r.value[1].RealArg? && r.value[1].r * R == 1.0)
  {
    if R == 0.0 then Err(ZeroDivisionError)
    else
      SphereDefsKinds();
      Ok([Comp.VecArg(pos), Comp.RealArg(1.0 / R)])
  }

  // ---------------------------------------------------------------------
  // Bounding sphere.

  /** `Sphere.get_bounding_volume_code`: the `[min, max]` range of ray
      distances to search, or `None` where the generated code returns
      because the ray misses the bounding sphere before `old_isec_dist`.
      Without a radius the range is `[0, old_isec_dist]`. */
  function BoundingRange(center: Vec3, R: Option<real>, origin: Vec3, ray: Vec3, oldDist: real,
                         sqrt: real -> real): (r: Option<(real, real)>)
    requires IsSqrt(sqrt)
    ensures R.None? ==> r == Some((0.0, oldDist))
    ensures R.Some? && r.Some? ==> 0.0 <= r.value.0 < r.value.1 <= oldDist
  {
    if R.None? then Some((0.0, oldDist))
    else BallRange(SphereDotp(center, origin, ray), SpherePsq(center, origin), R.value, oldDist, sqrt)
  }

  /** The bounding-ball test on its scalars `dotp`, `psq` and the radius;
      the generated code holds `R2 = R**2`. */
  function BallRange(dotp: real, psq: real, R: real, oldDist: real, sqrt: real -> real): (r: Option<(real, real)>)
    requires IsSqrt(sqrt)
    ensures r.Some? ==> 0.0 <= r.value.0 < r.value.1 <= oldDist
  {
    var R2 := R * R;
    var insideBnd := psq < R2;
    if dotp <= 0.0 && !insideBnd then None
    else
      var discr := dotp * dotp - psq + R2;
      if discr < 0.0 then None
      else
        var s := sqrt(discr);
        var lo := if dotp - s > 0.0 then dotp - s else 0.0;
        var hi := if dotp + s < oldDist then dotp + s else oldDist;
        if hi <= lo then None else Some((lo, hi))
  }

  /** The range never cuts off a part of the ray inside the bounding ball:
      a distance in `[0, old_isec_dist]` whose point is in the ball lies in
      the range, and one strictly inside both guarantees a range. */
  lemma BoundingRangeSound(center: Vec3, R: real, origin: Vec3, ray: Vec3, oldDist: real,
                           sqrt: real -> real, t: real)
    requires IsSqrt(sqrt) && Norm2(ray) == 1.0
    ensures var r := BoundingRange(center, Some(R), origin, ray, oldDist, sqrt);
      var n := Dist2(PointAt(origin, ray, t), center);
      (0.0 < t < oldDist && n < R * R ==> r.Some?)
      && (r.Some? && 0.0 <= t <= oldDist && n <= R * R ==> r.value.0 <= t <= r.value.1)
  {
    var dotp, psq := SphereDotp(center, origin, ray), SpherePsq(center, origin);
    var n := Dist2(PointAt(origin, ray, t), center);
    var r := BoundingRange(center, Some(R), origin, ray, oldDist, sqrt);
    assert n == psq + 2.0 * t * -dotp + t * t * 1.0 by {
      SphereAlongRay(center, origin, ray, t);
    }
    assert r == BallRange(dotp, psq, R, oldDist, sqrt);
    BallRangeSound(dotp, psq, R, oldDist, sqrt, t, n, r);
  }

  lemma BallRangeSound(dotp: real, psq: real, R: real, oldDist: real, sqrt: real -> real, t: real, n: real,
                       r: Option<(real, real)>)
    requires IsSqrt(sqrt) && n == psq + 2.0 * t * -dotp + t * t * 1.0
    requires r == BallRange(dotp, psq, R, oldDist, sqrt)
    ensures (0.0 < t < oldDist && n < R * R ==> r.Some?)
      && (r.Some? && 0.0 <= t <= oldDist && n <= R * R ==> r.value.0 <= t <= r.value.1)
  {
    var R2 := R * R;
    var discr := dotp * dotp - psq + R2;
    Comp.SphereScalar(psq, dotp, R2, t, n, discr, sqrt);
    if 0.0 < t && n < R2 {
      if dotp <= 0.0 {
        AwayFromCenter(psq, dotp, t, n);
      }
      StrictlyInside(psq, dotp, R2, t, n, discr, sqrt(discr));
    }
  }

  /** Strictly inside the ball means strictly between the two roots. */
  lemma StrictlyInside(psq: real, dotp: real, R2: real, t: real, n: real, discr: real, s: real)
    requires n == psq + 2.0 * t * -dotp + t * t * 1.0 && discr == dotp * dotp - psq + R2
    requires s >= 0.0 && s * s == discr && n < R2
    ensures dotp - s < t < dotp + s
  {
    var x := t - dotp;
    assert n - R2 == x * x - discr;
    assert x * x < s * s;
    SquareWithin(x, s);
  }

  // ---------------------------------------------------------------------
  // Half-space (`objects.py` and `objects/half_space.py` define the same
  // class).

  /** `HalfSpace.tracer_code`: the distance `(origin . normal + h) /
      (ray . -normal)` to the plane `p . normal + h = 0`, written only if
      positive and never from the plane itself. */
  function HalfSpaceHit(normal: Vec3, h: real, origin: Vec3, ray: Vec3, originSelf: bool): (r: Option<real>)
    requires Dot(ray, Neg(normal)) != 0.0
    ensures originSelf ==> r.None?
    ensures r.Some? ==> r.value > 0.0
  {
    if originSelf then None
    else
      var slope := Dot(ray, Neg(normal));
      var dist := (Dot(origin, normal) + h) / slope;
      if dist > 0.0 then Some(dist) else None
  }

  /** Away from the plane, the tracer writes `t` exactly when `t` is the
      positive distance at which the ray meets the plane. */
  lemma HalfSpaceHitIff(normal: Vec3, h: real, origin: Vec3, ray: Vec3, t: real)
    requires Dot(ray, Neg(normal)) != 0.0
    ensures HalfSpaceHit(normal, h, origin, ray, false) == Some(t)
      <==> t > 0.0 && Dot(PointAt(origin, ray, t), normal) + h == 0.0
  {
    DotAlongRay(origin, ray, t, normal);
    assert Dot(ray, Neg(normal)) == -Dot(ray, normal);
    PlaneRoot(Dot(origin, normal), Dot(ray, normal), h, t);
  }

  lemma PlaneRoot(d: real, k: real, h: real, t: real)
    requires k != 0.0
    ensures d + t * k + h == 0.0 <==> t == (d + h) / -k
  {
    if d + t * k + h == 0.0 {
      assert t * -k == d + h;
    }
  }

  const HalfSpaceTracerDefs: seq<string> := ["const float3 normal", "const float h"]
  const HalfSpaceNormalDefs: seq<string> := ["const float3 normal"]

  /** A half-space as constructed: its normal is `normalize_tuple(normal)`. */
  datatype HalfSpace = HalfSpace(normal: Vec3, h: real)

  function MakeHalfSpace(normal: Vec3, h: real, normalize: Vec3 -> Vec3): (hs: HalfSpace)
    ensures hs.normal == normalize(normal) && hs.h == h
  {
    HalfSpace(normalize(normal), h)
  }

  /** `extra_tracer_arguments` `(normal, h)` and `extra_normal_arguments`
      `(normal)` match their declarations, and `normal_code` returns the
      stored normal. */
  function HalfSpaceTracerArgs(hs: HalfSpace): (r: seq<Comp.ArgValue>)
    ensures Comp.ArgsMatch(r, HalfSpaceTracerDefs)
    ensures r[0] == Comp.VecArg(hs.normal) && r[1] == Comp.RealArg(hs.h)
  {
    Comp.ArgumentsMatchDeclarations(Comp.HalfSpaceShape(hs.normal, hs.h));
    Comp.ExtraTracerArgs(Comp.HalfSpaceShape(hs.normal, hs.h))
  }

  function HalfSpaceNormalArgs(hs: HalfSpace): (r: seq<Comp.ArgValue>)
    ensures Comp.ArgsMatch(r, HalfSpaceNormalDefs)
    ensures r == [Comp.VecArg(hs.normal)]
  {
    Comp.ArgumentsMatchDeclarations(Comp.HalfSpaceShape(hs.normal, hs.h));
    Comp.ExtraNormalArgs(Comp.HalfSpaceShape(hs.normal, hs.h))
  }

  // ---------------------------------------------------------------------
  // Composite shapes.

  /** A convex intersection as the composite constructors build it. */
  datatype CompositeObject = CompositeObject(
    className: string, origin: Vec3, components: seq<Comp.Component>, uniqueTracerId: string)

  function Kinds(cs: seq<Comp.Component>): (r: seq<CI.ComponentKind>)
    ensures |r| == |cs|
    ensures forall i :: 0 <= i < |cs| ==> r[i] == Comp.Kind(cs[i].shape)
  {
    if |cs| == 0 then [] else [Comp.Kind(cs[0].shape)] + Kinds(cs[1..])
  }

  /** `Parallelepiped(origin, ax1, ax2, ax3)`: three layers, each as thick
      as its axis is long. */
  function MakeParallelepiped(origin: Vec3, ax1: Vec3, ax2: Vec3, ax3: Vec3,
                              normalize: Vec3 -> Vec3, sqrt: real -> real): (o: CompositeObject)
    requires IsSqrt(sqrt)
    ensures o.className == "Parallelepiped" && o.origin == origin && o.uniqueTracerId == ""
    ensures Kinds(o.components) == [CI.LayerComponent, CI.LayerComponent, CI.LayerComponent]
    ensures forall i :: 0 <= i < 3 ==>
      var ax := [ax1, ax2, ax3][i];
      o.components[i].position == Zero && o.components[i].shape.uax == normalize(ax)
      && o.components[i].shape.h >= 0.0 && o.components[i].shape.h * o.components[i].shape.h == Norm2(ax)
  {
    var cs := [Comp.MakeLayerComponent(ax1, None, normalize, sqrt),
               Comp.MakeLayerComponent(ax2, None, normalize, sqrt),
               Comp.MakeLayerComponent(ax3, None, normalize, sqrt)];
    CompositeObject("Parallelepiped", origin, cs, "")
  }

  /** `Cylinder(bottom_center, axis, height, R)`: a layer of the given
      height and an infinite cylinder; a zero radius raises. */
  function MakeCylinder(bottom: Vec3, axis: Vec3, height: real, R: real,
                        normalize: Vec3 -> Vec3, sqrt: real -> real): (r: Result<CompositeObject>)
    requires IsSqrt(sqrt)
    ensures R == 0.0 <==> r == Err(ZeroDivisionError)
    ensures r.Ok? ==>
      var o := r.value;
      o.className == "Cylinder" && o.origin == bottom && o.uniqueTracerId == ""
      && Kinds(o.components) == [CI.LayerComponent, CI.CylinderComponent]
      && o.components[0].shape == Comp.LayerShape(normalize(axis), height)
      && o.components[1].shape == Comp.CylinderShape(normalize(axis), R)
  {
    var layer := Comp.MakeLayerComponent(axis, Some(height), normalize, sqrt);
    var cyl := Comp.MakeCylinderComponent(axis, R, normalize);
    if cyl.Err? then Err(cyl.exception)
    else Ok(CompositeObject("Cylinder", bottom, [layer, cyl.value], ""))
  }

  /** `Cone(tip, axis, height, R)`: a half-space capping the cone at the
      given height and a cone of slope `R / height`; a zero height
      raises. */
  function MakeCone(tip: Vec3, axis: Vec3, height: real, R: real, normalize: Vec3 -> Vec3)
    : (r: Result<CompositeObject>)
    ensures height == 0.0 <==> r == Err(ZeroDivisionError)
    ensures r.Ok? ==>
      var o := r.value;
      o.className == "Cone" && o.origin == tip && o.uniqueTracerId == ""
      && Kinds(o.components) == [CI.HalfSpaceComponent, CI.ConeComponent]
      && o.components[0].shape == Comp.HalfSpaceShape(normalize(axis), height)
      && o.components[1].position == Zero
      && o.components[1].shape.axis == normalize(axis)
      && o.components[1].shape.slope * height == R
  {
    if height == 0.0 then Err(ZeroDivisionError)
    else
      var cap := Comp.MakeHalfSpaceComponent(axis, height, normalize);
      var cone := Comp.MakeConeComponent(Zero, axis, R / height, normalize);
      Ok(CompositeObject("Cone", tip, [cap, cone], ""))
  }

  /** The tracer description of a composite, as far as names go. */
  function CompositeTracer(o: CompositeObject): Tr.Tracer {
    Tr.Tracer(o.className, o.uniqueTracerId, [], [], [], [], "", "")
  }

  /** Because the composite constructors clear `unique_tracer_id`, every
      cylinder (and every cone) shares one pair of generated functions,
      whatever its dimensions; cylinders and cones never share them. */
  lemma CompositesShareFunctions(b1: Vec3, a1: Vec3, h1: real, R1: real, b2: Vec3, a2: Vec3, h2: real, R2: real,
                                 normalize: Vec3 -> Vec3, sqrt: real -> real)
    requires IsSqrt(sqrt)
    requires MakeCylinder(b1, a1, h1, R1, normalize, sqrt).Ok? && MakeCylinder(b2, a2, h2, R2, normalize, sqrt).Ok?
    requires MakeCone(b1, a1, h1, R1, normalize).Ok? && MakeCone(b2, a2, h2, R2, normalize).Ok?
    ensures var c1 := CompositeTracer(MakeCylinder(b1, a1, h1, R1, normalize, sqrt).value);
      var c2 := CompositeTracer(MakeCylinder(b2, a2, h2, R2, normalize, sqrt).value);
      var k1 := CompositeTracer(MakeCone(b1, a1, h1, R1, normalize).value);
      var k2 := CompositeTracer(MakeCone(b2, a2, h2, R2, normalize).value);
      Tr.TracerFunctionName(c1) == Tr.TracerFunctionName(c2)
      && Tr.TracerFunctionName(k1) == Tr.TracerFunctionName(k2)
      && Tr.TracerFunctionName(c1) != Tr.TracerFunctionName(k1)
  {
    var c1 := CompositeTracer(MakeCylinder(b1, a1, h1, R1, normalize, sqrt).value);
    var k1 := CompositeTracer(MakeCone(b1, a1, h1, R1, normalize).value);
    assert Tr.FunctionNamePrefix(c1) == "Cylinder";
    assert Tr.FunctionNamePrefix(k1) == "Cone";
    assert "Cylinder"[1] != "Cone"[1];
    Tr.NamesDeterminedByPrefix(c1, k1);
  }
}
