/** The nearest-hit search the generated trace kernel unrolls over the
    scene objects, the normal dispatch that follows it, and the shadow-ray
    mask. Each object's tracer call is a function from the current best
    distance to what the call writes: `new_isec_dist` (reset to 0 before
    the call, so an object that writes nothing reports 0) and
    `cur_subobject` (not reset, so a call that writes no subobject leaves
    the previous object's value in place). */
module TraceCore {
  import opened Wrappers
  import opened Vectors

  /** What one tracer call writes: a distance and a subobject number,
      each possibly untouched. */
  datatype Outcome = Outcome(dist: Option<real>, subobject: Option<int>)

  /** The tracer of the object at list position `k` (object id `k + 1`),
      given the best distance so far. */
  type ObjectTracer = real -> Outcome

  /** `new_isec_dist` after the call: 0 unless the tracer wrote it. */
  function Reported(o: Outcome): real {
    if o.dist.Some? then o.dist.value else 0.0
  }

  /** A candidate is taken iff `0 < new < old`. */
  predicate Accepts(d: real, current: real) {
    0.0 < d && d < current
  }

  /** The tracers report what they find whatever the current best is. */
  ghost predicate Independent(tracers: seq<ObjectTracer>) {
    forall k, b :: 0 <= k < |tracers| ==> tracers[k](b) == tracers[k](0.0)
  }

  /** The distance object `k` reports when its answer does not depend on
      the current best. */
  function Dist(tracers: seq<ObjectTracer>, k: nat): real
    requires k < |tracers|
  {
    Reported(tracers[k](0.0))
  }

  /** The unrolled `trace_core`: object ids start at 1 and 0 means no hit;
      the position is advanced by the final distance along the ray, even
      when nothing was hit. */
  method Trace(tracers: seq<ObjectTracer>, bound: real, pos: Vec3, ray: Vec3)
    returns (which: nat, best: real, subobject: Option<int>, newPos: Vec3)
    ensures which <= |tracers|
    ensures best <= bound
    ensures which == 0 ==> best == bound
    ensures which > 0 ==> 0.0 < best
    ensures newPos == PointAt(pos, ray, best)
    ensures Independent(tracers) ==>
      (which == 0 <==> forall k :: 0 <= k < |tracers| ==> !Accepts(Dist(tracers, k), bound))
    ensures Independent(tracers) && which > 0 ==>
      best == Dist(tracers, which - 1)
      && (forall k :: 0 <= k < |tracers| && Accepts(Dist(tracers, k), bound) ==> best <= Dist(tracers, k))
      && (forall k :: 0 <= k < which - 1 && Accepts(Dist(tracers, k), bound) ==> best < Dist(tracers, k))
    ensures Independent(tracers) && which > 0 && tracers[which - 1](0.0).subobject.Some? ==>
      subobject == tracers[which - 1](0.0).subobject
  {
    which, best, subobject := 0, bound, None;
    var cur: Option<int> := None;
    var k := 0;
    while k < |tracers|
      invariant 0 <= k <= |tracers|
      invariant which <= k
      invariant best <= bound
      invariant which == 0 ==> best == bound
      invariant which > 0 ==> 0.0 < best
      invariant Independent(tracers) ==>
        (which == 0 <==> forall j :: 0 <= j < k ==> !Accepts(Dist(tracers, j), bound))
      invariant Independent(tracers) && which > 0 ==>
        best == Dist(tracers, which - 1)
        && (forall j :: 0 <= j < k && Accepts(Dist(tracers, j), bound) ==> best <= Dist(tracers, j))
        && (forall j :: 0 <= j < which - 1 && Accepts(Dist(tracers, j), bound) ==> best < Dist(tracers, j))
      invariant Independent(tracers) && which > 0 && tracers[which - 1](0.0).subobject.Some? ==>
        subobject == tracers[which - 1](0.0).subobject
    {
      var out := tracers[k](best);
      var newDist := Reported(out);
      if out.subobject.Some? {
        cur := out.subobject;
      }
      if 0.0 < newDist && newDist < best {
        best, which, subobject := newDist, k + 1, cur;
      }
      k := k + 1;
    }
    newPos := PointAt(pos, ray, best);
  }

  /** The unrolled normal dispatch: only the hit object's normal routine
      runs, and its normal is negated when the ray is inside that object. */
  method NormalDispatch(which: nat, inside: nat, normals: seq<Vec3>, last: Vec3) returns (normal: Vec3)
    ensures 1 <= which <= |normals| && inside == which ==> normal == Neg(normals[which - 1])
    ensures 1 <= which <= |normals| && inside != which ==> normal == normals[which - 1]
    ensures !(1 <= which <= |normals|) ==> normal == last
  {
    normal := last;
    var k := 0;
    while k < |normals|
      invariant 0 <= k <= |normals|
      invariant 1 <= which <= k && inside == which ==> normal == Neg(normals[which - 1])
      invariant 1 <= which <= k && inside != which ==> normal == normals[which - 1]
      invariant !(1 <= which <= k) ==> normal == last
    {
      var id := k + 1;
      if which == id {
        normal := normals[k];
        if inside == id {
          normal := Neg(normal);
        }
      }
      k := k + 1;
    }
  }

  const ShadowEps: real := 0.00001

  /** The shadow mask from the traced distance. */
  function ShadowMask(lastNormal: Vec3, ray: Vec3, shadowDist: real, isecDist: real): real {
    if Dot(lastNormal, ray) < 0.0 then 0.0
    else if isecDist > shadowDist - ShadowEps then 1.0
    else 0.0
  }

  /** `shadow_trace`: a ray leaving against the surface normal is shadowed
      outright; otherwise the light is visible iff nothing is hit closer
      than `shadow_dist - EPS`. */
  method ShadowTrace(tracers: seq<ObjectTracer>, pos: Vec3, lastNormal: Vec3, ray: Vec3, shadowDist: real)
    returns (mask: real)
    ensures mask == 0.0 || mask == 1.0
    ensures Dot(lastNormal, ray) < 0.0 ==> mask == 0.0
    ensures Independent(tracers) ==>
      (mask == 1.0 <==>
        (Dot(lastNormal, ray) >= 0.0
         && forall k :: 0 <= k < |tracers| && Accepts(Dist(tracers, k), shadowDist) ==>
              Dist(tracers, k) > shadowDist - ShadowEps))
  {
    if Dot(lastNormal, ray) < 0.0 {
      return 0.0;
    }
    var which, isecDist, _, _ := Trace(tracers, shadowDist, pos, ray);
    mask := ShadowMask(lastNormal, ray, shadowDist, isecDist);
    if Independent(tracers) && which > 0 && mask == 1.0 {
      forall k | 0 <= k < |tracers| && Accepts(Dist(tracers, k), shadowDist)
        ensures Dist(tracers, k) > shadowDist - ShadowEps
      {
        assert isecDist <= Dist(tracers, k);
      }
    }
    if Independent(tracers) && which > 0 && mask == 0.0 {
      assert Accepts(Dist(tracers, which - 1), shadowDist);
    }
  }
}
