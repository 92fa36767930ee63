/** The adaptive interval-arithmetic ray marchers of the implicit surfaces.
    The generated loop walks an interval `t` of ray distances forward,
    evaluates an interval enclosure of the surface function `f` over it,
    subdivides where the enclosure admits a sign change and writes the
    interval's midpoint once it is narrow enough. The enclosures are
    parameters (`F` for `f`, `DF` for its derivative along the ray);
    `Encloses` says what a sound one promises. `f` is positive outside the
    object. */
module Marcher {
  import opened Wrappers
  import opened Vectors
  import Obj = Objects

  /** `ia_type`: `ia_begin` and `ia_end`. */
  datatype Ival = Ival(lo: real, hi: real)

  /** `ia_len`. */
  function Len(t: Ival): real {
    t.hi - t.lo
  }

  /** `ia_center`. */
  function Center(t: Ival): real {
    (t.lo + t.hi) / 2.0
  }

  /** `ia_contains_zero`. */
  predicate ContainsZero(v: Ival) {
    v.lo <= 0.0 <= v.hi
  }

  type Enclosure = Ival -> Ival

  /** A sound enclosure: over any interval of ray distances, the interval
      it returns contains every value of `f` there. */
  ghost predicate Encloses(F: Enclosure, f: real -> real) {
    forall t: Ival, s: real :: t.lo <= s <= t.hi ==> F(t).lo <= f(s) <= F(t).hi
  }

  /** `f`'s value has the sign of the side the ray starts on. */
  predicate RightSign(v: real, inside: bool) {
    if inside then v <= 0.0 else v >= 0.0
  }

  /** The enclosure admits a value of the other side's sign. */
  predicate WrongSign(v: Ival, inside: bool) {
    (inside && v.hi > 0.0) || (!inside && v.lo < 0.0)
  }

  /** Every ray distance in `[a, b)` is on the starting side. */
  ghost predicate SoundUpTo(f: real -> real, inside: bool, a: real, b: real) {
    forall s :: a <= s < b ==> RightSign(f(s), inside)
  }

  /** An enclosure without the wrong sign vouches for every point of its
      interval. */
  lemma RightSignThroughout(F: Enclosure, f: real -> real, t: Ival, inside: bool, s: real)
    requires Encloses(F, f) && !WrongSign(F(t), inside) && t.lo <= s <= t.hi
    ensures RightSign(f(s), inside)
  {
    assert F(t).lo <= f(s) <= F(t).hi;
  }

  const Fraction: real := 0.5

  /** How the loop ended: a distance written, `begin >= old_isec_dist`, or
      `MAX_ITER` iterations without either. Only `Hit` writes. */
  datatype MarchEnd = Hit(dist: real) | Passed | Exhausted

  function Written(e: MarchEnd): (r: Option<real>)
    ensures r.Some? <==> e.Hit?
  {
    if e.Hit? then Some(e.dist) else None
  }

  /** The loop variables: the interval `t`, the counter `i` and
      `steps_since_subdiv`. */
  datatype MarchState = MarchState(t: Ival, i: int, steps: int)

  datatype StepResult = Continue(next: MarchState) | Stop(end: MarchEnd)

  /** The generated constants and the tracer's inputs the loop reads. */
  datatype Settings = Settings(oldDist: real, inside: bool, originSelf: bool, maxIter: int, eps: real)

  /** `if (ia_end(t) > old_isec_dist) ia_end(t) = old_isec_dist;` */
  function Clip(t: Ival, oldDist: real): Ival {
    if t.hi > oldDist then Ival(t.lo, oldDist) else t
  }

  /** Halving the interval, keeping its begin; the counter of steps since
      the last subdivision restarts. */
  function Subdivide(st: MarchState, c: Ival): MarchState {
    MarchState(Ival(c.lo, c.lo + Len(c) * Fraction), st.i + 1, 0)
  }

  /** Stepping forward from the interval's end, by its width, or by twice
      its width after more than one step without subdividing. */
  function Forward(st: MarchState, c: Ival): MarchState {
    var steps := st.steps + 1;
    var step := if steps > 1 then Len(c) / Fraction else Len(c);
    MarchState(Ival(c.hi, c.hi + step), st.i + 1, steps)
  }

  // ---------------------------------------------------------------------
  // `objects/implicit_surface.py`.

  /** From its own surface the derivative may excuse a wrong-sign
      enclosure: when `df` is known not to vanish and `(end(df) < 0) ==
      inside`. */
  predicate SelfExempt(dv: Ival, inside: bool) {
    !ContainsZero(dv) && ((dv.hi < 0.0) == inside)
  }

  predicate NeedSubdiv(c: Ival, F: Enclosure, DF: Enclosure, cfg: Settings) {
    WrongSign(F(c), cfg.inside) && !(cfg.originSelf && SelfExempt(DF(c), cfg.inside))
  }

  /** From its own surface the first interval ends at most
      `SELF_MAX_BEGIN_STEP = 0.1` after its begin. */
  function SurfaceStart(t0: Ival, originSelf: bool): (t: Ival)
    requires t0.lo <= t0.hi
    ensures t.lo == t0.lo && t.lo <= t.hi <= t0.hi
    ensures originSelf ==> t.hi <= t0.lo + 0.1 && (t0.hi <= t0.lo + 0.1 ==> t == t0)
    ensures !originSelf ==> t == t0
  {
    if originSelf then Ival(t0.lo, if t0.hi < t0.lo + 0.1 then t0.hi else t0.lo + 0.1) else t0
  }

  /** One iteration of the loop body. */
  function SurfaceStep(st: MarchState, cfg: Settings, F: Enclosure, DF: Enclosure): StepResult {
    if st.t.lo >= cfg.oldDist then Stop(Passed)
    else
      var c := Clip(st.t, cfg.oldDist);
      if NeedSubdiv(c, F, DF, cfg) then
        if Len(c) < cfg.eps || st.i == cfg.maxIter - 1 then Stop(Hit(Center(c)))
        else Continue(Subdivide(st, c))
      else Continue(Forward(st, c))
  }

  /** The march front never moves back: after a step the interval is
      still ordered, its begin has not decreased, and a subdivision keeps
      the begin and halves the (clipped) width. */
  lemma SurfaceStepMonotone(st: MarchState, cfg: Settings, F: Enclosure, DF: Enclosure)
    requires st.t.lo <= st.t.hi && st.steps >= 0
    ensures var r := SurfaceStep(st, cfg, F, DF);
      r.Continue? ==>
        st.t.lo < cfg.oldDist && r.next.i == st.i + 1 && r.next.steps >= 0
        && st.t.lo <= r.next.t.lo <= r.next.t.hi
        && (r.next.steps == 0 ==>
              r.next.t.lo == st.t.lo && Len(r.next.t) == Len(Clip(st.t, cfg.oldDist)) / 2.0)
        && (r.next.steps > 0 ==> r.next.t.lo == Clip(st.t, cfg.oldDist).hi)
  {
  }

  /** A forward step passes only over distances the enclosure vouches
      for, so the skipped prefix stays on the starting side. */
  lemma SurfaceStepSound(st: MarchState, cfg: Settings, F: Enclosure, DF: Enclosure, f: real -> real, a: real)
    requires !cfg.originSelf && Encloses(F, f)
    requires a <= st.t.lo <= st.t.hi && st.steps >= 0 && SoundUpTo(f, cfg.inside, a, st.t.lo)
    requires SurfaceStep(st, cfg, F, DF).Continue?
    ensures SoundUpTo(f, cfg.inside, a, SurfaceStep(st, cfg, F, DF).next.t.lo)
  {
    var c := Clip(st.t, cfg.oldDist);
    var next := SurfaceStep(st, cfg, F, DF).next;
    if !NeedSubdiv(c, F, DF, cfg) {
      forall s | a <= s < next.t.lo
        ensures RightSign(f(s), cfg.inside)
      {
        if s >= st.t.lo {
          RightSignThroughout(F, f, c, cfg.inside, s);
        }
      }
    }
  }

  /** The loop of `ImplicitSurface.__init__`'s tracer, from the bounding
      range `t0`. Returns how it ended, the interval `t` it ended on and
      the counter `i`. */
  method MarchSurface(t0: Ival, cfg: Settings, F: Enclosure, DF: Enclosure, ghost f: real -> real)
    returns (e: MarchEnd, last: Ival, iterations: int)
    requires t0.lo <= t0.hi
    ensures 0 <= iterations && (e.Exhausted? <==> iterations >= cfg.maxIter)
    ensures t0.lo <= last.lo <= last.hi
    ensures e.Passed? ==> last.lo >= cfg.oldDist
    ensures e.Hit? ==>
      e.dist == Center(last) && last.lo < cfg.oldDist && last.hi <= cfg.oldDist
      && NeedSubdiv(last, F, DF, cfg) && (Len(last) < cfg.eps || iterations == cfg.maxIter - 1)
    ensures e.Hit? ==> t0.lo <= e.dist < cfg.oldDist
    ensures !cfg.originSelf && Encloses(F, f) ==> SoundUpTo(f, cfg.inside, t0.lo, last.lo)
    ensures !cfg.originSelf && Encloses(F, f) && e.Passed? ==>
      forall s :: t0.lo <= s < cfg.oldDist ==> RightSign(f(s), cfg.inside)
    ensures !cfg.originSelf && Encloses(F, f) && e.Hit? ==>
      forall s :: t0.lo <= s < last.lo ==> RightSign(f(s), cfg.inside) && s < e.dist
  {
    var st := MarchState(SurfaceStart(t0, cfg.originSelf), 0, 0);
    while st.i < cfg.maxIter
      invariant 0 <= st.i && st.steps >= 0
      invariant t0.lo <= st.t.lo <= st.t.hi
      invariant !cfg.originSelf && Encloses(F, f) ==> SoundUpTo(f, cfg.inside, t0.lo, st.t.lo)
      decreases cfg.maxIter - st.i
    {
      var r := SurfaceStep(st, cfg, F, DF);
      if r.Stop? {
        if r.end.Hit? {
          last := Clip(st.t, cfg.oldDist);
        } else {
          last := st.t;
        }
        return r.end, last, st.i;
      }
      SurfaceStepMonotone(st, cfg, F, DF);
      if !cfg.originSelf && Encloses(F, f) {
        SurfaceStepSound(st, cfg, F, DF, f, t0.lo);
      }
      st := r.next;
    }
    return Exhausted, st.t, st.i;
  }

  // ---------------------------------------------------------------------
  // `implicits.py`: the older loop.

  /** From its own surface the first interval ends at the absolute
      distance `SELF_MAX_BEGIN_STEP = 0.01`, whatever its begin. */
  function OldStart(t0: Ival, originSelf: bool): (t: Ival)
    ensures t.lo == t0.lo
    ensures originSelf ==> t.hi == 0.01
    ensures !originSelf ==> t == t0
  {
    if originSelf then Ival(t0.lo, 0.01) else t0
  }

  /** The derivative test of the older loop: subdivide when
      `(ia_begin(df) < 0) != inside`. */
  predicate DerivativeSubdivides(dv: Ival, inside: bool) {
    (dv.lo < 0.0) != inside
  }

  /** One iteration of the older loop body: a hit needs an enclosure
      containing zero, and even then the derivative test may send the march
      forward. */
  function OldStep(st: MarchState, cfg: Settings, F: Enclosure, DF: Enclosure): StepResult {
    if st.t.lo >= cfg.oldDist then Stop(Passed)
    else
      var c := Clip(st.t, cfg.oldDist);
      if ContainsZero(F(c)) then
        if Len(c) < cfg.eps || st.i == cfg.maxIter - 1 then Stop(Hit(Center(c)))
        else if DerivativeSubdivides(DF(c), cfg.inside) then Continue(Subdivide(st, c))
        else Continue(Forward(st, c))
      else Continue(Forward(st, c))
  }

  /** An enclosure excluding zero never subdivides the older loop's
      interval nor stops it: the march goes forward. A subdivision, in
      turn, happens only on an enclosure containing zero whose derivative
      test asks for it, and keeps the begin. */
  lemma OldStepCases(st: MarchState, cfg: Settings, F: Enclosure, DF: Enclosure)
    requires st.t.lo <= st.t.hi && st.steps >= 0
    ensures var r := OldStep(st, cfg, F, DF);
      var c := Clip(st.t, cfg.oldDist);
      && (st.t.lo < cfg.oldDist && !ContainsZero(F(c)) ==> r.Continue? && r.next.steps > 0)
      && (r.Stop? && r.end.Hit? ==> ContainsZero(F(c)))
      && (r.Continue? && r.next.steps == 0 ==>
            ContainsZero(F(c)) && DerivativeSubdivides(DF(c), cfg.inside)
            && r.next.t.lo == st.t.lo && Len(r.next.t) == Len(c) / 2.0)
      && (r.Continue? ==> st.t.lo <= r.next.t.lo <= r.next.t.hi && r.next.i == st.i + 1)
  {
  }

  /** The loop of the older `ImplicitSurface` tracer. From its own surface
      the first interval is `[begin, 0.01]`, which is reversed when the
      bounding range begins beyond 0.01; the march front is monotone
      otherwise. */
  method MarchOld(t0: Ival, cfg: Settings, F: Enclosure, DF: Enclosure)
    returns (e: MarchEnd, last: Ival, iterations: int)
    requires t0.lo <= t0.hi
    ensures 0 <= iterations && (e.Exhausted? <==> iterations >= cfg.maxIter)
    ensures e.Passed? ==> last.lo >= cfg.oldDist
    ensures e.Hit? ==>
      e.dist == Center(last) && last.lo < cfg.oldDist && last.hi <= cfg.oldDist
      && ContainsZero(F(last)) && (Len(last) < cfg.eps || iterations == cfg.maxIter - 1)
    ensures e.Hit? ==> e.dist < cfg.oldDist
    ensures !cfg.originSelf || t0.lo <= 0.01 ==> t0.lo <= last.lo <= last.hi
  {
    var ordered := !cfg.originSelf || t0.lo <= 0.01;
    var st := MarchState(OldStart(t0, cfg.originSelf), 0, 0);
    while st.i < cfg.maxIter
      invariant 0 <= st.i && st.steps >= 0
      invariant ordered ==> t0.lo <= st.t.lo <= st.t.hi
      decreases cfg.maxIter - st.i
    {
      var r := OldStep(st, cfg, F, DF);
      if r.Stop? {
        if r.end.Hit? {
          last := Clip(st.t, cfg.oldDist);
        } else {
          last := st.t;
        }
        return r.end, last, st.i;
      }
      if ordered {
        OldStepCases(st, cfg, F, DF);
      }
      st := MarchState(r.next.t, st.i + 1, r.next.steps);
    }
    return Exhausted, st.t, st.i;
  }

  /** `QuaternionJuliaSet`'s tracer: the older loop behind an
      `if (origin_self) return;` guard, so it never reports a hit on the
      surface the ray leaves from. */
  method JuliaSetTracer(t0: Ival, cfg: Settings, F: Enclosure, DF: Enclosure) returns (e: Option<MarchEnd>)
    requires t0.lo <= t0.hi
    ensures cfg.originSelf <==> e.None?
    ensures e.Some? && e.value.Hit? ==> t0.lo <= e.value.dist < cfg.oldDist
  {
    if cfg.originSelf {
      return None;
    }
    var end, last, iterations := MarchOld(t0, cfg, F, DF);
    return Some(end);
  }

  // ---------------------------------------------------------------------
  // The bounding radius.

  /** As written, both implicit-surface constructors compute
      `bndR*self.scale` before passing it on, so the default `bndR=None`
      raises `TypeError` instead of selecting the unbounded range. */
  function BoundRadiusAsWritten(bndR: Option<real>, scale: real): (r: Result<real>)
    ensures bndR.Some? <==> r.Ok?
  {
    if bndR.None? then Err(TypeError("unsupported operand type(s) for *: 'NoneType' and 'float'"))
    else Ok(ScaledRadius(bndR.value, scale))
  }

  /** `bndR*self.scale`. */
  function ScaledRadius(bndR: real, scale: real): real {
    bndR * scale
  }

  /** Omitting the bounding radius is an error as written. */
  lemma DefaultBoundRaises(scale: real)
    ensures BoundRadiusAsWritten(None, scale).Err?
    ensures BoundRadiusAsWritten(None, scale).exception.TypeError?
  {
  }

  /** The evidently intended radius: a missing one stays missing. */
  function BoundRadius(bndR: Option<real>, scale: real): (r: Option<real>)
    ensures bndR.None? <==> r.None?
    ensures bndR.Some? ==> BoundRadiusAsWritten(bndR, scale) == Ok(r.value)
  {
    if bndR.None? then None else Some(ScaledRadius(bndR.value, scale))
  }

  /** The whole implicit-surface tracer with the corrected radius: the
      bounding range, then the march. `None` is the bounding test's early
      return; `Written` of the march end is what reaches
      `p_new_isec_dist`. */
  method ImplicitSurfaceTracer(center: Vec3, bndR: Option<real>, scale: real, origin: Vec3, ray: Vec3,
                               cfg: Settings, F: Enclosure, DF: Enclosure, sqrt: real -> real,
                               ghost f: real -> real)
    returns (e: Option<MarchEnd>)
    requires IsSqrt(sqrt) && cfg.oldDist >= 0.0
    ensures e.Some? && e.value.Hit? ==> 0.0 <= e.value.dist < cfg.oldDist
    ensures bndR.None? ==> e.Some?
    ensures bndR.None? && !cfg.originSelf && Encloses(F, f) && e == Some(Passed) ==>
      SoundUpTo(f, cfg.inside, 0.0, cfg.oldDist)
  {
    var range := Obj.BoundingRange(center, BoundRadius(bndR, scale), origin, ray, cfg.oldDist, sqrt);
    if range.None? {
      return None;
    }
    var end, last, iterations := MarchSurface(Ival(range.value.0, range.value.1), cfg, F, DF, f);
    return Some(end);
  }
}
