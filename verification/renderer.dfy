/** The host side of one sample in `Renderer`: `render_sample` runs one
    path segment per bounce, and `compute_next_path_segment` launches the
    kernels of a segment. Only the launches and the values that steer them
    are modelled; what the kernels compute is outside the model. */
module Renderer {
  import opened Wrappers
  import opened ObjectGroups

  /** The kernel names of a tracer: `tracer_kernel_name`,
      `normal_kernel_name` and `shadow_kernel_name`. */
  datatype Kernels = Kernels(tracer: string, normal: string, shadow: string)

  /** One kernel launch and the integer arguments that say which objects
      and which light it is about. */
  datatype Launch =
    /** Trace one object, whose id is its position plus one. */
    | Trace(kernel: string, objectId: nat)
    /** Normals for the `count` objects with ids from `firstId`. */
    | Normals(kernel: string, firstId: nat, count: nat)
    /** Shadow rays towards light `lightId` past the group's objects. */
    | Shadows(kernel: string, lightId: nat, firstId: nat, count: nat)
    /** One shader stage; the light id is passed when lights are sampled. */
    | Shade(kernel: string, light: Option<nat>)

  /** The launches of one segment, in the order they are made, and the
      two choices that are not launches. */
  datatype Segment = Segment(
    traces: seq<Launch>,
    normals: seq<Launch>,
    shadows: seq<Launch>,
    shaders: seq<Launch>,
    /** `suppress_emission` is cleared before the first segment. */
    resetsSuppression: bool,
    /** The quasi-random direction sample replaces the random one. */
    quasiDirection: bool)

  function Launches(s: Segment): seq<Launch> {
    s.traces + s.normals + s.shadows + s.shaders
  }

  // ---------------------------------------------------------------------
  // The tracer and normal launches.

  /** One tracer launch per object of a group, ids from `offset + 1`. */
  function GroupTraces<T>(g: Group<T>, kernels: T -> Kernels): (r: seq<Launch>)
    ensures |r| == g.count
    ensures forall k :: 0 <= k < g.count ==> r[k] == Trace(kernels(g.first).tracer, g.offset + k + 1)
  {
    seq(g.count, k requires 0 <= k < g.count => Trace(kernels(g.first).tracer, g.offset + k + 1))
  }

  /** The first loop over `object_groups`. */
  function TraceLaunches<T>(groups: seq<Group<T>>, kernels: T -> Kernels): (r: seq<Launch>)
    ensures |r| == SumCounts(groups)
    decreases |groups|
  {
    if |groups| == 0 then [] else GroupTraces(groups[0], kernels) + TraceLaunches(groups[1..], kernels)
  }

  /** The second loop over `object_groups`: one normal launch per group. */
  function NormalLaunches<T>(groups: seq<Group<T>>, kernels: T -> Kernels): (r: seq<Launch>)
    ensures |r| == |groups|
    ensures forall i :: 0 <= i < |groups| ==>
      r[i] == Normals(kernels(groups[i].first).normal, groups[i].offset + 1, groups[i].count)
  {
    seq(|groups|, i requires 0 <= i < |groups| =>
      Normals(kernels(groups[i].first).normal, groups[i].offset + 1, groups[i].count))
  }

  /** Each group starts where the previous one ended, the first at
      `base`. */
  predicate ChainedFrom<T>(g: seq<Group<T>>, base: nat)
    decreases |g|
  {
    |g| == 0 || (g[0].offset == base && ChainedFrom(g[1..], base + g[0].count))
  }

  /** The groups of the sorted objects are chained from their offset. */
  lemma {:induction false} GroupsChained<T>(s: seq<T>, offset: nat, key: T -> string)
    ensures ChainedFrom(GroupsFrom(s, offset, key), offset)
    decreases |s|
  {
    if |s| > 0 {
      var n := RunLength(s, key(s[0]), key);
      var rest := GroupsFrom(s[n..], offset + n, key);
      GroupsChained(s[n..], offset + n, key);
      assert GroupsFrom(s, offset, key) == [Group(s[0], n, offset)] + rest;
      assert ([Group(s[0], n, offset)] + rest)[1..] == rest;
    }
  }

  /** Launch `j` of chained groups traces id `base + j + 1` with the kernel
      of the group `i` that holds that object. */
  lemma {:induction false} TraceAt<T>(g: seq<Group<T>>, base: nat, kernels: T -> Kernels, j: nat) returns (i: nat)
    requires ChainedFrom(g, base) && j < SumCounts(g)
    ensures i < |g| && g[i].offset <= base + j < g[i].offset + g[i].count
    ensures TraceLaunches(g, kernels)[j] == Trace(kernels(g[i].first).tracer, base + j + 1)
    decreases |g|
  {
    var r := TraceLaunches(g, kernels);
    var head := GroupTraces(g[0], kernels);
    assert r == head + TraceLaunches(g[1..], kernels);
    if j < g[0].count {
      i := 0;
      assert r[j] == head[j];
    } else {
      var i' := TraceAt(g[1..], base + g[0].count, kernels, j - g[0].count);
      i := i' + 1;
      assert r[j] == TraceLaunches(g[1..], kernels)[j - g[0].count];
    }
  }

  /** For the groups of the sorted objects, the tracer launches visit the
      objects in order: the `j`-th launch traces object `j` with its own
      tracer kernel and id `offset + j + 1`. */
  lemma TracesFollowObjects<T>(s: seq<T>, offset: nat, key: T -> string, kernels: T -> Kernels)
    requires forall t :: key(t) == kernels(t).tracer
    ensures var r := TraceLaunches(GroupsFrom(s, offset, key), kernels);
      && |r| == |s|
      && forall j :: 0 <= j < |s| ==> r[j] == Trace(key(s[j]), offset + j + 1)
  {
    var g := GroupsFrom(s, offset, key);
    GroupCountsSum(s, offset, key);
    GroupsChained(s, offset, key);
    forall j | 0 <= j < |s|
      ensures TraceLaunches(g, kernels)[j] == Trace(key(s[j]), offset + j + 1)
    {
      var i := TraceAt(g, offset, kernels, j);
      GroupsShareKey(s, offset, key, i, offset + j);
      GroupAt(s, offset, key, i);
      var first := s[g[i].offset - offset];
      assert key(first) == kernels(first).tracer;
    }
  }

  /** For the groups of the sorted objects, every object id `1 .. |s|` is
      covered by the normal launch of its own group, and that group's
      tracer kernel is the object's. */
  lemma NormalsCoverObjects<T>(s: seq<T>, key: T -> string, kernels: T -> Kernels, j: nat)
    requires j < |s|
    ensures var g := GroupsFrom(s, 0, key); var r := NormalLaunches(g, kernels);
      exists i :: 0 <= i < |r| && r[i].firstId <= j + 1 < r[i].firstId + r[i].count
        && key(g[i].first) == key(s[j])
  {
    var g := GroupsFrom(s, 0, key);
    var i := GroupOf(s, 0, key, j);
    GroupsShareKey(s, 0, key, i, j);
  }

  /** Normal launches of chained groups that appear in order cover
      disjoint, ascending id ranges. */
  lemma {:induction false} NormalRangesOrdered<T>(s: seq<T>, key: T -> string, kernels: T -> Kernels, i: nat, i2: nat)
    requires var r := NormalLaunches(GroupsFrom(s, 0, key), kernels); i < i2 < |r|
    ensures var r := NormalLaunches(GroupsFrom(s, 0, key), kernels); r[i].firstId + r[i].count <= r[i2].firstId
    decreases i2 - i
  {
    var g := GroupsFrom(s, 0, key);
    GroupsTile(s, 0, key);
    if i + 1 < i2 {
      NormalRangesOrdered(s, key, kernels, i + 1, i2);
    }
  }

  /** The normal launches partition the object ids: their ranges start at
      id 1, each is non-empty and starts where the previous one ended, the
      last ends after id `|s|`, and a later range starts after an earlier
      one ends, so no id lies in two ranges. Together with
      `NormalsCoverObjects`, every object's normal is computed exactly
      once. */
  lemma NormalsPartition<T>(s: seq<T>, key: T -> string, kernels: T -> Kernels)
    ensures var r := NormalLaunches(GroupsFrom(s, 0, key), kernels);
      && (|r| == 0 <==> |s| == 0)
      && (|r| > 0 ==> r[0].firstId == 1 && r[|r| - 1].firstId + r[|r| - 1].count == |s| + 1)
      && (forall i :: 0 <= i < |r| ==> r[i].count > 0)
      && (forall i :: 0 <= i < |r| - 1 ==> r[i].firstId + r[i].count == r[i + 1].firstId)
      && (forall i, i2 :: 0 <= i < i2 < |r| ==> r[i].firstId + r[i].count <= r[i2].firstId)
  {
    var g := GroupsFrom(s, 0, key);
    var r := NormalLaunches(g, kernels);
    GroupsTile(s, 0, key);
    forall i | 0 <= i < |r|
      ensures r[i].firstId == g[i].offset + 1 && r[i].count == g[i].count && r[i].count > 0
    {
    }
    forall i | 0 <= i < |r| - 1
      ensures r[i].firstId + r[i].count == r[i + 1].firstId
    {
      assert g[i + 1].offset == g[i].offset + g[i].count;
    }
    forall i, i2 | 0 <= i < i2 < |r|
      ensures r[i].firstId + r[i].count <= r[i2].firstId
    {
      NormalRangesOrdered(s, key, kernels, i, i2);
    }
  }

  /** The group holding object `j`. */
  lemma GroupOf<T>(s: seq<T>, offset: nat, key: T -> string, j: nat) returns (i: nat)
    requires offset <= j < offset + |s|
    ensures var g := GroupsFrom(s, offset, key);
      i < |g| && g[i].offset <= j < g[i].offset + g[i].count
  {
    var g := GroupsFrom(s, offset, key);
    GroupsTile(s, offset, key);
    i := 0;
    while g[i].offset + g[i].count <= j
      invariant i < |g| && g[i].offset <= j
      decreases |g| - i
    {
      i := i + 1;
    }
  }

  // ---------------------------------------------------------------------
  // Lights and shading.

  /** The light id handed to the shadow and shader kernels: none without
      light sampling, `0` on the last segment, otherwise the sampled light's
      position plus one. */
  function LightId(bidirectional: bool, isLast: bool, light: nat): (r: Option<nat>)
    ensures r.None? <==> !bidirectional
    ensures r == Some(0) <==> bidirectional && isLast
  {
    if !bidirectional then None else if isLast then Some(0) else Some(light + 1)
  }

  /** The shader stages: the last segment only absorbs and emits; the
      others also scatter. */
  function Pipeline(isLast: bool): (r: seq<string>)
    ensures |r| == if isLast then 2 else 5
    ensures r[..2] == ["volumetric", "emission"]
    ensures "reflection" in r <==> !isLast
    ensures "refraction" in r <==> !isLast
    ensures "diffuse" in r <==> !isLast
  {
    var base := ["volumetric", "emission"];
    if isLast then base else base + ["reflection", "refraction", "diffuse"]
  }

  /** `compute_next_path_segment`. `light` is the position of the light
      `get_light_point` drew at random. */
  function NextPathSegment<T>(groups: seq<Group<T>>, kernels: T -> Kernels, bidirectional: bool,
                              light: nat, quasirandom: bool, pathIndex: nat, isLast: bool): (r: Segment)
    ensures r.traces == TraceLaunches(groups, kernels) && r.normals == NormalLaunches(groups, kernels)
    ensures |r.shadows| == if bidirectional && !isLast then |groups| else 0
    ensures forall i :: 0 <= i < |r.shadows| ==>
      r.shadows[i] == Shadows(kernels(groups[i].first).shadow, light + 1, groups[i].offset + 1, groups[i].count)
    ensures |r.shaders| == 2 <==> isLast
    ensures forall k :: 0 <= k < |r.shaders| ==>
      && r.shaders[k].Shade?
      && (r.shaders[k].light.None? <==> !bidirectional)
      && (r.shaders[k].light == Some(0) <==> bidirectional && isLast)
    ensures forall i, k :: 0 <= i < |r.shadows| && 0 <= k < |r.shaders| ==> Some(r.shadows[i].lightId) == r.shaders[k].light
    ensures r.resetsSuppression <==> bidirectional && pathIndex == 0
    ensures r.quasiDirection <==> quasirandom && pathIndex == 1
  {
    var lightId := LightId(bidirectional, isLast, light);
    var shadows :=
      if bidirectional && !isLast then
        seq(|groups|, i requires 0 <= i < |groups| =>
          Shadows(kernels(groups[i].first).shadow, light + 1, groups[i].offset + 1, groups[i].count))
      else [];
    var stages := Pipeline(isLast);
    var shaders := seq(|stages|, i requires 0 <= i < |stages| => Shade("shader_" + stages[i], lightId));
    Segment(TraceLaunches(groups, kernels), NormalLaunches(groups, kernels), shadows, shaders,
            bidirectional && pathIndex == 0, quasirandom && pathIndex == 1)
  }

  // ---------------------------------------------------------------------
  // The bounce loop.

  /** Segment `k` is the one `compute_next_path_segment` launches for path
      index `k`. */
  predicate SegmentsFollow<T>(segments: seq<Segment>, groups: seq<Group<T>>, kernels: T -> Kernels,
                              bidirectional: bool, lights: nat -> nat, quasirandom: bool, maxBounces: int)
  {
    forall k :: 0 <= k < |segments| ==>
      segments[k] == NextPathSegment(groups, kernels, bidirectional, lights(k), quasirandom, k, k == maxBounces - 1)
  }

  lemma FollowAppend<T>(segments: seq<Segment>, groups: seq<Group<T>>, kernels: T -> Kernels,
                        bidirectional: bool, lights: nat -> nat, quasirandom: bool, maxBounces: int)
    requires SegmentsFollow(segments, groups, kernels, bidirectional, lights, quasirandom, maxBounces)
    ensures var i := |segments|;
      SegmentsFollow(segments + [NextPathSegment(groups, kernels, bidirectional, lights(i), quasirandom, i, i == maxBounces - 1)],
                     groups, kernels, bidirectional, lights, quasirandom, maxBounces)
  {
    var i := |segments|;
    var next := segments + [NextPathSegment(groups, kernels, bidirectional, lights(i), quasirandom, i, i == maxBounces - 1)];
    forall k | 0 <= k < |next|
      ensures next[k] == NextPathSegment(groups, kernels, bidirectional, lights(k), quasirandom, k, k == maxBounces - 1)
    {
      if k < i {
        assert next[k] == segments[k];
        assert segments[k] == NextPathSegment(groups, kernels, bidirectional, lights(k), quasirandom, k, k == maxBounces - 1);
      } else {
        assert k == i;
      }
    }
  }

  /** `render_sample`: one segment per bounce. `compute_next_path_segment`
      always returns `True`, so the loop never breaks early; the result is
      the loop variable's final value, `0` when no segment ran. `lights(i)`
      is the light drawn on segment `i`. */
  method RenderSample<T>(groups: seq<Group<T>>, kernels: T -> Kernels, bidirectional: bool,
                         lights: nat -> nat, quasirandom: bool, maxBounces: int)
    returns (segments: seq<Segment>, pathIndex: nat)
    ensures |segments| == if maxBounces > 0 then maxBounces else 0
    ensures forall i :: 0 <= i < |segments| ==>
      segments[i] == NextPathSegment(groups, kernels, bidirectional, lights(i), quasirandom, i, i == maxBounces - 1)
    ensures pathIndex == if maxBounces > 0 then maxBounces - 1 else 0
  {
    segments := [];
    pathIndex := 0;
    var i := 0;
    while i < maxBounces
      invariant 0 <= i && (maxBounces > 0 ==> i <= maxBounces) && (maxBounces <= 0 ==> i == 0)
      invariant |segments| == i
      invariant SegmentsFollow(segments, groups, kernels, bidirectional, lights, quasirandom, maxBounces)
      invariant i > 0 ==> pathIndex == i - 1
      invariant i == 0 ==> pathIndex == 0
    {
      pathIndex := i;
      var seg := NextPathSegment(groups, kernels, bidirectional, lights(i), quasirandom, i, i == maxBounces - 1);
      FollowAppend(segments, groups, kernels, bidirectional, lights, quasirandom, maxBounces);
      segments := segments + [seg];
      i := i + 1;
    }
  }

  /** Exactly one segment of a sample is the last: it is the only one
      without the scattering stages, and every other one traces shadow rays
      when lights are sampled. */
  lemma OneLastSegment<T>(groups: seq<Group<T>>, kernels: T -> Kernels, bidirectional: bool,
                          lights: nat -> nat, quasirandom: bool, maxBounces: int, segments: seq<Segment>)
    requires |segments| == if maxBounces > 0 then maxBounces else 0
    requires forall i :: 0 <= i < |segments| ==>
      segments[i] == NextPathSegment(groups, kernels, bidirectional, lights(i), quasirandom, i, i == maxBounces - 1)
    ensures forall i :: 0 <= i < |segments| ==>
      (|segments[i].shaders| == 2 <==> i == |segments| - 1)
    ensures forall i :: 0 <= i < |segments| - 1 && bidirectional ==>
      |segments[i].shadows| == |groups|
  {
    forall i | 0 <= i < |segments|
      ensures |segments[i].shaders| == 2 <==> i == |segments| - 1
      ensures i < |segments| - 1 && bidirectional ==> |segments[i].shadows| == |groups|
    {
      var seg := NextPathSegment(groups, kernels, bidirectional, lights(i), quasirandom, i, i == maxBounces - 1);
      assert segments[i] == seg;
    }
  }
}
