/** The scene helpers of `scene.py`: the six-wall world box, lookups and
    deletion of objects by name, and aiming the camera. */
module Scene {
  import opened Wrappers
  import opened Vectors
  import opened Objects

  /** `Object(tracer, material, name)`: a shape with a material name and
      an optional object name. */
  datatype SceneObject<T> = SceneObject(tracer: T, material: string, name: Option<string>)

  /** The parts of a `Scene` these helpers read and write. */
  datatype Scene<T> = Scene(objects: seq<SceneObject<T>>, cameraPosition: Vec3, cameraDirection: Vec3)

  // ---------------------------------------------------------------------
  // The world box.

  /** Wall `k` of the box: its (unnormalised) normal and height. */
  function WallNormal(k: nat): Vec3
    requires k < 6
  {
    if k == 0 then Vec3(1.0, 0.0, 0.0)
    else if k == 1 then Vec3(-1.0, 0.0, 0.0)
    else if k == 2 then Vec3(0.0, 1.0, 0.0)
    else if k == 3 then Vec3(0.0, -1.0, 0.0)
    else if k == 4 then Vec3(0.0, 0.0, 1.0)
    else Vec3(0.0, 0.0, -1.0)
  }

  function WallHeight(dims: Vec3, center: Vec3, k: nat): real
    requires k < 6
  {
    var d := Coord(dims, k / 2);
    var c := Coord(center, k / 2);
    if k % 2 == 0 then d - c else d + c
  }

  function WallName(k: nat): string
    requires k < 6
  {
    if k < 4 then "wall" else if k == 4 then "floor" else "ceiling"
  }

  /** `Scene.make_world_box(material, dims, center)`: six half-spaces, the
      four walls, then the floor and the ceiling, all of one material.
      `normalize` is `normalize_tuple`, which the half-space constructor
      applies to each normal. */
  function MakeWorldBox(material: string, dims: Vec3, center: Vec3, normalize: Vec3 -> Vec3)
    : (r: seq<SceneObject<HalfSpace>>)
    ensures |r| == 6
    ensures forall k :: 0 <= k < 6 ==>
      && r[k].material == material
      && r[k].name == Some(WallName(k))
      && r[k].tracer == MakeHalfSpace(WallNormal(k), WallHeight(dims, center, k), normalize)
  {
    seq(6, k requires 0 <= k < 6 =>
      SceneObject(MakeHalfSpace(WallNormal(k), WallHeight(dims, center, k), normalize), material, Some(WallName(k))))
  }

  /** `p` lies on the inner side of the half-space `p . normal + h >= 0`. */
  predicate InnerSide(hs: HalfSpace, p: Vec3) {
    Dot(p, hs.normal) + hs.h >= 0.0
  }

  /** When normalising leaves the axis directions unchanged, a point lies on
      the inner side of all six walls exactly when it lies within `dims` of
      `center` on every axis. */
  lemma WorldBoxEncloses(material: string, dims: Vec3, center: Vec3, normalize: Vec3 -> Vec3, p: Vec3)
    requires forall k :: 0 <= k < 6 ==> normalize(WallNormal(k)) == WallNormal(k)
    ensures var box := MakeWorldBox(material, dims, center, normalize);
      (forall k :: 0 <= k < 6 ==> InnerSide(box[k].tracer, p))
      <==> (center.x - dims.x <= p.x <= center.x + dims.x
        && center.y - dims.y <= p.y <= center.y + dims.y
        && center.z - dims.z <= p.z <= center.z + dims.z)
  {
    var box := MakeWorldBox(material, dims, center, normalize);
    forall k | 0 <= k < 6
      ensures box[k].tracer == HalfSpace(WallNormal(k), WallHeight(dims, center, k))
    {
      assert normalize(WallNormal(k)) == WallNormal(k);
    }
    assert InnerSide(box[0].tracer, p) <==> p.x >= center.x - dims.x;
    assert InnerSide(box[1].tracer, p) <==> p.x <= center.x + dims.x;
    assert InnerSide(box[2].tracer, p) <==> p.y >= center.y - dims.y;
    assert InnerSide(box[3].tracer, p) <==> p.y <= center.y + dims.y;
    assert InnerSide(box[4].tracer, p) <==> p.z >= center.z - dims.z;
    assert InnerSide(box[5].tracer, p) <==> p.z <= center.z + dims.z;
  }

  // ---------------------------------------------------------------------
  // Lookups by name.

  predicate Named<T>(o: SceneObject<T>, name: string) {
    o.name == Some(name)
  }

  /** `get_objects(name)`: the objects called `name`, in scene order. */
  function GetObjects<T>(objs: seq<SceneObject<T>>, name: string): (r: seq<SceneObject<T>>)
    ensures |r| <= |objs|
    decreases |objs|
  {
    if |objs| == 0 then []
    else
      var rest := GetObjects(objs[..|objs| - 1], name);
      var last := objs[|objs| - 1];
      if Named(last, name) then rest + [last] else rest
  }

  /** The objects not called `name`, in scene order: what `delete_objects`
      leaves. */
  function OthersThan<T>(objs: seq<SceneObject<T>>, name: string): (r: seq<SceneObject<T>>)
    ensures |r| <= |objs|
    decreases |objs|
  {
    if |objs| == 0 then []
    else
      var rest := OthersThan(objs[..|objs| - 1], name);
      var last := objs[|objs| - 1];
      if Named(last, name) then rest else rest + [last]
  }

  /** The selected objects are exactly the scene's objects called `name`,
      and the others exactly the rest. */
  lemma {:induction false} SelectionMembers<T>(objs: seq<SceneObject<T>>, name: string)
    ensures forall o :: o in GetObjects(objs, name) ==> o in objs && Named(o, name)
    ensures forall o :: o in objs && Named(o, name) ==> o in GetObjects(objs, name)
    ensures forall o :: o in OthersThan(objs, name) ==> o in objs && !Named(o, name)
    ensures forall o :: o in objs && !Named(o, name) ==> o in OthersThan(objs, name)
    decreases |objs|
  {
    if |objs| > 0 {
      var n := |objs| - 1;
      SelectionMembers(objs[..n], name);
      assert objs == objs[..n] + [objs[n]];
    }
  }

  /** Selecting distributes over concatenation: each part keeps its named
      objects in order. */
  lemma {:induction false} GetObjectsAppend<T>(a: seq<SceneObject<T>>, b: seq<SceneObject<T>>, name: string)
    ensures GetObjects(a + b, name) == GetObjects(a, name) + GetObjects(b, name)
    ensures OthersThan(a + b, name) == OthersThan(a, name) + OthersThan(b, name)
    decreases |b|
  {
    if |b| > 0 {
      var n := |b| - 1;
      assert (a + b)[..|a + b| - 1] == a + b[..n];
      assert b[..n] + [b[n]] == b;
      GetObjectsAppend(a, b[..n], name);
    } else {
      assert a + b == a;
    }
  }

  /** The named and the other objects together are the scene's objects:
      as multisets, and in number. */
  lemma {:induction false} SplitByName<T>(objs: seq<SceneObject<T>>, name: string)
    ensures multiset(GetObjects(objs, name)) + multiset(OthersThan(objs, name)) == multiset(objs)
    ensures |GetObjects(objs, name)| + |OthersThan(objs, name)| == |objs|
    decreases |objs|
  {
    if |objs| > 0 {
      var n := |objs| - 1;
      SplitByName(objs[..n], name);
      assert objs == objs[..n] + [objs[n]];
    }
  }

  /** `get_object(name)`: the only object called `name`; a `KeyError`
      when there is none or more than one. */
  function GetObject<T>(objs: seq<SceneObject<T>>, name: string): (r: Result<SceneObject<T>>)
    ensures r.Ok? <==> |GetObjects(objs, name)| == 1
    ensures r.Ok? ==> r.value in objs && Named(r.value, name)
    ensures r.Err? && |GetObjects(objs, name)| == 0 ==> r == Err(KeyError("No object named '" + name + "'"))
    ensures r.Err? && |GetObjects(objs, name)| > 1
      ==> r == Err(KeyError("Multiple objects in the scene are called '" + name + "'"))
  {
    var found := GetObjects(objs, name);
    SelectionMembers(objs, name);
    if |found| == 1 then assert found[0] in found; Ok(found[0])
    else if |found| == 0 then Err(KeyError("No object named '" + name + "'"))
    else Err(KeyError("Multiple objects in the scene are called '" + name + "'"))
  }

  /** A name held by no object, or by one object, decides `get_object`. */
  lemma GetObjectOfUnique<T>(objs: seq<SceneObject<T>>, i: nat, name: string)
    requires i < |objs| && Named(objs[i], name)
    requires forall j :: 0 <= j < |objs| && j != i ==> !Named(objs[j], name)
    ensures GetObject(objs, name) == Ok(objs[i])
  {
    assert objs == objs[..i] + [objs[i]] + objs[i + 1..];
    NoneNamed(objs[..i], name);
    NoneNamed(objs[i + 1..], name);
    GetObjectsAppend(objs[..i] + [objs[i]], objs[i + 1..], name);
    GetObjectsAppend(objs[..i], [objs[i]], name);
    assert GetObjects([objs[i]], name) == [objs[i]] by {
      assert [objs[i]][..0] == [];
    }
  }

  lemma NoneNamed<T>(objs: seq<SceneObject<T>>, name: string)
    requires forall j :: 0 <= j < |objs| ==> !Named(objs[j], name)
    ensures GetObjects(objs, name) == []
  {
    SelectionMembers(objs, name);
  }

  /** `delete_objects(name)`: the scene keeps every other object, in
      order. */
  function DeleteObjects<T>(s: Scene<T>, name: string): (r: Scene<T>)
    ensures r.objects == OthersThan(s.objects, name)
    ensures r.cameraPosition == s.cameraPosition && r.cameraDirection == s.cameraDirection
  {
    s.(objects := OthersThan(s.objects, name))
  }

  /** After deleting, nothing is called `name`, and deleting again
      changes nothing. */
  lemma DeleteObjectsRemovesName<T>(objs: seq<SceneObject<T>>, name: string)
    ensures GetObjects(OthersThan(objs, name), name) == []
    ensures OthersThan(OthersThan(objs, name), name) == OthersThan(objs, name)
  {
    var rest := OthersThan(objs, name);
    SelectionMembers(objs, name);
    forall j | 0 <= j < |rest|
      ensures !Named(rest[j], name)
    {
      assert rest[j] in OthersThan(objs, name);
      assert rest[j] in objs && !Named(rest[j], name);
    }
    NoneNamed(rest, name);
    KeepsUnnamed(rest, name);
  }

  /** With nothing called `name`, deleting `name` keeps every object. */
  lemma {:induction false} KeepsUnnamed<T>(objs: seq<SceneObject<T>>, name: string)
    requires forall j :: 0 <= j < |objs| ==> !Named(objs[j], name)
    ensures OthersThan(objs, name) == objs
    decreases |objs|
  {
    if |objs| > 0 {
      var n := |objs| - 1;
      KeepsUnnamed(objs[..n], name);
      assert objs[..n] + [objs[n]] == objs;
    }
  }

  /** Deleting `name` leaves every other name's objects as they were. */
  lemma {:induction false} DeleteObjectsKeepsOthers<T>(objs: seq<SceneObject<T>>, name: string, other: string)
    requires other != name
    ensures GetObjects(OthersThan(objs, name), other) == GetObjects(objs, other)
    decreases |objs|
  {
    if |objs| > 0 {
      var n := |objs| - 1;
      var rest := OthersThan(objs[..n], name);
      DeleteObjectsKeepsOthers(objs[..n], name, other);
      if !Named(objs[n], name) {
        GetObjectsAppend(rest, [objs[n]], other);
        assert [objs[n]][..0] == [];
      }
    }
  }

  // ---------------------------------------------------------------------
  // The camera.

  /** `direct_camera_towards(target)`: the camera looks from its position
      at `target`, reaching it after one unit of the direction. */
  function DirectCameraTowards<T>(s: Scene<T>, target: Vec3): (r: Scene<T>)
    ensures PointAt(r.cameraPosition, r.cameraDirection, 1.0) == target
    ensures r.cameraPosition == s.cameraPosition && r.objects == s.objects
  {
    s.(cameraDirection := Sub(target, s.cameraPosition))
  }
}
