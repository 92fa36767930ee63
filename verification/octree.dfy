/** The triangle-mesh octree: its cubes, the bounding spheres the build
    tests against each other, and the build rule that splits a cube while
    it meets too many faces. */
module Octree {
  import opened Wrappers
  import opened Vectors

  /** `Octree.MAX_DEPTH`: the depth limit a constructor must stay below. */
  const MaxDepthLimit: int := 7

  /** A node's cube: its low corner, edge length and the child indices
      along each axis on the path from the root. */
  datatype Box = Box(origin: Vec3, size: real, coords: Coords)

  datatype Coords = Coords(x: seq<int>, y: seq<int>, z: seq<int>)

  datatype Sphere = Sphere(center: Vec3, radius: real)

  /** A built node: a leaf holds the indices of the faces its sphere
      meets; an internal node has emptied its list and holds its children. */
  datatype Node = Leaf(faces: seq<nat>) | Internal(children: seq<Node>)

  predicate InBox(p: Vec3, b: Box) {
    b.origin.x <= p.x <= b.origin.x + b.size
    && b.origin.y <= p.y <= b.origin.y + b.size
    && b.origin.z <= p.z <= b.origin.z + b.size
  }

  // ---------------------------------------------------------------------
  // Children.

  /** `Node.child_order[k]`: `x` varies slowest and `z` fastest. */
  function ChildBits(k: nat): (r: (int, int, int))
    requires k < 8
    ensures 0 <= r.0 <= 1 && 0 <= r.1 <= 1 && 0 <= r.2 <= 1
    ensures 4 * r.0 + 2 * r.1 + r.2 == k
  {
    (k / 4, (k / 2) % 2, k % 2)
  }

  /** Child `k` of `Node.get_children`: half the size, moved by the
      child's bits times half the size, its path extended by the bits. */
  function ChildBox(b: Box, k: nat): Box
    requires k < 8
  {
    var (x, y, z) := ChildBits(k);
    Box(Add(b.origin, Scale(0.5 * b.size, Vec3(x as real, y as real, z as real))),
        b.size * 0.5,
        Coords(b.coords.x + [x], b.coords.y + [y], b.coords.z + [z]))
  }

  /** `Node.get_children`: the eight children in `child_order`. */
  function Children(b: Box): (r: seq<Box>)
    ensures |r| == 8
    ensures forall k :: 0 <= k < 8 ==> r[k] == ChildBox(b, k)
  {
    seq(8, k requires 0 <= k < 8 => ChildBox(b, k))
  }

  /** Different children get different paths, one step longer than the
      parent's. */
  lemma ChildPathsDistinct(b: Box, j: nat, k: nat)
    requires j < 8 && k < 8 && j != k
    ensures ChildBox(b, j).coords != ChildBox(b, k).coords
    ensures |ChildBox(b, k).coords.x| == |b.coords.x| + 1
  {
    var cj := ChildBox(b, j).coords;
    var ck := ChildBox(b, k).coords;
    assert cj.x[|b.coords.x|] == ChildBits(j).0 && ck.x[|b.coords.x|] == ChildBits(k).0;
    assert cj.y[|b.coords.y|] == ChildBits(j).1 && ck.y[|b.coords.y|] == ChildBits(k).1;
    assert cj.z[|b.coords.z|] == ChildBits(j).2 && ck.z[|b.coords.z|] == ChildBits(k).2;
  }

  /** Each child cube lies inside its parent. */
  lemma ChildInsideParent(b: Box, k: nat, p: Vec3)
    requires k < 8 && b.size >= 0.0 && InBox(p, ChildBox(b, k))
    ensures InBox(p, b)
  {
  }

  /** Which child's cube a point of the parent falls in: the bit along
      each axis says whether it lies past the middle. */
  function ChildIndexOf(b: Box, p: Vec3): (k: nat)
    ensures k < 8
  {
    var h := b.size * 0.5;
    (if p.x >= b.origin.x + h then 4 else 0) + (if p.y >= b.origin.y + h then 2 else 0)
    + (if p.z >= b.origin.z + h then 1 else 0)
  }

  /** The children cover the parent: every point of the parent cube lies
      in the cube of the child `ChildIndexOf` names. */
  lemma ChildrenCoverParent(b: Box, p: Vec3)
    requires InBox(p, b)
    ensures InBox(p, ChildBox(b, ChildIndexOf(b, p)))
  {
    var k := ChildIndexOf(b, p);
    var (x, y, z) := ChildBits(k);
    assert x == (if p.x >= b.origin.x + b.size * 0.5 then 1 else 0);
    assert y == (if p.y >= b.origin.y + b.size * 0.5 then 1 else 0);
    assert z == (if p.z >= b.origin.z + b.size * 0.5 then 1 else 0);
  }

  // ---------------------------------------------------------------------
  // Bounding spheres.

  /** `Node.center` and `Node.get_bounding_sphere`: the cube's center and
      half its diagonal, `sqrt(3) * size / 2`. */
  function NodeSphere(b: Box, sqrt: real -> real): Sphere {
    var h := b.size * 0.5;
    Sphere(Add(Vec3(h, h, h), b.origin), sqrt(3.0) * b.size * 0.5)
  }

  /** The node's sphere encloses its cube. */
  lemma CubeInNodeSphere(b: Box, p: Vec3, sqrt: real -> real)
    requires IsSqrt(sqrt) && b.size >= 0.0 && InBox(p, b)
    ensures var s := NodeSphere(b, sqrt); Dist2(p, s.center) <= s.radius * s.radius
  {
    var s := NodeSphere(b, sqrt);
    var h := b.size * 0.5;
    var d := Sub(p, s.center);
    HalfWithin(d.x, h);
    HalfWithin(d.y, h);
    HalfWithin(d.z, h);
    DiagonalSquare(sqrt(3.0), b.size, s.radius, h);
  }

  /** A coordinate within `h` of the middle has a square at most `h^2`. */
  lemma HalfWithin(d: real, h: real)
    requires -h <= d <= h
    ensures d * d <= h * h
  {
    SquareWithin(d, h);
  }

  lemma DiagonalSquare(s3: real, size: real, r: real, h: real)
    requires s3 * s3 == 3.0 && r == s3 * size * 0.5 && h == size * 0.5
    ensures r * r == 3.0 * (h * h)
  {
    assert r * r == (s3 * s3) * (size * size) * 0.25;
  }

  /** `face_bounding_spheres` for one triangle: the mean of its vertices
      and the largest vertex distance from it. */
  function FaceSphere(a: Vec3, b: Vec3, c: Vec3, sqrt: real -> real): Sphere {
    var center := Scale(1.0 / 3.0, Add(Add(a, b), c));
    Sphere(center, sqrt(Max3(Dist2(a, center), Dist2(b, center), Dist2(c, center))))
  }

  function Max3(a: real, b: real, c: real): (m: real)
    ensures a <= m && b <= m && c <= m
    ensures m == a || m == b || m == c
  {
    if a >= b && a >= c then a else if b >= c then b else c
  }

  /** Every vertex of the triangle lies within its sphere. */
  lemma FaceInFaceSphere(a: Vec3, b: Vec3, c: Vec3, sqrt: real -> real)
    requires IsSqrt(sqrt)
    ensures var s := FaceSphere(a, b, c, sqrt);
      s.radius >= 0.0
      && Dist2(a, s.center) <= s.radius * s.radius
      && Dist2(b, s.center) <= s.radius * s.radius
      && Dist2(c, s.center) <= s.radius * s.radius
  {
    var center := Scale(1.0 / 3.0, Add(Add(a, b), c));
    NormNonNegative(Sub(a, center));
    var m := Max3(Dist2(a, center), Dist2(b, center), Dist2(c, center));
    assert sqrt(m) * sqrt(m) == m;
  }

  datatype Face = Face(a: int, b: int, c: int)

  /** numpy indexing of `vertices[i]`: negative indices count from the
      end; anything else out of range raises `IndexError`. */
  function VertexAt(vs: seq<Vec3>, i: int): (r: Result<Vec3>)
    ensures r.Ok? <==> -|vs| <= i < |vs|
    ensures 0 <= i < |vs| ==> r == Ok(vs[i])
  {
    if 0 <= i < |vs| then Ok(vs[i])
    else if -|vs| <= i < 0 then Ok(vs[|vs| + i])
    else Err(IndexError)
  }

  /** `face_bounding_spheres(vertices, faces)`. */
  function FaceSpheres(vs: seq<Vec3>, faces: seq<Face>, sqrt: real -> real): (r: Result<seq<Sphere>>)
    ensures r.Ok? ==> |r.value| == |faces|
    ensures r.Ok? <==> forall i :: 0 <= i < |faces| ==> ValidFace(vs, faces[i])
  {
    if |faces| == 0 then Ok([])
    else
      var f := faces[|faces| - 1];
      var rest := FaceSpheres(vs, faces[..|faces| - 1], sqrt);
      if !ValidFace(vs, f) then
        assert !ValidFace(vs, faces[|faces| - 1]);
        Err(IndexError)
      else if rest.Err? then Err(rest.exception)
      else
        Ok(rest.value + [FaceSphere(VertexAt(vs, f.a).value, VertexAt(vs, f.b).value, VertexAt(vs, f.c).value, sqrt)])
  }

  predicate ValidFace(vs: seq<Vec3>, f: Face) {
    VertexAt(vs, f.a).Ok? && VertexAt(vs, f.b).Ok? && VertexAt(vs, f.c).Ok?
  }

  // ---------------------------------------------------------------------
  // Sphere overlap.

  /** The test of `all_intersections`: center distance minus both radii
      is negative. */
  predicate Intersects(ns: Sphere, fs: Sphere, sqrt: real -> real) {
    sqrt(Dist2(ns.center, fs.center)) - ns.radius - fs.radius < 0.0
  }

  /** For non-negative radii the test is exactly "the spheres overlap":
      the squared center distance is below the squared radius sum. */
  lemma IntersectsIffOverlap(ns: Sphere, fs: Sphere, sqrt: real -> real)
    requires IsSqrt(sqrt) && ns.radius + fs.radius >= 0.0
    ensures Intersects(ns, fs, sqrt) <==>
      Dist2(ns.center, fs.center) < (ns.radius + fs.radius) * (ns.radius + fs.radius)
  {
    var d := Dist2(ns.center, fs.center);
    NormNonNegative(Sub(ns.center, fs.center));
    SquareLess(sqrt(d), ns.radius + fs.radius, d);
  }

  /** For non-negative `a` and `b`, `a < b` exactly when `a^2 < b^2`. */
  lemma SquareLess(a: real, b: real, d: real)
    requires a >= 0.0 && b >= 0.0 && d == a * a
    ensures a < b <==> d < b * b
  {
    if a < b {
      assert b * b - a * a == (b - a) * (b + a);
      MulPositive(b - a, b + a);
    } else {
      assert a * a - b * b == (a - b) * (a + b);
      MulNonNegative(a - b, a + b);
    }
  }

  /** The indices `j >= from` of the face spheres the node sphere meets,
      in increasing order. */
  function MatchesFrom(ns: Sphere, fss: seq<Sphere>, from: nat, sqrt: real -> real): (r: seq<nat>)
    requires from <= |fss|
    ensures forall k :: 0 <= k < |r| ==> from <= r[k] < |fss| && Intersects(ns, fss[r[k]], sqrt)
    ensures forall j :: from <= j < |fss| && Intersects(ns, fss[j], sqrt) ==> j in r
    ensures forall k, l :: 0 <= k < l < |r| ==> r[k] < r[l]
    decreases |fss| - from
  {
    if from == |fss| then []
    else
      var rest := MatchesFrom(ns, fss, from + 1, sqrt);
      if Intersects(ns, fss[from], sqrt) then [from] + rest else rest
  }

  /** The faces a node receives: its row of `all_intersections`, in face
      order. */
  function Matches(ns: Sphere, fss: seq<Sphere>, sqrt: real -> real): seq<nat> {
    MatchesFrom(ns, fss, 0, sqrt)
  }

  /** `all_intersections`: the `(node, face)` index pairs whose spheres
      intersect, row by row as `numpy.nonzero` lists them. */
  function AllIntersections(nss: seq<Sphere>, fss: seq<Sphere>, sqrt: real -> real): (r: seq<(nat, nat)>)
    ensures forall p :: p in r <==> p.0 < |nss| && p.1 < |fss| && Intersects(nss[p.0], fss[p.1], sqrt)
  {
    if |nss| == 0 then []
    else
      var last := |nss| - 1;
      var front := AllIntersections(nss[..last], fss, sqrt);
      var row := Row(last, Matches(nss[last], fss, sqrt));
      assert forall p :: p in front ==> p.0 < last && nss[..last][p.0] == nss[p.0];
      front + row
  }

  function Row(i: nat, js: seq<nat>): (r: seq<(nat, nat)>)
    ensures forall p :: p in r <==> p.0 == i && p.1 in js
  {
    if |js| == 0 then [] else [(i, js[0])] + Row(i, js[1..])
  }

  // ---------------------------------------------------------------------
  // Build.

  /** The constructor's limits and the face spheres of the mesh. */
  datatype BuildConfig = BuildConfig(maxDepth: nat, maxFaces: int, faces: seq<Sphere>)

  /** `Octree.build` for the node on `b` at `depth`: the node collects the
      faces its sphere meets; it stays a leaf when there are at most
      `max_faces_per_leaf` of them or it is at `max_depth`, and otherwise
      drops them and builds its eight children one level deeper. Each
      node's outcome depends only on its own cube, so building depth first
      gives the tree the level-by-level loop builds. */
  function Build(b: Box, depth: nat, cfg: BuildConfig, sqrt: real -> real): Node
    requires depth <= cfg.maxDepth
    decreases cfg.maxDepth - depth
  {
    var fs := Matches(NodeSphere(b, sqrt), cfg.faces, sqrt);
    if |fs| <= cfg.maxFaces || depth == cfg.maxDepth then Leaf(fs)
    else Internal(seq(8, k requires 0 <= k < 8 => Build(ChildBox(b, k), depth + 1, cfg, sqrt)))
  }

  /** Every internal node has exactly eight children. */
  predicate WellFormed(n: Node) {
    n.Internal? ==> |n.children| == 8 && forall k :: 0 <= k < 8 ==> WellFormed(n.children[k])
  }

  /** Number of levels: 1 for a leaf. */
  function Height(n: Node): (h: nat)
    ensures h >= 1
  {
    if n.Leaf? then 1
    else 1 + MaxHeight(n, 0)
  }

  function MaxHeight(n: Node, i: nat): nat
    requires n.Internal?
    decreases n, |n.children| - i
  {
    if i >= |n.children| then 0
    else
      var h := Height(n.children[i]);
      var rest := MaxHeight(n, i + 1);
      if h > rest then h else rest
  }

  /** What a built node promises: a leaf lists exactly the faces whose
      spheres meet its own, and is small unless at the maximum depth; an
      internal node is above the maximum depth, met too many faces, and
      has the eight children of its cube. */
  ghost predicate BuiltOn(n: Node, b: Box, depth: nat, cfg: BuildConfig, sqrt: real -> real)
    decreases n
  {
    match n
    case Leaf(fs) =>
      depth <= cfg.maxDepth
      && (forall j: nat :: j in fs <==> j < |cfg.faces| && Intersects(NodeSphere(b, sqrt), cfg.faces[j], sqrt))
      && (depth < cfg.maxDepth ==> |fs| <= cfg.maxFaces)
    case Internal(cs) =>
      depth < cfg.maxDepth
      && |Matches(NodeSphere(b, sqrt), cfg.faces, sqrt)| > cfg.maxFaces
      && |cs| == 8
      && forall k :: 0 <= k < 8 ==> BuiltOn(cs[k], ChildBox(b, k), depth + 1, cfg, sqrt)
  }

  lemma {:induction false} BuildSound(b: Box, depth: nat, cfg: BuildConfig, sqrt: real -> real)
    requires depth <= cfg.maxDepth
    ensures BuiltOn(Build(b, depth, cfg, sqrt), b, depth, cfg, sqrt)
    ensures WellFormed(Build(b, depth, cfg, sqrt))
    decreases cfg.maxDepth - depth
  {
    var n := Build(b, depth, cfg, sqrt);
    if n.Internal? {
      forall k | 0 <= k < 8
        ensures BuiltOn(n.children[k], ChildBox(b, k), depth + 1, cfg, sqrt)
        ensures WellFormed(n.children[k])
      {
        BuildSound(ChildBox(b, k), depth + 1, cfg, sqrt);
      }
    }
  }

  /** The level-by-level loop runs at most `max_depth + 1` rounds: the
      tree built from depth `d` has at most `max_depth - d + 1` levels. */
  lemma {:induction false} BuildHeight(b: Box, depth: nat, cfg: BuildConfig, sqrt: real -> real)
    requires depth <= cfg.maxDepth
    ensures Height(Build(b, depth, cfg, sqrt)) <= cfg.maxDepth - depth + 1
    decreases cfg.maxDepth - depth
  {
    var n := Build(b, depth, cfg, sqrt);
    if n.Internal? {
      forall k | 0 <= k < 8
        ensures Height(n.children[k]) <= cfg.maxDepth - depth
      {
        BuildHeight(ChildBox(b, k), depth + 1, cfg, sqrt);
      }
      MaxHeightBound(n, 0, cfg.maxDepth - depth);
    }
  }

  lemma {:induction false} MaxHeightBound(n: Node, i: nat, bound: nat)
    requires n.Internal?
    requires forall k :: i <= k < |n.children| ==> Height(n.children[k]) <= bound
    ensures MaxHeight(n, i) <= bound
    decreases |n.children| - i
  {
    if i < |n.children| {
      MaxHeightBound(n, i + 1, bound);
    }
  }

  // ---------------------------------------------------------------------
  // The root cube and the constructor.

  /** Smallest and largest coordinate `k` over the vertices. */
  function MinCoord(vs: seq<Vec3>, k: nat): (m: real)
    requires |vs| > 0 && k < 3
    ensures forall i :: 0 <= i < |vs| ==> m <= Coord(vs[i], k)
  {
    if |vs| == 1 then Coord(vs[0], k)
    else
      var rest := MinCoord(vs[1..], k);
      assert forall i :: 1 <= i < |vs| ==> vs[i] == vs[1..][i - 1];
      if Coord(vs[0], k) <= rest then Coord(vs[0], k) else rest
  }

  function MaxCoord(vs: seq<Vec3>, k: nat): (m: real)
    requires |vs| > 0 && k < 3
    ensures forall i :: 0 <= i < |vs| ==> Coord(vs[i], k) <= m
  {
    if |vs| == 1 then Coord(vs[0], k)
    else
      var rest := MaxCoord(vs[1..], k);
      assert forall i :: 1 <= i < |vs| ==> vs[i] == vs[1..][i - 1];
      if Coord(vs[0], k) >= rest then Coord(vs[0], k) else rest
  }

  function Abs(x: real): real {
    if x < 0.0 then -x else x
  }

  /** `_compute_coord_ranges` and the root of `build`: the cube centered
      on the middle of the coordinate ranges, 1.01 times the largest
      extent wide. */
  function RootBox(vs: seq<Vec3>): Box
    requires |vs| > 0
  {
    var cx := (MinCoord(vs, 0) + MaxCoord(vs, 0)) * 0.5;
    var cy := (MinCoord(vs, 1) + MaxCoord(vs, 1)) * 0.5;
    var cz := (MinCoord(vs, 2) + MaxCoord(vs, 2)) * 0.5;
    var ext := Max3(Abs(MaxCoord(vs, 0) - MinCoord(vs, 0)), Abs(MaxCoord(vs, 1) - MinCoord(vs, 1)),
                    Abs(MaxCoord(vs, 2) - MinCoord(vs, 2)));
    var size := ext * 1.01;
    Box(Sub(Vec3(cx, cy, cz), Vec3(size * 0.5, size * 0.5, size * 0.5)), size, Coords([0], [0], [0]))
  }

  /** The root cube contains every vertex of the mesh. */
  lemma RootContainsVertices(vs: seq<Vec3>, i: nat)
    requires |vs| > 0 && i < |vs|
    ensures RootBox(vs).size >= 0.0
    ensures InBox(vs[i], RootBox(vs))
  {
    assert Coord(vs[i], 0) == vs[i].x && Coord(vs[i], 1) == vs[i].y && Coord(vs[i], 2) == vs[i].z;
    assert MinCoord(vs, 0) <= vs[i].x <= MaxCoord(vs, 0);
    assert MinCoord(vs, 1) <= vs[i].y <= MaxCoord(vs, 1);
    assert MinCoord(vs, 2) <= vs[i].z <= MaxCoord(vs, 2);
  }

  datatype Mesh = Mesh(vertices: seq<Vec3>, faces: seq<Face>)

  /** A built octree: its root cube and root node. */
  datatype Tree = Tree(root: Box, node: Node)

  /** `Octree.__init__`: the depth check, then `build`. numpy's minimum
      of no vertices raises `ValueError`; a face index out of range raises
      `IndexError`. */
  function MakeOctree(mesh: Mesh, maxDepth: int, maxFaces: int, sqrt: real -> real): (r: Result<Tree>)
    requires maxDepth >= 0
    ensures maxDepth >= MaxDepthLimit ==> r == Err(RuntimeError("max_depth >= MAX_DEPTH"))
    ensures r.Ok? <==> maxDepth < MaxDepthLimit && |mesh.vertices| > 0
                       && forall i :: 0 <= i < |mesh.faces| ==> ValidFace(mesh.vertices, mesh.faces[i])
    ensures r.Ok? ==> forall i :: 0 <= i < |mesh.vertices| ==> InBox(mesh.vertices[i], r.value.root)
    ensures r.Ok? ==> WellFormed(r.value.node) && Height(r.value.node) <= maxDepth + 1
  {
    if maxDepth >= MaxDepthLimit then Err(RuntimeError("max_depth >= MAX_DEPTH"))
    else if |mesh.vertices| == 0 then Err(ValueError("zero-size array to reduction operation minimum which has no identity"))
    else
      var spheres := FaceSpheres(mesh.vertices, mesh.faces, sqrt);
      if spheres.Err? then Err(spheres.exception)
      else
        var box := RootBox(mesh.vertices);
        var cfg := BuildConfig(maxDepth, maxFaces, spheres.value);
        BuildSound(box, 0, cfg, sqrt);
        BuildHeight(box, 0, cfg, sqrt);
        forall i | 0 <= i < |mesh.vertices|
          ensures InBox(mesh.vertices[i], box)
        {
          RootContainsVertices(mesh.vertices, i);
        }
        Ok(Tree(box, Build(box, 0, cfg, sqrt)))
  }
}
