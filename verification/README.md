# A verified model of the raytracer's code generator, shape tracers, octree and host bookkeeping

The raytracer renders scenes by path tracing on an OpenCL device. The Python
host side does most of the interesting, checkable work:

- It turns every scene object into OpenCL source text: a tracer function, a
  normal function and the calls to them.
- It merges those texts into one program, deduplicating bodies and refusing
  name clashes.
- It unrolls a nearest-hit fold over all objects.
- It packs per-object parameters and material properties into flat buffers.
- It walks the image in a fixed pixel order.
- It drives the bounce loop. One revision of the shader ends paths by
  Russian roulette; the renderer's own loop runs a fixed number of bounces.

The geometry itself is small real arithmetic inside generated text. Each
component (half-space, layer, sphere, cylinder, cone) writes an entry/exit
interval along a ray, and implicit surfaces are found by an adaptive
interval-arithmetic march. Triangle meshes are indexed by an octree that is
serialised into a flat integer buffer.

This project models those parts in Dafny and proves what they promise:

| module | models |
|---|---|
| `Tracer` | function names, signatures, bodies and call strings (`tracer.py`) |
| `ConvexIntersection` | composite names, per-component parameter lists and function merging (`objects/convex_intersection.py`) |
| `Program` | clash checks, body deduplication, declarations and program assembly (`cl_compiler.py`, `generator.py`, `compiler.py`) |
| `TraceCore` | the unrolled nearest-hit fold, the normal dispatch and the shadow mask (`generator.py`, `compiler.py`) |
| `Components` | the interval tracers of the convex components (`components.py`) |
| `Objects` | the sphere, half-space and bounding-sphere tracers and the composite constructors (`objects.py`, `objects/half_space.py`) |
| `Marcher` | both implicit-surface marching loops (`objects/implicit_surface.py`, `implicits.py`) |
| `Printers` | `print_pow` and `ia_poly` |
| `Octree`, `OctreeData` | the octree build and its integer encoding, with a decoder (`objects/octree.py`) |
| `MeshFormats` | OFF and zipper parsing over lines, triangle fans, face deduplication (`mesh_formats.py`) |
| `Transformations` | affine maps (`transformations.py`) |
| `Scene` | the world box and name lookups (`scene.py`) |
| `ObjectGroups`, `TracerData`, `ImageOrder`, `Renderer` | object grouping, parameter packing, pixel order and the path-segment control flow (`renderer.py`) |
| `Shading` | material buffer layout and the roulette loop (`shader.py`) |
| `Wrappers`, `Vectors`, `Strings` | shared helpers |

Floats are modelled as `real`. Anything the source delegates to a library or a
device becomes a parameter:

- The square root is a function parameter constrained to return the
  non-negative root.
- Vector normalisation and `numpy.linalg.inv` are function parameters.
- The interval enclosures of an implicit function are parameters. A ghost
  predicate ties them to the real function along the ray.
- Random draws are parameters.

Python exceptions are values of a `Result` type. Each error carries the
exception class the source raises, and its message where the source gives
one.

Where the repository's intent and its code differ, the model follows the
code. Two cases:

- The compiler's clash check is meant to reject clashes: it raises
  `RuntimeError` for them. As written, it never fires.
- The roulette reweights a continued path by `1/(1-p)`. That factor belongs
  to the standard unbiased roulette, which continues with probability
  `1-p`. As written, it continues with probability `p`.

Both are logged under "## Findings".

The source files come from different revisions of the repository, and the
model keeps each file's own behaviour:

- `shader.py`'s `Shader.render_sample` runs the roulette loop, and
  `Shading.RenderSample` and `Shading.NextSegment` model it. The loop that
  `renderer.py`'s `Renderer.render_sample` (renderer.py:298) runs has no
  host-side roulette and no early stop, and `Renderer.RenderSample` models
  it. `Shading.SegmentsAgree` relates the segments the two launch.
- `renderer.py` calls `scene.shader(scene)` (renderer.py:33) and
  `initialize_material_buffers(acc)` (renderer.py:43). The `shader.py` in
  this revision takes `(scene, args)` at shader.py:327 and no accelerator
  at shader.py:354. The material buffers are modelled from `shader.py`.
- `tracer.py`'s `make_functions` takes no template environment
  (tracer.py:92) and `Tracer` defines no `make_kernels`.
  `objects/convex_intersection.py:16` and cl_compiler.py:52-56 call both
  with one. The model follows each caller's own text.

## Model

| member | source | states |
|---|---|---|
| Tracer.NamesDeterminedByPrefix | tracer.py:61-74 | Two shapes get the same tracer name exactly when their prefixes (class name followed by unique id) are equal, and likewise for normal names; so two instances of one class with equal ids share their functions |
| Tracer.TracerAndNormalNamesDiffer | tracer.py:68-74 | No tracer function name of any shape equals the normal function name of any shape |
| Tracer.HeaderOfGeneratedFunction | tracer.py:76-90 | Cutting a generated function at its first `{` gives back exactly `void NAME(ARGS) ` when neither the name nor an argument contains `{` |
| Tracer.BaseDefsPlain | tracer.py:19-49 | No base tracer or normal parameter declaration contains `{`, so the base declarations never cut a generated function's header short |
| Tracer.TracerHeader | tracer.py:76-82 | The declaration text of a shape's tracer function is its signature with the base and extra tracer parameters |
| Tracer.NormalHeader | tracer.py:84-90 | The declaration text of a shape's normal function is its signature with the base and extra normal parameters |
| Tracer.SignatureArity | tracer.py:19-49 | The tracer signature declares 8 base parameters plus the shape's extra ones, and the normal signature 3 plus its extras |
| Tracer.MakeFunctions | tracer.py:92-101 | The map a shape contributes has exactly two keys: its tracer name bound to its tracer function and its normal name bound to its normal function |
| Tracer.CalleeOfCall | tracer.py:103-117 | The text before the first `(` of a generated call is the called name, whatever the arguments |
| Tracer.CallsTargetDefinedFunctions | tracer.py:103-117 | The tracer call and the normal call of a shape name functions that the same shape contributes |
| ConvexIntersection.UniqueIdIffSameClasses | objects/convex_intersection.py:27-28 | Two composites get the same unique id exactly when their components have the same sequence of classes |
| ConvexIntersection.ComponentParameterString | objects/convex_intersection.py:43-48 | Empty for a component without parameters; otherwise `, ` followed by its parameter names, each suffixed with the component index |
| ConvexIntersection.CallParamsShareParameters | objects/convex_intersection.py:32-41 | The tracer call and the normal call of component `i` both start from that component's position shift and end with the same suffixed parameter list |
| ConvexIntersection.ParameterDeclarations | objects/convex_intersection.py:54-60 | The declaration list has one position entry per component plus that component's own declarations |
| ConvexIntersection.DeclarationsAt | objects/convex_intersection.py:54-60 | Component `i`'s position and suffixed declarations sit at consecutive indices starting after all earlier components' declarations |
| ConvexIntersection.ValuesAlignWithDeclarations | objects/convex_intersection.py:62-67 | When every component has as many values as declarations, values and declarations line up index for index: component `i`'s position value sits at its position declaration and each value at its declaration |
| ConvexIntersection.ValuesLength | objects/convex_intersection.py:62-67 | With aligned components the value list is as long as the declaration list |
| ConvexIntersection.MergeKeys | objects/convex_intersection.py:16-21 | A name is in the merged map exactly when the composite or some component defines it |
| ConvexIntersection.MergeTakesLast | objects/convex_intersection.py:16-21 | A merged name carries the body of the last component that defines it |
| ConvexIntersection.MergeKeepsOwn | objects/convex_intersection.py:16-21 | A name that no component defines keeps the composite's own body |
| ConvexIntersection.MakeFunctions | objects/convex_intersection.py:16-21 | The composite's functions include its own tracer and normal and those of every component |
| Program.RegisterSucceedsIff | generator.py:197-202 | Registering name/body pairs succeeds exactly when each pair agrees, under the comparison in use, with any existing body of its name and with every other pair of that name |
| Program.RegisterResult | compiler.py:114-119 | After a successful registration every registered name is bound to an agreeing body, older bindings survive, and every binding comes from the old map or from a registered pair |
| Program.Dedup | compiler.py:120 | The deduplicated bodies are exactly the input bodies, with no repeats |
| Program.PushAllAsWrittenNeverFails | cl_compiler.py:38-45 | As written, the clash check consults a map that stays empty, so collecting never raises |
| Program.ClashUndetectedAsWritten | cl_compiler.py:37-60 | Two objects defining `f` with bodies `a` and `b` are accepted as written, and rejected with `function name clash!!` once the map is kept |
| Program.CollectFailsIffStrippedClash | cl_compiler.py:40-45 | The corrected collector fails exactly when one name has two bodies that differ after stripping surrounding whitespace, and then with `function name clash!!` |
| Program.CollectedContents | cl_compiler.py:47-60 | On success the function list holds each generated function body exactly once and nothing else, and the kernel list holds every kernel body exactly once |
| Program.DeclarationOfTracerFunction | cl_compiler.py:23 | The declaration extracted from a generated tracer function is its signature followed by `;`, a forward declaration of that same function |
| Program.KernelMapIff | generator.py:197-203 | Building the kernel map raises exactly when one name is bound to two different bodies; otherwise the emitted bodies are exactly the distinct bodies the map holds |
| Program.CompilerDeclaresBeforeDefining | compiler.py:122-130 | In the assembled program every emitted function's declaration occurs before its definition |
| Program.CompilerProgramOrder | compiler.py:105-131 | The program starts with the utilities and ends with the shader kernel, whose first line defines `RUSSIAN_ROULETTE_PROB` |
| TraceCore.Trace | generator.py:33-69 | Object `k` is tested with id `k+1` and 0 means no hit; the final distance never exceeds the bound; nothing is hit exactly when no object offers a distance in `(0, bound)`; a hit is the first object attaining the smallest offered distance and carries its subobject; the position moves to the final distance even on a miss (`compiler.py:45-76` unrolls the same fold) |
| TraceCore.NormalDispatch | generator.py:164-179 | Only the hit object's normal is taken, negated exactly when the ray is inside that object; with no hit the normal is left as it was |
| TraceCore.ShadowTrace | generator.py:97-122 | The mask is 0 or 1; it is 0 when the surface faces away from the light; it is 1 exactly when the surface faces the light and no object blocks the ray before `shadow_dist - 1e-5` |
| Components.HalfSpaceTracer | components.py:26-34 | Only the entry is written when the ray runs against the normal and only the exit when it runs along it; the written point is on the plane; the subobject is 0 |
| Components.HalfSpaceRegion | components.py:26-34 | A point of the ray is inside the half-space exactly when it lies after the written entry, or before the written exit |
| Components.LayerTracer | components.py:55-72 | Both bounds are written, and the face hit is subobject 1 exactly when the ray's direction along the axis agrees with `inside` |
| Components.LayerRegion | components.py:55-72 | For a non-negative thickness the written interval is exactly the part of the ray inside the slab, so begin never exceeds end |
| Components.LayerNormalFacesRay | components.py:67-77 | The normal of the face the layer reports points against the ray from outside and along it from inside |
| Components.LayerThickness | components.py:44-48 | A given thickness is kept; an omitted one is the length of the axis |
| Components.SphereTracer | components.py:93-113 | A negative discriminant writes the empty marker (begin 1, end 0); otherwise both bounds are written with begin no greater than end |
| Components.SphereRegion | components.py:93-113 | The written interval is exactly the part of the ray inside the ball, and the empty marker means the ray misses the ball |
| Components.CylinderTracer | components.py:133-162 | A negative discriminant writes the empty marker; otherwise both bounds are written with begin no greater than end |
| Components.CylinderRegion | components.py:133-162 | The written interval is exactly the part of the ray within the radius of the axis, and the empty marker means there is no such part |
| Components.QuadRoots | components.py:219-231 | Both branches of the root computation give the same two roots, in increasing order |
| Components.ConeTracer | components.py:195-248 | A negative discriminant writes the empty marker; otherwise both roots behind the tip give the empty marker, one root behind gives only the other bound, and none behind gives the whole interval |
| Components.ConeRootsOnCone | components.py:219-231 | Both roots are points of the double cone |
| Components.ConeMissedWhenNegative | components.py:210-217 | With a negative discriminant no point of the line lies on the double cone, so the empty marker is right |
| Components.ConeWritesUpperNappe | components.py:233-248 | Every bound the cone tracer writes is a point of the nappe the component stands for |
| Components.SurfaceNormalsUnit | components.py:115-167 | On the surface the sphere and cylinder normals are unit vectors |
| Components.ArgumentsMatchDeclarations | components.py:13-191 | Every component passes tracer and normal arguments that match its extra declarations in number and kind |
| Components.MakeLayerComponent | components.py:44-51 | A layer component sits at the composite origin along the normalised axis, with the given thickness or else the axis length |
| Components.MakeSphereComponent | components.py:87-91 | Fails with a division by zero exactly for a zero radius; otherwise a sphere at the given position |
| Components.MakeCylinderComponent | components.py:123-129 | Fails with a division by zero exactly for a zero radius; otherwise a cylinder along the normalised axis |
| Objects.SphereHit | objects.py:28-59 | From its own surface and outside, or outside and facing away, or with a negative discriminant, nothing is written; a written distance is positive |
| Objects.SphereHitOnSurface | objects.py:49-58 | A written distance reaches a point of the sphere |
| Objects.SphereHitNearest | objects.py:54-58 | From outside, every forward point before the written distance is outside the ball: the hit is the first one |
| Objects.SphereInsideHitIsExit | objects.py:54-58 | From inside, every point after the written distance is outside the ball: the hit is the exit |
| Objects.SphereMissFromOutside | objects.py:42-50 | From a point outside the ball, writing nothing means no forward point of the ray is in the ball |
| Objects.SphereNormalUnit | objects.py:61 | On the sphere the normal is a unit vector pointing away from the center |
| Objects.SphereTracerArgs | objects.py:20-22 | The tracer arguments match the declarations: the center, then the squared radius |
| Objects.SphereNormalArgs | objects.py:16-18 | The normal arguments fail with a division by zero exactly for a zero radius; otherwise the center, then the reciprocal radius |
| Objects.BoundingRange | objects.py:63-100 | Without a radius the range is `[0, old_isec_dist]`; with one, a range that is returned satisfies `0 <= begin < end <= old_isec_dist` |
| Objects.BoundingRangeSound | objects.py:82-98 | A point of the ray inside the bounding ball and within `[0, old_isec_dist]` lies in the returned range, and a point strictly inside both ensures a range is returned |
| Objects.HalfSpaceHit | objects.py:154-163 | Nothing is written from the plane itself, and a written distance is positive |
| Objects.HalfSpaceHitIff | objects/half_space.py:18-27 | Away from the plane the tracer writes `t` exactly when `t` is the positive distance at which the ray meets the plane |
| Objects.HalfSpaceTracerArgs | objects/half_space.py:11-16 | The tracer arguments match the declarations: the stored normal, then the offset |
| Objects.HalfSpaceNormalArgs | objects/half_space.py:8-16 | The normal routine's only argument matches its declaration and is the stored normal |
| Objects.MakeParallelepiped | objects.py:102-107 | Three layers at the origin, along the normalised axes, each as thick as its axis is long, with an empty unique id |
| Objects.MakeCylinder | objects.py:127-132 | A zero radius raises; otherwise a layer of the given height and an infinite cylinder along the same normalised axis |
| Objects.MakeCone | objects.py:134-139 | A zero height raises; otherwise a cap half-space at the height and a cone whose slope times the height is the radius |
| Objects.CompositesShareFunctions | objects.py:127-139 | All cylinders share one tracer function name whatever their dimensions, all cones share another, and the two differ |
| Marcher.RightSignThroughout | objects/implicit_surface.py:142-176 | An enclosure that rules out the wrong sign on an interval vouches for every point of it |
| Marcher.SurfaceStart | objects/implicit_surface.py:123-126 | From the object's own surface the first interval keeps its begin and ends at most 0.1 after it; otherwise it is unchanged |
| Marcher.SurfaceStepMonotone | objects/implicit_surface.py:128-177 | A step that goes on started before `old_isec_dist`; a subdivision keeps the begin and halves the clipped width; a forward step begins at the old clipped end; the begin never decreases |
| Marcher.SurfaceStepSound | objects/implicit_surface.py:142-176 | A forward step passes only over distances where the function keeps the starting side's sign |
| Marcher.MarchSurface | objects/implicit_surface.py:123-177 | The march stops after at most `MAX_ITER` iterations; passing means `old_isec_dist` was reached; a hit is the midpoint of a narrow (or final) interval that needs subdivision and lies below `old_isec_dist`; with a sound enclosure and away from its own surface, everything before the last interval keeps the starting side's sign, so a pass skips no surface point before `old_isec_dist` and a hit is preceded only by points on the starting side |
| Marcher.OldStart | implicits.py:115-118 | From the object's own surface the first interval ends at the absolute distance 0.01; otherwise it is unchanged |
| Marcher.OldStepCases | implicits.py:131-162 | An enclosure excluding zero always steps forward; a hit needs an enclosure containing zero; a subdivision happens only when zero is enclosed and the derivative asks for it, and halves the interval keeping its begin |
| Marcher.MarchOld | implicits.py:115-163 | The older march stops after at most `MAX_ITER` iterations; a hit is the midpoint of a narrow (or final) interval whose enclosure contains zero, below `old_isec_dist` |
| Marcher.JuliaSetTracer | implicits.py:352-354 | The Julia-set tracer reports nothing from its own surface and marches otherwise |
| Marcher.BoundRadiusAsWritten | objects/implicit_surface.py:96-97 | As written, scaling the bounding radius succeeds exactly when a radius is given |
| Marcher.DefaultBoundRaises | objects/implicit_surface.py:96-97 | As written, omitting the bounding radius raises a type error |
| Marcher.BoundRadius | objects/implicit_surface.py:96-97 | The corrected radius is missing exactly when none is given, and otherwise agrees with the scaled radius |
| Marcher.ImplicitSurfaceTracer | objects/implicit_surface.py:92-177 | A reported hit lies in `[0, old_isec_dist)`; without a bounding radius the march always runs; with a sound enclosure, passing means no sign change up to `old_isec_dist` |
| Printers.PrintPow | objects/implicit_surface.py:213-227 | A positive integer power prints as a parenthesised product, anything else as a `pow(` call |
| Printers.PrintPowFactors | objects/implicit_surface.py:220-225 | Inside its parentheses the product splits at `*` into exactly `n` factors `(base)` |
| Printers.PrintPowFormsDiffer | implicits.py:45-56 | The product form and the `pow` form of a power never coincide |
| Printers.PolyTermsInOrder | objects/implicit_surface.py:193-202 | Term `i` of the polynomial is the term for degree `i` |
| Printers.IaPolyGrows | objects/implicit_surface.py:193-202 | No coefficients print nothing, one prints the constant, and each further coefficient appends ` + ` and its term |
| Printers.PolyTermShapes | objects/implicit_surface.py:196-200 | The linear term multiplies the variable by coefficient 1 and the quadratic term multiplies `ia_pow2` of the variable by coefficient 2 |
| Octree.ChildBits | objects/octree.py:19 | Child `k`'s offsets are the three binary digits of `k`, `x` the most significant |
| Octree.Children | objects/octree.py:42-51 | A node has exactly eight children, child `k` in the `k`-th position of the child order |
| Octree.ChildPathsDistinct | objects/octree.py:44-50 | Different children get different coordinate paths, each one step longer than the parent's |
| Octree.ChildInsideParent | objects/octree.py:44-50 | Every point of a child cube is in the parent cube |
| Octree.ChildrenCoverParent | objects/octree.py:42-51 | Every point of the parent cube is in one of its children |
| Octree.CubeInNodeSphere | objects/octree.py:35-40 | A node's bounding sphere contains its whole cube |
| Octree.FaceInFaceSphere | objects/octree.py:152-159 | A face's bounding sphere contains its three vertices |
| Octree.FaceSpheres | objects/octree.py:152-159 | The face spheres are computed exactly when every face index is valid, one sphere per face |
| Octree.VertexAt | objects/octree.py:153 | Indexing a vertex succeeds exactly for indices from `-n` to `n-1`, and a non-negative index gives that vertex |
| Octree.IntersectsIffOverlap | objects/octree.py:161-168 | For non-negative radii the intersection test holds exactly when the squared center distance is below the squared radius sum |
| Octree.MatchesFrom | objects/octree.py:161-168 | The matches of one node sphere are exactly the face spheres it intersects, in increasing order |
| Octree.AllIntersections | objects/octree.py:161-168 | A node/face pair is reported exactly when both indices are in range and the spheres intersect |
| Octree.BuildSound | objects/octree.py:68-95 | The built tree follows the leaf rule: a node is a leaf with its faces exactly when it has few enough faces or is at the maximum depth, and otherwise has eight children built from the faces its sphere meets |
| Octree.BuildHeight | objects/octree.py:65-95 | The build loop runs at most `max_depth + 1` levels |
| Octree.RootContainsVertices | objects/octree.py:97-110 | The root cube contains every vertex of the mesh |
| Octree.MakeOctree | objects/octree.py:9-15 | Raises `max_depth >= MAX_DEPTH` at depth 7 or more; succeeds exactly when the depth is allowed, the mesh has vertices and every face is valid; the result's root cube contains every vertex and the tree is well formed with at most `max_depth + 1` levels |
| OctreeData.MaskBits | objects/octree.py:125-132 | Bit `i` of a node's child mask is set exactly when child `i` is not an empty leaf |
| OctreeData.MaskZero | objects/octree.py:116-132 | The mask is zero exactly when every child is an empty leaf |
| OctreeData.WriteChildren | objects/octree.py:124-132 | Writing the children only appends data, writes two header words per child and one mask flag per child, set exactly for the non-empty children |
| OctreeData.WriteNode | objects/octree.py:115-135 | Writing a node only appends data, and its header points within the data written so far |
| OctreeData.Encode | objects/octree.py:137-140 | The root header is the last two words, at `root_data_offset` |
| OctreeData.WriteNodeRoundTrip | objects/octree.py:115-135 | A written node's header points before the end of its data, and decoding from the header gives the node back with empty-leaf-only nodes collapsed |
| OctreeData.EncodeRoundTrip | objects/octree.py:112-140 | The corrected encoding of any well-formed tree decodes to the collapsed tree |
| OctreeData.EncodeAsWrittenRoundTrip | objects/octree.py:112-140 | As written, trees without internal nodes whose children are all empty decode exactly |
| OctreeData.CollapseNoHollow | objects/octree.py:115-135 | Collapsing changes nothing in a tree without all-empty internal nodes |
| OctreeData.HollowWritten | objects/octree.py:123-135 | An internal node whose children are all empty is written with mask 0, the mask of a leaf, and eight empty-child headers |
| OctreeData.HollowRootWritten | objects/octree.py:137-140 | A root whose first child is such a node is written as 34 words, with the first child's header flagged as non-empty but holding mask 0 |
| OctreeData.HollowChildMisread | objects/octree.py:115-140 | As written that tree does not decode, while the corrected encoding decodes it to the collapsed tree |
| MeshFormats.TriangleFan | mesh_formats.py:3-5 | A polygon of `n` vertices gives `max(0, n-2)` triangles, triangle `k` being the first vertex with vertices `k+1` and `k+2` |
| MeshFormats.FanUsesPolygonVertices | mesh_formats.py:3-5 | Every corner of the fan is a vertex of the polygon |
| MeshFormats.FanUsesEveryVertex | mesh_formats.py:3-5 | A polygon with three or more vertices has each of its vertices in some triangle of the fan |
| MeshFormats.FansCount | mesh_formats.py:26-30 | The triangle list has the sum over faces of `max(0, k-2)` triangles, each with three corners |
| MeshFormats.KeepsFirstOfEachSet | mesh_formats.py:65-75 | Deduplication keeps, in order, exactly the faces whose vertex set no earlier face has |
| MeshFormats.KeptSetsDistinctAndComplete | mesh_formats.py:65-75 | No two kept faces have the same vertex set, and every face's vertex set is that of a kept face |
| MeshFormats.DistinctKept | mesh_formats.py:65-75 | Faces with pairwise distinct vertex sets are all kept |
| MeshFormats.RemoveDuplicateFacesIdempotent | mesh_formats.py:65-75 | Removing duplicate faces twice is removing them once |
| MeshFormats.ReadOff | mesh_formats.py:10-13 | The reader raises a runtime error exactly when the stripped first line does not start with `OFF` |
| MeshFormats.CountWords | mesh_formats.py:17 | A count line that is not three integers fails with a value error |
| MeshFormats.FaceWords | mesh_formats.py:27-28 | A face line fails only with a conversion, index or assertion error, the last when its leading count is not the number of indices after it |
| MeshFormats.ReadRowsRead | mesh_formats.py:22-23 | Every row read successfully is what that row reads as |
| MeshFormats.ReadRowsError | mesh_formats.py:22-23 | A failed read carries the error of the first row that does not read |
| MeshFormats.OffRoundTrip | mesh_formats.py:7-33 | Reading back an OFF text gives its vertices and the triangle fans of its polygons |
| MeshFormats.ZipperHeaderEnds | mesh_formats.py:40-49 | A header that is read ends at `end_header`, contains no blank line, and the vertex count is the last one the header sets |
| MeshFormats.ZipperVertex | mesh_formats.py:55-56 | A vertex line read successfully gives three coordinates; otherwise it fails with a conversion or index error |
| Strings.ExponentFormRoundTrip | mesh_formats.py:23 | `float` of a natural mantissa, `e` or `E`, and any printed integer exponent reads back as the mantissa times ten to the exponent |
| Strings.MissingExponent | mesh_formats.py:23 | A marker without exponent digits after it makes the token unreadable, whatever the mantissa |
| MeshFormats.ZipperRoundTrip | mesh_formats.py:35-63 | Reading back a zipper text with three coordinates per vertex gives its vertices and the triangle fans of its polygons |
| Transformations.ScaleLinear | transformations.py:18-22 | Three factors scale the rows one by one, one factor scales every row, and any other count raises a value error |
| Transformations.MakeAffine | transformations.py:6-24 | Construction succeeds exactly when the scaling, if any, has one or three factors, and keeps the translation |
| Transformations.ScalingScalesCoordinates | transformations.py:18-22 | With three factors the map scales each coordinate of the linear image by its factor before translating |
| Transformations.UniformScalingScales | transformations.py:18-22 | With one factor the map scales the whole linear image before translating |
| Transformations.Identity | transformations.py:50-52 | The identity maps every vector to itself |
| Transformations.Compose | transformations.py:26-30 | Applying a composition applies the inner map and then the outer |
| Transformations.ComposeAssociative | transformations.py:26-30 | Composition is associative |
| Transformations.MatMulApplies | transformations.py:29-30 | A matrix product acts as its two factors one after the other |
| Transformations.Inverse | transformations.py:34-37 | The inverse has the given inverse linear part and sends the original translation to zero |
| Transformations.InverseUndoes | transformations.py:34-37 | When the given matrix is a left inverse of the linear part, the inverse map undoes the map |
| Transformations.Transpose | transformations.py:44-45 | The transposed linear part is the adjoint of the original under the dot product, and the translation is negated |
| Transformations.TransposeInvolutive | transformations.py:44-45 | Transposing twice gives the map back |
| Transformations.AxisSymbolToVector | transformations.py:58-64 | The letters `x`, `y`, `z` in either case give unit vectors; anything else raises `invalid axis letter` |
| Transformations.AxisLetters | transformations.py:58-62 | `x`, `y` and `z` give the three coordinate axes in order, and their upper-case forms give the same |
| Transformations.OtherLettersRefused | transformations.py:63-64 | Every other letter, in either case, is refused |
| Transformations.TranslationExample | tests.py:37-43 | Translating by `(1,2,3)` maps `(0,-1,-3)` to `(1,1,0)` |
| Transformations.ScalingExamples | tests.py:56-61 | Scaling by `(1,2,3)` maps `(1,1,1)` to `(1,2,3)`, and scaling by 10 maps `(1,2,3)` to `(10,20,30)` |
| Scene.MakeWorldBox | scene.py:24-31 | Six walls of the given material, named in the fixed order, each the half-space for its axis and side |
| Scene.WorldBoxEncloses | scene.py:24-31 | A point is on the inner side of all six walls exactly when it is within `dims` of `center` on every axis |
| Scene.SelectionMembers | scene.py:36-48 | The selected objects are exactly the scene's objects with the name, and the others exactly the rest |
| Scene.GetObjectsAppend | scene.py:36-37 | Selecting by name distributes over concatenation, keeping order |
| Scene.SplitByName | scene.py:36-48 | The selected and the remaining objects together are the scene's objects |
| Scene.GetObject | scene.py:39-45 | Succeeds exactly when one object has the name, returning it; otherwise `No object named` or `Multiple objects in the scene are called` |
| Scene.GetObjectOfUnique | scene.py:39-41 | The object that alone holds a name is the one returned |
| Scene.DeleteObjects | scene.py:47-48 | Deleting keeps every other object in order and leaves the camera as it was |
| Scene.DeleteObjectsRemovesName | scene.py:47-48 | After deleting nothing has the name, and deleting again changes nothing |
| Scene.KeepsUnnamed | scene.py:47-48 | Deleting a name nobody has keeps every object |
| Scene.DeleteObjectsKeepsOthers | scene.py:47-48 | Deleting one name leaves the objects of every other name as they were |
| Scene.DirectCameraTowards | scene.py:50-51 | The camera stays where it is, reaches the target after one unit of its direction, and the objects are unchanged |
| ObjectGroups.SortByKey | renderer.py:50-51 | Sorting permutes the objects |
| ObjectGroups.SortSorted | renderer.py:51 | The sorted objects are in kernel-name order and are a permutation of the input |
| ObjectGroups.SortStable | renderer.py:51 | Objects with the same kernel name keep their relative order |
| ObjectGroups.GroupObjects | renderer.py:49-66 | The grouped objects are a permutation of the input, sorted by kernel name |
| ObjectGroups.GroupsTile | renderer.py:57-66 | The groups are non-empty, start at the offset, follow one another without gaps and end at the last object, each starting with the object at its offset |
| ObjectGroups.GroupsShareKey | renderer.py:53-64 | Every object of a group has the group's kernel name |
| ObjectGroups.GroupsAscend | renderer.py:53-59 | Over sorted objects the groups' kernel names strictly increase, so each name has a single group |
| ObjectGroups.GroupCountsSum | renderer.py:55-66 | The group counts add up to the number of objects |
| ObjectGroups.RootObjectId | renderer.py:68-72 | The id is 0 exactly when no object is the root; otherwise it is one more than the last position holding the root |
| TracerData.ParamArray | renderer.py:153 | Parameters become a vector when all are numbers and a matrix when all are tuples of one length; a mixture raises a value error |
| TracerData.LocalOffsetsCount | renderer.py:142-148 | A parameter's local offset is the number of earlier parameters of its type |
| TracerData.LocalGroupsValues | renderer.py:142-146 | The types present are exactly the keys, each mapping to its values in order |
| TracerData.ParamKind | renderer.py:151-152 | A parameter type names a data kind exactly when `param_` plus the type is one of the five kinds |
| TracerData.AddParams | renderer.py:150-153 | Adding parameters succeeds exactly when every type names a kind and forms an array; it adds one entry per type and keeps the existing ones |
| TracerData.CurData | renderer.py:129-153 | An object's data is collected exactly when it has at least as many values as types and every type packs; with too few values it raises an index error |
| TracerData.ItemSize | renderer.py:157-173 | A missing kind has size 0; a scalar kind counts elements; a vector kind counts rows and raises unless the rows are three wide |
| TracerData.SizesFrom | renderer.py:157-173 | The sizes are computed exactly when every kind's size is, one per kind |
| TracerData.ObjectEntry | renderer.py:129-175 | An object's entry succeeds exactly when its data is collected and all its sizes are computed |
| TracerData.CollectOk | renderer.py:129-175 | Collection succeeds exactly when every object's entry does |
| TracerData.CollectFirstError | renderer.py:129-175 | A failed collection carries the error of the first failing object |
| TracerData.CollectPrefix | renderer.py:155-175 | Collecting a prefix of the objects gives a prefix of the rows and buffers, and the next row holds its totals |
| TracerData.RowStep | renderer.py:155-175 | The first row is all zeros, and each next row (or the totals) adds the object's sizes to the previous row |
| TracerData.RowsMonotone | renderer.py:155-175 | Each kind's offset never decreases from one object to the next |
| TracerData.BufferLength | renderer.py:163-173 | For kinds counted in elements, the buffer holds as many values as the totals say |
| TracerData.DataLocated | renderer.py:163-193 | An object's data of a kind counted in elements sits in the buffer at that object's offset for the kind |
| TracerData.PointerRowsLocated | renderer.py:180-185 | Entry `d` of object `i`'s offset row sits in the integer buffer at the pointer offset plus `5i + d` |
| TracerData.FlattenAt | renderer.py:185 | Flattening the rows puts entry `d` of row `i` at `5i + d` |
| ImageOrder.PixelAtIndex | renderer.py:394-415 | Reading back a pixel's position in the order gives the pixel |
| ImageOrder.PixelIndexBound | renderer.py:394-415 | Every pixel of the image has a position within the order |
| ImageOrder.BlockArea | renderer.py:402-404 | When the image dimensions are multiples of the block, the image is made of whole 8 by 4 blocks |
| ImageOrder.BlockOrder | renderer.py:402-407 | The block walk lists every pixel once, at its position in the block order |
| ImageOrder.ColumnOrder | renderer.py:408-413 | The column walk lists every pixel once, at its position in the column order |
| ImageOrder.GetImageOrder | renderer.py:394-415 | The order is a permutation of the image's pixels: every pixel appears exactly once and only pixels of the image appear |
| Renderer.TraceLaunches | renderer.py:317-323 | There is one tracer launch per object |
| Renderer.GroupsChained | renderer.py:57-66 | The groups follow one another from their offset |
| Renderer.TraceAt | renderer.py:317-323 | Launch `j` traces id `offset + j + 1` with the kernel of the group holding that object |
| Renderer.TracesFollowObjects | renderer.py:317-323 | The tracer launches follow the sorted objects one by one: launch `j` uses object `j`'s kernel and id `j + 1` past the offset |
| Renderer.NormalsCoverObjects | renderer.py:325-330 | Every object's id is covered by a normal launch whose kernel is the object's |
| Renderer.NormalsPartition | renderer.py:325-330 | The normal launches' id ranges start at 1, are non-empty, follow one another without gaps and end after the last object, and a later range starts after every earlier one ends, so no id is in two ranges |
| Renderer.GroupOf | renderer.py:317-318 | Every object position belongs to some group |
| Renderer.LightId | renderer.py:345-348 | No light id is passed unless lights are sampled; the id is 0 exactly on the last segment when they are |
| Renderer.Pipeline | renderer.py:383-384 | The last segment runs only the volumetric and emission stages; the others also run reflection, refraction and diffuse |
| Renderer.NextPathSegment | renderer.py:306-392 | Every object is traced and every group gets its normals; shadow rays are cast, one launch per group, exactly when lights are sampled and the segment is not last; the last segment alone runs only two shader stages; every shader stage receives the light id the shadow launches use, none without light sampling and 0 exactly on the last segment; suppression is reset exactly on the first segment with lights sampled, and the quasi-random direction is used exactly on the second segment when requested |
| Renderer.RenderSample | renderer.py:293-304 | A sample runs exactly `max_bounces` segments, the last flagged as last, and ends with the index of that segment |
| Renderer.OneLastSegment | renderer.py:298-300 | Exactly the final segment runs the short pipeline, and every other segment traces shadows for every group when lights are sampled |
| Shading.ListOffsetAt | shader.py:35-40 | Property `k` of a list is named in upper case at `k * (n_objects + 1)` past the list's start |
| Shading.PropertyOffsetAt | shader.py:31-42 | Property `k` of list `c` comes after all earlier lists' properties, named in upper case, at `k * (n_objects + 1)` from the start of its own list |
| Shading.ObjectItems | shader.py:143-149 | The per-object items are produced exactly when every object's material exists, one per object; otherwise a key error |
| Shading.PropertyItems | shader.py:137-149 | The items are produced exactly when every property is available for every object; otherwise a key error |
| Shading.ObjectItemsLayout | shader.py:143-149 | The items of one property carry, object by object, that object's value (or the default when its material lacks it) |
| Shading.PropertyItemsLayout | shader.py:133-149 | There are `n + 1` items per property, item `k` being property `p` of object `obj` with `p * (n + 1) + obj == k` and that object's value |
| Shading.ItemAt | shader.py:133-149 | Property `p` of object id `obj` is the item at `p * (n + 1) + obj` |
| Shading.Cells | shader.py:372-380 | A scalar fills one cell, or three equal cells in a colour buffer; a tuple is copied when it fits; a one-element tuple in a colour buffer raises a value error |
| Shading.WriteRows | shader.py:370-380 | Writing succeeds exactly when every item's value fits a row; each row then holds its item's value |
| Shading.MaterialBuffer | shader.py:354-384 | Each item the generator yields is written before the next lookup: the first yielded value that does not fit its row raises `ValueError`; if all yielded values fit, the generator's `KeyError` is raised; the buffer is built exactly when every property is available and every value fits, and row `p * (n + 1) + obj` then holds property `p` of object `obj` |
| Shading.PropertyYieldsAgree | shader.py:133-149 | The lazy generator stops exactly when the eager item list fails, with the same exception, and otherwise yields exactly that list |
| Shading.PropertyYieldsLayout | shader.py:133-149 | Every item yielded before the generator stops goes to the row `propIndex * (n + 1) + objectId` equal to its own position, so the items fill the buffer in order |
| Shading.ValueErrorBeforeMissingMaterial | shader.py:370-380 | A one-element colour tuple in the default material is yielded and fails to fit its row before the first object's missing material is looked up, so the buffer raises `ValueError` where the eager list reports `KeyError` |
| Shading.RowsHoldValues | shader.py:370-380 | Rows that hold their items' values hold, at row `p * (n + 1) + obj`, property `p` of object id `obj` |
| Shading.OffsetFindsRow | shader.py:31-42 | The offset recorded for a property, plus an object id, finds the buffer row holding that object's value for that property |
| Shading.NextSegment | shader.py:235-264 | A segment starts with the trace and ends with its one shader launch; it casts shadow rays exactly when lights are sampled and it is not the last, before the shader and towards the light id the shader receives; the shader's light is absent without light sampling and 0 exactly on the last segment |
| Shading.SegmentsAgree | shader.py:235-264 | For the same choices, `Shader`'s segment casts shadow rays exactly when `Renderer`'s does, towards the same light id; both hand the shaders the same light and set the same flags |
| Shading.RenderSample | shader.py:207-233 | The loop never stops before `min_bounces`, continues only while the roulette lets it, runs exactly one last segment, returns an index at most `max(min_bounces, max_bounces)` and reweights each continued segment; with probability 1 it raises a division by zero |
| Shading.SurvivalInterval | shader.py:218-222 | The draws on which a path survives form an interval whose length is the probability of going on |
| Shading.AsWrittenRouletteBiased | shader.py:218-222 | As written the expected weight of a continued path is 1 only when the probability is 1/2, and 3/7 at the default 0.3 |
| Shading.CorrectedRouletteUnbiased | shader.py:218-222 | With the corrected test the expected weight of a continued path is 1 for every probability |

## Left out

- `rotation_matrix` is not modelled: it needs sine and cosine.
- `numpy.linalg.inv` is a parameter of `Transformations.Inverse`; its correctness is the precondition of `Transformations.InverseUndoes`.
- `is_identity` and `is_orthogonal` are not modelled: they compare Frobenius norms of float matrices.
- The `__str__` methods of transformations and scenes are not modelled: they only format text for display.
- Upper- and lower-case mapping covers ASCII letters only, which is all the source's names and axis letters use.
- `get_objects` with a `None` name, and the identity comparison of Python objects, are not modelled; objects compare by value.
- A ragged `numpy.array` of parameters is modelled as a value error; older numpy versions build an object array instead.
- The contents of the vector buffers built with `vstack` are not modelled beyond their row counts.
- Device calls, kernel launches as device work, and the `RayStateBuffers` allocation are not modelled: they are foreign calls with no visible semantics. Launches are modelled as a list of requested calls.
- Random numbers, the drawn light and the roulette draws are taken as inputs.
- Camera sampling and the tent filter are not modelled: they are float camera maths in the utilities.
- The scatter of samples into the image (`get_image`) is not modelled: it is numpy indexing of float buffers.
- The spectrum shader is not modelled: it interpolates spectra with floats.
- Shading.Cells: numpy broadcasting is modelled only for the shapes the property values take (a number or a flat tuple of numbers).
- The contents of `constant_params` are not modelled; only their count enters the integer buffer offsets.
- Float rounding, epsilons other than the named constants, and infinities from zero divisions are not modelled.
- Components.HalfSpaceTracer: requires a non-zero slope; the source divides by it and gets an infinity on a parallel ray.
- Components.LayerTracer: requires a non-zero slope, for the same reason.
- Components.LayerRegion: requires a non-negative thickness; a negative thickness reverses the interval.
- Components.CylinderTracer: requires a ray not parallel to the axis; the source divides by the perpendicular length.
- Components.ConeTracer: requires a non-zero leading coefficient; the source divides by it.
- Objects.HalfSpaceHit: requires a ray not parallel to the plane; the source divides by the slope.
- The sympy printers (`IAPrinter._print_mul_rec`, symbolic differentiation) are not modelled: they depend on sympy internals. Only `print_pow` and `ia_poly` are modelled.
- The Julia-set quaternion kernels and the distance-estimator tracer are not modelled: they use transcendental functions. Only the self-intersection guard is.
- The ConvexIntersection interval-merge template is device code that is not part of this model; `ConvexIntersection.MergeFunctions` models only the merging of name-to-body maps.
- A `raise` of a plain string is modelled as a type error, as Python 2.6 and later raise.
- Octree.BuildSound: the build is modelled depth-first; each node's outcome depends only on its own cube and the face list, so this gives the same tree as the level-by-level loop.
- Program.Dedup: a Python set's iteration order is not specified; the model lists bodies in first-occurrence order.
- The faces prefix of the octree's integer buffer is not modelled; the encoding covers the tree part only.
- The default contents of `Scene.__init__` and the camera rays are not modelled: they are scene data and camera maths.
- Octree.MakeOctree: requires a non-negative `max_depth`; a negative depth is not modelled.
- Renderer.NextPathSegment: the quasi-random direction is modelled as a flag on the segment, not as the direction it draws.
- TraceCore.Trace: the first-minimum, no-hit and subobject statements assume each object's distance does not depend on the running best distance, because the generated tracers receive `old_isec_dist` and may use it.
- TraceCore.ShadowTrace: the same assumption on the tracers applies to the if-and-only-if.
- Renderer.TraceLaunches: its own contract gives only the count; the launch at each position is stated by `Renderer.TraceAt` and `Renderer.TracesFollowObjects`.
- Marcher.MarchOld: the bounds on the final interval are stated only when the march does not start from the object's own surface, or when it starts before 0.01. From its own surface the first interval ends at 0.01 whatever its begin, so it can be reversed.
- Octree.Children: a second call returning the same list is not a separate statement, because the model is a pure function.
- MeshFormats.ReadOff: `float` also accepts `inf`, `infinity` and `nan` in any case; the model reads such a coordinate as a `ValueError`, because `real` has no infinities or not-a-number. Decimal and exponent forms are read.
- MeshFormats.ZipperVertex: the same `inf` and `nan` spellings are read as a `ValueError`, for the same reason.
- Console output is not modelled: the progress lines of mesh_formats.py:19 and :32, the duplicate-face warning of mesh_formats.py:71, the image-size warning of renderer.py:409, the clash report of cl_compiler.py:42-44 and the progress and buffer dumps of objects/octree.py:92 and :141 affect no result.
- TracerData.AddParams: the model walks the parameter types in first-occurrence order; the source iterates a Python 2 dictionary (renderer.py:150), whose order is unspecified and decides which error is reported when several types fail.

## Findings

| source | as written | input that shows it | evidently intended | confidence | as-written member | corrected member |
|---|---|---|---|---|---|---|
| cl_compiler.py:38-45 | `push_func` checks for a clash against `name_map` but never stores into it, so the clash error can never be raised | two objects defining a function `f`, one with body `a` and one with body `b` | record each name's body and raise `function name clash!!` when the stripped bodies differ | not executed | Program.ClashUndetectedAsWritten | Program.CollectFailsIffStrippedClash |
| objects/octree.py:115-135 | an internal node whose eight children are all empty leaves is written with mask 0, which is the mask of a non-empty leaf, so the decoder reads it as a leaf | a root whose first child is an internal node of eight empty leaves and whose other children are empty leaves | write such a node as an empty leaf (`0x100`), so the encoding decodes to the tree with that node collapsed | not executed | OctreeData.HollowChildMisread | OctreeData.EncodeRoundTrip |
| shader.py:218-222 | the path continues when the draw is below the roulette probability `p`, yet its weight is multiplied by `1/(1-p)` | `p = 0.3`: a continued path's expected weight is `0.3 / 0.7 = 3/7` instead of 1 | continue when the draw is at least `p` (probability `1-p`): the `1/(1-p)` factor is the one the standard unbiased roulette uses, though no comment states the intent; this loop is `shader.py`'s `Shader.render_sample`, not the loop `renderer.py`'s `Renderer` runs | not executed | Shading.AsWrittenRouletteBiased | Shading.CorrectedRouletteUnbiased |
| objects/implicit_surface.py:96-97 | the default `bndR=None` is multiplied by the scale, which raises a type error, so the unbounded case cannot be used | an implicit surface built without a bounding radius | a missing radius selects the unbounded range `[0, old_isec_dist]` | not executed | Marcher.DefaultBoundRaises | Marcher.BoundRadius |
