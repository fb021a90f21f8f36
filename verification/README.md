# BVH and path-tracer core of the OpenGL_CMake renderer, in Dafny

This project models the ray-tracing core of the renderer:

- the axis-aligned box `Bounds3`;
- the ray record;
- the hit record `Intersection`;
- the diffuse `Material`;
- the `Triangle` and `MeshTriangle` primitives;
- the bounding-volume hierarchy `BVHAccel`: its recursive median-split build, its nearest-hit traversal and its area-weighted sampling descent;
- the `Scene`: its defaults, its object and light lists, `buildBVH`, `intersect`, `sampleLight`, `trace`, and the two early returns of `castRay`.

Every operation is a pure function or a short method. Every operation with a behavioural promise has its contract stated against an independent reference or a partner operation. A few members state only a value, a constant or a bound, such as `BvhNodes.ClampPrims`, `Materials.GetColorAt` and `Bounds.SurfaceAreaNonNegative`.

To verify the proofs, all together or one member at a time:

```
dafny verify --resource-limit 2000000 --verification-time-limit 0 --warn-contradictory-assumptions *.dfy
dafny verify --resource-limit 2000000 --verification-time-limit 0 --filter-symbol <Member> *.dfy
```

Add `--boogie /randomSeed:<n>` to vary the solver seed. Proof steps that drive the solver into nonlinear real arithmetic are split into small lemmas with one goal each, to keep every member small enough to verify on its own.

Floating-point values that can be infinite or NaN are modelled by `Floats.Ext`: a finite real, +infinity, -infinity or NaN, with the IEEE rules for those special values. Box corners, reciprocal directions and slab distances use it. The default box has `+inf` and `-inf` corners. The doubles `lowest()` and `max()` do not fit in a `glm::vec3` of floats. C++ leaves that conversion undefined; the model takes the IEEE round-to-nearest result, `+-inf`. Were it `+-FLT_MAX` instead, the builder would still sort on axis 2 for centroids of ordinary size. The code is modelled as written, including where it departs from the intended geometry. The contracts state those behaviours and prove them on concrete inputs:

- **Union copies whole corners.** `Union` copies a whole corner from one argument instead of taking componentwise extremes. So a union need not contain its arguments, and a triangle's box can miss a vertex.
- **The builder always sorts on z.** Starting from the default box, the builder's centroid box keeps its `-inf` `pMax`, so the builder always sorts on axis 2.
- **The slab test's comparison is inverted.**
  - The test compares the *smallest* entry with the *largest* exit.
  - The flags passed to it are 0 or 1, so nothing is ever swapped.
  - As a result, a ray with all-negative direction is rejected by a box it crosses, and a ray that misses a box can be accepted.
- **A triangle's area is always 1.5.** `glm::vec3::length()` is the component count 3, not the Euclidean length.
- **The sampling draw is square-rooted.** `BVHAccel::Sample` descends at `sqrt(draw)` times the total area, so leaves are not chosen in proportion to their areas, although the returned pdf is one over the total area.

Each of these five has a corrected counterpart with its intended property proved, listed under "## Findings". The rest of the model keeps the code's behaviour, so that its contracts describe what the renderer computes.

The object-level routines are generic over the object type. The BVH sees objects only through bounds, area, intersection and sampling functions passed as parameters. The scene instantiates them with `Triangles.Object`, which is a triangle or a mesh.

Where the code departs from the usual BVH geometry, or leaves a case to chance, the model follows the code:

- the slab test's min/max and swap condition;
- the pick-one-corner `Union`;
- the triangle area;
- a miss carries the largest double as its distance;
- an empty object list gives an accelerator without a root;
- `sampleLight` leaves the record untouched when no emitter is reached;
- the union of the leaf boxes need not equal the root box.

## Model

| member | source | states |
|---|---|---|
| Rays.Recip | include/UI/Ray.h:18 | `1./a` is a finite reciprocal (`r * a == 1`) for non-zero `a` and +infinity for zero |
| Rays.MakeRay | include/UI/Ray.h:17-21 | the constructor keeps origin, direction and `t`, stores the componentwise reciprocal direction, and sets the range to `[0, max double]` |
| Rays.ReciprocalDirection | include/UI/Ray.h:18 | on every axis the stored reciprocal undoes a non-zero direction component and is +infinity for a zero one |
| Rays.AtIsAffine | include/UI/Ray.h:23 | of `Rays.At`: `ray(0)` is the origin and `ray(s + u) = ray(s) + u * direction` |
| Intersections.Empty | include/UI/Intersection.h:9-16 | the default record: no hit, zero point and normal, the largest double as distance, no object and no material |
| Materials.NewMaterial | include/UI/Material.h:78-81 | the constructor sets the kind and the emission; the diffuse colour is the one the caller assigns |
| Materials.DefaultMaterial | include/UI/Material.h:67 | the default arguments give a diffuse material with zero emission, which does not emit |
| Materials.HasEmissionIsLengthTest | include/UI/Material.h:91-94 | of `Materials.HasEmission`: the emission test holds exactly when the Euclidean length of the emission exceeds EPSILON |
| Materials.HasEmissionBounds | include/UI/Material.h:91-94 | an emitting material has a non-zero emission, and an emission beyond EPSILON on any axis emits |
| Materials.GetColorAt | include/UI/Material.h:96-98 | the texture lookup is black for every coordinate |
| Materials.Pdf | include/UI/Material.h:115-127 | the pdf is non-negative, is zero exactly when `wo . N <= 0`, and is otherwise `1 / (2 pi)` |
| Materials.Eval | include/UI/Material.h:129-144 | black when `N . wo <= 0`, otherwise `Kd / pi` |
| Materials.PdfEvalAgree | include/UI/Material.h:115-144 | the pdf and the evaluation gate on the same half-space; with a non-zero `Kd` the pdf vanishes exactly when the evaluation is black |
| Materials.LocalZ | include/UI/Material.h:105-106 | the local z of a sampled direction, `abs(1 - 2 x1)`, lies in `[0, 1]`, and its square is at most 1 |
| Floats.StdMinMaxOfNumbers | include/UI/Bounds3.h:27-28 | on non-NaN values `std::min` and `std::max` are symmetric and bracket both arguments |
| Bounds.Default | include/UI/Bounds3.h:15-22 | the default box has `+inf` for every `pMin` component and `-inf` for every `pMax` component |
| Bounds.FromPoint | include/UI/Bounds3.h:24 | the one-point box is finite and ordered, and both corners are the point |
| Bounds.FromPointContainsOnly | include/UI/Bounds3.h:24 | a point lies in a one-point box exactly when it is that point |
| Bounds.FromPointsContains | include/UI/Bounds3.h:26-29 | the two-point box is finite, ordered and symmetric in its arguments, and contains both points |
| Bounds.FiniteCoordinates | include/UI/Bounds3.h:32-34 | on a finite box, order is the componentwise `<=` of the corners, and the diagonal is `pMax - pMin` |
| Bounds.MaxExtent | include/UI/Bounds3.h:36-48 | the chosen axis is 0, 1 or 2 |
| Bounds.MaxExtentIsLargest | include/UI/Bounds3.h:36-48 | on a finite box, no axis has a longer diagonal component than the chosen one |
| Bounds.MaxExtentTies | include/UI/Bounds3.h:36-48 | axis 0 exactly when x is strictly longest; otherwise 1 exactly when y is strictly longer than z; otherwise 2 |
| Bounds.MaxExtentUniform | include/UI/Bounds3.h:36-48 | three equal diagonal components give axis 2 |
| Bounds.MaxExtentOfNegativeInfiniteMax | include/UI/Bounds3.h:36-48 | a finite `pMin` with a `-inf` `pMax` has a `-inf` diagonal and gives axis 2 |
| Bounds.SurfaceAreaNonNegative | include/UI/Bounds3.h:50-53 | a finite ordered box has a finite non-negative surface area, and a point box has area zero |
| Bounds.CentroidIsMidpoint | include/UI/Bounds3.h:55-57 | the centroid of a finite box is the midpoint of its corners, and it lies inside the box when the box is ordered |
| Bounds.IntersectOrdered | include/UI/Bounds3.h:59-64 | of `Bounds.Intersect`: the intersection of finite boxes is finite and ordered even when they are disjoint, and it contains every point common to both |
| Bounds.OffsetOfCorners | include/UI/Bounds3.h:66-75 | `pMin` maps to 0, `pMax` maps to 1 on an axis of positive extent, and a degenerate axis keeps the undivided difference |
| Bounds.OffsetOnAxis | include/UI/Bounds3.h:66-75 | on an axis of positive extent the offset is the distance from `pMin` divided by the extent |
| Bounds.OffsetInsideUnit | include/UI/Bounds3.h:66-75 | a point inside the box has an offset in `[0, 1]` on every axis of positive extent |
| Bounds.OverlapsProperties | include/UI/Bounds3.h:78-83 | overlap is symmetric, reflexive on ordered boxes, and implied by a common point |
| Bounds.Corner | include/UI/Bounds3.h:91-93 | index 0 selects `pMin` and every other index selects `pMax` |
| Bounds.UnswappedEndpoints | include/UI/Bounds3.h:106-124 | for a finite box and a finite reciprocal direction, without swaps, the entry is the least of the three `pMin` slab values and the exit is the greatest of the three `pMax` slab values |
| Bounds.FiniteSlabs | include/UI/Bounds3.h:106-113 | on a finite box with a finite reciprocal direction, every slab value is the finite product `(corner - origin) * invDir` |
| Bounds.IntersectPAsWritten | include/UI/Bounds3.h:101-130 | of `Bounds.IntersectP`: for a finite box and a finite reciprocal direction, with 0/1 flags, the test accepts exactly when some axis's entry lies below some axis's exit and some exit is non-negative |
| Bounds.IntersectPWithoutNaN | include/UI/Bounds3.h:101-130 | of `Bounds.IntersectP`: for any box and reciprocal direction, infinite components included, with no NaN slab value and 0/1 flags: the test accepts exactly when some `pMin` slab value lies below some `pMax` slab value and some `pMax` slab value is non-negative |
| Bounds.NegativeRaySlabs | include/UI/Bounds3.h:115-124 | for the all-negative ray against the box `[-2,-1]^3`, every entry value is 2 and every exit value is 1 |
| Bounds.IntersectPRejectsNegativeRay | include/UI/Bounds3.h:115-127 | a ray with all-negative direction that passes through a box is rejected by the test |
| Bounds.MissingRayOutside | include/UI/Ray.h:23 | the ray from the origin along `(1, -1, 1)` never enters the box `[1,2]^3` |
| Bounds.IntersectPAcceptsMissingRay | include/UI/Bounds3.h:101-130 | that missing ray is still accepted by the test |
| Bounds.PositiveFlags | src/UI/BVH.cpp:126 | the flags passed to the slab test are each 0 or 1, never negative |
| Bounds.UnionPicksCorners | include/UI/Bounds3.h:132-145 | of `Bounds.Union`: each corner of a union is copied whole from one argument. The first argument's corner is taken exactly when it is strictly below on all three axes, for `pMax` as for `pMin`. `Union(b, b) = b` |
| Bounds.UnionDoesNotContain | include/UI/Bounds3.h:132-145 | the union of two finite boxes can leave out a point of one of them |
| Bounds.UnionPointPicksCorners | include/UI/Bounds3.h:147-160 | the point union copies the same way, and adding a box's own point gives back its one-point box |
| Bounds.UnionWithDefault | include/UI/Bounds3.h:132-160 | a union with the default box keeps the default's `-inf` `pMax`, and later point unions keep it too |
| BvhNodes.NewNode | include/UI/BVH.h:52-58 | a fresh node has the default box, no children and no object, and its three counters are 0 |
| BvhNodes.ClampPrims | src/UI/BVH.cpp:8 | the leaf capacity is the requested one when that is at most 255, and 255 otherwise |
| BvhNodes.AreaIsLeafSum | src/UI/BVH.cpp:106 | when every interior area is the sum of its children's areas, the root's area is the sum of the leaves' areas |
| BvhNodes.InteriorCountIsLeavesMinusOne | src/UI/BVH.cpp:53-106 | a tree whose interior nodes each have two children has one interior node fewer than it has leaves |
| Sorting.Sort | src/UI/BVH.cpp:72-91 | the sort returns a permutation of its input |
| Sorting.SortSorted | src/UI/BVH.cpp:72-91 | with no NaN key, the result is ordered by the key under the float `<` |
| Sorting.SortSplits | src/UI/BVH.cpp:93-98 | after the sort, every key before the split point is at most every key after it |
| BvhBuild.Leaf | src/UI/BVH.cpp:39-50 | a leaf is well shaped, and its counters keep their defaults |
| BvhBuild.Interior | src/UI/BVH.cpp:102-106 | an interior node holds the two subtrees and no object |
| BvhBuild.SplitAxis | src/UI/BVH.cpp:66-70 | the sort axis is 0, 1 or 2 |
| BvhBuild.Build | src/UI/BVH.cpp:30-110 | the tree is well shaped, every interior area is the sum of its children's areas, and the counters are unset. Its leaves are a permutation of the input, one leaf per object. The root is interior exactly when there are two or more objects |
| BvhBuild.SortedForSplit | src/UI/BVH.cpp:66-91 | the order split for three or more objects is a permutation of them |
| BvhBuild.BuildOne | src/UI/BVH.cpp:39-50 | one object becomes a leaf with that object's box and area and no children |
| BvhBuild.BuildTwo | src/UI/BVH.cpp:53-62 | two objects become two leaves in input order, under the union of their boxes and the sum of their areas |
| BvhBuild.BuildSplit | src/UI/BVH.cpp:93-106 | three or more objects split into the first `n/2` and the remaining `n - n/2` of the sorted order, both halves non-empty |
| BvhBuild.BuildSplitOrdered | src/UI/BVH.cpp:66-103 | with no NaN key, every object on the left has a centroid coordinate on the split axis at most that of every object on the right |
| BvhBuild.SortedHalvesOrdered | src/UI/BVH.cpp:93-98 | any rearrangement of the sorted prefix is ordered before any rearrangement of the sorted suffix |
| BvhBuild.BuildCarries | src/UI/BVH.cpp:41-106 | every leaf carries its object's box and area, and every interior box is the union of its children's boxes |
| BvhBuild.SumAreasPermutation | src/UI/BVH.cpp:72-98 | the summed area of a set of objects does not depend on the order the sort leaves them in |
| BvhBuild.BuildAreaIsSum | src/UI/BVH.cpp:49-106 | the root's area is the sum of the areas of all input objects |
| BvhBuild.BuildCounts | src/UI/BVH.cpp:30-110 | the tree has one leaf per object and one interior node fewer |
| BvhBuild.CentroidBoxFromKeepsMax | src/UI/BVH.cpp:66-68 | the fold of the centroids keeps the default `-inf` `pMax`, and its `pMin` is finite once a finite centroid has been added |
| BvhBuild.SplitAxisIsAlwaysZ | src/UI/BVH.cpp:66-70 | for finite object boxes the centroid box has a `-inf` `pMax`, so the builder always sorts on axis 2 |
| BvhBuild.NewAccel | src/UI/BVH.cpp:6-17 | the capacity is clamped to 255, the split method and the objects are kept, and a root exists exactly for a non-empty list. That root's leaves are a permutation of the objects |
| BvhBuild.NewAccelDefaults | include/UI/BVH.h:25 | the default arguments give capacity 1 and the naive split |
| BvhQuery.GetIntersection | src/UI/BVH.cpp:121-136 | a missed box yields the default record, and a reached leaf yields its object's own record |
| BvhQuery.GetIntersectionIsNearest | src/UI/BVH.cpp:121-136 | the traversal returns the first record of least distance among the default records of pruned subtrees and the records of reached leaves |
| BvhQuery.NearestIsFirst | src/UI/BVH.cpp:135 | the reference choice returns the first position of least distance |
| BvhQuery.NearestAppend | src/UI/BVH.cpp:135 | the nearest record of two concatenated lists is the nearer of their nearest records, with the left one kept on a tie |
| BvhQuery.TraversalMatchesScan | src/UI/BVH.cpp:121-136 | when no box prunes the ray, the traversal agrees with a brute-force scan of the leaves and returns one leaf object's record |
| BvhQuery.GetIntersectionFromLeaf | src/UI/BVH.cpp:121-136 | the traversal's answer is the default record or the record of one of the tree's own objects |
| BvhQuery.Intersect | src/UI/BVH.cpp:112-119 | without a root the answer is the default record; otherwise it is the nearest record the traversal compares |
| BvhQuery.GetSample | src/UI/BVH.cpp:139-147 | at a leaf the object's sample is returned with its pdf multiplied by the leaf's area |
| BvhQuery.PickLeafBrackets | src/UI/BVH.cpp:145-146 | the reference choice brackets `p`: the areas before the chosen leaf sum to at most `p`, and the areas through it sum to more, unless it is the last leaf |
| BvhQuery.PickLeafAppend | src/UI/BVH.cpp:145-146 | over two concatenated area lists, the choice falls in the first list exactly when `p` is below that list's total |
| BvhQuery.GetSampleIsPick | src/UI/BVH.cpp:139-147 | on a tree with additive, non-negative areas, the descent samples the leaf that the reference choice picks over the leaf areas |
| BvhQuery.Sample | src/UI/BVH.cpp:149-154 | the descent starts at `u`, the square-rooted draw, times the root's area, and its pdf is divided by the root's area, or is +infinity for a zero area |
| BvhQuery.GetSamplePdfIsOne | src/UI/BVH.cpp:139-147 | when every leaf object reports a pdf of one over its leaf's area, the pdf value the descent returns is 1 wherever it lands |
| BvhQuery.SamplePdfIsInverseArea | src/UI/BVH.cpp:149-154 | when every object reports one over its area, the pdf value the accelerator returns is one over the total area, whichever leaf is chosen. It is the returned value only, not the density of the draw |
| BvhQuery.PickLeafExactly | src/UI/BVH.cpp:145-146 | over non-negative areas and a point within the total, the choice is leaf `k` exactly when the point lies in `k`'s bracket, whose length is `k`'s area |
| BvhQuery.SqrtDrawSkewsChoice | src/UI/BVH.cpp:150 | with the square-rooted draw, of two leaves of equal area the first is chosen exactly for raw draws below 1/4 |
| BvhQuery.DrawPicksByShare | src/UI/BVH.cpp:145-150 | corrected draw: a raw draw `r` in `[0,1)` times the total picks position `k` exactly on an interval of `r` whose length is `k`'s share of the total |
| BvhQuery.UnrootedDrawPicksByArea | src/UI/BVH.cpp:139-154 | corrected draw: on a tree with positive total area, a raw draw `r` picks leaf `k` exactly on an interval of length `k`'s area over the total, and then returns that leaf's sample |
| Triangles.RayTriangleIntersect | include/UI/Triangle.h:14-42 | a non-positive determinant misses and writes nothing. A miss keeps `tnear`. A hit has `u, v >= 0` and `u + v <= 1` |
| Triangles.RayTriangleValues | include/UI/Triangle.h:35-39 | on a hit the determinant is non-zero, and `u`, `v` and `tnear` are the three Cramer quotients |
| Triangles.RayTriangleHitPoint | include/UI/Triangle.h:14-42 | a hit satisfies `orig + tnear * dir = v0 + u (v1 - v0) + v (v2 - v0)` |
| Triangles.NewTriangle | include/UI/Triangle.h:54-61 | the constructor keeps the vertices and the material, and its edges lead from `v0` to `v1` and to `v2`. The normal is a positive multiple of `e1 x e2`, of unit length when `e1 x e2` is non-zero |
| TrianglesCorrected.TriangleAreaFixedSquared | include/UI/Triangle.h:60 | corrected area (of `TrianglesCorrected.TriangleAreaFixed`, which is non-negative): four times its square is the squared length of `e1 x e2`, so it is half the parallelogram |
| TrianglesCorrected.TriangleAreaFixedOfUnitTriangle | include/UI/Triangle.h:60 | the unit right triangle has corrected area 1/2, not the stored 1.5 |
| Triangles.MollerTrumbore | include/UI/Triangle.h:279-304 | a ray along the normal misses, and a determinant within EPSILON of zero misses. A hit has `u` in `[0,1]`, `v >= 0`, `u + v <= 1` and a non-negative distance |
| Triangles.FrontFaceOnly | include/UI/Triangle.h:279-300 | for a constructed triangle, the ray runs along the normal exactly when the determinant is negative, so every hit has a determinant of at least EPSILON |
| Triangles.MollerTrumboreValues | include/UI/Triangle.h:285-300 | on a hit the determinant is non-zero, and the coordinates and distance are the three Cramer quotients |
| Triangles.MollerTrumboreHitPoint | include/UI/Triangle.h:279-306 | the hit point `ray(t)` equals `v0 + u e1 + v e2` |
| Triangles.TriangleIntersect | include/UI/Triangle.h:279-313 | a miss is the default record. A hit has a non-negative distance, the point `ray(distance)`, the triangle's normal and material, and the triangle itself as object |
| Triangles.TriangleHitIsOnTriangle | include/UI/Triangle.h:279-313 | for a constructed triangle, the hit point is a combination of the three vertices with non-negative weights summing to one |
| Triangles.TriangleBounds | include/UI/Triangle.h:277 | also `Triangles.ObjectBounds` of a triangle object: each corner of a triangle's box is either `v2` or the corresponding corner of the box of `v0` and `v1` |
| Triangles.TriangleBoundsMissVertex | include/UI/Triangle.h:277 | a triangle's box can leave out one of its own vertices |
| Triangles.IntersectStubsDisagree | include/UI/Triangle.h:270-275 | the plain test always reports a hit, and the indexed test never does, whatever the geometry |
| Triangles.TriangleSample | include/UI/Triangle.h:77-82 | only the point and the normal of the caller's record change, and the pdf is one over the triangle's area |
| Triangles.SampleWeights | include/UI/Triangle.h:78-79 | for draws in `[0,1]` the three vertex weights are non-negative and sum to one |
| Triangles.SamplePointOnTriangle | include/UI/Triangle.h:77-82 | the sampled point is `v0 + s e1 + t e2` with `s, t >= 0` and `s + t <= 1`, the same domain that a hit is accepted in |
| Triangles.FaceVertices | include/UI/Triangle.h:114-122 | the vertices are listed three per face, in loading order |
| Triangles.MinFoldBelow | include/UI/Triangle.h:123-125 | the running `std::min` is at most its start and at most every vertex |
| Triangles.MaxFoldAbove | include/UI/Triangle.h:126-128 | the running `std::max` is at least its start and at least every vertex |
| Triangles.NewMesh | include/UI/Triangle.h:94-143 | one triangle per face, built by the triangle constructor with the mesh material, in order, and an accelerator over exactly those triangles |
| Triangles.MeshArea | include/UI/Triangle.h:137-142 | the mesh area is the sum of its triangles' areas, 1.5 per face. A root exists exactly for a non-empty mesh, and it carries the same area |
| Triangles.MeshBoxContainsVertices | include/UI/Triangle.h:103-135 | also `Triangles.ObjectBounds` of a mesh object: the mesh box contains every vertex of every face |
| Triangles.MeshIntersect | include/UI/Triangle.h:195-204 | without an accelerator the answer is the default record; otherwise it is the accelerator's answer |
| Triangles.MeshHitFromTriangle | include/UI/Triangle.h:195-204 | a mesh hit is the default record or the hit record of one of the mesh's own triangles |
| Triangles.MeshSample | include/UI/Triangle.h:206-209 | the accelerator's sample and pdf are returned, with the record's emission set to the mesh material's |
| Triangles.BuiltTrianglesInverseArea | include/UI/Triangle.h:137-143 | the accelerator over triangles has additive, non-negative leaf areas, and, when each triangle reports `1 / area`, each leaf's reported pdf times its area is one |
| Triangles.MeshSamplePdfIsInverseArea | include/UI/Triangle.h:206-209 | a non-empty mesh returns the pdf value one over the mesh area. It is the returned value only: the leaf choice is skewed by the square-rooted draw, and 1.5 is not a triangle's real area |
| Triangles.ObjectArea | include/UI/Triangle.h:83-85 | a triangle reports the area 1.5, and a mesh reports its stored sum |
| Triangles.ObjectIntersect | include/UI/Object.h:15 | the call dispatches to the triangle's or the mesh's `getIntersection` |
| Triangles.ObjectSample | include/UI/Object.h:20 | a triangle's sample is its own `Sample` record, with the caller's record getting the sampled point and the normal, and the finite pdf `1/1.5`. A mesh delegates to its own sampling |
| Scenes.NewScene | include/UI/Scene.h:13-25 | the given size and the declared defaults (fov 40, depth 1, roulette 0.8, background colour), with no objects, no lights and no accelerator |
| Scenes.Add | include/UI/Scene.h:27-29 | the object is appended; earlier objects and every other field stay |
| Scenes.AddLight | include/UI/Scene.h:31-33 | the light is appended; earlier lights and every other field stay |
| Scenes.GetObjectsAfterAdds | include/UI/Scene.h:27-37 | of `Scenes.GetObjects`: after a run of additions, `get_objects` is the earlier list followed by the added objects in order, and nothing else changed |
| Scenes.BuildBvh | src/UI/Scene.cpp:4-7 | the accelerator is built over the current objects with capacity 1 and the naive split. It has a root exactly when there are objects, and its leaves are a permutation of the objects. Nothing else changes |
| Scenes.BuiltMeshQueryable | include/UI/Triangle.h:143 | a mesh built from faces has an accelerator that its intersection routine can use |
| Scenes.SceneIntersect | src/UI/Scene.cpp:9-12 | a scene without objects answers the default record |
| Scenes.SceneHitFromObject | src/UI/Scene.cpp:9-12 | after `buildBVH`, a ray gets the default record or the record of one of the scene's objects |
| Scenes.CastRayEarly | src/UI/Scene.cpp:61-68 | a miss is black, and an emitting hit returns its emission. Shading continues exactly on a hit that does not emit |
| Scenes.CastRayEarlyBlackIffMiss | src/UI/Scene.cpp:63-68 | an early return is black exactly on a miss |
| Scenes.EmptySceneIsBlack | src/UI/Scene.cpp:61-65 | a scene without objects renders every ray black |
| Scenes.SampleLight | src/UI/Scene.cpp:14-33 | the first emitting object whose running area reaches `p = draw * total emitting area` is sampled, and no other one. When none reaches `p`, the record and pdf are unchanged. With an emitter, non-negative areas and a draw in `[0,1]`, one object is always sampled |
| Scenes.EmitAreaSum | src/UI/Scene.cpp:16-21 | over `Triangles.ObjectHasEmit`: the first loop computes the total area of the emitting objects |
| Scenes.FindReaching | src/UI/Scene.cpp:23-32 | the second loop finds the first emitting object whose running area reaches `p`, or reports that none does |
| Scenes.NoEmitterNoPick | src/UI/Scene.cpp:24-32 | without an emitting object nothing is sampled |
| Scenes.EmitPrefixNonNegative | src/UI/Scene.cpp:16-21 | with non-negative areas, every running emitting area is non-negative |
| Scenes.SomeEmitterReaches | src/UI/Scene.cpp:23-32 | with an emitter and `p` within the total, some object reaches `p` |
| Scenes.DrawReachesEmitter | src/UI/Scene.cpp:22-32 | a draw in `[0,1]` over non-negative areas always reaches an emitter when one exists |
| Scenes.Trace | src/UI/Scene.cpp:35-54 | a hit is found exactly when some object hits strictly below the incoming `tNear`. The winner is the first object with the smallest distance, with its distance and index written back. `tNear` never grows; on a miss nothing changes |
| BoundsCorrected.UnionFixedContains | include/UI/Bounds3.h:132-145 | corrected union: a point of either box lies in the union |
| BoundsCorrected.UnionPointFixedContains | include/UI/Bounds3.h:147-160 | corrected point union: the union holds the point and every point of the box, and from the default box it is the one-point box |
| BoundsCorrected.UnionFixedKeepsLostPoint | include/UI/Bounds3.h:132-145 | the point the written `Union` loses lies in the corrected union |
| BoundsCorrected.NegativeFlags | src/UI/BVH.cpp:126 | corrected flags: negative exactly on the axes where the direction is negative |
| BoundsCorrected.IntersectPFixedMeetsBox | include/UI/Bounds3.h:101-130 | corrected slab test, for a finite box and a direction with no zero component: an accepted ray meets the closed box at some `s >= 0`, and a ray passing strictly through the box at some `s >= 0` is accepted |
| BoundsCorrected.IntersectPFixedAcceptsNegativeRay | include/UI/Bounds3.h:115-127 | the all-negative ray the written test rejects is accepted by the corrected one |
| BoundsCorrected.IntersectPFixedRejectsMissingRay | include/UI/Bounds3.h:101-130 | the missing ray the written test accepts is rejected by the corrected one |
| BoundsCorrected.CentroidBoxFixedContains | src/UI/BVH.cpp:66-68 | the centroid fold with the corrected union holds every centroid folded in, keeps its starting box, and is finite once one finite centroid is in |
| BoundsCorrected.SplitAxisFixedIsLongest | src/UI/BVH.cpp:66-70 | with the corrected union the centroid box of finite boxes is finite and holds every centroid, and the split axis has its longest extent |
| BoundsCorrected.SpreadCentroidBox | src/UI/BVH.cpp:66-68 | for three point boxes along x, the corrected centroid box runs from the first point to the last |
| BoundsCorrected.SplitAxisFixedFollowsSpread | src/UI/BVH.cpp:66-70 | for centroids spread along x, the written builder sorts on z and the corrected one on x |

## Left out

- I/O and the window: the OBJ loading, the OpenGL buffers, `SetDataOpenGL`, `Draw`, the console output and the timing of the build are not modelled. A mesh is built from its faces directly (`NewMesh`).
- Randomness: every `get_random_float()` becomes a parameter. In `Sample` the draw already has its square root taken, and a triangle sample gets `x` (already square-rooted) and `y`.
- Floating point: the model has no rounding, no overflow and no signed zero, and no 32-bit float width. Infinities and NaN appear only where the code can produce them from its own constants or from a zero divisor.
- Square roots: normalisation needs one, so the triangle constructor and each mesh face take the factor `1 / |e1 x e2|` as an argument (`NormalizingFactor`), and the emission test is stated on squares. For a degenerate triangle, whose `e1 x e2` is zero, `glm::normalize` yields NaN and the model's normal is the zero vector instead; the gate then passes and the zero determinant misses, as NaN does in the code.
- global.h is not part of this model. `EPSILON` is taken as 0.00001 and `M_PI` as the usual literal.
- The radiance terms of `castRay` (direct lighting, the shadow ray, Russian roulette and the recursive bounce) are left out. They rest on normalisation, on `Material::sample` with its `toWorld`, sine and cosine, and on floating-point division. Only the two early returns are modelled.
- `Material::sample`: only the local z of the sampled direction is modelled (`LocalZ`). The trigonometric part and `toWorld` are not.
- `reflect`, `refract` and `fresnel` in `Material` and in `Scene` are left out: the tracer never calls them.
- `evalDiffuseColor`, `getSurfaceProperties`, `HandleAreaLight` and `get_lights` are left out: they are never used by the modelled paths.
- The texture coordinates of a triangle and the `tcoords` field of the hit record are left out: nothing reads them.
- `MeshTriangle::intersect(ray, tnear, index)` is left out. It reads vertex arrays the constructor never fills. `Trace` therefore takes each object's indexed test as an abstract `probe`; a triangle's indexed test always misses (`IntersectStubsDisagree`).
- `Light` and `AreaLight` appear only as the record the scene stores: the tracer never reads the light list.
- `std::sort` is not stable; a stable insertion sort stands in for it. Both orderings are permutations sorted by the key. Only the contracts that do not depend on how equal keys are ordered hold for either: `Build`'s shape, permutation, area and count contracts and `BuildSplitOrdered`. `BuildSplit` and `SortedForSplit` describe the halves of this particular sort's output.
- The surface-area-heuristic split is only named (`SplitMethod.Sah`); the builder implements the median split alone.
- The empty-list accelerator leaves `root` uninitialised; it is modelled as having no root, which `Intersect` then reports as the default record.
- BvhBuild.Build: requires at least one object. The constructor is its only caller and skips an empty list. On an empty list the code would split into empty halves without end.
- BvhQuery.Sample: requires a root, because the code dereferences it. The model does not cover sampling an empty accelerator.
- Triangles.MeshSample: requires an accelerator with a root, for the same reason.
- Triangles.ObjectHasEmit: requires a triangle to have a material, because `hasEmit` dereferences it.
- Scenes.SampleLight: requires every triangle to have a material and every emitter to be sampleable, because the loop dereferences both.
- Scenes.CastRayEarly: requires a hit to carry a material, because `castRay` dereferences it.
- Scenes.SceneIntersect: requires the accelerator to have been built, because `intersect` dereferences it. Its own contract states only the empty-scene case; the hit case is stated by `SceneHitFromObject`.
- Scenes.ObjectHit answers the default record for a mesh whose accelerator the builder could not have produced. No mesh built by `NewMesh` is like that (`BuiltMeshQueryable`).
- Materials.LocalZ: requires the draw to lie in `[0, 1]`, the range of the random source.
- BvhQuery.GetSample: its contract covers leaves directly. Interior nodes are covered through `GetSampleIsPick`, which requires additive, non-negative areas, as every built tree has. A node with exactly one child, which the builder never makes, is not modelled.
- Intersections.Empty: sets `emit` to zero; the default constructor leaves it uninitialised.
- Bounds.IntersectPAsWritten: stated for a finite box and a finite reciprocal direction. `IntersectPWithoutNaN` extends it to infinite reciprocals, as for an axis-parallel ray, but a NaN slab value is left out. A NaN arises when a zero direction component meets an origin on that slab's plane.
- Bounds.UnswappedEndpoints: stated for a finite box and a finite reciprocal direction, for the same reason.
- BoundsCorrected.IntersectPFixedMeetsBox: stated for directions with no zero component. A ray that only grazes the box at a single point may be rejected.

## Findings

| source | as written | input that shows it | evidently intended | confidence | as-written member | corrected member |
|---|---|---|---|---|---|---|
| include/UI/Bounds3.h:132-160 | `Union` copies each corner whole from one argument | boxes `[0,1]^3` and `[0.5,2] x [-1,2] x [0.5,2]`: the origin lies in the first but not in their union | componentwise `std::min` of the `pMin`s and `std::max` of the `pMax`s | not executed | Bounds.UnionDoesNotContain | BoundsCorrected.UnionFixedContains |
| include/UI/Bounds3.h:115-127 | flags `dir > 0` are never negative, so nothing is swapped, and the smallest entry is compared with the largest exit | origin 0, direction `(-1,-1,-1)`, box `[-2,-1]^3`: crossed at `s = 1.5` but rejected | swap on a negative direction, compare the largest entry with the smallest exit | not executed | Bounds.IntersectPRejectsNegativeRay | BoundsCorrected.IntersectPFixedMeetsBox |
| src/UI/BVH.cpp:66-70 | the centroid box starts from the default box, and `Union` keeps its `-inf` `pMax`, so the split axis is always z | three point boxes at `x = 0, 1, 2` spread only along x, yet the sort is on z | the centroid box holds every centroid, and the split is along its longest extent | not executed | BvhBuild.SplitAxisIsAlwaysZ | BoundsCorrected.SplitAxisFixedIsLongest |
| include/UI/Triangle.h:60 | `glm::cross(e1, e2).length()` is the component count 3, so every area is 1.5 | the unit right triangle `(0,0,0), (1,0,0), (0,1,0)` gets area 1.5 | half the Euclidean length of `e1 x e2` | not executed | TrianglesCorrected.TriangleAreaFixedOfUnitTriangle | TrianglesCorrected.TriangleAreaFixedSquared |
| src/UI/BVH.cpp:150 | the descent starts at `sqrt(draw) * area`, so leaf `k` is chosen for the raw draws in `[S_k^2/A^2, S_(k+1)^2/A^2)`, where `S_k` is the area before it and `A` the total, while the pdf returned is one over the total area | two leaves of area 1.5: the first is chosen for raw draws below 1/4, not below 1/2 | descend at `draw * area`, so each leaf is chosen in proportion to its area, matching the returned pdf | not executed | BvhQuery.SqrtDrawSkewsChoice | BvhQuery.UnrootedDrawPicksByArea |
