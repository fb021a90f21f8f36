/**
 * The scene: its defaults, its object and light lists, the accelerator it
 * builds over the objects, the prefix-sum choice of an emitter, the linear
 * nearest-hit scan and the two early exits of the path tracer.
 */
module Scenes {
  import opened Wrappers
  import opened Floats
  import opened Vectors
  import opened Rays
  import opened Bounds
  import opened Materials
  import opened Intersections
  import opened BvhNodes
  import opened BvhBuild
  import opened BvhQuery
  import opened Triangles

  /** A point light: position and intensity. The tracer never reads the light list. */
  datatype Light = Light(position: Vec3, intensity: Vec3)

  /**
   * The scene record: image size, field of view, background colour, depth
   * limit, Russian-roulette probability, the objects, the lights and the
   * accelerator, absent until `BuildBvh`.
   */
  datatype Scene = Scene(
    width: int,
    height: int,
    fov: real,
    backgroundColor: Vec3,
    maxDepth: int,
    russianRoulette: real,
    objects: seq<Object>,
    lights: seq<Light>,
    bvh: Option<Accel<Object>>)

  const DefaultFov: real := 40.0
  const DefaultMaxDepth: int := 1
  const DefaultRussianRoulette: real := 0.8
  const DefaultBackground: Vec3 := Vec3(0.235294, 0.67451, 0.843137)

  /** `Scene(w, h)`: the given size, the declared defaults, no objects, no lights, no accelerator. */
  function NewScene(w: int, h: int): (s: Scene)
    ensures s.width == w && s.height == h
    ensures s.fov == DefaultFov && s.maxDepth == DefaultMaxDepth && s.russianRoulette == DefaultRussianRoulette
    ensures s.backgroundColor == DefaultBackground
    ensures s.objects == [] && s.lights == [] && s.bvh.None?
  {
    Scene(w, h, DefaultFov, DefaultBackground, DefaultMaxDepth, DefaultRussianRoulette, [], [], None)
  }

  /** `Add(Object*)`: the object goes to the end; earlier entries and every other field stay. */
  function Add(s: Scene, o: Object): (r: Scene)
    ensures |r.objects| == |s.objects| + 1
    ensures forall i | 0 <= i < |s.objects| :: r.objects[i] == s.objects[i]
    ensures r.objects[|s.objects|] == o
    ensures r.(objects := s.objects) == s
  {
    s.(objects := s.objects + [o])
  }

  /** `Add(unique_ptr<Light>)`: the light goes to the end of the light list; nothing else changes. */
  function AddLight(s: Scene, l: Light): (r: Scene)
    ensures |r.lights| == |s.lights| + 1
    ensures forall i | 0 <= i < |s.lights| :: r.lights[i] == s.lights[i]
    ensures r.lights[|s.lights|] == l
    ensures r.(lights := s.lights) == s
  {
    s.(lights := s.lights + [l])
  }

  /** `get_objects`. */
  function GetObjects(s: Scene): seq<Object>
  {
    s.objects
  }

  /** A sequence of `Add` calls, in order. */
  function AddAll(s: Scene, os: seq<Object>): Scene
    decreases |os|
  {
    if |os| == 0 then s else AddAll(Add(s, os[0]), os[1..])
  }

  /** `get_objects` after a run of `Add` calls is the earlier list followed by the added objects, in order. */
  lemma {:induction false} GetObjectsAfterAdds(s: Scene, os: seq<Object>)
    ensures GetObjects(AddAll(s, os)) == s.objects + os
    ensures AddAll(s, os).(objects := s.objects) == s
    decreases |os|
  {
    if |os| > 0 {
      GetObjectsAfterAdds(Add(s, os[0]), os[1..]);
      assert s.objects + [os[0]] + os[1..] == s.objects + os;
    }
  }

  /**
   * `buildBVH`: an accelerator over the current objects with capacity 1 and
   * the naive split; no root when there are no objects.
   */
  function BuildBvh(s: Scene): (r: Scene)
    ensures r.bvh.Some? && r.bvh.value.primitives == s.objects
    ensures r.bvh.value.maxPrimsInNode == 1 && r.bvh.value.splitMethod == Naive
    ensures r.bvh.value.root.None? <==> |s.objects| == 0
    ensures r.bvh.value.root.Some? ==>
      Shaped(r.bvh.value.root.value) && multiset(Leaves(r.bvh.value.root.value)) == multiset(s.objects)
    ensures r.(bvh := s.bvh) == s
  {
    s.(bvh := Some(NewAccel(ObjectBounds, ObjectArea, s.objects, 1, Naive)))
  }

  /**
   * The object's own `getIntersection`. A mesh whose accelerator is not
   * one the builder could have produced answers the default record; no
   * mesh built from faces is like that (`BuiltMeshQueryable`).
   */
  function ObjectHit(o: Object, ray: Ray): Intersection<Object>
  {
    if ObjectQueryable(o) then ObjectIntersect(o, ray) else Empty()
  }

  lemma BuiltMeshQueryable(faces: seq<Face>, m: Material)
    requires ValidFaces(faces)
    ensures ObjectQueryable(MeshObject(NewMesh(faces, m)))
  {
  }

  /** The scene's accelerator was built and so has a well-shaped root, if any. */
  predicate Built(s: Scene)
  {
    s.bvh.Some? && (s.bvh.value.root.Some? ==> Shaped(s.bvh.value.root.value))
  }

  /** `Scene::intersect`: the accelerator's nearest hit. */
  function SceneIntersect(s: Scene, ray: Ray): (r: Intersection<Object>)
    requires Built(s)
    ensures s.bvh.value.root.None? ==> r == Empty()
  {
    BvhQuery.Intersect(s.bvh.value, ray, ObjectHit)
  }

  /**
   * After `buildBVH`, a ray either hits nothing or gets the record of one
   * of the scene's objects.
   */
  lemma SceneHitFromObject(s: Scene, ray: Ray)
    ensures var b := BuildBvh(s);
      var r := SceneIntersect(b, ray);
      r == Empty() || exists o :: o in s.objects && r == ObjectHit(o, ray)
  {
    var a := BuildBvh(s).bvh.value;
    if a.root.Some? {
      GetIntersectionFromLeaf(a.root.value, ray, ObjectHit);
      var r := SceneIntersect(BuildBvh(s), ray);
      if r != Empty() {
        var o :| o in Leaves(a.root.value) && r == ObjectHit(o, ray);
        assert o in multiset(Leaves(a.root.value));
      }
    }
  }

  /** The hit material is present whenever the record reports a hit. */
  predicate HitHasMaterial(inter: Intersection<Object>)
  {
    inter.happened ==> inter.m.Some?
  }

  /**
   * The two early returns of `castRay`: black on a miss, the material's
   * emission when the hit surface emits; `None` when shading goes on to
   * the direct and indirect terms.
   */
  function CastRayEarly(inter: Intersection<Object>): (c: Option<Vec3>)
    requires HitHasMaterial(inter)
    ensures !inter.happened ==> c == Some(Zero())
    ensures inter.happened && HasEmission(inter.m.value) ==> c == Some(inter.m.value.emission)
    ensures c.None? <==> inter.happened && !HasEmission(inter.m.value)
  {
    if !inter.happened then Some(Zero())
    else if HasEmission(inter.m.value) then Some(inter.m.value.emission)
    else None
  }

  /**
   * An early return is black exactly on a miss: an emitting surface
   * returns a nonzero emission.
   */
  lemma CastRayEarlyBlackIffMiss(inter: Intersection<Object>)
    requires HitHasMaterial(inter)
    ensures CastRayEarly(inter) == Some(Zero()) <==> !inter.happened
  {
    if inter.happened && HasEmission(inter.m.value) {
      HasEmissionBounds(inter.m.value);
    }
  }

  /** A scene without objects renders every ray black. */
  lemma EmptySceneIsBlack(w: int, h: int, ray: Ray)
    ensures var s := BuildBvh(NewScene(w, h));
      Built(s) && CastRayEarly(SceneIntersect(s, ray)) == Some(Zero())
  {
  }

  // ---------------------------------------------------------------------
  // sampleLight

  /** Every triangle has a material, so its `hasEmit` can be asked. */
  predicate HasMaterials(objects: seq<Object>)
  {
    forall i | 0 <= i < |objects| :: objects[i].TriangleObject? ==> objects[i].tri.m.Some?
  }

  /** Every emitting object can be sampled. */
  predicate EmittersSampleable(objects: seq<Object>)
    requires HasMaterials(objects)
  {
    forall i | 0 <= i < |objects| :: ObjectHasEmit(objects[i]) ==> ObjectSampleable(objects[i])
  }

  /** The summed area of the emitting objects among the first `n`. */
  function EmitPrefix(objects: seq<Object>, n: int): real
    requires HasMaterials(objects) && 0 <= n <= |objects|
  {
    if n == 0 then 0.0
    else EmitPrefix(objects, n - 1) + (if ObjectHasEmit(objects[n - 1]) then ObjectArea(objects[n - 1]) else 0.0)
  }

  /** Object `k` emits and the running emitting area through it reaches `p`. */
  predicate Reaches(objects: seq<Object>, k: int, p: real)
    requires HasMaterials(objects) && 0 <= k < |objects|
  {
    ObjectHasEmit(objects[k]) && p <= EmitPrefix(objects, k + 1)
  }

  /** `p` of `sampleLight`: the uniform draw scaled by the total emitting area. */
  function LightDraw(objects: seq<Object>, rnd: real): real
    requires HasMaterials(objects)
  {
    rnd * EmitPrefix(objects, |objects|)
  }

  /** Some object reaches `p`. */
  predicate SomeReaches(objects: seq<Object>, p: real)
    requires HasMaterials(objects)
  {
    exists k | 0 <= k < |objects| :: Reaches(objects, k, p)
  }

  /**
   * `sampleLight` with the uniform draw `rnd` and the draws `d` of the
   * object sample: `p = rnd * total emitting area`; the first emitting
   * object whose running sum reaches `p` is sampled and no other; when none
   * reaches `p` the record and pdf are left as they were.
   */
  method SampleLight(objects: seq<Object>, rnd: real, d: Draws, pos: Intersection<Object>, pdf: Ext)
    returns (pos': Intersection<Object>, pdf': Ext, picked: Option<nat>)
    requires HasMaterials(objects) && EmittersSampleable(objects)
    ensures picked.None? ==> pos' == pos && pdf' == pdf && !SomeReaches(objects, LightDraw(objects, rnd))
    ensures picked.Some? ==>
      && FirstReaching(objects, picked.value, LightDraw(objects, rnd))
      && Drawn(pos', pdf') == ObjectSample(objects[picked.value], pos, d)
    ensures
      && (forall i | 0 <= i < |objects| :: ObjectArea(objects[i]) >= 0.0)
      && (exists i | 0 <= i < |objects| :: ObjectHasEmit(objects[i]))
      && 0.0 <= rnd <= 1.0
      ==> picked.Some?
  {
    var total := EmitAreaSum(objects);
    picked := FindReaching(objects, rnd * total);
    assert rnd * total == LightDraw(objects, rnd);
    if picked.Some? {
      var s := ObjectSample(objects[picked.value], pos, d);
      pos', pdf' := s.pos, s.pdf;
    } else {
      pos', pdf' := pos, pdf;
      if (forall i | 0 <= i < |objects| :: ObjectArea(objects[i]) >= 0.0)
        && (exists i | 0 <= i < |objects| :: ObjectHasEmit(objects[i]))
        && 0.0 <= rnd <= 1.0
      {
        DrawReachesEmitter(objects, rnd);
        assert false;
      }
    }
  }

  /** Object `k` is the first to reach `p`. */
  predicate FirstReaching(objects: seq<Object>, k: int, p: real)
    requires HasMaterials(objects)
  {
    && 0 <= k < |objects|
    && Reaches(objects, k, p)
    && forall j | 0 <= j < k :: !Reaches(objects, j, p)
  }

  /** The first loop of `sampleLight`: the total area of the emitting objects. */
  method EmitAreaSum(objects: seq<Object>) returns (sum: real)
    requires HasMaterials(objects)
    ensures sum == EmitPrefix(objects, |objects|)
  {
    sum := 0.0;
    var k := 0;
    while k < |objects|
      invariant 0 <= k <= |objects|
      invariant sum == EmitPrefix(objects, k)
    {
      if ObjectHasEmit(objects[k]) {
        sum := sum + ObjectArea(objects[k]);
      }
      k := k + 1;
    }
  }

  /** The second loop of `sampleLight`: the first emitting object whose running sum reaches `p`. */
  method FindReaching(objects: seq<Object>, p: real) returns (picked: Option<nat>)
    requires HasMaterials(objects)
    ensures picked.None? ==> !SomeReaches(objects, p)
    ensures picked.Some? ==> FirstReaching(objects, picked.value, p)
  {
    var sum := 0.0;
    var k := 0;
    while k < |objects|
      invariant 0 <= k <= |objects|
      invariant sum == EmitPrefix(objects, k)
      invariant forall j | 0 <= j < k :: !Reaches(objects, j, p)
    {
      if ObjectHasEmit(objects[k]) {
        sum := sum + ObjectArea(objects[k]);
        if p <= sum {
          return Some(k);
        }
      }
      k := k + 1;
    }
    return None;
  }

  /** No object reaches any `p` when nothing emits, so nothing is sampled. */
  lemma NoEmitterNoPick(objects: seq<Object>, p: real)
    requires HasMaterials(objects)
    requires forall i | 0 <= i < |objects| :: !ObjectHasEmit(objects[i])
    ensures !SomeReaches(objects, p)
  {
  }

  /** Beyond the last emitting object the running sum no longer changes. */
  lemma {:induction false} EmitPrefixFlat(objects: seq<Object>, k: int, n: int)
    requires HasMaterials(objects) && 0 <= k <= n <= |objects|
    requires forall i | k <= i < |objects| :: !ObjectHasEmit(objects[i])
    ensures EmitPrefix(objects, n) == EmitPrefix(objects, k)
    decreases n
  {
    if n > k {
      EmitPrefixFlat(objects, k, n - 1);
    }
  }

  /** With non-negative areas the running sum is non-negative. */
  lemma {:induction false} EmitPrefixNonNegative(objects: seq<Object>, n: int)
    requires HasMaterials(objects) && 0 <= n <= |objects|
    requires forall i | 0 <= i < |objects| :: ObjectArea(objects[i]) >= 0.0
    ensures EmitPrefix(objects, n) >= 0.0
    decreases n
  {
    if n > 0 {
      EmitPrefixNonNegative(objects, n - 1);
    }
  }

  /**
   * With an emitting object and `p` at most the total emitting area, some
   * object reaches `p`, so `sampleLight` samples exactly one object.
   */
  lemma SomeEmitterReaches(objects: seq<Object>, p: real)
    requires HasMaterials(objects)
    requires exists i | 0 <= i < |objects| :: ObjectHasEmit(objects[i])
    requires p <= EmitPrefix(objects, |objects|)
    ensures SomeReaches(objects, p)
  {
    var last :| 0 <= last < |objects| && ObjectHasEmit(objects[last]);
    while last + 1 < |objects| && exists i | last < i < |objects| :: ObjectHasEmit(objects[i])
      invariant 0 <= last < |objects| && ObjectHasEmit(objects[last])
      decreases |objects| - last
    {
      var next :| last < next < |objects| && ObjectHasEmit(objects[next]);
      last := next;
    }
    EmitPrefixFlat(objects, last + 1, |objects|);
    assert Reaches(objects, last, p);
  }

  /**
   * A draw `rnd` in `[0, 1]` over non-negative areas gives `p` within the
   * total, so with an emitting object exactly one object is sampled.
   */
  lemma DrawReachesEmitter(objects: seq<Object>, rnd: real)
    requires HasMaterials(objects)
    requires forall i | 0 <= i < |objects| :: ObjectArea(objects[i]) >= 0.0
    requires exists i | 0 <= i < |objects| :: ObjectHasEmit(objects[i])
    requires 0.0 <= rnd <= 1.0
    ensures SomeReaches(objects, LightDraw(objects, rnd))
  {
    var total := EmitPrefix(objects, |objects|);
    EmitPrefixNonNegative(objects, |objects|);
    assert rnd * total <= total by {
      Arith.MulMonotone(rnd, 1.0, total);
    }
    SomeEmitterReaches(objects, LightDraw(objects, rnd));
  }

  // ---------------------------------------------------------------------
  // trace

  /** What `intersect(ray, tNearK, indexK)` reports for one object: hit flag, distance and index. */
  datatype Probe = Probe(hit: bool, tnear: real, index: int)

  /** The probe hits strictly closer than `t`. */
  predicate Improves(pr: Probe, t: real)
  {
    pr.hit && pr.tnear < t
  }

  /**
   * `Scene::trace`: a scan that replaces the current hit only on a strictly
   * smaller distance. It finds a hit iff some object hits strictly below
   * the incoming `tNear`; the winner is the first object attaining the
   * smallest distance, and `tNear` never grows.
   */
  method Trace<O>(objects: seq<O>, probe: O -> Probe, tNear: real, index: int)
    returns (found: bool, tNear': real, index': int, hitObject: Option<O>, winner: Option<nat>)
    ensures found <==> hitObject.Some?
    ensures found <==> exists k | 0 <= k < |objects| :: Improves(probe(objects[k]), tNear)
    ensures tNear' <= tNear
    ensures !found ==> tNear' == tNear && index' == index && winner.None?
    ensures found ==>
      && winner.Some? && winner.value < |objects|
      && hitObject == Some(objects[winner.value])
      && probe(objects[winner.value]).hit
      && tNear' == probe(objects[winner.value]).tnear && index' == probe(objects[winner.value]).index
      && (forall j | 0 <= j < |objects| :: probe(objects[j]).hit ==> tNear' <= probe(objects[j]).tnear)
      && (forall j | 0 <= j < winner.value :: probe(objects[j]).hit ==> tNear' < probe(objects[j]).tnear)
  {
    tNear', index', hitObject, winner := tNear, index, None, None;
    var k := 0;
    while k < |objects|
      invariant 0 <= k <= |objects|
      invariant tNear' <= tNear
      invariant winner.Some? ==> tNear' < tNear
      invariant hitObject.Some? <==> winner.Some?
      invariant winner.None? ==> tNear' == tNear && index' == index
      invariant forall j | 0 <= j < k :: probe(objects[j]).hit ==> tNear' <= probe(objects[j]).tnear
      invariant winner.Some? ==>
        && winner.value < k
        && hitObject == Some(objects[winner.value])
        && probe(objects[winner.value]).hit
        && tNear' == probe(objects[winner.value]).tnear && index' == probe(objects[winner.value]).index
        && (forall j | 0 <= j < winner.value :: probe(objects[j]).hit ==> tNear' < probe(objects[j]).tnear)
    {
      var pr := probe(objects[k]);
      if pr.hit && pr.tnear < tNear' {
        hitObject, tNear', index', winner := Some(objects[k]), pr.tnear, pr.index, Some(k);
      }
      k := k + 1;
    }
    found := hitObject.Some?;
    if !found {
      assert forall j | 0 <= j < |objects| :: !Improves(probe(objects[j]), tNear);
    } else {
      assert Improves(probe(objects[winner.value]), tNear);
    }
  }
}
