/**
 * The triangle primitive, the mesh of triangles with its own BVH, and the
 * object type the scene holds (a single triangle or a mesh).
 */
module Triangles {
  import opened Wrappers
  import opened Globals
  import opened Floats
  import opened Vectors
  import opened Rays
  import opened Bounds
  import opened Materials
  import opened Intersections
  import opened BvhNodes
  import opened BvhBuild
  import opened BvhQuery

  // ----- Arithmetic behind the Moller-Trumbore test -----

  /**
   * Cramer's rule for the x component: with `p = d x b`, `q = t x a` and
   * `det = a . p`, `det * t = (t . p) a + (d . q) b - (b . q) d`.
   */
  lemma CramerComponent(ax: real, ay: real, az: real, bx: real, b2: real, bz: real,
                        dx: real, dy: real, dz: real, tx: real, ty: real, tz: real)
    ensures
      var px, py, pz := dy * bz - dz * b2, dz * bx - dx * bz, dx * b2 - dy * bx;
      var qx, qy, qz := ty * az - tz * ay, tz * ax - tx * az, tx * ay - ty * ax;
      var det := ax * px + ay * py + az * pz;
      tx * det == ax * (tx * px + ty * py + tz * pz) + bx * (dx * qx + dy * qy + dz * qz) - dx * (bx * qx + b2 * qy + bz * qz)
  {
  }

  /** Dividing Cramer's identity by a non-zero determinant. */
  lemma DivideIdentity(t: real, det: real, a: real, u: real, b: real, v: real, d: real, s: real)
    requires det != 0.0 && t * det == a * u + b * v - d * s
    ensures t == a * (u * (1.0 / det)) + b * (v * (1.0 / det)) - d * (s * (1.0 / det))
  {
    var inv := 1.0 / det;
    assert det * inv == 1.0;
    calc {
      a * (u * inv) + b * (v * inv) - d * (s * inv);
      (a * u + b * v - d * s) * inv;
      (t * det) * inv;
      t * (det * inv);
    }
  }

  /** Cramer's rule on vectors, x coordinate. */
  lemma CramerX(a: Vec3, b: Vec3, d: Vec3, t: Vec3)
    ensures t.x * a.Dot(d.Cross(b)) == a.x * t.Dot(d.Cross(b)) + b.x * d.Dot(t.Cross(a)) - d.x * b.Dot(t.Cross(a))
  {
    CramerComponent(a.x, a.y, a.z, b.x, b.y, b.z, d.x, d.y, d.z, t.x, t.y, t.z);
  }

  /** Cramer's rule on vectors, y coordinate. */
  lemma CramerY(a: Vec3, b: Vec3, d: Vec3, t: Vec3)
    ensures t.y * a.Dot(d.Cross(b)) == a.y * t.Dot(d.Cross(b)) + b.y * d.Dot(t.Cross(a)) - d.y * b.Dot(t.Cross(a))
  {
    CramerComponent(a.y, a.z, a.x, b.y, b.z, b.x, d.y, d.z, d.x, t.y, t.z, t.x);
  }

  /** Cramer's rule on vectors, z coordinate. */
  lemma CramerZ(a: Vec3, b: Vec3, d: Vec3, t: Vec3)
    ensures t.z * a.Dot(d.Cross(b)) == a.z * t.Dot(d.Cross(b)) + b.z * d.Dot(t.Cross(a)) - d.z * b.Dot(t.Cross(a))
  {
    CramerComponent(a.z, a.x, a.y, b.z, b.x, b.y, d.z, d.x, d.y, t.z, t.x, t.y);
  }

  /** Two non-negative numbers with sum at most `det > 0`, divided by `det`. */
  lemma ScaledBarycentric(a: real, b: real, det: real, inv: real)
    requires 0.0 <= a && 0.0 <= b && a + b <= det && det > 0.0 && inv == 1.0 / det
    ensures 0.0 <= a * inv && 0.0 <= b * inv
    ensures a * inv + b * inv <= 1.0
  {
    assert inv > 0.0;
    assert a * inv + b * inv == (a + b) * inv;
    assert (a + b) * inv <= det * inv;
    assert det * inv == 1.0;
  }

  // ----- rayTriangleIntersect -----

  /** The result of `rayTriangleIntersect` and the values left in its three out-parameters. */
  datatype TestOut = TestOut(hit: bool, tnear: real, u: real, v: real)

  /** The determinant the test starts from: `(v1 - v0) . (dir x (v2 - v0))`. */
  function Determinant(v0: Vec3, v1: Vec3, v2: Vec3, dir: Vec3): real
  {
    v1.Minus(v0).Dot(dir.Cross(v2.Minus(v0)))
  }

  /**
   * The free function `rayTriangleIntersect`: it rejects a non-positive
   * determinant, then the unscaled `u` outside `[0, det]`, then the unscaled
   * `v` below 0 or `u + v` above `det`; `u` and `v` are written before their
   * test, and only a hit writes `tnear` and rescales `u` and `v`.
   */
  function RayTriangleIntersect(v0: Vec3, v1: Vec3, v2: Vec3, orig: Vec3, dir: Vec3,
                                tnear: real, u: real, v: real): (r: TestOut)
    ensures Determinant(v0, v1, v2, dir) <= 0.0 ==> r == TestOut(false, tnear, u, v)
    ensures !r.hit ==> r.tnear == tnear
    ensures r.hit ==> 0.0 <= r.u && 0.0 <= r.v && r.u + r.v <= 1.0
  {
    var edge1, edge2 := v1.Minus(v0), v2.Minus(v0);
    var pvec := dir.Cross(edge2);
    var det := edge1.Dot(pvec);
    if det == 0.0 || det < 0.0 then TestOut(false, tnear, u, v)
    else
      var tvec := orig.Minus(v0);
      var uu := tvec.Dot(pvec);
      if uu < 0.0 || uu > det then TestOut(false, tnear, uu, v)
      else
        var qvec := tvec.Cross(edge1);
        var vv := dir.Dot(qvec);
        if vv < 0.0 || uu + vv > det then TestOut(false, tnear, uu, vv)
        else
          var invDet := 1.0 / det;
          ScaledBarycentric(uu, vv, det, invDet);
          TestOut(true, edge2.Dot(qvec) * invDet, uu * invDet, vv * invDet)
  }

  /**
   * A hit of `rayTriangleIntersect` is a point of the triangle's plane:
   * `orig + tnear * dir = v0 + u (v1 - v0) + v (v2 - v0)`.
   */
  lemma RayTriangleHitPoint(v0: Vec3, v1: Vec3, v2: Vec3, orig: Vec3, dir: Vec3, tnear: real, u: real, v: real)
    ensures var r := RayTriangleIntersect(v0, v1, v2, orig, dir, tnear, u, v);
      r.hit ==> orig.Plus(dir.Scale(r.tnear)) == v0.Plus(v1.Minus(v0).Scale(r.u)).Plus(v2.Minus(v0).Scale(r.v))
  {
    RayTriangleValues(v0, v1, v2, orig, dir, tnear, u, v);
    var r := RayTriangleIntersect(v0, v1, v2, orig, dir, tnear, u, v);
    if r.hit {
      QuotientsHit(v1.Minus(v0), v2.Minus(v0), v0, orig, dir, Barycentric(r.u, r.v, r.tnear));
    }
  }

  /** A hit's coordinates and distance are the three quotients by a nonzero determinant. */
  lemma RayTriangleValues(v0: Vec3, v1: Vec3, v2: Vec3, orig: Vec3, dir: Vec3, tnear: real, u: real, v: real)
    ensures var r, e1, e2, t := RayTriangleIntersect(v0, v1, v2, orig, dir, tnear, u, v), v1.Minus(v0), v2.Minus(v0), orig.Minus(v0);
      var det := e1.Dot(dir.Cross(e2));
      r.hit ==> det != 0.0 && Barycentric(r.u, r.v, r.tnear) == Barycentric(
        t.Dot(dir.Cross(e2)) * (1.0 / det), dir.Dot(t.Cross(e1)) * (1.0 / det), e2.Dot(t.Cross(e1)) * (1.0 / det))
  {
  }

  /** One coordinate of the hit point, from Cramer's identity for that coordinate. */
  lemma PlaneHitComponent(tc: real, oc: real, vc: real, a: real, b: real, dc: real,
                          tp: real, dq: real, eq: real, det: real)
    ensures tc == oc - vc && det != 0.0 && tc * det == a * tp + b * dq - dc * eq ==>
      oc + dc * (eq * (1.0 / det)) == vc + a * (tp * (1.0 / det)) + b * (dq * (1.0 / det))
  {
    if tc == oc - vc && det != 0.0 && tc * det == a * tp + b * dq - dc * eq {
      DivideIdentity(tc, det, a, tp, b, dq, dc, eq);
    }
  }

  /** The point `o + s d` with `s = (e2 . q) / det`, for `p = d x e2`, `q = t x e1`, `det = e1 . p`. */
  function AlongRay(e1: Vec3, e2: Vec3, d: Vec3, t: Vec3, o: Vec3): Vec3
    requires e1.Dot(d.Cross(e2)) != 0.0
  {
    o.Plus(d.Scale(e2.Dot(t.Cross(e1)) * (1.0 / e1.Dot(d.Cross(e2)))))
  }

  /** The point `v0 + u e1 + v e2` with `u = (t . p) / det` and `v = (d . q) / det`. */
  function OnPlane(e1: Vec3, e2: Vec3, d: Vec3, t: Vec3, v0: Vec3): Vec3
    requires e1.Dot(d.Cross(e2)) != 0.0
  {
    var inv := 1.0 / e1.Dot(d.Cross(e2));
    v0.Plus(e1.Scale(t.Dot(d.Cross(e2)) * inv)).Plus(e2.Scale(d.Dot(t.Cross(e1)) * inv))
  }

  /** The x coordinates of the two points, written out. */
  lemma PointCoordinatesX(e1: Vec3, e2: Vec3, d: Vec3, t: Vec3, v0: Vec3, o: Vec3)
    ensures var p, q := d.Cross(e2), t.Cross(e1);
      e1.Dot(p) != 0.0 ==>
      var inv := 1.0 / e1.Dot(p);
      && AlongRay(e1, e2, d, t, o).x == o.x + d.x * (e2.Dot(q) * inv)
      && OnPlane(e1, e2, d, t, v0).x == v0.x + e1.x * (t.Dot(p) * inv) + e2.x * (d.Dot(q) * inv)
  {
  }

  /** The y coordinates of the two points, written out. */
  lemma PointCoordinatesY(e1: Vec3, e2: Vec3, d: Vec3, t: Vec3, v0: Vec3, o: Vec3)
    ensures var p, q := d.Cross(e2), t.Cross(e1);
      e1.Dot(p) != 0.0 ==>
      var inv := 1.0 / e1.Dot(p);
      && AlongRay(e1, e2, d, t, o).y == o.y + d.y * (e2.Dot(q) * inv)
      && OnPlane(e1, e2, d, t, v0).y == v0.y + e1.y * (t.Dot(p) * inv) + e2.y * (d.Dot(q) * inv)
  {
  }

  /** The z coordinates of the two points, written out. */
  lemma PointCoordinatesZ(e1: Vec3, e2: Vec3, d: Vec3, t: Vec3, v0: Vec3, o: Vec3)
    ensures var p, q := d.Cross(e2), t.Cross(e1);
      e1.Dot(p) != 0.0 ==>
      var inv := 1.0 / e1.Dot(p);
      && AlongRay(e1, e2, d, t, o).z == o.z + d.z * (e2.Dot(q) * inv)
      && OnPlane(e1, e2, d, t, v0).z == v0.z + e1.z * (t.Dot(p) * inv) + e2.z * (d.Dot(q) * inv)
  {
  }

  /** The x coordinates of the two points agree. */
  lemma PlaneHitX(e1: Vec3, e2: Vec3, d: Vec3, t: Vec3, v0: Vec3, o: Vec3)
    requires t == o.Minus(v0) && e1.Dot(d.Cross(e2)) != 0.0
    ensures AlongRay(e1, e2, d, t, o).x == OnPlane(e1, e2, d, t, v0).x
  {
    CramerX(e1, e2, d, t);
    PointCoordinatesX(e1, e2, d, t, v0, o);
    PlaneHitComponent(t.x, o.x, v0.x, e1.x, e2.x, d.x,
                      t.Dot(d.Cross(e2)), d.Dot(t.Cross(e1)), e2.Dot(t.Cross(e1)), e1.Dot(d.Cross(e2)));
  }

  /** The y coordinates of the two points agree. */
  lemma PlaneHitY(e1: Vec3, e2: Vec3, d: Vec3, t: Vec3, v0: Vec3, o: Vec3)
    requires t == o.Minus(v0) && e1.Dot(d.Cross(e2)) != 0.0
    ensures AlongRay(e1, e2, d, t, o).y == OnPlane(e1, e2, d, t, v0).y
  {
    CramerY(e1, e2, d, t);
    PointCoordinatesY(e1, e2, d, t, v0, o);
    PlaneHitComponent(t.y, o.y, v0.y, e1.y, e2.y, d.y,
                      t.Dot(d.Cross(e2)), d.Dot(t.Cross(e1)), e2.Dot(t.Cross(e1)), e1.Dot(d.Cross(e2)));
  }

  /** The z coordinates of the two points agree. */
  lemma PlaneHitZ(e1: Vec3, e2: Vec3, d: Vec3, t: Vec3, v0: Vec3, o: Vec3)
    requires t == o.Minus(v0) && e1.Dot(d.Cross(e2)) != 0.0
    ensures AlongRay(e1, e2, d, t, o).z == OnPlane(e1, e2, d, t, v0).z
  {
    CramerZ(e1, e2, d, t);
    PointCoordinatesZ(e1, e2, d, t, v0, o);
    PlaneHitComponent(t.z, o.z, v0.z, e1.z, e2.z, d.z,
                      t.Dot(d.Cross(e2)), d.Dot(t.Cross(e1)), e2.Dot(t.Cross(e1)), e1.Dot(d.Cross(e2)));
  }

  /**
   * The common algebra of both triangle tests: with `det != 0`, the point
   * at `s = (e2 . q) / det` along the ray is `v0 + u e1 + v e2`.
   */
  lemma PlaneHit(e1: Vec3, e2: Vec3, d: Vec3, t: Vec3, v0: Vec3, o: Vec3)
    requires t == o.Minus(v0)
    requires e1.Dot(d.Cross(e2)) != 0.0
    ensures AlongRay(e1, e2, d, t, o) == OnPlane(e1, e2, d, t, v0)
  {
    PlaneHitX(e1, e2, d, t, v0, o);
    PlaneHitY(e1, e2, d, t, v0, o);
    PlaneHitZ(e1, e2, d, t, v0, o);
  }

  // ----- Triangle -----

  /**
   * `glm::cross(e1, e2).length() * 0.5f`: `length()` on a `glm::vec3` is the
   * component count 3, so every triangle's area is 1.5.
   */
  const TriangleArea: real := 1.5

  /**
   * A triangle: its vertices, the edges from `v0`, its unit normal and its
   * material (absent by default). The texture coordinates are never used.
   */
  datatype Triangle = Triangle(v0: Vec3, v1: Vec3, v2: Vec3, e1: Vec3, e2: Vec3, normal: Vec3, m: Option<Material>)

  /**
   * `k` is the factor `glm::normalize` scales `c` by: positive, and one over
   * the length of `c` when `c` is not zero. The length is a square root, so
   * the caller supplies it.
   */
  predicate NormalizingFactor(c: Vec3, k: real)
  {
    k > 0.0 && (c != Zero() ==> k * k * c.Dot(c) == 1.0)
  }

  /**
   * The constructor: edges `v1 - v0` and `v2 - v0`, and the normal
   * `e1 x e2` scaled to unit length by `k`.
   */
  function NewTriangle(v0: Vec3, v1: Vec3, v2: Vec3, k: real, m: Option<Material>): (t: Triangle)
    requires NormalizingFactor(v1.Minus(v0).Cross(v2.Minus(v0)), k)
    ensures t.v0 == v0 && t.v1 == v1 && t.v2 == v2 && t.m == m
    ensures t.v0.Plus(t.e1) == v1 && t.v0.Plus(t.e2) == v2
    ensures exists c: real :: c > 0.0 && t.normal == t.e1.Cross(t.e2).Scale(c)
    ensures t.e1.Cross(t.e2) != Zero() ==> t.normal.Dot(t.normal) == 1.0
  {
    var e1, e2 := v1.Minus(v0), v2.Minus(v0);
    var n := e1.Cross(e2).Scale(k);
    UnitNormal(e1.Cross(e2), k);
    assert n == e1.Cross(e2).Scale(k);
    Triangle(v0, v1, v2, e1, e2, n, m)
  }

  /** Scaling a non-zero vector by its normalising factor gives unit length. */
  lemma UnitNormal(c: Vec3, k: real)
    requires NormalizingFactor(c, k)
    ensures c != Zero() ==> c.Scale(k).Dot(c.Scale(k)) == 1.0
  {
    ScaledSelfDot(c, k);
  }

  /** `(c k) . (c k) = k^2 (c . c)`. */
  lemma ScaledSelfDot(c: Vec3, k: real)
    ensures c.Scale(k).Dot(c.Scale(k)) == k * k * c.Dot(c)
  {
    assert (c.x * k) * (c.x * k) == k * k * (c.x * c.x);
    assert (c.y * k) * (c.y * k) == k * k * (c.y * c.y);
    assert (c.z * k) * (c.z * k) == k * k * (c.z * c.z);
  }

  /** The barycentric coordinates and ray distance of a triangle hit. */
  datatype Barycentric = Barycentric(u: real, v: real, t: real)

  /** The determinant `Triangle::getIntersection` tests: `e1 . (dir x e2)`. */
  function TriangleDeterminant(tri: Triangle, ray: Ray): real
  {
    tri.e1.Dot(ray.direction.Cross(tri.e2))
  }

  /**
   * The test inside `Triangle::getIntersection`: a ray along the normal, a
   * determinant within EPSILON of zero, `u` outside `[0, 1]`, `v` below 0 or
   * `u + v` above 1, and a negative distance all miss.
   */
  function MollerTrumbore(tri: Triangle, ray: Ray): (h: Option<Barycentric>)
    ensures ray.direction.Dot(tri.normal) > 0.0 ==> h.None?
    ensures -Epsilon < TriangleDeterminant(tri, ray) < Epsilon ==> h.None?
    ensures h.Some? ==> 0.0 <= h.value.u <= 1.0 && 0.0 <= h.value.v && h.value.u + h.value.v <= 1.0
    ensures h.Some? ==> h.value.t >= 0.0
  {
    if ray.direction.Dot(tri.normal) > 0.0 then None
    else
      var pvec := ray.direction.Cross(tri.e2);
      var det := tri.e1.Dot(pvec);
      if (if det < 0.0 then -det else det) < Epsilon then None
      else
        var detInv := 1.0 / det;
        var tvec := ray.origin.Minus(tri.v0);
        var u := tvec.Dot(pvec) * detInv;
        if u < 0.0 || u > 1.0 then None
        else
          var qvec := tvec.Cross(tri.e1);
          var v := ray.direction.Dot(qvec) * detInv;
          if v < 0.0 || u + v > 1.0 then None
          else
            var t := tri.e2.Dot(qvec) * detInv;
            if t < 0.0 then None
            else Some(Barycentric(u, v, t))
  }

  /** Swapping two factors of the scalar triple product flips its sign: `e1 . (d x e2) = -(d . (e1 x e2))`. */
  lemma TripleProductSwap(e1: Vec3, d: Vec3, e2: Vec3)
    ensures e1.Dot(d.Cross(e2)) == -d.Dot(e1.Cross(e2))
  {
  }

  /** `d . (c k) = k (d . c)`. */
  lemma DotScaled(d: Vec3, c: Vec3, k: real)
    ensures d.Dot(c.Scale(k)) == k * d.Dot(c)
  {
  }

  /**
   * For a constructed triangle the normal test is the sign of the
   * determinant: the ray runs along the normal exactly when the determinant
   * is negative, so a hit always has a determinant of at least EPSILON.
   */
  lemma FrontFaceOnly(v0: Vec3, v1: Vec3, v2: Vec3, k: real, m: Option<Material>, ray: Ray)
    requires NormalizingFactor(v1.Minus(v0).Cross(v2.Minus(v0)), k)
    ensures var tri := NewTriangle(v0, v1, v2, k, m);
      && (ray.direction.Dot(tri.normal) > 0.0 <==> TriangleDeterminant(tri, ray) < 0.0)
      && (MollerTrumbore(tri, ray).Some? ==> TriangleDeterminant(tri, ray) >= Epsilon)
  {
    var tri := NewTriangle(v0, v1, v2, k, m);
    var d, c := ray.direction, tri.e1.Cross(tri.e2);
    TripleProductSwap(tri.e1, d, tri.e2);
    DotScaled(d, c, k);
    assert tri.normal == c.Scale(k);
    if d.Dot(c) > 0.0 {
      Arith.MulStrictMonotone(0.0, d.Dot(c), k);
    } else {
      Arith.MulMonotone(d.Dot(c), 0.0, k);
    }
  }

  /** A hit lies on the triangle's plane at its barycentric coordinates: `ray(t) = v0 + u e1 + v e2`. */
  lemma MollerTrumboreHitPoint(tri: Triangle, ray: Ray)
    ensures var h := MollerTrumbore(tri, ray);
      h.Some? ==> ray.At(h.value.t) == tri.v0.Plus(tri.e1.Scale(h.value.u)).Plus(tri.e2.Scale(h.value.v))
  {
    MollerTrumboreValues(tri, ray);
    var h := MollerTrumbore(tri, ray);
    if h.Some? {
      QuotientsHit(tri.e1, tri.e2, tri.v0, ray.origin, ray.direction, h.value);
    }
  }

  /** Coordinates and distance given as the three quotients name the same point. */
  lemma QuotientsHit(e1: Vec3, e2: Vec3, v0: Vec3, o: Vec3, d: Vec3, h: Barycentric)
    requires var t := o.Minus(v0);
      var det := e1.Dot(d.Cross(e2));
      det != 0.0 && h == Barycentric(
        t.Dot(d.Cross(e2)) * (1.0 / det), d.Dot(t.Cross(e1)) * (1.0 / det), e2.Dot(t.Cross(e1)) * (1.0 / det))
    ensures o.Plus(d.Scale(h.t)) == v0.Plus(e1.Scale(h.u)).Plus(e2.Scale(h.v))
  {
    PlaneHit(e1, e2, d, o.Minus(v0), v0, o);
  }

  /** A hit's coordinates and distance are the three quotients by a nonzero determinant. */
  lemma MollerTrumboreValues(tri: Triangle, ray: Ray)
    ensures var h, d, t := MollerTrumbore(tri, ray), ray.direction, ray.origin.Minus(tri.v0);
      var det := tri.e1.Dot(d.Cross(tri.e2));
      h.Some? ==> det != 0.0 && h.value == Barycentric(
        t.Dot(d.Cross(tri.e2)) * (1.0 / det), d.Dot(t.Cross(tri.e1)) * (1.0 / det), tri.e2.Dot(t.Cross(tri.e1)) * (1.0 / det))
  {
  }

  /**
   * `Triangle::getIntersection`: the default record on a miss; on a hit the
   * point `ray(t)`, the triangle's normal, the distance `t`, the triangle
   * itself and its material.
   */
  function TriangleIntersect(tri: Triangle, ray: Ray): (r: Intersection<Object>)
    ensures !r.happened <==> MollerTrumbore(tri, ray).None?
    ensures !r.happened ==> r == Empty()
    ensures r.happened ==> r.distance >= 0.0 && r.coords == ray.At(r.distance)
    ensures r.happened ==> r.obj == Some(TriangleObject(tri)) && r.m == tri.m && r.normal == tri.normal
  {
    match MollerTrumbore(tri, ray)
    case None => Empty()
    case Some(h) => Empty().(happened := true, coords := ray.At(h.t), normal := tri.normal,
                             distance := h.t, obj := Some(TriangleObject(tri)), m := tri.m)
  }

  /**
   * For a triangle built by the constructor, a hit record's point is the
   * barycentric combination of the three vertices with weights that are
   * non-negative and sum to one.
   */
  lemma TriangleHitIsOnTriangle(v0: Vec3, v1: Vec3, v2: Vec3, k: real, m: Option<Material>, ray: Ray)
    requires NormalizingFactor(v1.Minus(v0).Cross(v2.Minus(v0)), k)
    ensures var tri := NewTriangle(v0, v1, v2, k, m);
      var h := MollerTrumbore(tri, ray);
      h.Some? ==>
        && TriangleIntersect(tri, ray).coords == v0.Plus(v1.Minus(v0).Scale(h.value.u)).Plus(v2.Minus(v0).Scale(h.value.v))
        && 0.0 <= h.value.u && 0.0 <= h.value.v && 1.0 - h.value.u - h.value.v >= 0.0
  {
    MollerTrumboreHitPoint(NewTriangle(v0, v1, v2, k, m), ray);
  }

  /** `Triangle::getBounds`: the box of `v0` and `v1`, then the point `Union` with `v2`. */
  function TriangleBounds(tri: Triangle): (b: Bounds3)
    ensures b.pMin == Lift(tri.v2) || b.pMin == FromPoints(tri.v0, tri.v1).pMin
    ensures b.pMax == Lift(tri.v2) || b.pMax == FromPoints(tri.v0, tri.v1).pMax
  {
    UnionPoint(FromPoints(tri.v0, tri.v1), Lift(tri.v2))
  }

  /**
   * Because the point `Union` copies a whole corner, a triangle's box can
   * leave out one of its own vertices.
   */
  lemma TriangleBoundsMissVertex(tri: Triangle)
    requires tri.v0 == Vec3(0.0, 0.0, 0.0) && tri.v1 == Vec3(1.0, 1.0, 1.0) && tri.v2 == Vec3(2.0, 0.5, 0.5)
    ensures TriangleBounds(tri) == Bounds3(Lift(tri.v0), Lift(tri.v2))
    ensures !Inside(tri.v1, TriangleBounds(tri))
  {
    assert FromPoints(tri.v0, tri.v1) == Bounds3(Lift(tri.v0), Lift(tri.v1));
  }

  /** The two `intersect` overloads are stubs: the first always reports a hit, the second never does. */
  function TriangleIntersectsAny(tri: Triangle, ray: Ray): (hit: bool)
  {
    true
  }

  function TriangleIntersectIndexed(tri: Triangle, ray: Ray, tnear: real, index: int): (hit: bool)
  {
    false
  }

  /** The two stubs disagree on every triangle and ray, whatever the real geometry. */
  lemma IntersectStubsDisagree(tri: Triangle, ray: Ray, tnear: real, index: int)
    ensures TriangleIntersectsAny(tri, ray) != TriangleIntersectIndexed(tri, ray, tnear, index)
    ensures MollerTrumbore(tri, ray).None? ==> TriangleIntersectsAny(tri, ray)
  {
  }

  /**
   * `Triangle::Sample`: the caller's record gets the point
   * `v0 (1 - x) + v1 (x (1 - y)) + v2 (x y)` and the triangle's normal, and
   * the pdf is one over the area. `x` stands for the square root of the first
   * random draw and `y` for the second.
   */
  function TriangleSample(tri: Triangle, pos: Intersection<Object>, x: real, y: real): (s: Sampled<Object>)
    ensures s.pos == pos.(coords := s.pos.coords, normal := tri.normal)
    ensures s.pdf * TriangleArea == 1.0
  {
    var coords := tri.v0.Scale(1.0 - x).Plus(tri.v1.Scale(x * (1.0 - y))).Plus(tri.v2.Scale(x * y));
    Sampled(pos.(coords := coords, normal := tri.normal), 1.0 / TriangleArea)
  }

  /** For draws in `[0, 1]` the three weights are non-negative and sum to one. */
  lemma SampleWeights(x: real, y: real)
    requires 0.0 <= x <= 1.0 && 0.0 <= y <= 1.0
    ensures 0.0 <= 1.0 - x && 0.0 <= x * (1.0 - y) && 0.0 <= x * y
    ensures (1.0 - x) + x * (1.0 - y) + x * y == 1.0
    ensures x * (1.0 - y) + x * y <= 1.0
  {
    assert x * (1.0 - y) >= 0.0 by {
      Arith.MulMonotone(0.0, x, 1.0 - y);
    }
    assert x * y >= 0.0 by {
      Arith.MulMonotone(0.0, x, y);
    }
  }

  /**
   * For a triangle built by the constructor and draws in `[0, 1]`, the sampled
   * point is `v0 + s e1 + t e2` with `s, t >= 0` and `s + t <= 1`: the same
   * barycentric domain a ray hit is accepted in.
   */
  lemma SamplePointOnTriangle(v0: Vec3, v1: Vec3, v2: Vec3, k: real, m: Option<Material>,
                              pos: Intersection<Object>, x: real, y: real)
    requires NormalizingFactor(v1.Minus(v0).Cross(v2.Minus(v0)), k)
    requires 0.0 <= x <= 1.0 && 0.0 <= y <= 1.0
    ensures var tri := NewTriangle(v0, v1, v2, k, m);
      var s, t := x * (1.0 - y), x * y;
      && TriangleSample(tri, pos, x, y).pos.coords == v0.Plus(tri.e1.Scale(s)).Plus(tri.e2.Scale(t))
      && 0.0 <= s && 0.0 <= t && s + t <= 1.0
  {
    SampleWeights(x, y);
    var s, t := x * (1.0 - y), x * y;
    assert 1.0 - x == 1.0 - s - t;
    AffineWeights(v0.x, v1.x, v2.x, s, t);
    AffineWeights(v0.y, v1.y, v2.y, s, t);
    AffineWeights(v0.z, v1.z, v2.z, s, t);
  }

  /** One coordinate of the barycentric rewriting `a (1 - s - t) + b s + c t = a + (b - a) s + (c - a) t`. */
  lemma AffineWeights(a: real, b: real, c: real, s: real, t: real)
    ensures a * (1.0 - s - t) + b * s + c * t == a + (b - a) * s + (c - a) * t
  {
  }

  // ----- MeshTriangle -----

  /** One face of a loaded mesh: its three vertices and the factor that normalises `(b - a) x (c - a)`. */
  datatype Face = Face(a: Vec3, b: Vec3, c: Vec3, k: real)

  /** Every face carries its normalising factor. */
  predicate ValidFaces(faces: seq<Face>)
  {
    forall i | 0 <= i < |faces| :: NormalizingFactor(faces[i].b.Minus(faces[i].a).Cross(faces[i].c.Minus(faces[i].a)), faces[i].k)
  }

  /**
   * A mesh: the box of its vertices, its triangles, the BVH over them (absent
   * when never built), its total area and its material.
   */
  datatype MeshTriangle = MeshTriangle(
    boundingBox: Bounds3,
    triangles: seq<Triangle>,
    bvh: Option<Accel<Triangle>>,
    area: real,
    m: Material)

  /** The area each triangle reports. */
  function TriangleAreaOf(tri: Triangle): real
  {
    TriangleArea
  }

  /** The BVH's intersection routine for triangles. */
  function TriangleHit(tri: Triangle, ray: Ray): Intersection<Object>
  {
    TriangleIntersect(tri, ray)
  }

  /** The vertices of the faces, three per face, in loading order. */
  function FaceVertices(faces: seq<Face>): (vs: seq<Vec3>)
    ensures |vs| == 3 * |faces|
    ensures forall i | 0 <= i < |faces| :: vs[3 * i] == faces[i].a && vs[3 * i + 1] == faces[i].b && vs[3 * i + 2] == faces[i].c
  {
    if |faces| == 0 then []
    else [faces[0].a, faces[0].b, faces[0].c] + FaceVertices(faces[1..])
  }

  /** The running componentwise `std::min` of the vertices, started from `acc`. */
  function MinFold(acc: EVec3, vs: seq<Vec3>): EVec3
    decreases |vs|
  {
    if |vs| == 0 then acc
    else MinFold(EVec3(StdMin(acc.x, Fin(vs[0].x)), StdMin(acc.y, Fin(vs[0].y)), StdMin(acc.z, Fin(vs[0].z))), vs[1..])
  }

  /** The running componentwise `std::max` of the vertices, started from `acc`. */
  function MaxFold(acc: EVec3, vs: seq<Vec3>): EVec3
    decreases |vs|
  {
    if |vs| == 0 then acc
    else MaxFold(EVec3(StdMax(acc.x, Fin(vs[0].x)), StdMax(acc.y, Fin(vs[0].y)), StdMax(acc.z, Fin(vs[0].z))), vs[1..])
  }

  /** No component is NaN. */
  predicate NoNaN(e: EVec3)
  {
    e.x.IsNumber() && e.y.IsNumber() && e.z.IsNumber()
  }

  /** `a <= b` on every axis. */
  predicate Below(a: EVec3, b: EVec3)
  {
    a.x.Le(b.x) && a.y.Le(b.y) && a.z.Le(b.z)
  }

  /** The running minimum is at most its start and every vertex. */
  lemma {:induction false} MinFoldBelow(acc: EVec3, vs: seq<Vec3>)
    requires NoNaN(acc)
    ensures NoNaN(MinFold(acc, vs)) && Below(MinFold(acc, vs), acc)
    ensures forall i | 0 <= i < |vs| :: Below(MinFold(acc, vs), Lift(vs[i]))
    decreases |vs|
  {
    if |vs| > 0 {
      var v := Lift(vs[0]);
      var next := EVec3(StdMin(acc.x, v.x), StdMin(acc.y, v.y), StdMin(acc.z, v.z));
      StdMinMaxOfNumbers(acc.x, v.x);
      StdMinMaxOfNumbers(acc.y, v.y);
      StdMinMaxOfNumbers(acc.z, v.z);
      MinFoldBelow(next, vs[1..]);
      var r := MinFold(acc, vs);
      assert r == MinFold(next, vs[1..]);
      LeTransitive(r.x, next.x, acc.x);
      LeTransitive(r.y, next.y, acc.y);
      LeTransitive(r.z, next.z, acc.z);
      forall i | 0 <= i < |vs|
        ensures Below(r, Lift(vs[i]))
      {
        if i == 0 {
          LeTransitive(r.x, next.x, v.x);
          LeTransitive(r.y, next.y, v.y);
          LeTransitive(r.z, next.z, v.z);
        } else {
          assert vs[i] == vs[1..][i - 1];
        }
      }
    }
  }

  /** The running maximum is at least its start and every vertex. */
  lemma {:induction false} MaxFoldAbove(acc: EVec3, vs: seq<Vec3>)
    requires NoNaN(acc)
    ensures NoNaN(MaxFold(acc, vs)) && Below(acc, MaxFold(acc, vs))
    ensures forall i | 0 <= i < |vs| :: Below(Lift(vs[i]), MaxFold(acc, vs))
    decreases |vs|
  {
    if |vs| > 0 {
      var v := Lift(vs[0]);
      var next := EVec3(StdMax(acc.x, v.x), StdMax(acc.y, v.y), StdMax(acc.z, v.z));
      StdMinMaxOfNumbers(acc.x, v.x);
      StdMinMaxOfNumbers(acc.y, v.y);
      StdMinMaxOfNumbers(acc.z, v.z);
      MaxFoldAbove(next, vs[1..]);
      var r := MaxFold(acc, vs);
      assert r == MaxFold(next, vs[1..]);
      LeTransitive(acc.x, next.x, r.x);
      LeTransitive(acc.y, next.y, r.y);
      LeTransitive(acc.z, next.z, r.z);
      forall i | 0 <= i < |vs|
        ensures Below(Lift(vs[i]), r)
      {
        if i == 0 {
          LeTransitive(v.x, next.x, r.x);
          LeTransitive(v.y, next.y, r.y);
          LeTransitive(v.z, next.z, r.z);
        } else {
          assert vs[i] == vs[1..][i - 1];
        }
      }
    }
  }

  /**
   * The part of the `MeshTriangle` constructor after the file is loaded: one
   * triangle per face with the mesh's material, the box of all vertices from
   * the running `std::min`/`std::max` started at the infinities, the area as
   * the sum of the triangles' areas, and a BVH over the triangles.
   */
  function NewMesh(faces: seq<Face>, m: Material): (mesh: MeshTriangle)
    requires ValidFaces(faces)
    ensures |mesh.triangles| == |faces| && mesh.m == m
    ensures forall i | 0 <= i < |faces| ::
      mesh.triangles[i] == NewTriangle(faces[i].a, faces[i].b, faces[i].c, faces[i].k, Some(m))
    ensures mesh.bvh.Some? && mesh.bvh.value == NewAccel(TriangleBounds, TriangleAreaOf, mesh.triangles)
  {
    var tris := seq(|faces|, i requires 0 <= i < |faces| => NewTriangle(faces[i].a, faces[i].b, faces[i].c, faces[i].k, Some(m)));
    var vs := FaceVertices(faces);
    var box := Span(MinFold(Splat(PosInf), vs), MaxFold(Splat(NegInf), vs));
    MeshTriangle(box, tris, Some(NewAccel(TriangleBounds, TriangleAreaOf, tris)), SumReals(AreasOf(TriangleAreaOf, tris)), m)
  }

  /** The sum of `n` copies of the triangle area. */
  lemma {:induction false} SumOfTriangleAreas(tris: seq<Triangle>)
    ensures SumReals(AreasOf(TriangleAreaOf, tris)) == TriangleArea * (|tris| as real)
    decreases |tris|
  {
    if |tris| > 0 {
      SumOfTriangleAreas(tris[1..]);
    }
  }

  /**
   * A mesh's area is the sum of its triangles' areas, so 1.5 per face, and
   * a non-empty mesh's BVH root carries the same area.
   */
  lemma MeshArea(faces: seq<Face>, m: Material)
    requires ValidFaces(faces)
    ensures var mesh := NewMesh(faces, m);
      && mesh.area == SumReals(AreasOf(TriangleAreaOf, mesh.triangles))
      && mesh.area == TriangleArea * (|faces| as real)
      && (|faces| >= 1 <==> mesh.bvh.value.root.Some?)
      && (|faces| >= 1 ==> mesh.bvh.value.root.value.area == mesh.area)
  {
    var mesh := NewMesh(faces, m);
    SumOfTriangleAreas(mesh.triangles);
    if |faces| >= 1 {
      BuildAreaIsSum(TriangleBounds, TriangleAreaOf, mesh.triangles);
    }
  }

  /**
   * Unlike a single triangle's box, the mesh box holds every vertex of every
   * face: the running minimum and maximum bracket each vertex.
   */
  lemma MeshBoxContainsVertices(faces: seq<Face>, m: Material, i: int)
    requires ValidFaces(faces) && 0 <= i < |faces|
    ensures var box := NewMesh(faces, m).boundingBox;
      Inside(faces[i].a, box) && Inside(faces[i].b, box) && Inside(faces[i].c, box)
  {
    var vs := FaceVertices(faces);
    var lo, hi := MinFold(Splat(PosInf), vs), MaxFold(Splat(NegInf), vs);
    MinFoldBelow(Splat(PosInf), vs);
    MaxFoldAbove(Splat(NegInf), vs);
    assert Below(lo, Lift(vs[3 * i])) && Below(Lift(vs[3 * i]), hi);
    LeTransitive(lo.x, Lift(vs[3 * i]).x, hi.x);
    LeTransitive(lo.y, Lift(vs[3 * i]).y, hi.y);
    LeTransitive(lo.z, Lift(vs[3 * i]).z, hi.z);
    StdMinMaxOfNumbers(lo.x, hi.x);
    StdMinMaxOfNumbers(lo.y, hi.y);
    StdMinMaxOfNumbers(lo.z, hi.z);
    LeTotal(lo.x, hi.x);
    LeTotal(lo.y, hi.y);
    LeTotal(lo.z, hi.z);
    var box := Span(lo, hi);
    assert box == Bounds3(lo, hi);
    assert Below(lo, Lift(vs[3 * i + 1])) && Below(Lift(vs[3 * i + 1]), hi);
    assert Below(lo, Lift(vs[3 * i + 2])) && Below(Lift(vs[3 * i + 2]), hi);
  }

  /** The BVH of a mesh exists and, when it has a root, was built by the builder. */
  predicate MeshQueryable(mesh: MeshTriangle)
  {
    mesh.bvh.Some? ==> mesh.bvh.value.root.Some? ==> Shaped(mesh.bvh.value.root.value)
  }

  /** `MeshTriangle::getIntersection`: the default record without a BVH, otherwise the BVH's answer. */
  function MeshIntersect(mesh: MeshTriangle, ray: Ray): (r: Intersection<Object>)
    requires MeshQueryable(mesh)
    ensures mesh.bvh.None? ==> r == Empty()
    ensures mesh.bvh.Some? ==> r == BvhQuery.Intersect(mesh.bvh.value, ray, TriangleHit)
  {
    if mesh.bvh.Some? then BvhQuery.Intersect(mesh.bvh.value, ray, TriangleHit) else Empty()
  }

  /** A mesh hit is the default record or the hit record of one of the mesh's own triangles. */
  lemma MeshHitFromTriangle(faces: seq<Face>, m: Material, ray: Ray)
    requires ValidFaces(faces)
    ensures var mesh := NewMesh(faces, m);
      var r := MeshIntersect(mesh, ray);
      r == Empty() || exists tri :: tri in mesh.triangles && r == TriangleIntersect(tri, ray)
  {
    var mesh := NewMesh(faces, m);
    var a := mesh.bvh.value;
    if a.root.Some? {
      GetIntersectionFromLeaf(a.root.value, ray, TriangleHit);
      var r := MeshIntersect(mesh, ray);
      if r != Empty() {
        var o :| o in Leaves(a.root.value) && r == TriangleHit(o, ray);
        assert o in multiset(Leaves(a.root.value));
      }
    }
  }

  /** The random numbers one object sample consumes: the BVH's descent draw and the triangle's two draws. */
  datatype Draws = Draws(u: real, x: real, y: real)

  /** Sampling each triangle with the same caller record and draws. */
  function SampleWith(pos: Intersection<Object>, d: Draws): Triangle -> Sampled<Object>
  {
    (tri: Triangle) => TriangleSample(tri, pos, d.x, d.y)
  }

  /** The BVH of a mesh exists and has a root built by the builder, as `Sample` dereferences both. */
  predicate MeshSampleable(mesh: MeshTriangle)
  {
    mesh.bvh.Some? && mesh.bvh.value.root.Some? && Shaped(mesh.bvh.value.root.value)
  }

  /**
   * `MeshTriangle::Sample`: the BVH samples one triangle into the caller's
   * record, then the record's emission is set to the mesh material's.
   */
  function MeshSample(mesh: MeshTriangle, pos: Intersection<Object>, d: Draws): (s: Drawn<Object>)
    requires MeshSampleable(mesh)
    ensures s.pos.emit == mesh.m.emission
    ensures var b := Sample(mesh.bvh.value, d.u, SampleWith(pos, d));
      s.pdf == b.pdf && s.pos == b.pos.(emit := mesh.m.emission)
  {
    var b := Sample(mesh.bvh.value, d.u, SampleWith(pos, d));
    Drawn(b.pos.(emit := mesh.m.emission), b.pdf)
  }

  /**
   * The leaves of a BVH over triangles all have the triangle area and, when
   * every triangle reports a pdf of `1 / area`, each leaf's pdf times its area is one.
   */
  lemma BuiltTrianglesInverseArea(tris: seq<Triangle>, sampleOf: Triangle -> Sampled<Object>)
    requires |tris| >= 1
    requires forall tri :: sampleOf(tri).pdf == 1.0 / TriangleArea
    ensures var root := Build(TriangleBounds, TriangleAreaOf, tris);
      AreasAdd(root) && NonNegative(LeafAreas(root)) && InverseAreaLeaves(root, sampleOf)
  {
    var root := Build(TriangleBounds, TriangleAreaOf, tris);
    BuildCarries(TriangleBounds, TriangleAreaOf, tris);
    LeafAreasAreObjectAreas(TriangleBounds, TriangleAreaOf, root);
    TriangleLeavesInverseArea(root, sampleOf);
  }

  /** Any tree whose leaf areas are its triangles' areas has the fixed area at every leaf. */
  lemma TriangleLeavesInverseArea(root: BuildNode<Triangle>, sampleOf: Triangle -> Sampled<Object>)
    requires Shaped(root) && LeafAreas(root) == AreasOf(TriangleAreaOf, Leaves(root))
    requires forall tri :: sampleOf(tri).pdf == 1.0 / TriangleArea
    ensures NonNegative(LeafAreas(root)) && InverseAreaLeaves(root, sampleOf)
  {
    forall i | 0 <= i < |Leaves(root)|
      ensures LeafAreas(root)[i] == TriangleArea
      ensures Product(sampleOf(Leaves(root)[i]).pdf, LeafAreas(root)[i]) == 1.0
    {
      assert LeafAreas(root)[i] == TriangleAreaOf(Leaves(root)[i]);
    }
  }

  /**
   * Every triangle reports one over the fixed triangle area, so the pdf value
   * a built mesh reports is one over the mesh's area. Neither value is the
   * density of the draw: the leaf choice follows the square-rooted draw, and
   * the fixed area is not the triangle's own.
   */
  lemma MeshSamplePdfIsInverseArea(faces: seq<Face>, m: Material, pos: Intersection<Object>, d: Draws)
    requires ValidFaces(faces) && |faces| >= 1
    ensures var mesh := NewMesh(faces, m);
      && MeshSampleable(mesh) && mesh.area > 0.0
      && MeshSample(mesh, pos, d).pdf == Fin(1.0 / mesh.area)
  {
    var mesh := NewMesh(faces, m);
    MeshArea(faces, m);
    BuiltTrianglesInverseArea(mesh.triangles, SampleWith(pos, d));
    SamplePdfIsInverseArea(mesh.bvh.value, d.u, SampleWith(pos, d));
  }

  // ----- Object -----

  /** What the scene holds: a single triangle or a mesh. */
  datatype Object = TriangleObject(tri: Triangle) | MeshObject(mesh: MeshTriangle)

  function ObjectBounds(o: Object): Bounds3
  {
    match o
    case TriangleObject(tri) => TriangleBounds(tri)
    case MeshObject(mesh) => mesh.boundingBox
  }

  function ObjectArea(o: Object): (a: real)
    ensures o.TriangleObject? ==> a == TriangleArea
    ensures o.MeshObject? ==> a == o.mesh.area
  {
    match o
    case TriangleObject(_) => TriangleArea
    case MeshObject(mesh) => mesh.area
  }

  /** `hasEmit`: the object's material emits. A triangle dereferences its material, so it must have one. */
  predicate ObjectHasEmit(o: Object)
    requires o.TriangleObject? ==> o.tri.m.Some?
  {
    match o
    case TriangleObject(tri) => HasEmission(tri.m.value)
    case MeshObject(mesh) => HasEmission(mesh.m)
  }

  /** What the scene needs of an object before it can intersect it. */
  predicate ObjectQueryable(o: Object)
  {
    o.MeshObject? ==> MeshQueryable(o.mesh)
  }

  /** `getIntersection` dispatched on the object's kind. */
  function ObjectIntersect(o: Object, ray: Ray): (r: Intersection<Object>)
    requires ObjectQueryable(o)
    ensures o.TriangleObject? ==> r == TriangleIntersect(o.tri, ray)
    ensures o.MeshObject? ==> r == MeshIntersect(o.mesh, ray)
  {
    match o
    case TriangleObject(tri) => TriangleIntersect(tri, ray)
    case MeshObject(mesh) => MeshIntersect(mesh, ray)
  }

  /** What the scene needs of an object before it can sample it. */
  predicate ObjectSampleable(o: Object)
  {
    o.MeshObject? ==> MeshSampleable(o.mesh)
  }

  /** `Sample` dispatched on the object's kind; a triangle's pdf is finite. */
  function ObjectSample(o: Object, pos: Intersection<Object>, d: Draws): (s: Drawn<Object>)
    requires ObjectSampleable(o)
    ensures o.TriangleObject? ==>
      s == Drawn(TriangleSample(o.tri, pos, d.x, d.y).pos, Fin(1.0 / TriangleArea))
    ensures o.MeshObject? ==> s == MeshSample(o.mesh, pos, d)
  {
    match o
    case TriangleObject(tri) =>
      var t := TriangleSample(tri, pos, d.x, d.y);
      Drawn(t.pos, Fin(t.pdf))
    case MeshObject(mesh) => MeshSample(mesh, pos, d)
  }
}
