/**
 * `Union` and the ray/box test as they are evidently meant to work, next to
 * the definitions in `Bounds` that follow the code: the union takes the
 * componentwise extremes of the corners, and the slab test swaps an axis's
 * two values when the direction is negative on it and then compares the
 * LARGEST entry with the SMALLEST exit. With the corrected union the
 * builder's centroid box holds the centroids, so the split axis is the one
 * along which they spread furthest.
 */
module BoundsCorrected {
  import opened Floats
  import opened Vectors
  import opened Rays
  import opened Bounds
  import opened BvhBuild
  import Arith

  // ---------------------------------------------------------------------------
  // Union
  // ---------------------------------------------------------------------------

  /** No corner component is NaN. */
  predicate NumberCorners(b: Bounds3)
  {
    && b.pMin.x.IsNumber() && b.pMin.y.IsNumber() && b.pMin.z.IsNumber()
    && b.pMax.x.IsNumber() && b.pMax.y.IsNumber() && b.pMax.z.IsNumber()
  }

  /** The componentwise `std::min` and `std::max` of two float vectors. */
  function MinCorner(a: EVec3, c: EVec3): EVec3
  {
    EVec3(StdMin(a.x, c.x), StdMin(a.y, c.y), StdMin(a.z, c.z))
  }

  function MaxCorner(a: EVec3, c: EVec3): EVec3
  {
    EVec3(StdMax(a.x, c.x), StdMax(a.y, c.y), StdMax(a.z, c.z))
  }

  /** The union of two boxes with each corner formed axis by axis. */
  function UnionFixed(b1: Bounds3, b2: Bounds3): Bounds3
  {
    Bounds3(MinCorner(b1.pMin, b2.pMin), MaxCorner(b1.pMax, b2.pMax))
  }

  /** The union of a box and a point with each corner formed axis by axis. */
  function UnionPointFixed(b: Bounds3, p: EVec3): Bounds3
  {
    UnionFixed(b, Bounds3(p, p))
  }

  /** One axis of containment: a coordinate inside `[lo, hi]` is inside the widened interval. */
  lemma WidenedAxis(lo: Ext, hi: Ext, lo': Ext, hi': Ext, x: real)
    requires lo.Le(Fin(x)) && Fin(x).Le(hi)
    requires lo'.IsNumber() && hi'.IsNumber()
    ensures StdMin(lo, lo').Le(Fin(x)) && Fin(x).Le(StdMax(hi, hi'))
    ensures StdMin(lo', lo).Le(Fin(x)) && Fin(x).Le(StdMax(hi', hi))
  {
    StdMinMaxOfNumbers(lo, lo');
    StdMinMaxOfNumbers(hi, hi');
    LeTransitive(StdMin(lo, lo'), lo, Fin(x));
    LeTransitive(Fin(x), hi, StdMax(hi, hi'));
  }

  /**
   * The corrected union contains every point of either argument, so every
   * point a BVH node's children hold lies in the node's box.
   */
  lemma UnionFixedContains(b1: Bounds3, b2: Bounds3, p: Vec3)
    requires NumberCorners(b1) && NumberCorners(b2)
    ensures Inside(p, b1) ==> Inside(p, UnionFixed(b1, b2))
    ensures Inside(p, b2) ==> Inside(p, UnionFixed(b1, b2))
  {
    if Inside(p, b1) {
      WidenedAxis(b1.pMin.x, b1.pMax.x, b2.pMin.x, b2.pMax.x, p.x);
      WidenedAxis(b1.pMin.y, b1.pMax.y, b2.pMin.y, b2.pMax.y, p.y);
      WidenedAxis(b1.pMin.z, b1.pMax.z, b2.pMin.z, b2.pMax.z, p.z);
    }
    if Inside(p, b2) {
      WidenedAxis(b2.pMin.x, b2.pMax.x, b1.pMin.x, b1.pMax.x, p.x);
      WidenedAxis(b2.pMin.y, b2.pMax.y, b1.pMin.y, b1.pMax.y, p.y);
      WidenedAxis(b2.pMin.z, b2.pMax.z, b1.pMin.z, b1.pMax.z, p.z);
    }
  }

  /**
   * The corrected point union contains the point and every point of the
   * box; started from the default box it is the one-point box.
   */
  lemma UnionPointFixedContains(b: Bounds3, p: Vec3, q: Vec3)
    requires NumberCorners(b)
    ensures Inside(p, UnionPointFixed(b, Lift(p)))
    ensures Inside(q, b) ==> Inside(q, UnionPointFixed(b, Lift(p)))
    ensures UnionPointFixed(Default(), Lift(p)) == FromPoint(p)
  {
    assert Inside(p, Bounds3(Lift(p), Lift(p)));
    UnionFixedContains(b, Bounds3(Lift(p), Lift(p)), p);
    UnionFixedContains(b, Bounds3(Lift(p), Lift(p)), q);
  }

  /** On the boxes where the written `Union` loses a point, the corrected one keeps it. */
  lemma UnionFixedKeepsLostPoint()
    ensures var b1 := FromPoints(Vec3(0.0, 0.0, 0.0), Vec3(1.0, 1.0, 1.0));
      var b2 := FromPoints(Vec3(0.5, -1.0, 0.5), Vec3(2.0, 2.0, 2.0));
      !Inside(Vec3(0.0, 0.0, 0.0), Union(b1, b2)) && Inside(Vec3(0.0, 0.0, 0.0), UnionFixed(b1, b2))
  {
    var b1 := FromPoints(Vec3(0.0, 0.0, 0.0), Vec3(1.0, 1.0, 1.0));
    var b2 := FromPoints(Vec3(0.5, -1.0, 0.5), Vec3(2.0, 2.0, 2.0));
    UnionDoesNotContain();
    UnionFixedContains(b1, b2, Vec3(0.0, 0.0, 0.0));
  }

  // ---------------------------------------------------------------------------
  // Ray/box test
  // ---------------------------------------------------------------------------

  /** The flags the test expects: negative exactly on the axes where the direction is negative. */
  function NegativeFlags(d: Vec3): (f: Int3)
    ensures (f.x < 0 <==> d.x < 0.0) && (f.y < 0 <==> d.y < 0.0) && (f.z < 0 <==> d.z < 0.0)
  {
    Int3(if d.x < 0.0 then -1 else 0, if d.y < 0.0 then -1 else 0, if d.z < 0.0 then -1 else 0)
  }

  /** The largest entry value after the swaps: where the ray enters the last slab. */
  function EnterTime(b: Bounds3, ray: Ray, invDir: EVec3): Ext
  {
    var f := NegativeFlags(ray.direction);
    StdMax(EntrySide(b, ray, invDir, f.x, 0),
           StdMax(EntrySide(b, ray, invDir, f.y, 1), EntrySide(b, ray, invDir, f.z, 2)))
  }

  /** The smallest exit value after the swaps: where the ray leaves the first slab. */
  function ExitTime(b: Bounds3, ray: Ray, invDir: EVec3): Ext
  {
    var f := NegativeFlags(ray.direction);
    StdMin(ExitSide(b, ray, invDir, f.x, 0),
           StdMin(ExitSide(b, ray, invDir, f.y, 1), ExitSide(b, ray, invDir, f.z, 2)))
  }

  /** The corrected slab test: the ray enters every slab before it leaves any, and leaves ahead of its origin. */
  predicate IntersectPFixed(b: Bounds3, ray: Ray, invDir: EVec3)
  {
    EnterTime(b, ray, invDir).Lt(ExitTime(b, ray, invDir)) && Fin(0.0).Le(ExitTime(b, ray, invDir))
  }

  /** `invDir` is finite and undoes the direction on every axis, so no component of the direction is zero. */
  predicate ReciprocalOf(invDir: EVec3, d: Vec3)
  {
    invDir.IsFinite() && d.x * invDir.x.v == 1.0 && d.y * invDir.y.v == 1.0 && d.z * invDir.z.v == 1.0
  }

  /** The point lies strictly inside the box on every axis. */
  predicate StrictlyInside(p: Vec3, b: Bounds3)
  {
    && b.pMin.x.Lt(Fin(p.x)) && Fin(p.x).Lt(b.pMax.x)
    && b.pMin.y.Lt(Fin(p.y)) && Fin(p.y).Lt(b.pMax.y)
    && b.pMin.z.Lt(Fin(p.z)) && Fin(p.z).Lt(b.pMax.z)
  }

  /** Comparing `x` with `d s` is comparing `x / d` with `s`, the other way round when `d` is negative. */
  lemma DivideSide(x: real, d: real, inv: real, s: real)
    requires d * inv == 1.0
    ensures d > 0.0 ==> (x <= d * s <==> x * inv <= s) && (x < d * s <==> x * inv < s)
    ensures d < 0.0 ==> (x <= d * s <==> s <= x * inv) && (x < d * s <==> s < x * inv)
  {
    assert d * s * inv == s * (d * inv);
    assert x * inv * d == x * (d * inv);
    if d > 0.0 {
      assert inv > 0.0;
      if x <= d * s { Arith.MulMonotone(x, d * s, inv); }
      if x * inv <= s { Arith.MulMonotone(x * inv, s, d); }
      if x < d * s { Arith.MulStrictMonotone(x, d * s, inv); }
      if x * inv < s { Arith.MulStrictMonotone(x * inv, s, d); }
    } else if d < 0.0 {
      assert inv < 0.0;
      if x < d * s { Arith.MulStrictMonotone(x, d * s, inv); }
      if s < x * inv { Arith.MulStrictMonotone(s, x * inv, d); }
    }
  }

  /**
   * One axis: with `en` and `ex` the entry and exit times after the swap, the
   * coordinate `c = o + d s` lies in `[lo, hi]` exactly when `s` lies in
   * `[en, ex]`, and strictly inside exactly when strictly inside.
   */
  /** What one axis of the slab test knows: `d` and `inv` are reciprocal, `c = o + d s`, and the swapped times. */
  predicate SlabFacts(lo: real, hi: real, o: real, d: real, inv: real, s: real, c: real, en: real, ex: real)
  {
    && d * inv == 1.0 && c == o + d * s
    && en == (if d < 0.0 then (hi - o) * inv else (lo - o) * inv)
    && ex == (if d < 0.0 then (lo - o) * inv else (hi - o) * inv)
  }

  lemma AxisInterval(lo: real, hi: real, o: real, d: real, inv: real, s: real, c: real, en: real, ex: real)
    requires SlabFacts(lo, hi, o, d, inv, s, c, en, ex)
    ensures lo <= c <= hi <==> en <= s <= ex
    ensures lo < c < hi <==> en < s < ex
  {
    DivideSide(lo - o, d, inv, s);
    DivideSide(hi - o, d, inv, s);
  }

  /** Axis `i`'s entry and exit times on a finite box as exact numbers. */
  function EnterAt(b: Bounds3, ray: Ray, invDir: EVec3, i: int): real
    requires IsFinite(b) && invDir.IsFinite() && 0 <= i <= 2
  {
    if ray.direction.Get(i) < 0.0 then ExitValue(b, ray, invDir, i) else EntryValue(b, ray, invDir, i)
  }

  function ExitAt(b: Bounds3, ray: Ray, invDir: EVec3, i: int): real
    requires IsFinite(b) && invDir.IsFinite() && 0 <= i <= 2
  {
    if ray.direction.Get(i) < 0.0 then EntryValue(b, ray, invDir, i) else ExitValue(b, ray, invDir, i)
  }

  /** On a finite box the corrected times are the largest entry and the smallest exit. */
  lemma FixedTimes(b: Bounds3, ray: Ray, invDir: EVec3)
    requires IsFinite(b) && invDir.IsFinite()
    ensures EnterTime(b, ray, invDir) == Fin(Max3(EnterAt(b, ray, invDir, 0), EnterAt(b, ray, invDir, 1), EnterAt(b, ray, invDir, 2)))
    ensures ExitTime(b, ray, invDir) == Fin(Min3(ExitAt(b, ray, invDir, 0), ExitAt(b, ray, invDir, 1), ExitAt(b, ray, invDir, 2)))
  {
    var f := NegativeFlags(ray.direction);
    FiniteSlabs(b, ray, invDir, 0);
    FiniteSlabs(b, ray, invDir, 1);
    FiniteSlabs(b, ray, invDir, 2);
    assert EntrySide(b, ray, invDir, f.x, 0) == Fin(EnterAt(b, ray, invDir, 0));
    assert EntrySide(b, ray, invDir, f.y, 1) == Fin(EnterAt(b, ray, invDir, 1));
    assert EntrySide(b, ray, invDir, f.z, 2) == Fin(EnterAt(b, ray, invDir, 2));
    assert ExitSide(b, ray, invDir, f.x, 0) == Fin(ExitAt(b, ray, invDir, 0));
    assert ExitSide(b, ray, invDir, f.y, 1) == Fin(ExitAt(b, ray, invDir, 1));
    assert ExitSide(b, ray, invDir, f.z, 2) == Fin(ExitAt(b, ray, invDir, 2));
  }

  /** On each axis the direction times its reciprocal is one. */
  lemma ReciprocalOnAxis(invDir: EVec3, d: Vec3, i: int)
    requires ReciprocalOf(invDir, d) && 0 <= i <= 2
    ensures d.Get(i) * invDir.Get(i).v == 1.0
  {
    if i == 0 {
      assert d.Get(i) * invDir.Get(i).v == d.x * invDir.x.v;
    } else if i == 1 {
      assert d.Get(i) * invDir.Get(i).v == d.y * invDir.y.v;
    } else {
      assert d.Get(i) * invDir.Get(i).v == d.z * invDir.z.v;
    }
  }

  /** Axis `i` of `ray(s)` is the origin's plus `s` times the direction's. */
  lemma AtOnAxis(ray: Ray, s: real, i: int)
    requires 0 <= i <= 2
    ensures ray.At(s).Get(i) == ray.origin.Get(i) + ray.direction.Get(i) * s
  {
  }

  /** Axis `i`'s entry time is the near face's distance scaled by the reciprocal. */
  lemma EnterOnAxis(b: Bounds3, ray: Ray, invDir: EVec3, i: int)
    requires IsFinite(b) && invDir.IsFinite() && 0 <= i <= 2
    ensures EnterAt(b, ray, invDir, i) == if ray.direction.Get(i) < 0.0
      then (b.pMax.Get(i).v - ray.origin.Get(i)) * invDir.Get(i).v
      else (b.pMin.Get(i).v - ray.origin.Get(i)) * invDir.Get(i).v
  {
  }

  /** Axis `i`'s exit time is the far face's distance scaled by the reciprocal. */
  lemma ExitOnAxis(b: Bounds3, ray: Ray, invDir: EVec3, i: int)
    requires IsFinite(b) && invDir.IsFinite() && 0 <= i <= 2
    ensures ExitAt(b, ray, invDir, i) == if ray.direction.Get(i) < 0.0
      then (b.pMin.Get(i).v - ray.origin.Get(i)) * invDir.Get(i).v
      else (b.pMax.Get(i).v - ray.origin.Get(i)) * invDir.Get(i).v
  {
  }

  /** Axis `i` of a finite box, a ray with reciprocal `invDir` and the point `ray(s)` meet the slab facts. */
  lemma SlabFactsOnAxis(b: Bounds3, ray: Ray, invDir: EVec3, s: real, i: int)
    requires IsFinite(b) && ReciprocalOf(invDir, ray.direction) && 0 <= i <= 2
    ensures SlabFacts(b.pMin.Get(i).v, b.pMax.Get(i).v, ray.origin.Get(i), ray.direction.Get(i), invDir.Get(i).v,
                      s, ray.At(s).Get(i), EnterAt(b, ray, invDir, i), ExitAt(b, ray, invDir, i))
  {
    ReciprocalOnAxis(invDir, ray.direction, i);
    AtOnAxis(ray, s, i);
    EnterOnAxis(b, ray, invDir, i);
    ExitOnAxis(b, ray, invDir, i);
  }

  /** Axis `i` of `ray(s)` lies in the box's slab exactly when `s` lies between that axis's times. */
  lemma AxisOfRay(b: Bounds3, ray: Ray, invDir: EVec3, s: real, i: int)
    requires IsFinite(b) && ReciprocalOf(invDir, ray.direction) && 0 <= i <= 2
    ensures var c := ray.At(s).Get(i);
      && (b.pMin.Get(i).v <= c <= b.pMax.Get(i).v <==> EnterAt(b, ray, invDir, i) <= s <= ExitAt(b, ray, invDir, i))
      && (b.pMin.Get(i).v < c < b.pMax.Get(i).v <==> EnterAt(b, ray, invDir, i) < s < ExitAt(b, ray, invDir, i))
  {
    SlabFactsOnAxis(b, ray, invDir, s, i);
    AxisInterval(b.pMin.Get(i).v, b.pMax.Get(i).v, ray.origin.Get(i), ray.direction.Get(i), invDir.Get(i).v,
                 s, ray.At(s).Get(i), EnterAt(b, ray, invDir, i), ExitAt(b, ray, invDir, i));
  }

  /**
   * For a finite box and a direction with no zero component, the corrected
   * test is sound and complete up to the boundary: an accepted ray meets the
   * closed box at some `s >= 0`, and a ray that passes strictly through the
   * box at some `s >= 0` is accepted.
   */
  lemma IntersectPFixedMeetsBox(b: Bounds3, ray: Ray, invDir: EVec3)
    requires IsFinite(b) && ReciprocalOf(invDir, ray.direction)
    ensures IntersectPFixed(b, ray, invDir) ==> exists s: real :: s >= 0.0 && Inside(ray.At(s), b)
    ensures (exists s: real :: s >= 0.0 && StrictlyInside(ray.At(s), b)) ==> IntersectPFixed(b, ray, invDir)
  {
    FixedTimes(b, ray, invDir);
    var en0, en1, en2 := EnterAt(b, ray, invDir, 0), EnterAt(b, ray, invDir, 1), EnterAt(b, ray, invDir, 2);
    var ex0, ex1, ex2 := ExitAt(b, ray, invDir, 0), ExitAt(b, ray, invDir, 1), ExitAt(b, ray, invDir, 2);
    var enter, exit := Max3(en0, en1, en2), Min3(ex0, ex1, ex2);
    assert IntersectPFixed(b, ray, invDir) <==> enter < exit && 0.0 <= exit;
    if enter < exit && 0.0 <= exit {
      var s := if enter < 0.0 then 0.0 else enter;
      AxisOfRay(b, ray, invDir, s, 0);
      AxisOfRay(b, ray, invDir, s, 1);
      AxisOfRay(b, ray, invDir, s, 2);
      assert Inside(ray.At(s), b);
    }
    if exists s: real :: s >= 0.0 && StrictlyInside(ray.At(s), b) {
      var s: real :| s >= 0.0 && StrictlyInside(ray.At(s), b);
      AxisOfRay(b, ray, invDir, s, 0);
      AxisOfRay(b, ray, invDir, s, 1);
      AxisOfRay(b, ray, invDir, s, 2);
      assert enter < s < exit;
    }
  }

  /** The all-negative ray the written test rejects is accepted by the corrected one. */
  lemma IntersectPFixedAcceptsNegativeRay(b: Bounds3, ray: Ray)
    requires b == Bounds3(Splat(Fin(-2.0)), Splat(Fin(-1.0)))
    requires ray.origin == Zero() && ray.direction == Vec3(-1.0, -1.0, -1.0)
    requires ray.directionInv == Splat(Fin(-1.0))
    ensures !IntersectP(b, ray, ray.directionInv, PositiveFlags(ray.direction))
    ensures IntersectPFixed(b, ray, ray.directionInv)
  {
    IntersectPRejectsNegativeRay(b, ray);
    assert StrictlyInside(ray.At(1.5), b);
    IntersectPFixedMeetsBox(b, ray, ray.directionInv);
  }

  /** The stored reciprocal of the direction `(1, -1, 1)` is `(1, -1, 1)`. */
  lemma MissingRayReciprocal(ray: Ray)
    requires ray.direction == Vec3(1.0, -1.0, 1.0)
    requires ray.directionInv == EVec3(Fin(1.0), Fin(-1.0), Fin(1.0))
    ensures ReciprocalOf(ray.directionInv, ray.direction)
  {
    assert -1.0 * -1.0 == 1.0;
  }

  /** No point of the missing ray at `s >= 0` lies in the box. */
  lemma MissingRayNeverInside(b: Bounds3, ray: Ray)
    requires b == Bounds3(Splat(Fin(1.0)), Splat(Fin(2.0)))
    requires ray.origin == Zero() && ray.direction == Vec3(1.0, -1.0, 1.0)
    ensures !exists s: real :: s >= 0.0 && Inside(ray.At(s), b)
  {
    forall s: real | s >= 0.0
      ensures !Inside(ray.At(s), b)
    {
      MissingRayOutside(b, ray, s);
    }
  }

  /** The corrected test rejects the missing ray, since the ray never enters the box. */
  lemma IntersectPFixedRejectsOutside(b: Bounds3, ray: Ray)
    requires b == Bounds3(Splat(Fin(1.0)), Splat(Fin(2.0)))
    requires ray.origin == Zero() && ray.direction == Vec3(1.0, -1.0, 1.0)
    requires ray.directionInv == EVec3(Fin(1.0), Fin(-1.0), Fin(1.0))
    ensures !IntersectPFixed(b, ray, ray.directionInv)
  {
    assert IsFinite(b);
    MissingRayReciprocal(ray);
    MissingRayNeverInside(b, ray);
    IntersectPFixedMeetsBox(b, ray, ray.directionInv);
  }

  /** The missing ray the written test accepts is rejected by the corrected one. */
  lemma IntersectPFixedRejectsMissingRay(b: Bounds3, ray: Ray)
    requires b == Bounds3(Splat(Fin(1.0)), Splat(Fin(2.0)))
    requires ray.origin == Zero() && ray.direction == Vec3(1.0, -1.0, 1.0)
    requires ray.directionInv == EVec3(Fin(1.0), Fin(-1.0), Fin(1.0))
    ensures IntersectP(b, ray, ray.directionInv, PositiveFlags(ray.direction))
    ensures !IntersectPFixed(b, ray, ray.directionInv)
  {
    IntersectPAcceptsMissingRay(b, ray);
    IntersectPFixedRejectsOutside(b, ray);
  }

  // ---------------------------------------------------------------------------
  // Centroid box and split axis
  // ---------------------------------------------------------------------------

  /** The builder's centroid fold with the corrected point union. */
  function CentroidBoxFixedFrom<T>(boundsOf: T -> Bounds3, b: Bounds3, s: seq<T>): Bounds3
    decreases |s|
  {
    if |s| == 0 then b else CentroidBoxFixedFrom(boundsOf, UnionPointFixed(b, Centroid(boundsOf(s[0]))), s[1..])
  }

  /** The split axis from the corrected centroid box. */
  function SplitAxisFixed<T>(boundsOf: T -> Bounds3, s: seq<T>): (axis: int)
    ensures 0 <= axis <= 2
  {
    MaxExtent(CentroidBoxFixedFrom(boundsOf, Default(), s))
  }

  /** The centroid of a finite box as an exact point. */
  function CentroidOf(b: Bounds3): (p: Vec3)
    requires IsFinite(b)
    ensures Lift(p) == Centroid(b)
  {
    CentroidIsMidpoint(b);
    Centroid(b).Lower()
  }

  /** The box every later fold starts from: the default box or a finite one. */
  predicate FoldStart(b: Bounds3)
  {
    b == Default() || IsFinite(b)
  }

  /**
   * The corrected fold keeps every point of its starting box, holds every
   * centroid it folds in, and is finite once one finite centroid is in.
   */
  lemma {:induction false} CentroidBoxFixedContains<T>(boundsOf: T -> Bounds3, b: Bounds3, s: seq<T>)
    requires FoldStart(b)
    requires forall i | 0 <= i < |s| :: IsFinite(boundsOf(s[i]))
    ensures var r := CentroidBoxFixedFrom(boundsOf, b, s);
      && FoldStart(r)
      && (|s| >= 1 ==> IsFinite(r))
      && (forall q: Vec3 :: Inside(q, b) ==> Inside(q, r))
      && (forall i | 0 <= i < |s| :: Inside(CentroidOf(boundsOf(s[i])), r))
    decreases |s|
  {
    if |s| > 0 {
      var c := Centroid(boundsOf(s[0]));
      var p := CentroidOf(boundsOf(s[0]));
      var b' := UnionPointFixed(b, c);
      forall q: Vec3
        ensures Inside(q, b) ==> Inside(q, b')
        ensures Inside(p, b')
      {
        UnionPointFixedContains(b, p, q);
      }
      assert IsFinite(b') by {
        if b == Default() {
          UnionPointFixedContains(b, p, p);
        }
      }
      CentroidBoxFixedContains(boundsOf, b', s[1..]);
      var r := CentroidBoxFixedFrom(boundsOf, b, s);
      assert r == CentroidBoxFixedFrom(boundsOf, b', s[1..]);
      forall i | 0 <= i < |s|
        ensures Inside(CentroidOf(boundsOf(s[i])), r)
      {
        if i > 0 {
          assert s[i] == s[1..][i - 1];
        }
      }
    }
  }

  /**
   * With the corrected union, the centroid box of a non-empty list of finite
   * boxes is finite and holds every centroid, and the split axis has the
   * longest extent of that box.
   */
  lemma SplitAxisFixedIsLongest<T>(boundsOf: T -> Bounds3, s: seq<T>)
    requires |s| >= 1
    requires forall i | 0 <= i < |s| :: IsFinite(boundsOf(s[i]))
    ensures var box := CentroidBoxFixedFrom(boundsOf, Default(), s);
      && IsFinite(box)
      && (forall i | 0 <= i < |s| :: Inside(CentroidOf(boundsOf(s[i])), box))
      && (forall j | 0 <= j <= 2 :: Diagonal(box).Get(j).Le(Diagonal(box).Get(SplitAxisFixed(boundsOf, s))))
  {
    var box := CentroidBoxFixedFrom(boundsOf, Default(), s);
    CentroidBoxFixedContains(boundsOf, Default(), s);
    forall j | 0 <= j <= 2
      ensures Diagonal(box).Get(j).Le(Diagonal(box).Get(SplitAxisFixed(boundsOf, s)))
    {
      MaxExtentIsLargest(box, j);
    }
  }

  /** The corrected fold over three point boxes along x is the box from the first point to the last. */
  lemma SpreadCentroidBox(boundsOf: Bounds3 -> Bounds3, s: seq<Bounds3>)
    requires forall b :: boundsOf(b) == b
    requires s == [FromPoint(Vec3(0.0, 0.0, 0.0)), FromPoint(Vec3(1.0, 0.0, 0.0)), FromPoint(Vec3(2.0, 0.0, 0.0))]
    ensures CentroidBoxFixedFrom(boundsOf, Default(), s) == Bounds3(Lift(Vec3(0.0, 0.0, 0.0)), Lift(Vec3(2.0, 0.0, 0.0)))
  {
    var c0, c1, c2 := Lift(Vec3(0.0, 0.0, 0.0)), Lift(Vec3(1.0, 0.0, 0.0)), Lift(Vec3(2.0, 0.0, 0.0));
    assert Centroid(boundsOf(s[0])) == c0;
    assert Centroid(boundsOf(s[1])) == c1;
    assert Centroid(boundsOf(s[2])) == c2;
    var b1 := UnionPointFixed(Default(), c0);
    assert b1 == Bounds3(c0, c0);
    var b2 := UnionPointFixed(b1, c1);
    assert b2 == Bounds3(c0, c1);
    var b3 := UnionPointFixed(b2, c2);
    assert b3 == Bounds3(c0, c2);
    assert s[1..][0] == s[1] && s[1..][1..] == s[2..] && s[2..][0] == s[2] && s[2..][1..] == [];
    assert CentroidBoxFixedFrom(boundsOf, b3, []) == b3;
    assert CentroidBoxFixedFrom(boundsOf, b2, s[2..]) == b3;
    assert CentroidBoxFixedFrom(boundsOf, b1, s[1..]) == b3;
  }

  /** Three point boxes spread along x: the written builder sorts on z, the corrected one on x. */
  lemma SplitAxisFixedFollowsSpread(boundsOf: Bounds3 -> Bounds3, s: seq<Bounds3>)
    requires forall b :: boundsOf(b) == b
    requires s == [FromPoint(Vec3(0.0, 0.0, 0.0)), FromPoint(Vec3(1.0, 0.0, 0.0)), FromPoint(Vec3(2.0, 0.0, 0.0))]
    ensures SplitAxis(boundsOf, s) == 2 && SplitAxisFixed(boundsOf, s) == 0
  {
    assert forall i | 0 <= i < |s| :: IsFinite(boundsOf(s[i]));
    SplitAxisIsAlwaysZ(boundsOf, s);
    SpreadCentroidBox(boundsOf, s);
    var b3 := Bounds3(Lift(Vec3(0.0, 0.0, 0.0)), Lift(Vec3(2.0, 0.0, 0.0)));
    assert Diagonal(b3) == EVec3(Fin(2.0), Fin(0.0), Fin(0.0));
    assert MaxExtent(b3) == 0;
  }
}
