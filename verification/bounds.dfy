/**
 * The axis-aligned box `Bounds3`, modelled as the code is written. Corners are
 * float vectors, so the default box keeps its infinite corners, and `Union`
 * keeps its pick-one-corner behaviour.
 */
module Bounds {
  import opened Floats
  import opened Vectors
  import opened Rays

  datatype Bounds3 = Bounds3(pMin: EVec3, pMax: EVec3)

  /** The three integer flags passed to the slab test. */
  datatype Int3 = Int3(x: int, y: int, z: int)

  /** Both corners are finite. */
  predicate IsFinite(b: Bounds3)
  {
    b.pMin.IsFinite() && b.pMax.IsFinite()
  }

  /** `pMin <= pMax` on every axis (in particular no corner component is NaN). */
  predicate Ordered(b: Bounds3)
  {
    forall i | 0 <= i <= 2 :: b.pMin.Get(i).Le(b.pMax.Get(i))
  }

  /**
   * The default constructor. Its double limits are stored in a float vector.
   * C++ leaves that out-of-range conversion undefined; on an IEEE target
   * rounding to nearest it gives +infinity for pMin and -infinity for pMax
   * on every axis, which is what the model assumes. Were the result
   * +-FLT_MAX instead, the builder would still sort on axis 2 for centroids
   * of ordinary size, since the extent is then -FLT_MAX on every axis.
   */
  function Default(): (b: Bounds3)
    ensures forall i | 0 <= i <= 2 :: b.pMin.Get(i) == PosInf && b.pMax.Get(i) == NegInf
  {
    Bounds3(Splat(PosInf), Splat(NegInf))
  }

  /** The one-point constructor. */
  function FromPoint(p: Vec3): (b: Bounds3)
    ensures IsFinite(b) && Ordered(b)
    ensures b.pMin.Lower() == p && b.pMax.Lower() == p
  {
    Bounds3(Lift(p), Lift(p))
  }

  /** The two-point constructor applied to float vectors: componentwise `std::min` and `std::max`. */
  function Span(p1: EVec3, p2: EVec3): Bounds3
  {
    Bounds3(EVec3(StdMin(p1.x, p2.x), StdMin(p1.y, p2.y), StdMin(p1.z, p2.z)),
            EVec3(StdMax(p1.x, p2.x), StdMax(p1.y, p2.y), StdMax(p1.z, p2.z)))
  }

  /** The two-point constructor on points. */
  function FromPoints(p1: Vec3, p2: Vec3): Bounds3
  {
    Span(Lift(p1), Lift(p2))
  }

  function Diagonal(b: Bounds3): EVec3
  {
    b.pMax.Minus(b.pMin)
  }

  /** The axis of largest extent: 0 only when x is strictly largest, ties go to the later axis. */
  function MaxExtent(b: Bounds3): (axis: int)
    ensures 0 <= axis <= 2
  {
    var d := Diagonal(b);
    if d.y.Lt(d.x) && d.z.Lt(d.x) then 0
    else if d.z.Lt(d.y) then 1
    else 2
  }

  function SurfaceArea(b: Bounds3): Ext
  {
    var d := Diagonal(b);
    Fin(2.0).Mul(d.x.Mul(d.y).Add(d.x.Mul(d.z)).Add(d.y.Mul(d.z)))
  }

  /** `0.5 * pMin + 0.5 * pMax`. */
  function Centroid(b: Bounds3): EVec3
  {
    b.pMin.Times(Fin(0.5)).Plus(b.pMax.Times(Fin(0.5)))
  }

  /**
   * `a.Intersect(b)`: the two-point constructor applied to the larger minima
   * and the smaller maxima (`std::min` on x, `std::fmin` on y and z).
   */
  function Intersect(a: Bounds3, b: Bounds3): Bounds3
  {
    Span(EVec3(StdMax(a.pMin.x, b.pMin.x), StdMax(a.pMin.y, b.pMin.y), StdMax(a.pMin.z, b.pMin.z)),
         EVec3(StdMin(a.pMax.x, b.pMax.x), FMin(a.pMax.y, b.pMax.y), FMin(a.pMax.z, b.pMax.z)))
  }

  /** Position of `p` relative to the box; an axis is divided by its extent only when that extent is positive. */
  function Offset(b: Bounds3, p: Vec3): EVec3
  {
    var o := Lift(p).Minus(b.pMin);
    EVec3(if b.pMin.x.Lt(b.pMax.x) then o.x.Div(b.pMax.x.Sub(b.pMin.x)) else o.x,
          if b.pMin.y.Lt(b.pMax.y) then o.y.Div(b.pMax.y.Sub(b.pMin.y)) else o.y,
          if b.pMin.z.Lt(b.pMax.z) then o.z.Div(b.pMax.z.Sub(b.pMin.z)) else o.z)
  }

  /** `Overlaps(b1, b2)`: the closed extents meet on every axis. */
  predicate Overlaps(b1: Bounds3, b2: Bounds3)
  {
    && b2.pMin.x.Le(b1.pMax.x) && b1.pMin.x.Le(b2.pMax.x)
    && b2.pMin.y.Le(b1.pMax.y) && b1.pMin.y.Le(b2.pMax.y)
    && b2.pMin.z.Le(b1.pMax.z) && b1.pMin.z.Le(b2.pMax.z)
  }

  /** `Inside(p, b)`: the point lies in the closed box. */
  predicate Inside(p: Vec3, b: Bounds3)
  {
    && b.pMin.x.Le(Fin(p.x)) && Fin(p.x).Le(b.pMax.x)
    && b.pMin.y.Le(Fin(p.y)) && Fin(p.y).Le(b.pMax.y)
    && b.pMin.z.Le(Fin(p.z)) && Fin(p.z).Le(b.pMax.z)
  }

  /** `b[i]`: index 0 is pMin and every other index is pMax. */
  function Corner(b: Bounds3, i: int): (c: EVec3)
    ensures i == 0 ==> c == b.pMin
    ensures i != 0 ==> c == b.pMax
  {
    if i == 0 then b.pMin else b.pMax
  }

  /** Entry and exit values of one axis: `(corner - origin) * invDir`. */
  function SlabMin(b: Bounds3, ray: Ray, invDir: EVec3, i: int): Ext
    requires 0 <= i <= 2
  {
    b.pMin.Get(i).Sub(Fin(ray.origin.Get(i))).Mul(invDir.Get(i))
  }

  function SlabMax(b: Bounds3, ray: Ray, invDir: EVec3, i: int): Ext
    requires 0 <= i <= 2
  {
    b.pMax.Get(i).Sub(Fin(ray.origin.Get(i))).Mul(invDir.Get(i))
  }

  /**
   * The value an axis contributes to the entry side: its pMax value when the
   * axis's flag is negative (the two are swapped), its pMin value otherwise.
   */
  function EntrySide(b: Bounds3, ray: Ray, invDir: EVec3, flag: int, i: int): Ext
    requires 0 <= i <= 2
  {
    if flag < 0 then SlabMax(b, ray, invDir, i) else SlabMin(b, ray, invDir, i)
  }

  function ExitSide(b: Bounds3, ray: Ray, invDir: EVec3, flag: int, i: int): Ext
    requires 0 <= i <= 2
  {
    if flag < 0 then SlabMin(b, ray, invDir, i) else SlabMax(b, ray, invDir, i)
  }

  /**
   * The ray/box test as written: an axis's two values are swapped only when
   * its flag is negative, then the SMALLEST entry value is compared with the
   * LARGEST exit value.
   */
  predicate IntersectP(b: Bounds3, ray: Ray, invDir: EVec3, dirIsNeg: Int3)
  {
    var tEnter := StdMin(EntrySide(b, ray, invDir, dirIsNeg.x, 0),
                         StdMin(EntrySide(b, ray, invDir, dirIsNeg.y, 1), EntrySide(b, ray, invDir, dirIsNeg.z, 2)));
    var tExit := StdMax(ExitSide(b, ray, invDir, dirIsNeg.x, 0),
                        StdMax(ExitSide(b, ray, invDir, dirIsNeg.y, 1), ExitSide(b, ray, invDir, dirIsNeg.z, 2)));
    tEnter.Lt(tExit) && Fin(0.0).Le(tExit)
  }

  /** All three components of `a` are strictly below those of `b`. */
  predicate StrictlyBelow(a: EVec3, b: EVec3)
  {
    a.x.Lt(b.x) && a.y.Lt(b.y) && a.z.Lt(b.z)
  }

  /** `Union(b1, b2)` as written: each corner is copied whole from one argument. */
  function Union(b1: Bounds3, b2: Bounds3): Bounds3
  {
    Bounds3(if StrictlyBelow(b1.pMin, b2.pMin) then b1.pMin else b2.pMin,
            if StrictlyBelow(b1.pMax, b2.pMax) then b1.pMax else b2.pMax)
  }

  /** `Union(b, p)` as written, for a float point `p`. */
  function UnionPoint(b: Bounds3, p: EVec3): Bounds3
  {
    Bounds3(if StrictlyBelow(b.pMin, p) then b.pMin else p,
            if StrictlyBelow(b.pMax, p) then b.pMax else p)
  }

  /** The exact corner coordinates of a finite box. */
  lemma FiniteCoordinates(b: Bounds3)
    requires IsFinite(b)
    ensures Ordered(b) <==> (b.pMin.x.v <= b.pMax.x.v && b.pMin.y.v <= b.pMax.y.v && b.pMin.z.v <= b.pMax.z.v)
    ensures Diagonal(b) == Lift(b.pMax.Lower().Minus(b.pMin.Lower()))
  {
    if Ordered(b) {
      assert b.pMin.Get(0).Le(b.pMax.Get(0));
      assert b.pMin.Get(1).Le(b.pMax.Get(1));
      assert b.pMin.Get(2).Le(b.pMax.Get(2));
    }
  }

  // ---------------------------------------------------------------------------
  // Constructors
  // ---------------------------------------------------------------------------

  /**
   * The two-point box is finite, ordered, does not depend on the order of its
   * arguments, and contains both points.
   */
  lemma FromPointsContains(p1: Vec3, p2: Vec3)
    ensures var b := FromPoints(p1, p2);
      && IsFinite(b) && Ordered(b)
      && b == FromPoints(p2, p1)
      && Inside(p1, b) && Inside(p2, b)
  {
  }

  /** A box built from one point contains exactly that point. */
  lemma FromPointContainsOnly(p: Vec3, q: Vec3)
    ensures Inside(q, FromPoint(p)) <==> q == p
  {
  }

  // ---------------------------------------------------------------------------
  // Extent, area and centroid
  // ---------------------------------------------------------------------------

  /** On a finite box, the axis chosen has a diagonal component at least as large as every other one. */
  lemma MaxExtentIsLargest(b: Bounds3, i: int)
    requires IsFinite(b) && 0 <= i <= 2
    ensures Diagonal(b).Get(i).Le(Diagonal(b).Get(MaxExtent(b)))
  {
  }

  /** Axis 0 is chosen exactly when x is strictly largest, and 2 whenever no axis beats z strictly. */
  lemma MaxExtentTies(b: Bounds3)
    requires IsFinite(b)
    ensures var d := Diagonal(b);
      && (MaxExtent(b) == 0 <==> d.x.v > d.y.v && d.x.v > d.z.v)
      && (MaxExtent(b) == 1 <==> !(d.x.v > d.y.v && d.x.v > d.z.v) && d.y.v > d.z.v)
      && (MaxExtent(b) == 2 <==> !(d.x.v > d.y.v && d.x.v > d.z.v) && d.y.v <= d.z.v)
  {
  }

  /** A box whose diagonal has three equal components (for example three equal infinities) yields axis 2. */
  lemma MaxExtentUniform(b: Bounds3)
    requires Diagonal(b).x == Diagonal(b).y == Diagonal(b).z
    ensures MaxExtent(b) == 2
  {
  }

  /** A box whose pMax is -infinity and whose pMin is finite has axis 2. */
  lemma MaxExtentOfNegativeInfiniteMax(b: Bounds3)
    requires b.pMin.IsFinite() && b.pMax == Splat(NegInf)
    ensures Diagonal(b) == Splat(NegInf)
    ensures MaxExtent(b) == 2
  {
  }

  /** The surface area of a finite ordered box is a non-negative number, and zero for a point box. */
  lemma SurfaceAreaNonNegative(b: Bounds3)
    requires IsFinite(b) && Ordered(b)
    ensures SurfaceArea(b).Fin? && SurfaceArea(b).v >= 0.0
    ensures b.pMin == b.pMax ==> SurfaceArea(b) == Fin(0.0)
  {
    FiniteCoordinates(b);
    var d := Diagonal(b);
    assert d.x.v >= 0.0 && d.y.v >= 0.0 && d.z.v >= 0.0;
    assert d.x.v * d.y.v >= 0.0;
    assert d.x.v * d.z.v >= 0.0;
    assert d.y.v * d.z.v >= 0.0;
  }

  /** The centroid of a finite box is the midpoint of its corners and lies inside the box when it is ordered. */
  lemma CentroidIsMidpoint(b: Bounds3)
    requires IsFinite(b)
    ensures Centroid(b).IsFinite()
    ensures Centroid(b).Lower() == b.pMin.Lower().Plus(b.pMax.Lower()).Scale(0.5)
    ensures Ordered(b) ==> Inside(Centroid(b).Lower(), b)
  {
    FiniteCoordinates(b);
  }

  // ---------------------------------------------------------------------------
  // Intersection, offset, overlap
  // ---------------------------------------------------------------------------

  /**
   * `Intersect` goes through the two-point constructor, so its result is
   * ordered even when the boxes are disjoint; a point inside both boxes is
   * inside the result.
   */
  lemma IntersectOrdered(a: Bounds3, b: Bounds3, p: Vec3)
    requires IsFinite(a) && IsFinite(b)
    ensures IsFinite(Intersect(a, b)) && Ordered(Intersect(a, b))
    ensures Inside(p, a) && Inside(p, b) ==> Inside(p, Intersect(a, b))
  {
  }

  /**
   * `Offset` maps pMin to 0 on every axis, and pMax to 1 on every axis with
   * positive extent; a degenerate axis keeps the undivided difference.
   */
  lemma OffsetOfCorners(b: Bounds3, i: int)
    requires IsFinite(b) && 0 <= i <= 2
    ensures Offset(b, b.pMin.Lower()).Get(i) == Fin(0.0)
    ensures b.pMin.Get(i).v < b.pMax.Get(i).v ==> Offset(b, b.pMax.Lower()).Get(i) == Fin(1.0)
    ensures b.pMin.Get(i).v >= b.pMax.Get(i).v ==>
      Offset(b, b.pMax.Lower()).Get(i) == Fin(b.pMax.Get(i).v - b.pMin.Get(i).v)
  {
    var lo, hi := b.pMin.Get(i).v, b.pMax.Get(i).v;
    if lo < hi {
      assert (hi - lo) / (hi - lo) == 1.0;
    }
    if i == 0 {
    } else if i == 1 {
    } else {
    }
  }

  /** On an axis of positive extent the offset is the distance from pMin divided by the extent. */
  lemma OffsetOnAxis(b: Bounds3, p: Vec3, i: int)
    requires IsFinite(b) && 0 <= i <= 2
    requires b.pMin.Get(i).v < b.pMax.Get(i).v
    ensures Offset(b, p).Get(i)
         == Fin(Quotient(p.Get(i) - b.pMin.Get(i).v, b.pMax.Get(i).v - b.pMin.Get(i).v))
  {
    if i == 0 {
    } else if i == 1 {
    } else {
    }
  }

  /** A point inside a finite box has offsets in [0, 1] on every axis of positive extent. */
  lemma OffsetInsideUnit(b: Bounds3, p: Vec3, i: int)
    requires IsFinite(b) && Inside(p, b) && 0 <= i <= 2
    requires b.pMin.Get(i).v < b.pMax.Get(i).v
    ensures Offset(b, p).Get(i).Fin?
    ensures 0.0 <= Offset(b, p).Get(i).v <= 1.0
  {
    var lo, hi, q := b.pMin.Get(i).v, b.pMax.Get(i).v, p.Get(i);
    OffsetOnAxis(b, p, i);
    assert lo <= q <= hi;
    DivideWithinUnit(q - lo, hi - lo);
  }

  /** `Overlaps` is symmetric, reflexive on ordered boxes, and holds whenever a point lies in both boxes. */
  lemma OverlapsProperties(b1: Bounds3, b2: Bounds3, p: Vec3)
    ensures Overlaps(b1, b2) <==> Overlaps(b2, b1)
    ensures Ordered(b1) ==> Overlaps(b1, b1)
    ensures Inside(p, b1) && Inside(p, b2) ==> Overlaps(b1, b2)
  {
    if Ordered(b1) {
      assert b1.pMin.Get(0).Le(b1.pMax.Get(0));
      assert b1.pMin.Get(1).Le(b1.pMax.Get(1));
      assert b1.pMin.Get(2).Le(b1.pMax.Get(2));
    }
  }

  lemma DivideWithinUnit(a: real, c: real)
    requires 0.0 <= a <= c && c > 0.0
    ensures 0.0 <= a / c <= 1.0
  {
    assert (a / c) * c == a;
  }

  // ---------------------------------------------------------------------------
  // Union
  // ---------------------------------------------------------------------------

  /**
   * Each corner of `Union` is copied verbatim from one argument; the first
   * argument's corner is taken exactly when it is strictly smaller on all
   * three axes, for pMax as well as pMin. `Union(b, b)` is `b`.
   */
  lemma UnionPicksCorners(b1: Bounds3, b2: Bounds3)
    ensures Union(b1, b2).pMin == b1.pMin <== StrictlyBelow(b1.pMin, b2.pMin)
    ensures Union(b1, b2).pMin == b2.pMin <== !StrictlyBelow(b1.pMin, b2.pMin)
    ensures Union(b1, b2).pMax == b1.pMax <== StrictlyBelow(b1.pMax, b2.pMax)
    ensures Union(b1, b2).pMax == b2.pMax <== !StrictlyBelow(b1.pMax, b2.pMax)
    ensures Union(b1, b1) == b1
  {
  }

  /** The point variant copies the same way, and `Union(FromPoint(p), p)` gives back the point box. */
  lemma UnionPointPicksCorners(b: Bounds3, p: EVec3, q: Vec3)
    ensures UnionPoint(b, p).pMin == (if StrictlyBelow(b.pMin, p) then b.pMin else p)
    ensures UnionPoint(b, p).pMax == (if StrictlyBelow(b.pMax, p) then b.pMax else p)
    ensures UnionPoint(FromPoint(q), Lift(q)) == FromPoint(q)
  {
  }

  /** `Union` of two finite boxes need not contain either of them. */
  lemma UnionDoesNotContain()
    ensures var b1 := FromPoints(Vec3(0.0, 0.0, 0.0), Vec3(1.0, 1.0, 1.0));
      var b2 := FromPoints(Vec3(0.5, -1.0, 0.5), Vec3(2.0, 2.0, 2.0));
      Inside(Vec3(0.0, 0.0, 0.0), b1) && !Inside(Vec3(0.0, 0.0, 0.0), Union(b1, b2))
  {
  }

  /**
   * Starting from the default box, `Union` with a finite box or point keeps
   * the -infinity pMax of the default box, and later unions keep it too.
   */
  lemma UnionWithDefault(b: Bounds3, p: Vec3)
    requires IsFinite(b)
    ensures Union(Default(), b) == Bounds3(b.pMin, Splat(NegInf))
    ensures UnionPoint(Default(), Lift(p)) == Bounds3(Lift(p), Splat(NegInf))
    ensures forall c: Bounds3 {:trigger UnionPoint(c, Lift(p))} ::
      c.pMax == Splat(NegInf) ==> UnionPoint(c, Lift(p)).pMax == Splat(NegInf)
  {
  }

  // ---------------------------------------------------------------------------
  // Ray/box test
  // ---------------------------------------------------------------------------

  /** The flags `{d.x > 0, d.y > 0, d.z > 0}` passed by the tree traversal. */
  function PositiveFlags(d: Vec3): (f: Int3)
    ensures f.x in {0, 1} && f.y in {0, 1} && f.z in {0, 1}
  {
    Int3(if d.x > 0.0 then 1 else 0, if d.y > 0.0 then 1 else 0, if d.z > 0.0 then 1 else 0)
  }

  /** Entry/exit value of an axis of a finite box for a finite reciprocal direction. */
  function EntryValue(b: Bounds3, ray: Ray, invDir: EVec3, i: int): real
    requires IsFinite(b) && invDir.IsFinite() && 0 <= i <= 2
  {
    (b.pMin.Get(i).v - ray.origin.Get(i)) * invDir.Get(i).v
  }

  function ExitValue(b: Bounds3, ray: Ray, invDir: EVec3, i: int): real
    requires IsFinite(b) && invDir.IsFinite() && 0 <= i <= 2
  {
    (b.pMax.Get(i).v - ray.origin.Get(i)) * invDir.Get(i).v
  }

  /** Some entry value lies strictly below some exit value. */
  predicate SomeEntryBelowSomeExit(b: Bounds3, ray: Ray, invDir: EVec3)
    requires IsFinite(b) && invDir.IsFinite()
  {
    exists i, j | 0 <= i <= 2 && 0 <= j <= 2 :: EntryValue(b, ray, invDir, i) < ExitValue(b, ray, invDir, j)
  }

  /** Some exit value is non-negative. */
  predicate SomeExitAhead(b: Bounds3, ray: Ray, invDir: EVec3)
    requires IsFinite(b) && invDir.IsFinite()
  {
    exists j | 0 <= j <= 2 :: ExitValue(b, ray, invDir, j) >= 0.0
  }

  function Min3(a: real, b: real, c: real): real
  {
    if b <= c then (if a <= b then a else b) else (if a <= c then a else c)
  }

  function Max3(a: real, b: real, c: real): real
  {
    if b >= c then (if a >= b then a else b) else (if a >= c then a else c)
  }

  /** The smallest entry and the largest exit, with nothing swapped. */
  lemma UnswappedEndpoints(b: Bounds3, ray: Ray, invDir: EVec3)
    requires IsFinite(b) && invDir.IsFinite()
    ensures StdMin(SlabMin(b, ray, invDir, 0), StdMin(SlabMin(b, ray, invDir, 1), SlabMin(b, ray, invDir, 2)))
         == Fin(Min3(EntryValue(b, ray, invDir, 0), EntryValue(b, ray, invDir, 1), EntryValue(b, ray, invDir, 2)))
    ensures StdMax(SlabMax(b, ray, invDir, 0), StdMax(SlabMax(b, ray, invDir, 1), SlabMax(b, ray, invDir, 2)))
         == Fin(Max3(ExitValue(b, ray, invDir, 0), ExitValue(b, ray, invDir, 1), ExitValue(b, ray, invDir, 2)))
  {
    assert SlabMin(b, ray, invDir, 0) == Fin(EntryValue(b, ray, invDir, 0));
    assert SlabMin(b, ray, invDir, 1) == Fin(EntryValue(b, ray, invDir, 1));
    assert SlabMin(b, ray, invDir, 2) == Fin(EntryValue(b, ray, invDir, 2));
    assert SlabMax(b, ray, invDir, 0) == Fin(ExitValue(b, ray, invDir, 0));
    assert SlabMax(b, ray, invDir, 1) == Fin(ExitValue(b, ray, invDir, 1));
    assert SlabMax(b, ray, invDir, 2) == Fin(ExitValue(b, ray, invDir, 2));
  }

  /**
   * With flags in {0, 1} nothing is swapped, and for a finite box and
   * reciprocal direction the test accepts exactly when SOME axis's entry
   * value is below SOME axis's exit value and some exit value is >= 0.
   */
  lemma IntersectPAsWritten(b: Bounds3, ray: Ray, invDir: EVec3, flags: Int3)
    requires IsFinite(b) && invDir.IsFinite()
    requires flags.x in {0, 1} && flags.y in {0, 1} && flags.z in {0, 1}
    ensures IntersectP(b, ray, invDir, flags) <==> SomeEntryBelowSomeExit(b, ray, invDir) && SomeExitAhead(b, ray, invDir)
  {
    UnswappedEndpoints(b, ray, invDir);
    var e0, e1, e2 := EntryValue(b, ray, invDir, 0), EntryValue(b, ray, invDir, 1), EntryValue(b, ray, invDir, 2);
    var x0, x1, x2 := ExitValue(b, ray, invDir, 0), ExitValue(b, ray, invDir, 1), ExitValue(b, ray, invDir, 2);
    var lo, hi := Min3(e0, e1, e2), Max3(x0, x1, x2);
    assert IntersectP(b, ray, invDir, flags) <==> lo < hi && hi >= 0.0;
    var ie := if lo == e0 then 0 else if lo == e1 then 1 else 2;
    var jx := if hi == x0 then 0 else if hi == x1 then 1 else 2;
    assert EntryValue(b, ray, invDir, ie) == lo;
    assert ExitValue(b, ray, invDir, jx) == hi;
    if SomeEntryBelowSomeExit(b, ray, invDir) {
      var i, j :| 0 <= i <= 2 && 0 <= j <= 2 && EntryValue(b, ray, invDir, i) < ExitValue(b, ray, invDir, j);
      assert lo <= EntryValue(b, ray, invDir, i);
      assert ExitValue(b, ray, invDir, j) <= hi;
    }
    if SomeExitAhead(b, ray, invDir) {
      var j :| 0 <= j <= 2 && ExitValue(b, ray, invDir, j) >= 0.0;
      assert ExitValue(b, ray, invDir, j) <= hi;
    }
  }

  /** None of the six slab values is NaN, as when no axis multiplies a zero offset by an infinite reciprocal. */
  predicate SlabsAreNumbers(b: Bounds3, ray: Ray, invDir: EVec3)
  {
    forall i | 0 <= i <= 2 :: SlabMin(b, ray, invDir, i).IsNumber() && SlabMax(b, ray, invDir, i).IsNumber()
  }

  /** Some axis's pMin value lies strictly below some axis's pMax value. */
  predicate SomeSlabMinBelowSlabMax(b: Bounds3, ray: Ray, invDir: EVec3)
  {
    exists i, j | 0 <= i <= 2 && 0 <= j <= 2 :: SlabMin(b, ray, invDir, i).Lt(SlabMax(b, ray, invDir, j))
  }

  /** Some axis's pMax value is at least zero. */
  predicate SomeSlabMaxAhead(b: Bounds3, ray: Ray, invDir: EVec3)
  {
    exists j | 0 <= j <= 2 :: Fin(0.0).Le(SlabMax(b, ray, invDir, j))
  }

  /** The smallest pMin slab value and the largest pMax slab value, as `std::min`/`std::max` nest them. */
  function LowestSlabMin(b: Bounds3, ray: Ray, invDir: EVec3): Ext
  {
    StdMin(SlabMin(b, ray, invDir, 0), StdMin(SlabMin(b, ray, invDir, 1), SlabMin(b, ray, invDir, 2)))
  }

  function HighestSlabMax(b: Bounds3, ray: Ray, invDir: EVec3): Ext
  {
    StdMax(SlabMax(b, ray, invDir, 0), StdMax(SlabMax(b, ray, invDir, 1), SlabMax(b, ray, invDir, 2)))
  }

  /** With flags in {0, 1} nothing is swapped: the test compares the lowest pMin value with the highest pMax value. */
  lemma UnswappedSlabs(b: Bounds3, ray: Ray, invDir: EVec3, flags: Int3)
    requires flags.x in {0, 1} && flags.y in {0, 1} && flags.z in {0, 1}
    ensures IntersectP(b, ray, invDir, flags)
      <==> LowestSlabMin(b, ray, invDir).Lt(HighestSlabMax(b, ray, invDir)) && Fin(0.0).Le(HighestSlabMax(b, ray, invDir))
  {
    assert EntrySide(b, ray, invDir, flags.x, 0) == SlabMin(b, ray, invDir, 0);
    assert EntrySide(b, ray, invDir, flags.y, 1) == SlabMin(b, ray, invDir, 1);
    assert EntrySide(b, ray, invDir, flags.z, 2) == SlabMin(b, ray, invDir, 2);
    assert ExitSide(b, ray, invDir, flags.x, 0) == SlabMax(b, ray, invDir, 0);
    assert ExitSide(b, ray, invDir, flags.y, 1) == SlabMax(b, ray, invDir, 1);
    assert ExitSide(b, ray, invDir, flags.z, 2) == SlabMax(b, ray, invDir, 2);
  }

  /** With no NaN, the lowest pMin value is below the highest pMax value exactly when some pMin value is below some pMax value. */
  lemma LowestBelowHighest(b: Bounds3, ray: Ray, invDir: EVec3)
    requires SlabsAreNumbers(b, ray, invDir)
    ensures LowestSlabMin(b, ray, invDir).Lt(HighestSlabMax(b, ray, invDir)) <==> SomeSlabMinBelowSlabMax(b, ray, invDir)
  {
    var e0, e1, e2 := SlabMin(b, ray, invDir, 0), SlabMin(b, ray, invDir, 1), SlabMin(b, ray, invDir, 2);
    var x0, x1, x2 := SlabMax(b, ray, invDir, 0), SlabMax(b, ray, invDir, 1), SlabMax(b, ray, invDir, 2);
    assert e0.IsNumber() && x0.IsNumber() by { assert 0 <= 0 <= 2; }
    assert e1.IsNumber() && x1.IsNumber() by { assert 0 <= 1 <= 2; }
    assert e2.IsNumber() && x2.IsNumber() by { assert 0 <= 2 <= 2; }
    StdMinMax3(e0, e1, e2);
    StdMinMax3(x0, x1, x2);
    var lo, hi := LowestSlabMin(b, ray, invDir), HighestSlabMax(b, ray, invDir);
    var ie := if lo == e0 then 0 else if lo == e1 then 1 else 2;
    var jx := if hi == x0 then 0 else if hi == x1 then 1 else 2;
    assert SlabMin(b, ray, invDir, ie) == lo;
    assert SlabMax(b, ray, invDir, jx) == hi;
    if SomeSlabMinBelowSlabMax(b, ray, invDir) {
      var i, j :| 0 <= i <= 2 && 0 <= j <= 2 && SlabMin(b, ray, invDir, i).Lt(SlabMax(b, ray, invDir, j));
      LtWidened(lo, SlabMin(b, ray, invDir, i), SlabMax(b, ray, invDir, j), hi);
    }
  }

  /** With no NaN, the highest pMax value is non-negative exactly when some pMax value is. */
  lemma HighestAhead(b: Bounds3, ray: Ray, invDir: EVec3)
    requires SlabsAreNumbers(b, ray, invDir)
    ensures Fin(0.0).Le(HighestSlabMax(b, ray, invDir)) <==> SomeSlabMaxAhead(b, ray, invDir)
  {
    var x0, x1, x2 := SlabMax(b, ray, invDir, 0), SlabMax(b, ray, invDir, 1), SlabMax(b, ray, invDir, 2);
    assert x0.IsNumber() by { assert 0 <= 0 <= 2; }
    assert x1.IsNumber() by { assert 0 <= 1 <= 2; }
    assert x2.IsNumber() by { assert 0 <= 2 <= 2; }
    StdMinMax3(x0, x1, x2);
    var hi := HighestSlabMax(b, ray, invDir);
    var jx := if hi == x0 then 0 else if hi == x1 then 1 else 2;
    assert SlabMax(b, ray, invDir, jx) == hi;
    if SomeSlabMaxAhead(b, ray, invDir) {
      var j :| 0 <= j <= 2 && Fin(0.0).Le(SlabMax(b, ray, invDir, j));
      LeTransitive(Fin(0.0), SlabMax(b, ray, invDir, j), hi);
    }
  }

  /**
   * The same characterisation as `IntersectPAsWritten` for any box and
   * reciprocal direction, infinite ones included, as long as no slab value
   * is NaN: an axis-parallel ray, whose reciprocal has infinite components,
   * is still tested against the smallest entry and the largest exit.
   */
  lemma IntersectPWithoutNaN(b: Bounds3, ray: Ray, invDir: EVec3, flags: Int3)
    requires SlabsAreNumbers(b, ray, invDir)
    requires flags.x in {0, 1} && flags.y in {0, 1} && flags.z in {0, 1}
    ensures IntersectP(b, ray, invDir, flags) <==> SomeSlabMinBelowSlabMax(b, ray, invDir) && SomeSlabMaxAhead(b, ray, invDir)
  {
    UnswappedSlabs(b, ray, invDir, flags);
    LowestBelowHighest(b, ray, invDir);
    HighestAhead(b, ray, invDir);
  }

  /** The six slab values of the negative ray against the box (-2,-2,-2)-(-1,-1,-1). */
  lemma NegativeRaySlabs(b: Bounds3, ray: Ray)
    requires b == Bounds3(Splat(Fin(-2.0)), Splat(Fin(-1.0)))
    requires ray.origin == Zero() && ray.directionInv == Splat(Fin(-1.0))
    ensures forall i | 0 <= i <= 2 :: EntrySide(b, ray, ray.directionInv, 0, i) == Fin(2.0)
    ensures forall i | 0 <= i <= 2 :: ExitSide(b, ray, ray.directionInv, 0, i) == Fin(1.0)
  {
  }

  /**
   * A ray whose direction is negative on every axis is rejected by a box it
   * passes through: no flag is ever negative, so the larger slab value is
   * taken as the entry.
   */
  lemma IntersectPRejectsNegativeRay(b: Bounds3, ray: Ray)
    requires b == Bounds3(Splat(Fin(-2.0)), Splat(Fin(-1.0)))
    requires ray.origin == Zero() && ray.direction == Vec3(-1.0, -1.0, -1.0)
    requires ray.directionInv == Splat(Fin(-1.0))
    ensures Inside(ray.At(1.5), b)
    ensures !IntersectP(b, ray, ray.directionInv, PositiveFlags(ray.direction))
  {
    assert ray.At(1.5) == Vec3(-1.5, -1.5, -1.5);
    assert PositiveFlags(ray.direction) == Int3(0, 0, 0);
    NegativeRaySlabs(b, ray);
  }

  /** On a finite box and a finite reciprocal direction the slab values are plain numbers. */
  lemma FiniteSlabs(b: Bounds3, ray: Ray, invDir: EVec3, i: int)
    requires IsFinite(b) && invDir.IsFinite() && 0 <= i <= 2
    ensures SlabMin(b, ray, invDir, i) == Fin(EntryValue(b, ray, invDir, i))
    ensures SlabMax(b, ray, invDir, i) == Fin(ExitValue(b, ray, invDir, i))
  {
    var o, inv := Fin(ray.origin.Get(i)), invDir.Get(i);
    assert b.pMin.Get(i).Sub(o) == Fin(b.pMin.Get(i).v - o.v);
    assert b.pMax.Get(i).Sub(o) == Fin(b.pMax.Get(i).v - o.v);
    assert Fin(b.pMin.Get(i).v - o.v).Mul(inv) == Fin(Product(b.pMin.Get(i).v - o.v, inv.v));
    assert Fin(b.pMax.Get(i).v - o.v).Mul(inv) == Fin(Product(b.pMax.Get(i).v - o.v, inv.v));
  }

  /** The ray from the origin along (1, -1, 1) has a negative y beyond its origin, so it never meets [1,2]^3. */
  lemma MissingRayOutside(b: Bounds3, ray: Ray, s: real)
    requires b == Bounds3(Splat(Fin(1.0)), Splat(Fin(2.0)))
    requires ray.origin == Zero() && ray.direction == Vec3(1.0, -1.0, 1.0)
    requires s >= 0.0
    ensures !Inside(ray.At(s), b)
  {
    assert ray.At(s).y == -s;
  }

  /** The ray of `MissingRayOutside`, which never enters the box, is still accepted by it. */
  lemma IntersectPAcceptsMissingRay(b: Bounds3, ray: Ray)
    requires b == Bounds3(Splat(Fin(1.0)), Splat(Fin(2.0)))
    requires ray.origin == Zero() && ray.direction == Vec3(1.0, -1.0, 1.0)
    requires ray.directionInv == EVec3(Fin(1.0), Fin(-1.0), Fin(1.0))
    ensures IntersectP(b, ray, ray.directionInv, PositiveFlags(ray.direction))
  {
    var inv := ray.directionInv;
    assert IsFinite(b) && inv.IsFinite();
    assert EntryValue(b, ray, inv, 1) == -1.0;
    assert ExitValue(b, ray, inv, 0) == 2.0;
    IntersectPAsWritten(b, ray, inv, PositiveFlags(ray.direction));
  }
}
