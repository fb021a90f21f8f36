/**
 * The triangle area as it is evidently meant: half the Euclidean length of
 * `e1 x e2`. `Triangles.TriangleArea` follows the code, which takes the
 * component count of the cross product and so stores 1.5 for every
 * triangle. The length is a square root, so the caller supplies it.
 */
module TrianglesCorrected {
  import opened Vectors
  import Triangles

  /** `len` is the Euclidean length of `c`: its non-negative square root of `c . c`. */
  predicate IsLengthOf(len: real, c: Vec3)
  {
    len >= 0.0 && len * len == c.Dot(c)
  }

  /**
   * The area the constructor evidently means: half the length `len` of
   * `e1 x e2`, the length supplied as the non-negative root of its square.
   */
  function TriangleAreaFixed(e1: Vec3, e2: Vec3, len: real): (a: real)
    requires IsLengthOf(len, e1.Cross(e2))
    ensures a >= 0.0
  {
    0.5 * len
  }

  /** The corrected area is half the parallelogram: four times its square is the squared length of `e1 x e2`. */
  lemma TriangleAreaFixedSquared(e1: Vec3, e2: Vec3, len: real)
    requires IsLengthOf(len, e1.Cross(e2))
    ensures 4.0 * TriangleAreaFixed(e1, e2, len) * TriangleAreaFixed(e1, e2, len) == e1.Cross(e2).Dot(e1.Cross(e2))
  {
    var a := TriangleAreaFixed(e1, e2, len);
    assert 4.0 * a * a == len * len;
  }

  /** The cross product of the unit x and y vectors is the unit z vector. */
  lemma UnitCross()
    ensures Vec3(1.0, 0.0, 0.0).Cross(Vec3(0.0, 1.0, 0.0)) == Vec3(0.0, 0.0, 1.0)
  {
  }

  /** The unit z vector has length one. */
  lemma UnitLength()
    ensures IsLengthOf(1.0, Vec3(0.0, 0.0, 1.0))
  {
    assert Vec3(0.0, 0.0, 1.0).Dot(Vec3(0.0, 0.0, 1.0)) == 1.0;
  }

  /**
   * The unit right triangle's corrected area is one half. Each fact of this
   * small computation is proved in a lemma of its own, which keeps the
   * solver's arithmetic on a single goal at a time.
   */
  lemma UnitTriangleArea()
    ensures TriangleAreaFixed(Vec3(1.0, 0.0, 0.0), Vec3(0.0, 1.0, 0.0), 1.0) == 0.5
  {
    UnitCross();
    UnitLength();
  }

  /** The unit right triangle has area 1/2, where the constructor stores 1.5. */
  lemma TriangleAreaFixedOfUnitTriangle()
    ensures TriangleAreaFixed(Vec3(1.0, 0.0, 0.0), Vec3(0.0, 1.0, 0.0), 1.0) == 0.5 != Triangles.TriangleArea
  {
    UnitTriangleArea();
  }
}
