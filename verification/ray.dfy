/** The ray record: origin, direction, reciprocal direction and parameter range. */
module Rays {
  import opened Floats
  import opened Vectors

  datatype Ray = Ray(origin: Vec3, direction: Vec3, directionInv: EVec3, t: real, tMin: real, tMax: real)
  {
    /** The point `origin + direction * s`, written `ray(s)` in the renderer. */
    function At(s: real): Vec3
    {
      origin.Plus(direction.Scale(s))
    }
  }

  /** `1. / a` in floating point: a zero component yields +infinity. */
  function Recip(a: real): (r: Ext)
    ensures a != 0.0 ==> r.Fin? && r.v * a == 1.0
    ensures a == 0.0 ==> r == PosInf
  {
    Fin(1.0).Div(Fin(a))
  }

  /** The constructor `Ray(ori, dir, t)`; callers that omit `t` pass 0. */
  function MakeRay(origin: Vec3, direction: Vec3, t: real): (r: Ray)
    ensures r.origin == origin && r.direction == direction && r.t == t
    ensures r.directionInv == EVec3(Recip(direction.x), Recip(direction.y), Recip(direction.z))
    ensures r.tMin == 0.0 && r.tMax == MaxDouble
  {
    Ray(origin, direction, EVec3(Recip(direction.x), Recip(direction.y), Recip(direction.z)), t, 0.0, MaxDouble)
  }

  /**
   * The stored reciprocal undoes the direction on every axis where the
   * direction is non-zero, and is +infinity where it is zero.
   */
  lemma ReciprocalDirection(origin: Vec3, direction: Vec3, t: real, i: int)
    requires 0 <= i <= 2
    ensures var r := MakeRay(origin, direction, t);
      if direction.Get(i) != 0.0
      then r.directionInv.Get(i).Fin? && r.directionInv.Get(i).v * direction.Get(i) == 1.0
      else r.directionInv.Get(i) == PosInf
  {
  }

  /** `ray(0)` is the origin, and moving along the ray adds multiples of the direction. */
  lemma AtIsAffine(r: Ray, s: real, u: real)
    ensures r.At(0.0) == r.origin
    ensures r.At(s + u) == r.At(s).Plus(r.direction.Scale(u))
  {
  }
}
