/** Three-component vectors: exact ones for geometry and extended ones for box corners. */
module Vectors {
  import opened Floats

  datatype Vec3 = Vec3(x: real, y: real, z: real)
  {
    function Plus(b: Vec3): Vec3
    {
      Vec3(x + b.x, y + b.y, z + b.z)
    }

    function Minus(b: Vec3): Vec3
    {
      Vec3(x - b.x, y - b.y, z - b.z)
    }

    function Scale(s: real): Vec3
    {
      Vec3(x * s, y * s, z * s)
    }

    function Dot(b: Vec3): real
    {
      x * b.x + y * b.y + z * b.z
    }

    function Cross(b: Vec3): Vec3
    {
      Vec3(y * b.z - z * b.y, z * b.x - x * b.z, x * b.y - y * b.x)
    }

    /** Component `i` of the vector, as `v[i]` for an axis index 0, 1 or 2. */
    function Get(i: int): real
      requires 0 <= i <= 2
    {
      if i == 0 then x else if i == 1 then y else z
    }
  }

  function Zero(): Vec3
  {
    Vec3(0.0, 0.0, 0.0)
  }

  /** A float vector whose components may be infinite or NaN. */
  datatype EVec3 = EVec3(x: Ext, y: Ext, z: Ext)
  {
    function Plus(b: EVec3): EVec3
    {
      EVec3(x.Add(b.x), y.Add(b.y), z.Add(b.z))
    }

    function Minus(b: EVec3): EVec3
    {
      EVec3(x.Sub(b.x), y.Sub(b.y), z.Sub(b.z))
    }

    /** Multiplication by a scalar, as `s * v`. */
    function Times(s: Ext): EVec3
    {
      EVec3(s.Mul(x), s.Mul(y), s.Mul(z))
    }

    function Get(i: int): Ext
      requires 0 <= i <= 2
    {
      if i == 0 then x else if i == 1 then y else z
    }

    /** All three components are finite. */
    predicate IsFinite()
    {
      x.Fin? && y.Fin? && z.Fin?
    }

    /** The exact vector of a finite float vector. */
    function Lower(): Vec3
      requires IsFinite()
    {
      Vec3(x.v, y.v, z.v)
    }
  }

  /** The float vector of an exact one. */
  function Lift(p: Vec3): (e: EVec3)
    ensures e.IsFinite() && e.Lower() == p
  {
    EVec3(Fin(p.x), Fin(p.y), Fin(p.z))
  }

  /** A vector with the same value on every axis, as `glm::vec3(a, a, a)`. */
  function Splat(a: Ext): EVec3
  {
    EVec3(a, a, a)
  }
}
