/** The hit record every intersection routine returns, and the record a sampling routine fills. */
module Intersections {
  import opened Wrappers
  import opened Floats
  import opened Vectors
  import opened Materials

  /**
   * A ray hit: whether it happened, the hit point, the surface normal, the
   * emitted radiance, the ray distance, the object hit and its material.
   * `O` is the type of the object reference.
   */
  datatype Intersection<O> = Intersection(
    happened: bool,
    coords: Vec3,
    normal: Vec3,
    emit: Vec3,
    distance: real,
    obj: Option<O>,
    m: Option<Material>)

  /**
   * The default record: no hit, zero point and normal, the largest double as
   * distance, and no object or material. `emit` is not set by the default
   * constructor; it is zero here.
   */
  function Empty<O>(): (r: Intersection<O>)
    ensures !r.happened
    ensures r.coords == Zero() && r.normal == Zero()
    ensures r.distance == MaxDouble
    ensures r.obj.None? && r.m.None?
  {
    Intersection(false, Zero(), Zero(), Zero(), MaxDouble, None, None)
  }

  /** What a sampling routine writes back: the sampled point record and its pdf. */
  datatype Sampled<O> = Sampled(pos: Intersection<O>, pdf: real)
}
