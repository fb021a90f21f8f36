/**
 * Constants the renderer takes from its global header. That header is not
 * part of this model: the values below are the conventional ones and every
 * proof only relies on `Epsilon > 0` and `Pi > 0`.
 */
module Globals {

  /** Tolerance used by the emission test and the triangle determinant test. */
  const Epsilon: real := 0.00001

  /** The literal value of `M_PI`. */
  const Pi: real := 3.14159265358979323846
}
