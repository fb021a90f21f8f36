/**
 * The diffuse material: its emission test, its constant hemisphere pdf, its
 * Lambertian evaluation and the cosine-free local z of its sample direction.
 */
module Materials {
  import opened Globals
  import opened Vectors
  import opened Arith

  /** The only material kind the renderer defines. */
  datatype MaterialType = Diffuse

  /**
   * A material: kind, emitted radiance and diffuse colour. The constructor
   * sets only the first two; `kd` is the colour the scene assigns afterwards.
   */
  datatype Material = Material(mType: MaterialType, emission: Vec3, kd: Vec3)

  /** `Material(t, e)` followed by the caller's assignment of the diffuse colour. */
  function NewMaterial(t: MaterialType, e: Vec3, kd: Vec3): (m: Material)
    ensures m.mType == t && m.emission == e && m.kd == kd
  {
    Material(t, e, kd)
  }

  /** `Material()` with both defaults: a diffuse material that emits nothing. */
  function DefaultMaterial(kd: Vec3): (m: Material)
    ensures m.mType == Diffuse && m.emission == Zero() && m.kd == kd
    ensures !HasEmission(m)
  {
    assert NormSquared(Zero()) == 0.0;
    NewMaterial(Diffuse, Zero(), kd)
  }

  /** Squared Euclidean length. */
  function NormSquared(v: Vec3): real
  {
    v.x * v.x + v.y * v.y + v.z * v.z
  }

  /**
   * `glm::length(emission) > EPSILON`. The length is a square root, so the
   * test is stated on squares, which is the same test because both sides are
   * non-negative (see `HasEmissionIsLengthTest`).
   */
  predicate HasEmission(m: Material)
  {
    NormSquared(m.emission) > Epsilon * Epsilon
  }

  /** For any non-negative `len` whose square is the squared length, the test is `len > EPSILON`. */
  lemma HasEmissionIsLengthTest(m: Material, len: real)
    requires len >= 0.0 && len * len == NormSquared(m.emission)
    ensures HasEmission(m) <==> len > Epsilon
  {
    if len > Epsilon {
      MulStrictMonotone(Epsilon, len, len);
      MulMonotone(Epsilon, len, Epsilon);
    } else {
      MulMonotone(len, Epsilon, len);
      MulMonotone(len, Epsilon, Epsilon);
    }
  }

  /** A material emits only when its emission is non-zero, and every emission long enough on one axis emits. */
  lemma HasEmissionBounds(m: Material)
    ensures HasEmission(m) ==> m.emission != Zero()
    ensures (m.emission.x > Epsilon || m.emission.x < -Epsilon
          || m.emission.y > Epsilon || m.emission.y < -Epsilon
          || m.emission.z > Epsilon || m.emission.z < -Epsilon) ==> HasEmission(m)
  {
    var e := m.emission;
    if e == Zero() {
      assert NormSquared(e) == 0.0;
    }
    SquareNonNegative(e.x);
    SquareNonNegative(e.y);
    SquareNonNegative(e.z);
    SquareAbove(e.x);
    SquareAbove(e.y);
    SquareAbove(e.z);
  }

  /** A number farther than `Epsilon` from 0 has a square above `Epsilon^2`. */
  lemma SquareAbove(a: real)
    ensures (a > Epsilon || a < -Epsilon) ==> a * a > Epsilon * Epsilon
  {
    if a > Epsilon {
      MulStrictMonotone(Epsilon, a, a);
      MulStrictMonotone(Epsilon, a, Epsilon);
    } else if a < -Epsilon {
      assert a * a == (-a) * (-a);
      MulStrictMonotone(Epsilon, -a, -a);
      MulStrictMonotone(Epsilon, -a, Epsilon);
    }
  }

  /** `getColorAt(u, v)`: the texture lookup is not implemented and yields black. */
  function GetColorAt(m: Material, u: real, v: real): (c: Vec3)
    ensures c == Zero()
  {
    Zero()
  }

  /** `pdf(wi, wo, N)`: uniform over the hemisphere around N, zero below it. */
  function Pdf(m: Material, wi: Vec3, wo: Vec3, n: Vec3): (p: real)
    ensures p >= 0.0
    ensures p == 0.0 <==> wo.Dot(n) <= 0.0
    ensures p > 0.0 ==> p * 2.0 * Pi == 1.0
  {
    match m.mType
    case Diffuse =>
      if wo.Dot(n) > 0.0 then
        assert 0.5 / Pi * Pi == 0.5;
        0.5 / Pi
      else 0.0
  }

  /** `eval(wi, wo, N)`: the Lambertian `Kd / pi` above the surface, black below it. */
  function Eval(m: Material, wi: Vec3, wo: Vec3, n: Vec3): (f: Vec3)
    ensures n.Dot(wo) <= 0.0 ==> f == Zero()
    ensures n.Dot(wo) > 0.0 ==> f.Scale(Pi) == m.kd
  {
    match m.mType
    case Diffuse =>
      if n.Dot(wo) > 0.0 then
        DivideThenMultiply(m.kd.x, Pi);
        DivideThenMultiply(m.kd.y, Pi);
        DivideThenMultiply(m.kd.z, Pi);
        m.kd.Scale(1.0 / Pi)
      else Zero()
  }

  /** The two dot products the material takes, `dot(wo, N)` and `dot(N, wo)`, agree. */
  lemma DotSymmetric(a: Vec3, b: Vec3)
    ensures a.Dot(b) == b.Dot(a)
  {
  }

  /**
   * `pdf` and `eval` gate on the same half-space: where the pdf vanishes the
   * evaluation is black, and where it is positive the evaluation is `Kd / pi`.
   */
  lemma PdfEvalAgree(m: Material, wi: Vec3, wo: Vec3, n: Vec3)
    ensures Pdf(m, wi, wo, n) == 0.0 ==> Eval(m, wi, wo, n) == Zero()
    ensures Pdf(m, wi, wo, n) > 0.0 ==> Eval(m, wi, wo, n).Scale(Pi) == m.kd
    ensures m.kd != Zero() ==> (Pdf(m, wi, wo, n) == 0.0 <==> Eval(m, wi, wo, n) == Zero())
  {
    DotSymmetric(wo, n);
    if wo.Dot(n) > 0.0 {
      assert Zero().Scale(Pi) == Zero();
    }
  }

  /** The local z of `sample`: `|1 - 2 x1|` for the first random draw `x1`. */
  function LocalZ(x1: real): (z: real)
    requires 0.0 <= x1 <= 1.0
    ensures 0.0 <= z <= 1.0
    ensures z * z <= 1.0
    ensures x1 <= 0.5 ==> z == 1.0 - 2.0 * x1
    ensures x1 >= 0.5 ==> z == 2.0 * x1 - 1.0
  {
    var w := if x1 <= 0.5 then 1.0 - 2.0 * x1 else 2.0 * x1 - 1.0;
    UnitSquare(w);
    w
  }
}
