/** Facts about real multiplication that the solver does not find unaided. */
module Arith {

  /** A square is non-negative, and zero exactly for zero. */
  lemma SquareNonNegative(a: real)
    ensures a * a >= 0.0
    ensures a != 0.0 ==> a * a > 0.0
    ensures a == 0.0 ==> a * a == 0.0
  {
    if a < 0.0 {
      assert a * a == (-a) * (-a);
    }
  }

  /** Multiplying by a non-negative factor keeps `<=`. */
  lemma MulMonotone(a: real, b: real, c: real)
    requires a <= b && c >= 0.0
    ensures a * c <= b * c
  {
    assert b * c - a * c == (b - a) * c;
  }

  /** Multiplying by a positive factor keeps `<`, and by a negative one reverses it. */
  lemma MulStrictMonotone(a: real, b: real, c: real)
    requires a < b && c != 0.0
    ensures c > 0.0 ==> a * c < b * c
    ensures c < 0.0 ==> a * c > b * c
  {
    assert b * c - a * c == (b - a) * c;
  }

  /** A number in [0, 1] has its square in [0, 1]. */
  lemma UnitSquare(a: real)
    requires 0.0 <= a <= 1.0
    ensures 0.0 <= a * a <= a <= 1.0
  {
    MulMonotone(a, 1.0, a);
    MulMonotone(0.0, a, a);
  }

  /** Scaling by `1 / c` and then by `c` gives back the original value. */
  lemma DivideThenMultiply(a: real, c: real)
    requires c != 0.0
    ensures a * (1.0 / c) * c == a
  {
    assert (1.0 / c) * c == 1.0;
  }
}
