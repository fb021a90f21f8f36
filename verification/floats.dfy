/**
 * An IEEE-754 value seen through exact arithmetic: a finite number, one of
 * the two infinities, or NaN. Rounding, overflow and the sign of zero are not
 * represented. The operations follow the IEEE rules for the special values,
 * and the comparisons are false whenever a NaN is involved.
 */
module Floats {

  /** `std::numeric_limits<double>::max()`, that is (2^53 - 1) * 2^971. */
  const MaxDouble: real := 179769313486231570814527423731704356798070567525844996598917476803157260780028538760589558632766878171540458953514382464234321326889464182768467546703537516986049910576551282076245490090389328944075868508455133942304583236903222948165808559332123348274797826204144723168738177180919299881250404026184124858368.0

  datatype Ext = Fin(v: real) | PosInf | NegInf | NaN
  {
    /** Every value except NaN. */
    predicate IsNumber()
    {
      !NaN?
    }

    function Neg(): Ext
    {
      match this
      case Fin(a) => Fin(-a)
      case PosInf => NegInf
      case NegInf => PosInf
      case NaN => NaN
    }

    function Add(b: Ext): Ext
    {
      if NaN? || b.NaN? then NaN
      else if Fin? && b.Fin? then Fin(v + b.v)
      else if (PosInf? && b.NegInf?) || (NegInf? && b.PosInf?) then NaN
      else if PosInf? || b.PosInf? then PosInf
      else NegInf
    }

    function Sub(b: Ext): Ext
    {
      Add(b.Neg())
    }

    function Mul(b: Ext): Ext
    {
      if NaN? || b.NaN? then NaN
      else if Fin? && b.Fin? then Fin(Product(v, b.v))
      else if Fin? then (if v == 0.0 then NaN else if v > 0.0 then b else b.Neg())
      else if b.Fin? then (if b.v == 0.0 then NaN else if b.v > 0.0 then this else Neg())
      else if this == b then PosInf
      else NegInf
    }

    /** Division, where a zero divisor is taken to be +0. */
    function Div(b: Ext): Ext
    {
      if NaN? || b.NaN? then NaN
      else if Fin? && b.Fin? then
        (if b.v != 0.0 then Fin(Quotient(v, b.v))
         else if v > 0.0 then PosInf
         else if v < 0.0 then NegInf
         else NaN)
      else if Fin? then Fin(0.0)
      else if b.Fin? then (if b.v >= 0.0 then this else Neg())
      else NaN
    }

    /** The IEEE `<`. */
    predicate Lt(b: Ext)
    {
      if Fin? && b.Fin? then v < b.v
      else (NegInf? && (b.Fin? || b.PosInf?)) || (Fin? && b.PosInf?)
    }

    /** The IEEE `<=`: false when either side is NaN. */
    predicate Le(b: Ext)
    {
      IsNumber() && b.IsNumber() && !b.Lt(this)
    }
  }

  /**
   * The product and quotient of two finite values. Kept as named functions so
   * that the solver meets them as terms rather than as non-linear arithmetic
   * over destructor applications.
   */
  function Product(a: real, c: real): real
  {
    a * c
  }

  function Quotient(a: real, c: real): real
    requires c != 0.0
  {
    a / c
  }

  /** `std::min(a, b)`, which is `(b < a) ? b : a`. */
  function StdMin(a: Ext, b: Ext): Ext
  {
    if b.Lt(a) then b else a
  }

  /** `std::max(a, b)`, which is `(a < b) ? b : a`. */
  function StdMax(a: Ext, b: Ext): Ext
  {
    if a.Lt(b) then b else a
  }

  /** `std::fmin(a, b)`: a NaN argument is ignored in favour of the other one. */
  function FMin(a: Ext, b: Ext): Ext
  {
    if a.NaN? then b else if b.NaN? then a else StdMin(a, b)
  }

  /** On numbers, `Le` is a total order. */
  lemma LeTotal(a: Ext, b: Ext)
    requires a.IsNumber() && b.IsNumber()
    ensures a.Le(b) || b.Le(a)
    ensures a.Le(b) && b.Le(a) ==> a == b
  {
  }

  lemma LeTransitive(a: Ext, b: Ext, c: Ext)
    requires a.Le(b) && b.Le(c)
    ensures a.Le(c)
  {
  }

  /** A strict comparison survives widening on both sides. */
  lemma LtWidened(a: Ext, b: Ext, c: Ext, d: Ext)
    requires a.Le(b) && b.Lt(c) && c.Le(d)
    ensures a.Lt(d)
  {
  }

  /** On numbers the nested `std::min` of three is one of them and below each; dually for `std::max`. */
  lemma StdMinMax3(a: Ext, b: Ext, c: Ext)
    requires a.IsNumber() && b.IsNumber() && c.IsNumber()
    ensures var m := StdMin(a, StdMin(b, c));
      (m == a || m == b || m == c) && m.Le(a) && m.Le(b) && m.Le(c)
    ensures var m := StdMax(a, StdMax(b, c));
      (m == a || m == b || m == c) && a.Le(m) && b.Le(m) && c.Le(m)
  {
    StdMinMaxOfNumbers(b, c);
    StdMinMaxOfNumbers(a, StdMin(b, c));
    StdMinMaxOfNumbers(a, StdMax(b, c));
    LeTransitive(StdMin(a, StdMin(b, c)), StdMin(b, c), b);
    LeTransitive(StdMin(a, StdMin(b, c)), StdMin(b, c), c);
    LeTransitive(b, StdMax(b, c), StdMax(a, StdMax(b, c)));
    LeTransitive(c, StdMax(b, c), StdMax(a, StdMax(b, c)));
  }

  /** On numbers `std::min` and `std::max` pick the smaller and the larger argument. */
  lemma StdMinMaxOfNumbers(a: Ext, b: Ext)
    requires a.IsNumber() && b.IsNumber()
    ensures StdMin(a, b) == StdMin(b, a) && StdMax(a, b) == StdMax(b, a)
    ensures StdMin(a, b).Le(a) && StdMin(a, b).Le(b)
    ensures a.Le(StdMax(a, b)) && b.Le(StdMax(a, b))
    ensures StdMin(a, b).Le(StdMax(a, b))
  {
  }
}
