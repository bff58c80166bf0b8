/** The numeric values the Python code compares: floats that may be infinite
    (`float("inf")`, `float("-inf")`) and floats that may be NaN. */
module Numbers {

  /** A real number extended with the two infinities. */
  datatype ExtReal = NegInf | Fin(value: real) | PosInf

  /** Python's `<` on two non-NaN floats. */
  predicate Less(a: ExtReal, b: ExtReal)
  {
    match a
    case NegInf => !b.NegInf?
    case Fin(x) => (b.Fin? && x < b.value) || b.PosInf?
    case PosInf => false
  }

  /** Python's `<=` on two non-NaN floats. */
  predicate LessEq(a: ExtReal, b: ExtReal)
  {
    a == b || Less(a, b)
  }

  /** A float that may be NaN (pandas' marker for a missing value). */
  datatype Float = NaN | Num(value: real)

  /** Python's `a > b`: false whenever either side is NaN. */
  predicate Gt(a: Float, b: real)
  {
    a.Num? && a.value > b
  }

  /** Python's `a < b`: false whenever either side is NaN. */
  predicate Lt(a: Float, b: real)
  {
    a.Num? && a.value < b
  }

  /** Python's `a >= b`: false whenever either side is NaN. */
  predicate Ge(a: real, b: Float)
  {
    b.Num? && a >= b.value
  }

  /** Python's `a <= b`: false whenever either side is NaN. */
  predicate Le(a: real, b: Float)
  {
    b.Num? && a <= b.value
  }

  function Abs(x: real): real
  {
    if x < 0.0 then -x else x
  }
}
