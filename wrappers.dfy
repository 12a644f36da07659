/** Small value types shared by every module: an optional value and the
    integers extended with the two infinities that JavaScript's
    Number.POSITIVE_INFINITY / NEGATIVE_INFINITY stand for. */
module Wrappers {

  datatype Option<+T> = None | Some(value: T)

  /** An integer or one of the two infinities. */
  datatype ExtInt = NegInf | Finite(n: int) | PosInf {

    /** The order of the extended integers: -inf <= every integer <= +inf. */
    predicate Le(other: ExtInt) {
      match (this, other)
      case (NegInf, _) => true
      case (_, PosInf) => true
      case (Finite(a), Finite(b)) => a <= b
      case _ => false
    }

    predicate Lt(other: ExtInt) {
      Le(other) && this != other
    }
  }

  /** Math.min on extended integers. */
  function Min(a: ExtInt, b: ExtInt): (r: ExtInt)
    ensures r.Le(a) && r.Le(b)
    ensures r == a || r == b
  {
    if a.Le(b) then a else b
  }

  /** Math.max on extended integers. */
  function Max(a: ExtInt, b: ExtInt): (r: ExtInt)
    ensures a.Le(r) && b.Le(r)
    ensures r == a || r == b
  {
    if a.Le(b) then b else a
  }

  lemma LeTransitive(a: ExtInt, b: ExtInt, c: ExtInt)
    requires a.Le(b) && b.Le(c)
    ensures a.Le(c)
  {
  }

  lemma LeTotal(a: ExtInt, b: ExtInt)
    ensures a.Le(b) || b.Le(a)
  {
  }
}
