/** Integers extended with the two sentinels -infinity and +infinity.
    The search initialises its running values and its window bounds with
    these sentinels; every utility is a finite integer. */
module ExtendedInt {

  datatype ExtInt = NegInf | Fin(n: int) | PosInf

  /** The order of the extended integers: -infinity below every integer,
      +infinity above. */
  predicate Le(x: ExtInt, y: ExtInt)
  {
    x.NegInf? || y.PosInf? || (x.Fin? && y.Fin? && x.n <= y.n)
  }

  predicate Lt(x: ExtInt, y: ExtInt)
  {
    !Le(y, x)
  }

  /** The larger of two values (Python's `max`). */
  function Max(x: ExtInt, y: ExtInt): (r: ExtInt)
    ensures Le(x, r) && Le(y, r)
    ensures r == x || r == y
  {
    if Le(x, y) then y else x
  }

  /** The smaller of two values (Python's `min`). */
  function Min(x: ExtInt, y: ExtInt): (r: ExtInt)
    ensures Le(r, x) && Le(r, y)
    ensures r == x || r == y
  {
    if Le(x, y) then x else y
  }

  /** Le is a total order. */
  lemma LeTotalOrder(x: ExtInt, y: ExtInt, z: ExtInt)
    ensures Le(x, x)
    ensures Le(x, y) && Le(y, x) ==> x == y
    ensures Le(x, y) && Le(y, z) ==> Le(x, z)
    ensures Le(x, y) || Le(y, x)
  {
  }
}
