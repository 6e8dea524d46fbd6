/** Integers extended with the two infinities the search uses as initial scores and
    as the value of a node whose side has no move (`math.inf` in the program). */
module ExtInts {

  datatype ExtInt = NegInf | Fin(n: int) | PosInf

  /** The total order on extended integers. */
  predicate Le(a: ExtInt, b: ExtInt) {
    a.NegInf? || b.PosInf? || (a.Fin? && b.Fin? && a.n <= b.n)
  }

  predicate Lt(a: ExtInt, b: ExtInt) {
    !Le(b, a)
  }

  /** Like the program's `max(a, b)`: the first argument when it is not smaller. */
  function Max(a: ExtInt, b: ExtInt): (r: ExtInt)
    ensures Le(a, r) && Le(b, r)
    ensures r == a || r == b
  {
    if Le(b, a) then a else b
  }

  /** Like the program's `min(a, b)`: the first argument when it is not larger. */
  function Min(a: ExtInt, b: ExtInt): (r: ExtInt)
    ensures Le(r, a) && Le(r, b)
    ensures r == a || r == b
  {
    if Le(a, b) then a else b
  }
}
