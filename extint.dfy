/** Integers extended with the two infinities that the search uses as its
    initial running values and as the initial alpha-beta window. */
module ExtendedInt {

  datatype ExtInt = NegInf | Fin(n: int) | PosInf

  /** The order NegInf < Fin(_) < PosInf, with finite values ordered as integers. */
  predicate Le(x: ExtInt, y: ExtInt)
  {
    match x
    case NegInf => true
    case Fin(a) => y.PosInf? || (y.Fin? && a <= y.n)
    case PosInf => y.PosInf?
  }

  predicate Lt(x: ExtInt, y: ExtInt)
  {
    Le(x, y) && x != y
  }

  function Max(x: ExtInt, y: ExtInt): (m: ExtInt)
    ensures Le(x, m) && Le(y, m)
    ensures m == x || m == y
  {
    if Le(x, y) then y else x
  }

  function Min(x: ExtInt, y: ExtInt): (m: ExtInt)
    ensures Le(m, x) && Le(m, y)
    ensures m == x || m == y
  {
    if Le(x, y) then x else y
  }

  /** Le is a total order, so the strict comparisons of the search are the
      negations of the non-strict ones. */
  lemma TotalOrder(x: ExtInt, y: ExtInt, z: ExtInt)
    ensures Le(x, x)
    ensures Le(x, y) && Le(y, x) ==> x == y
    ensures Le(x, y) && Le(y, z) ==> Le(x, z)
    ensures Le(x, y) || Le(y, x)
    ensures Lt(x, y) <==> !Le(y, x)
  {
  }
}
