/** Integers extended with the two infinities the search uses as initial alpha, beta and best values. */
module Extended {

  datatype ExtInt = NegInf | Fin(n: int) | PosInf

  /** Strict order: NegInf below every finite value, every finite value below PosInf. */
  predicate Less(x: ExtInt, y: ExtInt) {
    match x
    case NegInf => !y.NegInf?
    case Fin(a) => y.PosInf? || (y.Fin? && a < y.n)
    case PosInf => false
  }

  predicate AtMost(x: ExtInt, y: ExtInt) {
    !Less(y, x)
  }

  /** `x` replaced by `y` if `y` is greater: the update `if y > x: x = y` that `_run_minimax` applies to its
      running maximum and to alpha (CONNETC4.py lines 310 and 317). */
  function Raise(x: ExtInt, y: ExtInt): (r: ExtInt)
    ensures AtMost(x, r) && AtMost(y, r) && (r == x || r == y)
  {
    if Less(x, y) then y else x
  }

  /** `x` replaced by `y` if `y` is smaller: the update `if y < x: x = y` that `_run_minimax` applies to its
      running minimum and to beta (CONNETC4.py lines 338 and 345). */
  function Lower(x: ExtInt, y: ExtInt): (r: ExtInt)
    ensures AtMost(r, x) && AtMost(r, y) && (r == x || r == y)
  {
    if Less(y, x) then y else x
  }

  /** `Less` is a strict total order. */
  lemma LessIsStrictTotalOrder(x: ExtInt, y: ExtInt, z: ExtInt)
    ensures !Less(x, x)
    ensures Less(x, y) && Less(y, z) ==> Less(x, z)
    ensures x != y ==> Less(x, y) || Less(y, x)
  {
  }
}
