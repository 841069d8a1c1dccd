/**
 * The JavaScript number values that the player-list code produces and compares:
 * the two infinities and finite integers. NaN never arises, because the code only
 * subtracts two numbers after checking that they differ (and two different values
 * of this type never subtract to NaN).
 */
module JsNumber {

  datatype Num = NegInfinity | Finite(v: int) | Infinity

  /** The numeric order `x < y` on these values. */
  predicate Less(x: Num, y: Num) {
    match (x, y)
    case (NegInfinity, NegInfinity) => false
    case (NegInfinity, _) => true
    case (Finite(a), Finite(b)) => a < b
    case (Finite(_), Infinity) => true
    case (_, _) => false
  }

  /** `x - y`; only `Infinity - Infinity` and `-Infinity - -Infinity` would be NaN. */
  function Sub(x: Num, y: Num): (r: Num)
    requires x != y || x.Finite?
    ensures r == Finite(0) <==> x == y
    ensures Less(r, Finite(0)) <==> Less(x, y)
    ensures Less(Finite(0), r) <==> Less(y, x)
  {
    match (x, y)
    case (Finite(a), Finite(b)) => Finite(a - b)
    case (Infinity, _) => Infinity
    case (_, NegInfinity) => Infinity
    case (_, _) => NegInfinity
  }

  /**
   * What a sort does with a comparator's result: only whether it is negative,
   * zero or positive matters.
   */
  function Sign(x: Num): (s: int)
    ensures s == -1 <==> Less(x, Finite(0))
    ensures s == 0 <==> x == Finite(0)
    ensures s == 1 <==> Less(Finite(0), x)
  {
    match x
    case NegInfinity => -1
    case Infinity => 1
    case Finite(v) => if v < 0 then -1 else if v == 0 then 0 else 1
  }

  lemma LessIsStrictTotalOrder(x: Num, y: Num, z: Num)
    ensures !Less(x, x)
    ensures Less(x, y) ==> !Less(y, x)
    ensures Less(x, y) && Less(y, z) ==> Less(x, z)
    ensures x == y || Less(x, y) || Less(y, x)
  {
  }
}
