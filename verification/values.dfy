/** Value domains of the search engines.

    The source starts its running maxima and minima at float("-inf") and
    float("inf") and compares them with integer scores.  `ExtInt` is the
    integers extended with those two sentinels, totally ordered.  `ExtReal`
    is what expectimax computes: reals plus the negative infinity that a
    protagonist node without moves returns (positive infinity never arises
    there). */
module Values {

  datatype ExtInt = NegInf | Fin(n: int) | PosInf

  predicate Le(x: ExtInt, y: ExtInt)
  {
    x.NegInf? || y.PosInf? || (x.Fin? && y.Fin? && x.n <= y.n)
  }

  predicate Lt(x: ExtInt, y: ExtInt)
  {
    !Le(y, x)
  }

  /** Python's max(x, y) on two values of the order. */
  function Max(x: ExtInt, y: ExtInt): (r: ExtInt)
    ensures Le(x, r) && Le(y, r)
    ensures r == x || r == y
  {
    if Le(x, y) then y else x
  }

  /** Python's min(x, y) on two values of the order. */
  function Min(x: ExtInt, y: ExtInt): (r: ExtInt)
    ensures Le(r, x) && Le(r, y)
    ensures r == x || r == y
  {
    if Le(x, y) then x else y
  }

  lemma LeTransitive(x: ExtInt, y: ExtInt, z: ExtInt)
    requires Le(x, y) && Le(y, z)
    ensures Le(x, z)
  {
  }

  datatype ExtReal = MinusInf | Num(x: real)

  /** Python's `>` on an expected score and the running maximum. */
  predicate Gt(u: ExtReal, w: ExtReal)
  {
    u.Num? && (w.MinusInf? || u.x > w.x)
  }

  /** `u + w`: negative infinity absorbs every finite summand. */
  function Add(u: ExtReal, w: ExtReal): ExtReal
  {
    if u.MinusInf? || w.MinusInf? then MinusInf else Num(u.x + w.x)
  }

  /** `p * u` for a positive probability `p`. */
  function Scale(p: real, u: ExtReal): ExtReal
    requires p > 0.0
  {
    if u.MinusInf? then MinusInf else Num(p * u.x)
  }

  lemma ScaleDistributes(p: real, u: ExtReal, w: ExtReal)
    requires p > 0.0
    ensures Add(Scale(p, u), Scale(p, w)) == Scale(p, Add(u, w))
  {
    if u.Num? && w.Num? {
      assert p * u.x + p * w.x == p * (u.x + w.x);
    }
  }

  /** The integer view of an expected score: how a minimax value reads
      once converted to the expectimax domain. */
  predicate SameValue(m: ExtInt, e: ExtReal)
  {
    match m
    case NegInf => e == MinusInf
    case Fin(n) => e == Num(n as real)
    case PosInf => false
  }
}

/** The error values the source raises instead of returning. */
module Outcomes {

  datatype Error =
    | ValueError        // max([]) or min([]) on an empty list
    | ZeroDivisionError // 1 / len(actions) with no actions

  datatype Result<T> = Ok(value: T) | Err(error: Error)

  /** Python's None-or-value. */
  datatype Option<T> = None | Some(value: T)
}
