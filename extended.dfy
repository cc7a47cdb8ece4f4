/**
 * The float values the template search compares: finite reals and the
 * +infinity that std::numeric_limits<float>::infinity() stands for, with
 * IEEE 754 comparison and addition restricted to these two kinds.
 */
module Extended {

  datatype ExtReal = Fin(v: real) | Inf

  /** a <= b */
  predicate Le(a: ExtReal, b: ExtReal) {
    match (a, b)
    case (Fin(x), Fin(y)) => x <= y
    case (_, Inf) => true
    case (Inf, Fin(_)) => false
  }

  /** a > b, the negation of a <= b */
  predicate Gt(a: ExtReal, b: ExtReal) {
    !Le(a, b)
  }

  function Add(a: ExtReal, b: ExtReal): ExtReal {
    if a.Fin? && b.Fin? then Fin(a.v + b.v) else Inf
  }

  /** `<=` is a total preorder on these values, as on floats without NaN. */
  lemma LeTotal(a: ExtReal, b: ExtReal)
    ensures Le(a, b) || Le(b, a)
  {
  }

  lemma LeTransitive(a: ExtReal, b: ExtReal, c: ExtReal)
    requires Le(a, b) && Le(b, c)
    ensures Le(a, c)
  {
  }

  /** Infinity is absorbing for addition, and above every finite value. */
  lemma InfAbsorbs(a: ExtReal, r: real)
    ensures Add(a, Inf) == Inf && Add(Inf, a) == Inf
    ensures Gt(Inf, Fin(r))
  {
  }
}
