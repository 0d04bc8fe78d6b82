/** Extended reals with the IEEE-754 behaviour the search code relies on:
    +inf / -inf bounds, NaN from `inf - inf`, and ordered comparisons that are
    false whenever either side is NaN. Rounding is not modelled. */
module ExtReal {

  datatype EReal = Fin(v: real) | PosInf | NegInf | NaN

  /** std::isfinite */
  predicate IsFinite(x: EReal) {
    x.Fin?
  }

  /** The ordered comparison `x < y`. */
  predicate Lt(x: EReal, y: EReal) {
    match x
    case Fin(a) => (y.Fin? && a < y.v) || y.PosInf?
    case NegInf => y.Fin? || y.PosInf?
    case PosInf => false
    case NaN => false
  }

  /** `x <= y` */
  predicate Le(x: EReal, y: EReal) {
    Lt(x, y) || (x == y && !x.NaN?)
  }

  /** `x >= y` */
  predicate Ge(x: EReal, y: EReal) {
    Le(y, x)
  }

  /** `x > y` */
  predicate Gt(x: EReal, y: EReal) {
    Lt(y, x)
  }

  function Neg(x: EReal): EReal {
    match x
    case Fin(a) => Fin(-a)
    case PosInf => NegInf
    case NegInf => PosInf
    case NaN => NaN
  }

  function Add(x: EReal, y: EReal): EReal {
    if x.NaN? || y.NaN? then NaN
    else if x.PosInf? then (if y.NegInf? then NaN else PosInf)
    else if x.NegInf? then (if y.PosInf? then NaN else NegInf)
    else if y.Fin? then Fin(x.v + y.v)
    else y
  }

  function Sub(x: EReal, y: EReal): EReal {
    Add(x, Neg(y))
  }

  /** `0.5 * x` */
  function Half(x: EReal): EReal {
    match x
    case Fin(a) => Fin(a / 2.0)
    case _ => x
  }

  /** `x / d` for a real divisor; a zero divisor is taken as +0. */
  function DivBy(x: EReal, d: real): EReal {
    if d == 0.0 then
      match x
      case Fin(a) => if a > 0.0 then PosInf else if a < 0.0 then NegInf else NaN
      case _ => x
    else
      match x
      case Fin(a) => Fin(a / d)
      case PosInf => if d > 0.0 then PosInf else NegInf
      case NegInf => if d > 0.0 then NegInf else PosInf
      case NaN => NaN
  }

  /** `c * x` for a real factor: an infinity times zero is NaN, times a
      negative factor it changes sign. */
  function Scale(c: real, x: EReal): EReal {
    match x
    case Fin(a) => Fin(c * a)
    case PosInf => if c > 0.0 then PosInf else if c < 0.0 then NegInf else NaN
    case NegInf => if c > 0.0 then NegInf else if c < 0.0 then PosInf else NaN
    case NaN => NaN
  }

  /** `x / y`: a finite numerator over an infinite denominator gives 0, an
      infinite one gives NaN, and NaN spreads. */
  function Div(x: EReal, y: EReal): EReal {
    match y
    case Fin(d) => DivBy(x, d)
    case NaN => NaN
    case _ => if x.Fin? then Fin(0.0) else NaN
  }

  /** The incumbent update `if (f < UB) UB = f;` */
  function Tighten(ub: EReal, f: EReal): (r: EReal)
    ensures r == ub || (r == f && Lt(f, ub))
    ensures !ub.NaN? ==> Le(r, ub)
    ensures Lt(f, ub) ==> r == f
  {
    if Lt(f, ub) then f else ub
  }

  /** The incumbent update `if (std::isfinite(f) && f < UB) UB = f;` */
  function TightenFinite(ub: EReal, f: EReal): (r: EReal)
    ensures r == ub || (r == f && IsFinite(f) && Lt(f, ub))
    ensures !ub.NaN? ==> Le(r, ub)
    ensures IsFinite(f) && Lt(f, ub) ==> r == f
    ensures !ub.NaN? && IsFinite(f) ==> Le(r, f)
  {
    if IsFinite(f) && Lt(f, ub) then f else ub
  }

  /** Adding the same finite bonus to two values never changes how they
      compare. */
  lemma SameBonusKeepsOrder(a: EReal, b: EReal, t: real)
    ensures Ge(Add(a, Fin(t)), Add(b, Fin(t))) <==> Ge(a, b)
  {
  }

  lemma LtIrreflexive(x: EReal)
    ensures !Lt(x, x)
  {
  }

  lemma LeTransitive(x: EReal, y: EReal, z: EReal)
    requires Le(x, y) && Le(y, z)
    ensures Le(x, z)
  {
  }

  lemma LtLeTransitive(x: EReal, y: EReal, z: EReal)
    requires Lt(x, y) && Le(y, z)
    ensures Lt(x, z)
  {
  }

  lemma LeLtTransitive(x: EReal, y: EReal, z: EReal)
    requires Le(x, y) && Lt(y, z)
    ensures Lt(x, z)
  {
  }

  /** Without NaN the comparison is a total order. */
  lemma LeTotal(x: EReal, y: EReal)
    requires !x.NaN? && !y.NaN?
    ensures Le(x, y) || Le(y, x)
    ensures Lt(x, y) || x == y || Lt(y, x)
  {
  }

  /** Negation reverses the order: a lower objective bound gives a higher score. */
  lemma NegAntitone(x: EReal, y: EReal)
    ensures Lt(x, y) <==> Lt(Neg(y), Neg(x))
  {
  }
}
