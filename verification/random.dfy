/** The pseudo-random engines (`std::mt19937`, `std::mt19937_64`) and the
    distributions drawn from them, as an abstract engine: the state is an
    opaque number, each draw returns its value and the successor state, and
    the only facts used are the ranges the distributions guarantee. */
module Random {

  type State = nat

  datatype Rng = Rng(
    /** engine state right after construction from a seed */
    seeded: int -> State,
    /** `std::uniform_real_distribution<double>(lo, hi)(engine)` */
    uniformReal: (State, real, real) -> (real, State),
    /** `std::uniform_int_distribution<int>(lo, hi)(engine)` */
    uniformInt: (State, int, int) -> (int, State)
  )

  /** The distribution ranges: a real draw lies in [lo, hi), an int draw in [lo, hi]. */
  ghost predicate Valid(g: Rng) {
    (forall s: State, lo: real, hi: real :: lo < hi ==>
       lo <= g.uniformReal(s, lo, hi).0 < hi) &&
    (forall s: State, lo: int, hi: int :: lo <= hi ==>
       lo <= g.uniformInt(s, lo, hi).0 <= hi)
  }

  /** One `uniform_real_distribution<double>(0.0, 1.0)` draw. */
  function Unit01(g: Rng, s: State): (r: (real, State))
    requires Valid(g)
    ensures 0.0 <= r.0 < 1.0
  {
    g.uniformReal(s, 0.0, 1.0)
  }

  /** The state after `n` consecutive `Unit01` draws from `s`. */
  function Draws(g: Rng, s: State, n: nat): State
    requires Valid(g)
    decreases n
  {
    if n == 0 then s else Unit01(g, Draws(g, s, n - 1)).1
  }

  /** Drawing `a` values and then `b` more is drawing `a + b`. */
  lemma {:induction false} DrawsAdd(g: Rng, s: State, a: nat, b: nat)
    requires Valid(g)
    ensures Draws(g, Draws(g, s, a), b) == Draws(g, s, a + b)
    decreases b
  {
    if b > 0 {
      DrawsAdd(g, s, a, b - 1);
    }
  }
}
