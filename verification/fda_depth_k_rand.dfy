/** The depth-and-temperature Feasible Diving variant with noise
    (FDA_depth_k_rand.cpp): like `dive_depth_k`, but the budget step
    `d_max_run` is drawn once per dive from `d_max_global ± 10` and each
    child gets its own temperature from an independent uniform draw; the
    chosen child keeps its own. The B&B driver seeds one engine per run and
    shares it across all its dives. */
module FdaDepthKRand {
  import opened ExtReal
  import opened Bridge
  import opened RealMath
  import opened Random
  import opened Accounting
  import opened BbCommon
  import opened FdaDepthK

  /** `delta_d`: the half-width of the jitter of `d_max_global`. */
  const DeltaD: int := 10

  /** The loop state of `dive_depth_k_rand`: that of `dive_depth_k` plus the
      state of the shared engine. */
  datatype RDive = RDive(box: Box, goal: Enclosure, depth: int, ub: EReal, ubPrev: EReal, T: real,
                         budget: int, rs: State)

  /** The engine state after `n` splits from `s`: each split draws `rL` and
      then `rR` from `unif01`. */
  function AfterSplits(g: Rng, s: State, n: nat): State
    requires Valid(g)
    decreases n
  {
    if n == 0 then s else Unit01(g, Unit01(g, AfterSplits(g, s, n - 1)).1).1
  }

  /** The loop body of `dive_depth_k_rand` after the visit counters. `p.dMax`
      is the per-dive `d_max_run`. */
  function RandStep(opt: OptContext, g: Rng, p: KParams, st: RDive): (r: Step<RDive>)
    requires OptValid(opt) && Valid(g) && |st.box| >= 1
    ensures r.Halt? ==> r.why == BoxEmptied || (r.why == BoxSmall && st.depth > p.baseDepth)
    ensures r.Halt? ==> r.s.rs == st.rs && r.s.T == st.T
    ensures r.Next? ==> r.s.rs == Unit01(g, Unit01(g, st.rs).1).1
    ensures p.dMax >= 1 && st.depth <= st.budget ==> r.s.depth <= r.s.budget
    ensures r.Next? ==> Cools(opt.adaptiveK(p.k, st.ubPrev, r.s.ub), st.T, r.s.T)
    ensures |r.s.box| == |st.box|
    ensures r.s.depth == (if r.Next? then st.depth + 1 else st.depth)
    ensures !st.ub.NaN? ==> Le(r.s.ub, st.ub)
    ensures r.s.ub == st.ub || IsFinite(r.s.ub)
  {
    match opt.contractWithGoal(st.box, st.goal, st.ub)
    case GoalEmptied => Halt(st, BoxEmptied)
    case GoalNarrowed(x, gl) =>
      var ub := GoalUpdate(opt, st.ub, x, gl);
      var budget := if st.depth >= st.budget then st.budget + p.dMax else st.budget;
      if st.depth > p.baseDepth && Lt(MaxDiam(x), Fin(p.epsBox)) then
        Halt(RDive(x, gl, st.depth, ub, st.ubPrev, st.T, budget, st.rs), BoxSmall)
      else
        Next(RandBranch(opt, g, p, st, x, gl, ub, budget))
  }

  /** The split of a pass that did not stop: draw `rL` then `rR`, give each
      half the temperature `k_eff * T / 2` times its own draw, score each
      half with its own temperature, and move to the better one (the left
      one on ties), keeping that half's temperature. Since both draws lie in
      [0, 1), the noise only cools: with `k_eff, T >= 0` the temperature
      carried forward lies between 0 and the noise-free `k_eff * T / 2`. */
  function RandBranch(opt: OptContext, g: Rng, p: KParams, st: RDive, x: Box, gl: Enclosure,
                      ub: EReal, budget: int): (r: RDive)
    requires OptValid(opt) && Valid(g)
    ensures |r.box| == |x| && r.depth == st.depth + 1 && r.ub == ub && r.ubPrev == ub
    ensures r.budget == budget && r.goal == Entire
    ensures r.rs == Unit01(g, Unit01(g, st.rs).1).1
    ensures var (left, right) := opt.bisect(x, gl);
            var base := HalfScaled(opt.adaptiveK(p.k, st.ubPrev, ub), st.T);
            var (rL, s1) := Unit01(g, st.rs);
            var rR := Unit01(g, s1).0;
            (r.box == left && r.T == Jitter(base, rL)) || (r.box == right && r.T == Jitter(base, rR))
    ensures Cools(opt.adaptiveK(p.k, st.ubPrev, ub), st.T, r.T)
  {
    var (left, right) := opt.bisect(x, gl);
    var base := HalfScaled(opt.adaptiveK(p.k, st.ubPrev, ub), st.T);
    var (rL, s1) := Unit01(g, st.rs);
    var (rR, s2) := Unit01(g, s1);
    var tL := Jitter(base, rL);
    var tR := Jitter(base, rR);
    if Ge(Scored(opt, left, tL), Scored(opt, right, tR)) then RDive(left, Entire, st.depth + 1, ub, ub, tL, budget, s2)
    else RDive(right, Entire, st.depth + 1, ub, ub, tR, budget, s2)
  }

  /** The noise-free child temperature `k_eff * T / 2`. */
  function HalfScaled(kEff: real, T: real): (h: real)
    ensures kEff >= 0.0 && T >= 0.0 ==> h >= 0.0
  {
    kEff * T / 2.0
  }

  /** A child temperature scaled by a draw `rho` in [0, 1): never negative
      when the unscaled one is not, and never above it. */
  function Jitter(base: real, rho: real): (t: real)
    requires 0.0 <= rho < 1.0
    ensures base >= 0.0 ==> 0.0 <= t <= base
  {
    NoiseShrinks(base, rho);
    base * rho
  }

  lemma NoiseShrinks(a: real, rho: real)
    requires 0.0 <= rho < 1.0
    ensures a >= 0.0 ==> 0.0 <= a * rho <= a
  {
  }

  /** `T'` is a temperature cooled from `T` at least as much as the
      noise-free rule would with multiplier `kEff`. */
  ghost predicate Cools(kEff: real, T: real, T': real) {
    kEff >= 0.0 && T >= 0.0 ==> 0.0 <= T' <= HalfScaled(kEff, T)
  }

  /** What a split decides: the left half wins exactly when its score with
      its own temperature is at least the right half's with its own, and
      the winner carries its own temperature forward. */
  lemma RandBranchSpec(opt: OptContext, g: Rng, p: KParams, st: RDive, x: Box, gl: Enclosure,
                       ub: EReal, budget: int)
    requires OptValid(opt) && Valid(g)
    ensures var r := RandBranch(opt, g, p, st, x, gl, ub, budget);
            var (left, right) := opt.bisect(x, gl);
            var base := HalfScaled(opt.adaptiveK(p.k, st.ubPrev, ub), st.T);
            var (rL, s1) := Unit01(g, st.rs);
            var rR := Unit01(g, s1).0;
            var leftWins := Ge(Scored(opt, left, Jitter(base, rL)), Scored(opt, right, Jitter(base, rR)));
            r.box == (if leftWins then left else right) &&
            r.T == (if leftWins then Jitter(base, rL) else Jitter(base, rR))
  {
  }

  /** What one pass decides, as in `dive_depth_k`: it stops exactly when
      contraction empties the box, or when the depth is past `base_depth`
      and the box is narrower than `eps_box`; the budget grows by
      `d_max_run` exactly when the depth has reached it. */
  lemma RandStepSpec(opt: OptContext, g: Rng, p: KParams, st: RDive)
    requires OptValid(opt) && Valid(g) && |st.box| >= 1
    ensures var r := RandStep(opt, g, p, st);
            (r.Halt? && r.why == BoxEmptied <==> opt.contractWithGoal(st.box, st.goal, st.ub).GoalEmptied?) &&
            (r.Halt? && r.why == BoxEmptied ==> r.s == st)
    ensures opt.contractWithGoal(st.box, st.goal, st.ub).GoalNarrowed? ==>
              var r := RandStep(opt, g, p, st);
              var c := opt.contractWithGoal(st.box, st.goal, st.ub);
              var ub := GoalUpdate(opt, st.ub, c.box, c.goal);
              r.s.ub == ub &&
              r.s.budget == (if st.depth >= st.budget then st.budget + p.dMax else st.budget) &&
              (r.Halt? <==> st.depth > p.baseDepth && Lt(MaxDiam(c.box), Fin(p.epsBox))) &&
              (r.Next? ==> r.s == RandBranch(opt, g, p, st, c.box, c.goal, ub, r.s.budget))
  {
  }

  /** What the loop keeps about its state besides the depth: the incumbent
      never above `UB_global_in` and either that or finite; the budget ahead
      of the depth; and the engine advanced by two draws per split. */
  ghost predicate RandInv(g: Rng, p: KParams, ubIn: EReal, s0: State, st: RDive)
    requires Valid(g)
  {
    st.depth >= 0 &&
    (!ubIn.NaN? ==> Le(st.ub, ubIn)) &&
    (st.ub == ubIn || IsFinite(st.ub)) &&
    (p.dMax >= 1 ==> st.depth <= st.budget) &&
    st.rs == AfterSplits(g, s0, st.depth)
  }

  /** With a constant non-negative multiplier and `T0 >= 0`, the temperature
      stays between 0 and the noise-free `T0 * (k/2)^depth`. */
  ghost predicate CoolInv(opt: OptContext, k: real, T0: real, st: RDive) {
    st.depth >= 0 &&
    (ConstantK(opt, k) && k >= 0.0 && T0 >= 0.0 ==> 0.0 <= st.T <= T0 * Pow(k / 2.0, st.depth))
  }

  lemma StepKeepsRandInv(opt: OptContext, g: Rng, p: KParams, ubIn: EReal, s0: State, st: RDive)
    requires OptValid(opt) && Valid(g) && |st.box| >= 1 && RandInv(g, p, ubIn, s0, st)
    ensures RandInv(g, p, ubIn, s0, RandStep(opt, g, p, st).s)
  {
    var r := RandStep(opt, g, p, st).s;
    assert !ubIn.NaN? ==> Le(r.ub, ubIn) by {
      if !ubIn.NaN? {
        LeTransitive(r.ub, st.ub, ubIn);
      }
    }
    assert r.rs == AfterSplits(g, s0, r.depth) by {
      if RandStep(opt, g, p, st).Next? {
        assert AfterSplits(g, s0, st.depth + 1) == Unit01(g, Unit01(g, AfterSplits(g, s0, st.depth)).1).1;
      }
    }
  }

  lemma StepKeepsCoolInv(opt: OptContext, g: Rng, p: KParams, T0: real, st: RDive)
    requires OptValid(opt) && Valid(g) && |st.box| >= 1 && CoolInv(opt, p.k, T0, st)
    ensures CoolInv(opt, p.k, T0, RandStep(opt, g, p, st).s)
  {
    var step := RandStep(opt, g, p, st);
    KeepsCoolInv(opt, p.k, T0, st, step.s, step.Next?);
  }

  lemma KeepsCoolInv(opt: OptContext, k: real, T0: real, st: RDive, r: RDive, split: bool)
    requires CoolInv(opt, k, T0, st)
    requires split ==> r.depth == st.depth + 1 && Cools(opt.adaptiveK(k, st.ubPrev, r.ub), st.T, r.T)
    requires !split ==> r.depth == st.depth && r.T == st.T
    ensures CoolInv(opt, k, T0, r)
  {
    if ConstantK(opt, k) && k >= 0.0 && T0 >= 0.0 && split {
      assert opt.adaptiveK(k, st.ubPrev, r.ub) == k;
      CoolerThanSchedule(k, T0, st.T, r.T, st.depth);
    }
  }

  lemma CoolerThanSchedule(k: real, T0: real, T: real, T': real, d: nat)
    requires k >= 0.0 && 0.0 <= T <= T0 * Pow(k / 2.0, d)
    requires Cools(k, T, T')
    ensures 0.0 <= T' <= T0 * Pow(k / 2.0, d + 1)
  {
    assert HalfScaled(k, T) == k / 2.0 * T;
    PowStep(k, T0, T0 * Pow(k / 2.0, d), d);
    MulMonotoneR(k / 2.0, T, T0 * Pow(k / 2.0, d));
  }

  lemma MulMonotoneR(a: real, b: real, c: real)
    requires a >= 0.0 && b <= c
    ensures a * b <= a * c
  {
  }

  /** The loop of `dive_depth_k_rand` from the engine state `s0` left by the
      draw of `d_max_run`. */
  method RandLoop(opt: OptContext, g: Rng, startBox: Box, p: KParams, T0: real, maxIters: int,
                  ubIn: EReal, s0: State)
    returns (t: Tally, st: RDive, why: Stop)
    requires OptValid(opt) && Valid(g) && |startBox| >= 1
    ensures 0 <= t.nodes <= Max(0, maxIters)
    ensures t == VisitAll(NoVisits, DepthRun(0, t.nodes))
    ensures why == BudgetSpent ==> t.nodes == Max(0, maxIters) && st.depth == t.nodes
    ensures why != BudgetSpent ==> t.nodes >= 1 && (why == BoxEmptied || why == BoxSmall) && st.depth == t.nodes - 1
    ensures why == BoxSmall ==> st.depth > p.baseDepth
    ensures RandInv(g, p, ubIn, s0, st) && CoolInv(opt, p.k, T0, st)
  {
    st := RDive(startBox, Entire, 0, ubIn, ubIn, T0, Max(0, p.dMax - p.baseDepth), s0);
    t := NoVisits;
    var it := 0;
    why := BudgetSpent;
    while it < maxIters
      invariant 0 <= it && (it <= maxIters || it == 0)
      invariant st.depth == it && |st.box| == |startBox|
      invariant t == VisitAll(NoVisits, DepthRun(0, it)) && t.nodes == it
      invariant RandInv(g, p, ubIn, s0, st) && CoolInv(opt, p.k, T0, st)
      invariant why == BudgetSpent
    {
      DepthRunExtend(0, it);
      t := Visit(t, st.depth);
      it := it + 1;
      var step := RandStep(opt, g, p, st);
      StepKeepsRandInv(opt, g, p, ubIn, s0, st);
      StepKeepsCoolInv(opt, g, p, T0, st);
      st := step.s;
      if step.Halt? {
        why := step.why;
        break;
      }
    }
  }

  /** `d_max_run = max(1, d_max_global + unif_int(rng))`, with the draw in
      `[-delta_d, delta_d]`. */
  function DrawDMaxRun(g: Rng, dMaxGlobal: int, rs: State): (r: (int, State))
    requires Valid(g)
    ensures r.0 >= 1
    ensures Max(1, dMaxGlobal - DeltaD) <= r.0 <= Max(1, dMaxGlobal + DeltaD)
    ensures r.1 == g.uniformInt(rs, -DeltaD, DeltaD).1
  {
    var (u, s1) := g.uniformInt(rs, -DeltaD, DeltaD);
    (Max(1, dMaxGlobal + u), s1)
  }

  /** `dive_depth_k_rand`: the statistics with `reached_optimum =
      isfinite(UB)`, the final incumbent, why the loop ended, the engine
      state it leaves, and the `d_max_run` it drew. */
  method DiveDepthKRand(opt: OptContext, g: Rng, startBox: Box, baseDepth: int, runId: int, T0: real,
                        k: real, dMaxGlobal: int, epsBox: real, maxIters: int, ubIn: EReal, rs: State)
    returns (res: RunStats, best: EReal, why: Stop, rsOut: State, dMaxRun: int)
    requires OptValid(opt) && Valid(g) && |startBox| >= 1
    ensures 0 <= res.nodes_visited <= Max(0, maxIters)
    ensures res == Finish(VisitAll(NoVisits, DepthRun(0, res.nodes_visited)),
                          runId, "depth_k_rand", best, IsFinite(best))
    ensures why == BudgetSpent ==> res.nodes_visited == Max(0, maxIters)
    ensures why != BudgetSpent ==> res.nodes_visited >= 1 && (why == BoxEmptied || why == BoxSmall)
    ensures why == BoxSmall ==> res.nodes_visited >= Max(0, baseDepth + 1) + 1
    ensures !ubIn.NaN? ==> Le(best, ubIn)
    ensures best == ubIn || IsFinite(best)
    ensures dMaxRun >= 1 && Max(1, dMaxGlobal - DeltaD) <= dMaxRun <= Max(1, dMaxGlobal + DeltaD)
    ensures rsOut == AfterSplits(g, g.uniformInt(rs, -DeltaD, DeltaD).1,
                                 if why == BudgetSpent then res.nodes_visited else res.nodes_visited - 1)
  {
    var drawn := DrawDMaxRun(g, dMaxGlobal, rs);
    dMaxRun := drawn.0;
    var s0 := drawn.1;
    var t, st;
    t, st, why := RandLoop(opt, g, startBox, KParams(k, dMaxRun, baseDepth, epsBox), T0, maxIters, ubIn, s0);
    best := st.ub;
    rsOut := st.rs;
    res := Finish(t, runId, "depth_k_rand", best, IsFinite(best));
  }

  /** `run_fda_depth_Tk_rand`: one dive from the root at base depth 0 with no
      incumbent, drawing from the caller's engine. */
  method RunFdaDepthTkRand(opt: OptContext, g: Rng, rootBox: Box, runId: int, T0: real, k: real,
                           dMax: int, epsBox: real, maxIters: int, rs: State)
    returns (res: RunStats, rsOut: State)
    requires OptValid(opt) && Valid(g) && |rootBox| >= 1
    ensures 0 <= res.nodes_visited <= Max(0, maxIters)
    ensures res.max_depth == Max(0, res.nodes_visited - 1)
    ensures 2.0 * res.avg_depth == Max(0, res.nodes_visited - 1) as real
    ensures res.reached_optimum <==> IsFinite(res.best_value)
    ensures res.best_value.PosInf? || IsFinite(res.best_value)
    ensures res.variant == "depth_k_rand" && res.run_id == runId
  {
    var best, why, dMaxRun;
    res, best, why, rsOut, dMaxRun := DiveDepthKRand(opt, g, rootBox, 0, runId, T0, k, dMax, epsBox,
                                                     maxIters, PosInf, rs);
    LocalDiveStats(res.nodes_visited, runId, "depth_k_rand", best, IsFinite(best));
  }

  // ---------------------------------------------------------------------------
  // run_fda_depth_Tk_rand_bb

  /** The seed of the driver's engine, `123456u + run_id` in unsigned 32-bit
      arithmetic. */
  function BbSeed(runId: int): (seed: int)
    ensures 0 <= seed < 0x1_0000_0000
    ensures (seed - 123456 - runId) % 0x1_0000_0000 == 0
  {
    (123456 + runId) % 0x1_0000_0000
  }

  /** `run_fda_depth_Tk_rand_bb`: `run_fda_depth_Tk_bb` with the noisy dive,
      all dives drawing in turn from one engine seeded from the run id. The
      children of a node that dived get the noise-free temperature. Also
      returns the engine state at the end. */
  method RunFdaDepthTkRandBb(opt: OptContext, g: Rng, rootBox: Box, runId: int, T0: real, k: real,
                             dMaxFdive: int, epsBox: real, maxBbNodes: int, maxItersFdive: int)
    returns (res: RunStats, processed: int, pending: seq<BbNode>, rsOut: State)
    requires OptValid(opt) && Valid(g) && |rootBox| >= 1
    ensures res.run_id == runId && res.variant == "depth_k_rand_bb"
    ensures 0 <= processed <= Max(0, maxBbNodes)
    ensures pending == [] || processed == Max(0, maxBbNodes)
    ensures res.nodes_visited >= processed
    ensures res.reached_optimum <==> IsFinite(res.best_value)
    ensures res.best_value.PosInf? || IsFinite(res.best_value)
    ensures 0 <= res.max_depth && 0.0 <= res.avg_depth <= res.max_depth as real
    ensures maxBbNodes <= 0 ==>
              res == Finish(NoVisits, runId, "depth_k_rand_bb", PosInf, false) && rsOut == g.seeded(BbSeed(runId))
  {
    var dim := |rootBox|;
    var root := MakeNode(rootBox, 0, T0);
    var s := InitialState(root);
    rsOut := g.seeded(BbSeed(runId));
    while |s.active| > 0 && s.processed < maxBbNodes
      invariant BbInv(s, dim, maxBbNodes)
      invariant maxBbNodes <= 0 ==> s == InitialState(root) && rsOut == g.seeded(BbSeed(runId))
      decreases Max(0, maxBbNodes) - s.processed, StackWeight(s.active)
    {
      s, rsOut := RandBbPass(opt, g, s, rsOut, runId, k, dMaxFdive, epsBox, maxBbNodes, maxItersFdive, dim);
    }
    FinishBbSpec(s, runId, "depth_k_rand_bb", dim, maxBbNodes);
    res := FinishBb(s, runId, "depth_k_rand_bb");
    processed := s.processed;
    pending := s.active;
  }

  /** One pass of the worklist loop of `run_fda_depth_Tk_rand_bb`: as in
      `run_fda_depth_Tk_bb`; only a node that dives draws from the engine. */
  method RandBbPass(opt: OptContext, g: Rng, s: BbState, rs: State, runId: int, k: real, dMaxFdive: int,
                    epsBox: real, maxBbNodes: int, maxItersFdive: int, dim: int)
    returns (r: BbState, rsOut: State)
    requires OptValid(opt) && Valid(g) && dim >= 1
    requires BbInv(s, dim, maxBbNodes) && |s.active| > 0 && s.processed < maxBbNodes
    ensures BbInv(r, dim, maxBbNodes) && Progress(s, r)
    ensures var node := Top(s);
            var tr := TriageNode(opt, node, s.ub, s.hasUb);
            (!tr.Explore? ==> rsOut == rs) &&
            (tr.Rejected? ==> r == Popped(s, tr.push)) &&
            (tr.Vanished? ==> r == Popped(Counted(s, node.depth), tr.push)) &&
            (tr.Pruned? ==> r == Popped(Counted(s, node.depth), [])) &&
            (tr.Explore? ==>
               r.processed == s.processed + 1 &&
               (r.ub == s.ub || (IsFinite(r.ub) && Lt(r.ub, s.ub) && Le(r.ub, tr.hint))) &&
               r.active == s.active[..|s.active| - 1] +
                           Children(opt.bisect(tr.box, tr.goal), node.depth + 1,
                                    ChildTemperature(opt, k, s.ub, r.ub, node.T)))
  {
    var node := Top(s);
    rsOut := rs;
    match TriageNode(opt, node, s.ub, s.hasUb)
    case Rejected(push) =>
      RejectStep(s, push, dim, maxBbNodes);
      r := Popped(s, push);
    case Vanished(push) =>
      CountedDropStep(s, push, dim, maxBbNodes);
      r := Popped(Counted(s, node.depth), push);
    case Pruned =>
      CountedDropStep(s, [], dim, maxBbNodes);
      r := Popped(Counted(s, node.depth), []);
    case Explore(x, goal, hint) =>
      r, rsOut := RandDiveNode(opt, g, s, rs, runId, k, dMaxFdive, epsBox, maxBbNodes, maxItersFdive, dim,
                               x, goal, hint);
  }

  /** The end of a pass for a node that survived triage: dive from the
      contracted box at the node's depth and temperature, drawing from the
      shared engine, then update the incumbent, fold the counters in, and
      push the halves at the noise-free child temperature. */
  method RandDiveNode(opt: OptContext, g: Rng, s: BbState, rs: State, runId: int, k: real, dMaxFdive: int,
                      epsBox: real, maxBbNodes: int, maxItersFdive: int, dim: int,
                      x: Box, goal: Enclosure, hint: EReal)
    returns (r: BbState, rsOut: State)
    requires OptValid(opt) && Valid(g) && dim >= 1
    requires BbInv(s, dim, maxBbNodes) && |s.active| > 0 && s.processed < maxBbNodes
    requires |x| == dim && (hint == s.ub || IsFinite(hint))
    ensures BbInv(r, dim, maxBbNodes) && Progress(s, r)
    ensures r.processed == s.processed + 1
    ensures r.ub == s.ub || (IsFinite(r.ub) && Lt(r.ub, s.ub) && Le(r.ub, hint))
    ensures r.active == s.active[..|s.active| - 1] +
                        Children(opt.bisect(x, goal), Top(s).depth + 1,
                                 ChildTemperature(opt, k, s.ub, r.ub, Top(s).T))
  {
    var node := Top(s);
    var local, bestLocal, why, dMaxRun;
    local, bestLocal, why, rsOut, dMaxRun := DiveDepthKRand(opt, g, x, node.depth, runId, node.T, k,
                                                            dMaxFdive, epsBox, maxItersFdive, hint, rs);
    if local.nodes_visited > 0 {
      DiveStatsRecovered(0, local.nodes_visited, runId, "depth_k_rand", bestLocal, IsFinite(bestLocal));
    }
    var ub := TightenFinite(s.ub, bestLocal);
    var children := Children(opt.bisect(x, goal), node.depth + 1, ChildTemperature(opt, k, s.ub, ub, node.T));
    DiveStep(s, local, bestLocal, children, dim, maxBbNodes);
    r := AfterDive(Counted(s, node.depth), node.depth, local, bestLocal, children);
  }
}
