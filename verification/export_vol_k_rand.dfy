/** The exported volume-and-temperature variant with noise
    (export_variantes/FDA_vol_k_rand.cpp), over an `ibex::System`: each dive
    draws one factor in [0.7, 1.3) that scales its volume threshold, checks
    the threshold from the first pass on against the fixed volume of its
    start box, stops on a small box only past depth 20, and gives each
    child its own noisy temperature. The B&B driver shares one engine
    across its dives and prunes only from depth 5 on. */
module ExportVolKRand {
  import opened ExtReal
  import opened Bridge
  import opened RealMath
  import opened Random
  import opened Accounting
  import opened BbCommon
  import opened FdBase
  import opened FdaDepthKRand
  import opened ExportCommon

  /** `eps_tau`: the half-width of the per-dive threshold factor. */
  const EpsTau: real := 0.3

  /** `prune_min_depth`: shallower nodes are never pruned. */
  const PruneMinDepth: int := 5

  /** The loop state: box, local depth, incumbent, temperature and engine. */
  datatype XDive = XDive(box: Box, depth: int, ub: EReal, T: real, rs: State)

  /** What a dive fixes before its loop: `k`, `eps_V`, `beta`, `eps_box`,
      `use_volume` and `V0` from the start box, and the drawn `tau_factor`. */
  datatype XParams = XParams(k: real, epsV: real, beta: real, epsBox: real, useVolume: bool, V0: EReal, tau: real)

  /** `eps_V * exp(-beta * depth)`: the threshold before the noise factor. */
  function PlainThreshold(m: Measure, p: XParams, depth: int): (e: real)
    requires MeasureValid(m)
    ensures p.epsV >= 0.0 ==> e >= 0.0
  {
    var d := m.exp(-p.beta * (depth as real));
    NonNegScale(p.epsV, d);
    p.epsV * d
  }

  /** `tau_V = eps_V * exp(-beta * depth) * tau_factor`. With a factor drawn
      from [0.7, 1.3] it lies within 30% of the threshold without noise. */
  function TauThreshold(m: Measure, p: XParams, depth: int): (v: real)
    requires MeasureValid(m)
    ensures p.epsV >= 0.0 && 0.7 <= p.tau <= 1.3 ==>
              0.0 <= 0.7 * PlainThreshold(m, p, depth) <= v <= 1.3 * PlainThreshold(m, p, depth)
  {
    var plain := PlainThreshold(m, p, depth);
    ScaleBetween(plain, p.tau);
    plain * p.tau
  }

  lemma NonNegScale(a: real, e: real)
    requires e > 0.0
    ensures a >= 0.0 ==> a * e >= 0.0
  {
  }

  lemma ScaleBetween(a: real, t: real)
    ensures a >= 0.0 && 0.7 <= t <= 1.3 ==> 0.0 <= 0.7 * a <= a * t <= 1.3 * a
  {
  }

  /** The loop body after the visit counters: contract and stop on an empty
      box; when the start box was bounded, stop when the relative volume is
      at most the threshold; update the incumbent at the midpoint; stop on a
      small box past depth 20; otherwise bisect, draw `rL` then `rR`, and move
      to the half whose score plus its own temperature is higher (the left
      one on ties), keeping that temperature. */
  function XStep(sys: System, m: Measure, g: Rng, p: XParams, st: XDive): (r: Step<XDive>)
    requires SystemValid(sys) && MeasureValid(m) && Valid(g) && |st.box| >= 1
    ensures r.Halt? ==> r.why == BoxEmptied || r.why == VolumeSmall || (r.why == BoxSmall && st.depth > PrecisionDepth)
    ensures r.Halt? ==> r.s == st.(ub := r.s.ub)
    ensures r.Next? ==> r.s.rs == Unit01(g, Unit01(g, st.rs).1).1 && Cools(p.k, st.T, r.s.T)
    ensures |r.s.box| == |st.box|
    ensures r.s.depth == (if r.Next? then st.depth + 1 else st.depth)
    ensures !st.ub.NaN? ==> Le(r.s.ub, st.ub)
    ensures !sys.hasGoal ==> r.s.ub == st.ub
  {
    match sys.contract(st.box)
    case Emptied => Halt(st, BoxEmptied)
    case Narrowed(x) =>
      if p.useVolume && Le(Div(m.volume(x), p.V0), Fin(TauThreshold(m, p, st.depth))) then Halt(st, VolumeSmall)
      else
        var ub := MidUpdate(sys, st.ub, x);
        if st.depth > PrecisionDepth && Lt(MaxDiam(x), Fin(p.epsBox)) then Halt(st.(ub := ub), BoxSmall)
        else Next(XBranch(sys, g, p, st, x, ub))
  }

  /** The split: each half gets `k * T / 2` times its own draw, and the
      winner keeps its own temperature. */
  function XBranch(sys: System, g: Rng, p: XParams, st: XDive, x: Box, ub: EReal): (r: XDive)
    requires Valid(g) && |x| >= 1
    ensures |r.box| == |x| && r.depth == st.depth + 1 && r.ub == ub
    ensures r.rs == Unit01(g, Unit01(g, st.rs).1).1
    ensures var (left, right) := BisectBox(x);
            var base := HalfScaled(p.k, st.T);
            var (rL, s1) := Unit01(g, st.rs);
            var rR := Unit01(g, s1).0;
            var leftWins := Ge(Add(HeurScore(sys, left), Fin(Jitter(base, rL))),
                               Add(HeurScore(sys, right), Fin(Jitter(base, rR))));
            r.box == (if leftWins then left else right) &&
            r.T == (if leftWins then Jitter(base, rL) else Jitter(base, rR))
    ensures Cools(p.k, st.T, r.T)
  {
    var (left, right) := BisectBox(x);
    var base := HalfScaled(p.k, st.T);
    var (rL, s1) := Unit01(g, st.rs);
    var (rR, s2) := Unit01(g, s1);
    var tL := Jitter(base, rL);
    var tR := Jitter(base, rR);
    if Ge(Add(HeurScore(sys, left), Fin(tL)), Add(HeurScore(sys, right), Fin(tR))) then XDive(left, st.depth + 1, ub, tL, s2)
    else XDive(right, st.depth + 1, ub, tR, s2)
  }

  /** What one pass decides: it stops exactly when contraction empties the
      box; otherwise, with no warm-up, it stops on volume exactly when the
      start box was bounded and the volume of the contracted box over `V0`
      is at most the threshold; otherwise the incumbent takes the midpoint
      update and the dive stops exactly when the depth is past 20 and the
      box is narrower than `eps_box`. */
  lemma XStepSpec(sys: System, m: Measure, g: Rng, p: XParams, st: XDive)
    requires SystemValid(sys) && MeasureValid(m) && Valid(g) && |st.box| >= 1
    ensures var r := XStep(sys, m, g, p, st);
            r.Halt? && r.why == BoxEmptied <==> sys.contract(st.box).Emptied?
    ensures sys.contract(st.box).Narrowed? ==>
              var r := XStep(sys, m, g, p, st);
              var x := sys.contract(st.box).box;
              var cut := p.useVolume && Le(Div(m.volume(x), p.V0), Fin(TauThreshold(m, p, st.depth)));
              (r.Halt? && r.why == VolumeSmall <==> cut) &&
              (cut ==> r.s.ub == st.ub) &&
              (!cut ==> r.s.ub == MidUpdate(sys, st.ub, x) &&
                        (r.Halt? <==> st.depth > PrecisionDepth && Lt(MaxDiam(x), Fin(p.epsBox))) &&
                        (r.Next? ==> r.s == XBranch(sys, g, p, st, x, r.s.ub)))
  {
  }

  /** Without a bounded start box the volume is never consulted: the dive
      takes the same steps whatever the volume oracle says. */
  lemma UnboundedIgnoresVolume(sys: System, m: Measure, m': Measure, g: Rng, p: XParams, st: XDive)
    requires SystemValid(sys) && MeasureValid(m) && MeasureValid(m') && Valid(g) && |st.box| >= 1
    requires !p.useVolume
    ensures XStep(sys, m, g, p, st) == XStep(sys, m', g, p, st)
  {
  }

  /** What the loop keeps besides the temperature: the incumbent never
      above `UB_global_in` (equal to it without an objective) and the engine
      advanced by two draws per split. */
  ghost predicate XInv(sys: System, g: Rng, ubIn: EReal, s0: State, st: XDive)
    requires Valid(g)
  {
    st.depth >= 0 &&
    (!ubIn.NaN? ==> Le(st.ub, ubIn)) && (!sys.hasGoal ==> st.ub == ubIn) &&
    st.rs == AfterSplits(g, s0, st.depth)
  }

  /** With `k, T0 >= 0` the temperature stays between 0 and `T0 * (k/2)^depth`. */
  ghost predicate XCool(k: real, T0: real, st: XDive) {
    st.depth >= 0 && (k >= 0.0 && T0 >= 0.0 ==> 0.0 <= st.T <= T0 * Pow(k / 2.0, st.depth))
  }

  lemma StepKeepsXInv(sys: System, m: Measure, g: Rng, p: XParams, ubIn: EReal, s0: State, st: XDive)
    requires SystemValid(sys) && MeasureValid(m) && Valid(g) && |st.box| >= 1 && XInv(sys, g, ubIn, s0, st)
    ensures XInv(sys, g, ubIn, s0, XStep(sys, m, g, p, st).s)
  {
    var r := XStep(sys, m, g, p, st).s;
    if !ubIn.NaN? {
      LeTransitive(r.ub, st.ub, ubIn);
    }
    assert r.rs == AfterSplits(g, s0, r.depth) by {
      if XStep(sys, m, g, p, st).Next? {
        assert AfterSplits(g, s0, st.depth + 1) == Unit01(g, Unit01(g, AfterSplits(g, s0, st.depth)).1).1;
      }
    }
  }

  lemma StepKeepsXCool(sys: System, m: Measure, g: Rng, p: XParams, T0: real, st: XDive)
    requires SystemValid(sys) && MeasureValid(m) && Valid(g) && |st.box| >= 1 && XCool(p.k, T0, st)
    ensures XCool(p.k, T0, XStep(sys, m, g, p, st).s)
  {
    var step := XStep(sys, m, g, p, st);
    KeepsXCool(p.k, T0, st, step.s, step.Next?);
  }

  lemma KeepsXCool(k: real, T0: real, st: XDive, r: XDive, split: bool)
    requires XCool(k, T0, st)
    requires split ==> r.depth == st.depth + 1 && Cools(k, st.T, r.T)
    requires !split ==> r.depth == st.depth && r.T == st.T
    ensures XCool(k, T0, r)
  {
    if k >= 0.0 && T0 >= 0.0 && split {
      CoolerThanSchedule(k, T0, st.T, r.T, st.depth);
    }
  }

  /** What the dive loop keeps after `it` passes that did not stop it. */
  ghost predicate XLoopInv(sys: System, g: Rng, p: XParams, T0: real, ubIn: EReal, s0: State, startBox: Box,
                           it: int, t: Tally, st: XDive)
    requires Valid(g)
  {
    it >= 0 && st.depth == it && |st.box| == |startBox| && t == VisitAll(NoVisits, DepthRun(0, it)) && t.nodes == it &&
    XInv(sys, g, ubIn, s0, st) && XCool(p.k, T0, st)
  }

  /** One pass of the loop: the visit is counted, and the step keeps the
      invariants whether it splits or stops. */
  lemma XLoopStep(sys: System, m: Measure, g: Rng, p: XParams, T0: real, ubIn: EReal, s0: State, startBox: Box,
                  it: int, t: Tally, st: XDive)
    requires SystemValid(sys) && MeasureValid(m) && Valid(g) && |startBox| >= 1 && it >= 0
    requires XLoopInv(sys, g, p, T0, ubIn, s0, startBox, it, t, st)
    ensures var step := XStep(sys, m, g, p, st);
            var t' := Visit(t, st.depth);
            t' == VisitAll(NoVisits, DepthRun(0, it + 1)) && t'.nodes == it + 1 &&
            |step.s.box| == |startBox| && XInv(sys, g, ubIn, s0, step.s) && XCool(p.k, T0, step.s) &&
            step.s.depth == (if step.Next? then it + 1 else it) &&
            (step.Halt? ==> step.why != BudgetSpent && (step.why == BoxSmall ==> step.s.depth > PrecisionDepth))
  {
    DepthRunExtend(0, it);
    StepKeepsXInv(sys, m, g, p, ubIn, s0, st);
    StepKeepsXCool(sys, m, g, p, T0, st);
  }

  /** The loop of the exported `dive_vol_Tk_rand` from the engine state `s0`
      left by the draw of `tau_factor`. */
  method XLoop(sys: System, m: Measure, g: Rng, startBox: Box, p: XParams, T0: real, maxIters: int,
               ubIn: EReal, s0: State)
    returns (t: Tally, st: XDive, why: Stop)
    requires SystemValid(sys) && MeasureValid(m) && Valid(g) && |startBox| >= 1
    ensures 0 <= t.nodes <= Max(0, maxIters)
    ensures t == VisitAll(NoVisits, DepthRun(0, t.nodes))
    ensures why == BudgetSpent ==> t.nodes == Max(0, maxIters) && st.depth == t.nodes
    ensures why != BudgetSpent ==> t.nodes >= 1 && st.depth == t.nodes - 1
    ensures why == BoxSmall ==> st.depth > PrecisionDepth
    ensures XInv(sys, g, ubIn, s0, st) && XCool(p.k, T0, st)
  {
    st := XDive(startBox, 0, ubIn, T0, s0);
    t := NoVisits;
    var it := 0;
    why := BudgetSpent;
    while it < maxIters
      invariant 0 <= it && (it <= maxIters || it == 0)
      invariant XLoopInv(sys, g, p, T0, ubIn, s0, startBox, it, t, st)
      invariant why == BudgetSpent
    {
      XLoopStep(sys, m, g, p, T0, ubIn, s0, startBox, it, t, st);
      var step := XStep(sys, m, g, p, st);
      t := Visit(t, st.depth);
      it := it + 1;
      st := step.s;
      if step.Halt? {
        why := step.why;
        break;
      }
    }
  }

  /** `tau_factor = unif_tau(rng)`, drawn from [1 - eps_tau, 1 + eps_tau). */
  function DrawTau(g: Rng, rs: State): (r: (real, State))
    requires Valid(g)
    ensures 0.7 <= r.0 < 1.3
    ensures r == g.uniformReal(rs, 1.0 - EpsTau, 1.0 + EpsTau)
  {
    g.uniformReal(rs, 1.0 - EpsTau, 1.0 + EpsTau)
  }

  /** The exported `dive_vol_Tk_rand`: draw `tau_factor`, fix `use_volume`
      and `V0` (the start box's volume, or 1 when it is unbounded), and run
      the loop; `reached_optimum` is set only by the precision stop. The
      engine ends after the factor draw and two draws per split. */
  method ExportDiveVolKRand(sys: System, m: Measure, g: Rng, startBox: Box, runId: int, T0: real, k: real,
                            epsV: real, beta: real, epsBox: real, maxIters: int, ubIn: EReal, rs: State)
    returns (res: RunStats, best: EReal, why: Stop, rsOut: State)
    requires SystemValid(sys) && MeasureValid(m) && Valid(g) && |startBox| >= 1
    ensures 0 <= res.nodes_visited <= Max(0, maxIters)
    ensures res == Finish(VisitAll(NoVisits, DepthRun(0, res.nodes_visited)), runId, "vol_k_rand", best, why == BoxSmall)
    ensures why == BudgetSpent ==> res.nodes_visited == Max(0, maxIters)
    ensures why != BudgetSpent ==> res.nodes_visited >= 1
    ensures why == BoxSmall ==> res.nodes_visited >= PrecisionDepth + 2
    ensures !ubIn.NaN? ==> Le(best, ubIn)
    ensures !sys.hasGoal ==> best == ubIn
    ensures rsOut == AfterSplits(g, DrawTau(g, rs).1,
                                 if why == BudgetSpent then res.nodes_visited else res.nodes_visited - 1)
  {
    var bounded := !Unbounded(startBox);
    var drawn := DrawTau(g, rs);
    var p := XParams(k, epsV, beta, epsBox, bounded, if bounded then m.volume(startBox) else Fin(1.0), drawn.0);
    var t, st;
    t, st, why := XLoop(sys, m, g, startBox, p, T0, maxIters, ubIn, drawn.1);
    best := st.ub;
    rsOut := st.rs;
    res := Finish(t, runId, "vol_k_rand", best, why == BoxSmall);
  }

  /** The exported `run_fda_vol_Tk_rand`: one dive from the root with
      `UB = +inf`, drawing from the caller's engine. */
  method ExportRunFdaVolTkRand(sys: System, m: Measure, g: Rng, rootBox: Box, runId: int, T0: real, k: real,
                               epsV: real, beta: real, epsBox: real, maxIters: int, rs: State)
    returns (res: RunStats, rsOut: State)
    requires SystemValid(sys) && MeasureValid(m) && Valid(g) && |rootBox| >= 1
    ensures 0 <= res.nodes_visited <= Max(0, maxIters)
    ensures res.max_depth == Max(0, res.nodes_visited - 1)
    ensures res.best_value.PosInf? || sys.hasGoal
    ensures res.variant == "vol_k_rand" && res.run_id == runId
  {
    var best: EReal;
    var why: Stop;
    res, best, why, rsOut := ExportDiveVolKRand(sys, m, g, rootBox, runId, T0, k, epsV, beta, epsBox, maxIters,
                                                PosInf, rs);
    LocalDiveStats(res.nodes_visited, runId, "vol_k_rand", best, why == BoxSmall);
  }

  // ---------------------------------------------------------------------------
  // run_fda_vol_Tk_rand_bb (exported)

  /** The exported `run_fda_vol_Tk_rand_bb`: the exported depth driver's
      loop with the volume dive, one engine seeded `123456u + run_id` shared
      by all dives, pruning only from depth 5 on and without looking at
      whether the objective enclosure is empty. The report leaves
      `reached_optimum` false. */
  method ExportRunFdaVolTkRandBb(sys: System, m: Measure, g: Rng, rootBox: Box, runId: int, T0: real, k: real,
                                 epsV: real, beta: real, epsBox: real, maxBbNodes: int, maxItersFdive: int)
    returns (res: RunStats, final: BbState, rsOut: State)
    requires SystemValid(sys) && MeasureValid(m) && Valid(g) && |rootBox| >= 1
    ensures res == ExportFinish(final, runId, "vol_k_rand_bb")
    ensures BbInv(final, |rootBox|, maxBbNodes)
    ensures final.active == [] || final.processed == Max(0, maxBbNodes)
    ensures res.nodes_visited >= final.processed && !res.reached_optimum
    ensures res.best_value.PosInf? || IsFinite(res.best_value)
    ensures 0 <= res.max_depth && 0.0 <= res.avg_depth <= res.max_depth as real
    ensures maxBbNodes <= 0 ==> rsOut == g.seeded(BbSeed(runId))
  {
    var dim := |rootBox|;
    var s := InitialState(MakeNode(rootBox, 0, T0));
    rsOut := g.seeded(BbSeed(runId));
    while |s.active| > 0 && s.processed < maxBbNodes
      invariant BbInv(s, dim, maxBbNodes)
      invariant maxBbNodes <= 0 ==> rsOut == g.seeded(BbSeed(runId))
      decreases Max(0, maxBbNodes) - s.processed, StackWeight(s.active)
    {
      s, rsOut := XBbPass(sys, m, g, s, rsOut, runId, k, epsV, beta, epsBox, maxBbNodes, maxItersFdive, dim);
    }
    FinishCoherent(s.t, runId, "vol_k_rand_bb", s.ub, false);
    final := s;
    res := ExportFinish(s, runId, "vol_k_rand_bb");
  }

  /** One pass of the exported volume driver's loop: count the top node,
      triage it (pruning only from depth 5 on), and drop, split or dive. A
      node that does not dive leaves the engine alone. */
  method XBbPass(sys: System, m: Measure, g: Rng, s: BbState, rs: State, runId: int, k: real, epsV: real,
                 beta: real, epsBox: real, maxBbNodes: int, maxItersFdive: int, dim: int)
    returns (r: BbState, rsOut: State)
    requires SystemValid(sys) && MeasureValid(m) && Valid(g) && dim >= 1
    requires BbInv(s, dim, maxBbNodes) && |s.active| > 0 && s.processed < maxBbNodes
    ensures BbInv(r, dim, maxBbNodes) && Progress(s, r)
    ensures var node := Top(s);
            var tr := ExportTriage(sys, node, s.ub, s.hasUb, PruneMinDepth, false);
            (tr.Pruned? ==> node.depth >= PruneMinDepth) &&
            (tr.Vanished? ==> r == Popped(Counted(s, node.depth), tr.push) && rsOut == rs) &&
            (tr.Pruned? ==> r == Popped(Counted(s, node.depth), []) && rsOut == rs) &&
            (tr.Explore? ==>
               r.processed == s.processed + 1 &&
               (r.ub == s.ub || (IsFinite(r.ub) && Lt(r.ub, s.ub))) &&
               r.active == s.active[..|s.active| - 1] + Children(BisectBox(tr.box), node.depth + 1, FixedChildT(k, node.T)))
  {
    var node := Top(s);
    match ExportTriage(sys, node, s.ub, s.hasUb, PruneMinDepth, false)
    case Vanished(push) =>
      ExportDropStep(s, push, dim, maxBbNodes);
      r := Popped(Counted(s, node.depth), push);
      rsOut := rs;
    case Pruned =>
      ExportDropStep(s, [], dim, maxBbNodes);
      r := Popped(Counted(s, node.depth), []);
      rsOut := rs;
    case Explore(x, goal, hint) =>
      r, rsOut := XDiveNode(sys, m, g, s, rs, runId, k, epsV, beta, epsBox, maxBbNodes, maxItersFdive, dim,
                            x, hint, BisectBox(x));
  }

  /** The end of a pass for a node that survived triage: dive from the
      contracted box at the node's temperature with the shared engine,
      update the incumbent, fold the counters in, and push the halves of
      the contracted box (`halves`) at `k * T / 2`. */
  method XDiveNode(sys: System, m: Measure, g: Rng, s: BbState, rs: State, runId: int, k: real, epsV: real,
                   beta: real, epsBox: real, maxBbNodes: int, maxItersFdive: int, dim: int, x: Box, hint: EReal,
                   halves: (Box, Box))
    returns (r: BbState, rsOut: State)
    requires SystemValid(sys) && MeasureValid(m) && Valid(g) && dim >= 1
    requires BbInv(s, dim, maxBbNodes) && |s.active| > 0 && s.processed < maxBbNodes && |x| == dim
    requires |halves.0| == dim && |halves.1| == dim
    ensures BbInv(r, dim, maxBbNodes) && Progress(s, r)
    ensures r.processed == s.processed + 1
    ensures r.ub == s.ub || (IsFinite(r.ub) && Lt(r.ub, s.ub))
    ensures r.active == s.active[..|s.active| - 1] + Children(halves, Top(s).depth + 1, FixedChildT(k, Top(s).T))
  {
    var node := Top(s);
    var local, bestLocal, why;
    local, bestLocal, why, rsOut := ExportDiveVolKRand(sys, m, g, x, runId, node.T, k, epsV, beta, epsBox,
                                                       maxItersFdive, hint, rs);
    if local.nodes_visited > 0 {
      DiveStatsRecovered(0, local.nodes_visited, runId, "vol_k_rand", bestLocal, why == BoxSmall);
    }
    var children := Children(halves, node.depth + 1, FixedChildT(k, node.T));
    DiveStep(s, local, bestLocal, children, dim, maxBbNodes);
    r := AfterDive(Counted(s, node.depth), node.depth, local, bestLocal, children);
  }
}
