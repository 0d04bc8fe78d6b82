/** The exported depth-and-temperature variant
    (export_variantes/FDA_depth_k.cpp), over an `ibex::System` and its
    contractor: the dive stops for good when its depth reaches the budget,
    stops on a small box only past depth 20, and halves the temperature with
    a fixed multiplier `k`; the B&B driver counts every popped node and
    hands each dive the node's depth as `base_depth`. */
module ExportDepthK {
  import opened ExtReal
  import opened Bridge
  import opened RealMath
  import opened Accounting
  import opened BbCommon
  import opened FdBase
  import opened FdaDepthK
  import opened ExportCommon

  /** The loop state of the exported `dive_depth_k`: box, local depth,
      incumbent and temperature. */
  datatype EDive = EDive(box: Box, depth: int, ub: EReal, T: real)

  /** The loop body after the visit counters: contract and stop on an empty
      box; update the incumbent at the midpoint; stop when the depth has
      reached the budget; stop on a box narrower than `eps_box` past depth
      20; otherwise bisect and move to the half whose score plus `k * T / 2`
      is higher, the left one on ties. */
  function ExportKStep(sys: System, k: real, budget: int, epsBox: real, st: EDive): (r: Step<EDive>)
    requires SystemValid(sys) && |st.box| >= 1
    ensures r.Halt? ==> r.why == BoxEmptied || (r.why == DepthLimit && st.depth >= budget) ||
                         (r.why == BoxSmall && st.depth > PrecisionDepth)
    ensures r.Next? ==> st.depth < budget && r.s.T == FixedChildT(k, st.T)
    ensures r.Halt? ==> r.s.T == st.T
    ensures |r.s.box| == |st.box|
    ensures r.s.depth == (if r.Next? then st.depth + 1 else st.depth)
    ensures !st.ub.NaN? ==> Le(r.s.ub, st.ub)
    ensures !sys.hasGoal ==> r.s.ub == st.ub
  {
    match sys.contract(st.box)
    case Emptied => Halt(st, BoxEmptied)
    case Narrowed(x) =>
      var ub := MidUpdate(sys, st.ub, x);
      if st.depth >= budget then Halt(EDive(x, st.depth, ub, st.T), DepthLimit)
      else if st.depth > PrecisionDepth && Lt(MaxDiam(x), Fin(epsBox)) then Halt(EDive(x, st.depth, ub, st.T), BoxSmall)
      else
        var (left, right) := BisectBox(x);
        var tChild := FixedChildT(k, st.T);
        var next := if Ge(Add(HeurScore(sys, left), Fin(tChild)), Add(HeurScore(sys, right), Fin(tChild))) then left else right;
        Next(EDive(next, st.depth + 1, ub, tChild))
  }

  /** What one pass decides: it stops exactly when contraction empties the
      box; otherwise it stops exactly when the depth has reached the budget
      or, past depth 20, the contracted box is narrower than `eps_box`; and
      else it moves into the half with the higher plain score, the left one
      on ties: the temperature bonus, equal for both halves, never decides. */
  lemma ExportKStepSpec(sys: System, k: real, budget: int, epsBox: real, st: EDive)
    requires SystemValid(sys) && |st.box| >= 1
    ensures var r := ExportKStep(sys, k, budget, epsBox, st);
            (r.Halt? && r.why == BoxEmptied <==> sys.contract(st.box).Emptied?) &&
            (r.Halt? && r.why == BoxEmptied ==> r.s == st)
    ensures sys.contract(st.box).Narrowed? ==>
              var r := ExportKStep(sys, k, budget, epsBox, st);
              var x := sys.contract(st.box).box;
              r.s.ub == MidUpdate(sys, st.ub, x) &&
              (r.Halt? <==> st.depth >= budget || (st.depth > PrecisionDepth && Lt(MaxDiam(x), Fin(epsBox)))) &&
              (r.Halt? ==> r.why == (if st.depth >= budget then DepthLimit else BoxSmall)) &&
              (r.Next? ==> var (left, right) := BisectBox(x);
                           r.s.box == (if Ge(HeurScore(sys, left), HeurScore(sys, right)) then left else right))
  {
    if sys.contract(st.box).Narrowed? {
      var x := sys.contract(st.box).box;
      var (left, right) := BisectBox(x);
      SameBonusKeepsOrder(HeurScore(sys, left), HeurScore(sys, right), FixedChildT(k, st.T));
    }
  }

  /** What the dive loop keeps: the depth within the budget, the incumbent
      never above `UB_global_in` (and equal to it without an objective), and
      the temperature `T0 * (k/2)^depth`. */
  ghost predicate ExportInv(sys: System, k: real, budget: int, T0: real, ubIn: EReal, st: EDive) {
    0 <= st.depth <= budget &&
    (!ubIn.NaN? ==> Le(st.ub, ubIn)) && (!sys.hasGoal ==> st.ub == ubIn) &&
    st.T == T0 * Pow(k / 2.0, st.depth)
  }

  lemma StepKeepsExportInv(sys: System, k: real, budget: int, epsBox: real, T0: real, ubIn: EReal, st: EDive)
    requires SystemValid(sys) && |st.box| >= 1 && ExportInv(sys, k, budget, T0, ubIn, st)
    ensures ExportInv(sys, k, budget, T0, ubIn, ExportKStep(sys, k, budget, epsBox, st).s)
  {
    var step := ExportKStep(sys, k, budget, epsBox, st);
    var r, split := step.s, step.Next?;
    assert split ==> st.depth < budget && r.depth == st.depth + 1 && r.T == FixedChildT(k, st.T);
    assert !split ==> r.depth == st.depth && r.T == st.T;
    KeepsExportInv(sys, k, budget, T0, ubIn, st, r, split);
  }

  lemma KeepsExportInv(sys: System, k: real, budget: int, T0: real, ubIn: EReal, st: EDive, r: EDive, split: bool)
    requires ExportInv(sys, k, budget, T0, ubIn, st)
    requires split ==> st.depth < budget && r.depth == st.depth + 1 && r.T == FixedChildT(k, st.T)
    requires !split ==> r.depth == st.depth && r.T == st.T
    requires (!st.ub.NaN? ==> Le(r.ub, st.ub)) && (!sys.hasGoal ==> r.ub == st.ub)
    ensures ExportInv(sys, k, budget, T0, ubIn, r)
  {
    if !ubIn.NaN? {
      LeTransitive(r.ub, st.ub, ubIn);
    }
    if split {
      assert FixedChildT(k, st.T) == k * st.T / 2.0;
      PowStep(k, T0, st.T, st.depth);
    }
  }

  /** What the dive loop keeps after `it` passes that did not stop it. */
  ghost predicate ExportLoopInv(sys: System, k: real, budget: int, T0: real, ubIn: EReal, startBox: Box,
                                it: int, t: Tally, st: EDive) {
    it >= 0 && st.depth == it && |st.box| == |startBox| && t == VisitAll(NoVisits, DepthRun(0, it)) &&
    t.nodes == it && ExportInv(sys, k, budget, T0, ubIn, st)
  }

  /** One pass of the loop: the visit is counted, and the step keeps the
      invariant whether it splits or stops. */
  lemma ExportLoopStep(sys: System, k: real, budget: int, epsBox: real, T0: real, ubIn: EReal, startBox: Box,
                       it: int, t: Tally, st: EDive)
    requires SystemValid(sys) && |startBox| >= 1
    requires ExportLoopInv(sys, k, budget, T0, ubIn, startBox, it, t, st)
    ensures var step := ExportKStep(sys, k, budget, epsBox, st);
            var t' := Visit(t, st.depth);
            t' == VisitAll(NoVisits, DepthRun(0, it + 1)) && t'.nodes == it + 1 &&
            |step.s.box| == |startBox| && ExportInv(sys, k, budget, T0, ubIn, step.s) &&
            step.s.depth == (if step.Next? then it + 1 else it) &&
            (step.Halt? ==> step.why != BudgetSpent && (step.why == DepthLimit ==> step.s.depth == budget) &&
                            (step.why == BoxSmall ==> step.s.depth > PrecisionDepth))
  {
    DepthRunExtend(0, it);
    StepKeepsExportInv(sys, k, budget, epsBox, T0, ubIn, st);
  }

  /** The loop of the exported `dive_depth_k`: at most `max_iters` passes
      from local depth 0 with the budget `max(0, d_max_global - base_depth)`. */
  method ExportKLoop(sys: System, startBox: Box, k: real, budget: int, epsBox: real, T0: real, maxIters: int,
                     ubIn: EReal)
    returns (t: Tally, st: EDive, why: Stop)
    requires SystemValid(sys) && |startBox| >= 1 && budget >= 0
    ensures 0 <= t.nodes <= Max(0, maxIters)
    ensures t == VisitAll(NoVisits, DepthRun(0, t.nodes))
    ensures why == BudgetSpent ==> t.nodes == Max(0, maxIters) && st.depth == t.nodes
    ensures why != BudgetSpent ==> t.nodes >= 1 && st.depth == t.nodes - 1
    ensures why == DepthLimit ==> st.depth == budget
    ensures why == BoxSmall ==> st.depth > PrecisionDepth
    ensures why != BudgetSpent ==> why == BoxEmptied || why == DepthLimit || why == BoxSmall
    ensures ExportInv(sys, k, budget, T0, ubIn, st)
  {
    st := EDive(startBox, 0, ubIn, T0);
    t := NoVisits;
    var it := 0;
    why := BudgetSpent;
    while it < maxIters
      invariant 0 <= it && (it <= maxIters || it == 0)
      invariant ExportLoopInv(sys, k, budget, T0, ubIn, startBox, it, t, st)
      invariant why == BudgetSpent
    {
      ExportLoopStep(sys, k, budget, epsBox, T0, ubIn, startBox, it, t, st);
      var step := ExportKStep(sys, k, budget, epsBox, st);
      t := Visit(t, st.depth);
      it := it + 1;
      st := step.s;
      if step.Halt? {
        why := step.why;
        break;
      }
    }
  }

  /** The exported `dive_depth_k`. The hard stop bounds the dive: it visits
      at most `max(0, d_max_global - base_depth) + 1` nodes, all of them when
      it stops on depth. `reached_optimum` is set only by the precision
      stop. */
  method ExportDiveDepthK(sys: System, startBox: Box, baseDepth: int, runId: int, T0: real, k: real,
                          dMaxGlobal: int, epsBox: real, maxIters: int, ubIn: EReal)
    returns (res: RunStats, best: EReal, why: Stop)
    requires SystemValid(sys) && |startBox| >= 1
    ensures 0 <= res.nodes_visited <= Max(0, maxIters)
    ensures res.nodes_visited <= Max(0, dMaxGlobal - baseDepth) + 1
    ensures res == Finish(VisitAll(NoVisits, DepthRun(0, res.nodes_visited)), runId, "depth_k", best, why == BoxSmall)
    ensures why == DepthLimit ==> res.nodes_visited == Max(0, dMaxGlobal - baseDepth) + 1
    ensures why == BoxSmall ==> res.nodes_visited >= PrecisionDepth + 2
    ensures why != BudgetSpent ==> why == BoxEmptied || why == DepthLimit || why == BoxSmall
    ensures !ubIn.NaN? ==> Le(best, ubIn)
    ensures !sys.hasGoal ==> best == ubIn
  {
    var t, st;
    var budget := Max(0, dMaxGlobal - baseDepth);
    t, st, why := ExportKLoop(sys, startBox, k, budget, epsBox, T0, maxIters, ubIn);
    best := st.ub;
    res := Finish(t, runId, "depth_k", best, why == BoxSmall);
  }

  /** The exported `run_fda_depth_Tk`: one dive from the root at base depth 0
      with `UB = +inf`. */
  method ExportRunFdaDepthTk(sys: System, rootBox: Box, runId: int, T0: real, k: real, dMax: int,
                             epsBox: real, maxIters: int) returns (res: RunStats)
    requires SystemValid(sys) && |rootBox| >= 1
    ensures 0 <= res.nodes_visited <= Max(0, maxIters) && res.nodes_visited <= Max(0, dMax) + 1
    ensures res.max_depth == Max(0, res.nodes_visited - 1)
    ensures res.best_value.PosInf? || sys.hasGoal
    ensures res.variant == "depth_k" && res.run_id == runId
  {
    var best: EReal;
    var why: Stop;
    res, best, why := ExportDiveDepthK(sys, rootBox, 0, runId, T0, k, dMax, epsBox, maxIters, PosInf);
    LocalDiveStats(res.nodes_visited, runId, "depth_k", best, why == BoxSmall);
  }

  // ---------------------------------------------------------------------------
  // run_fda_depth_Tk_bb (exported)

  /** The exported `run_fda_depth_Tk_bb`. Every popped node is counted before
      contraction; an emptied node is dropped or, below `min_force_depth`,
      split at its own temperature; with a non-empty objective enclosure the
      node may be pruned; otherwise it dives with its depth as `base_depth`
      and its temperature, and its halves are pushed at `k * T / 2`. The
      report leaves `reached_optimum` false. Also returns the final state. */
  method ExportRunFdaDepthTkBb(sys: System, rootBox: Box, runId: int, T0: real, k: real, dMaxFdive: int,
                               epsBox: real, maxBbNodes: int, maxItersFdive: int)
    returns (res: RunStats, final: BbState)
    requires SystemValid(sys) && |rootBox| >= 1
    ensures res == ExportFinish(final, runId, "depth_k_bb")
    ensures BbInv(final, |rootBox|, maxBbNodes)
    ensures final.active == [] || final.processed == Max(0, maxBbNodes)
    ensures res.nodes_visited >= final.processed && !res.reached_optimum
    ensures res.best_value.PosInf? || IsFinite(res.best_value)
    ensures 0 <= res.max_depth && 0.0 <= res.avg_depth <= res.max_depth as real
  {
    var dim := |rootBox|;
    var s := InitialState(MakeNode(rootBox, 0, T0));
    while |s.active| > 0 && s.processed < maxBbNodes
      invariant BbInv(s, dim, maxBbNodes)
      decreases Max(0, maxBbNodes) - s.processed, StackWeight(s.active)
    {
      s := ExportKBbPass(sys, s, runId, k, dMaxFdive, epsBox, maxBbNodes, maxItersFdive, dim);
    }
    FinishCoherent(s.t, runId, "depth_k_bb", s.ub, false);
    final := s;
    res := ExportFinish(s, runId, "depth_k_bb");
  }

  /** One pass of the exported driver's loop: count the top node, triage it
      (pruning only with a non-empty enclosure), and drop, split or dive. */
  method ExportKBbPass(sys: System, s: BbState, runId: int, k: real, dMaxFdive: int, epsBox: real,
                       maxBbNodes: int, maxItersFdive: int, dim: int) returns (r: BbState)
    requires SystemValid(sys) && dim >= 1
    requires BbInv(s, dim, maxBbNodes) && |s.active| > 0 && s.processed < maxBbNodes
    ensures BbInv(r, dim, maxBbNodes) && Progress(s, r)
    ensures r.t.nodes > s.t.nodes
    ensures var node := Top(s);
            var tr := ExportTriage(sys, node, s.ub, s.hasUb, 0, true);
            (tr.Vanished? ==> r == Popped(Counted(s, node.depth), tr.push)) &&
            (tr.Pruned? ==> r == Popped(Counted(s, node.depth), [])) &&
            (tr.Explore? ==>
               r.processed == s.processed + 1 &&
               (r.ub == s.ub || (IsFinite(r.ub) && Lt(r.ub, s.ub))) &&
               r.active == s.active[..|s.active| - 1] + Children(BisectBox(tr.box), node.depth + 1, FixedChildT(k, node.T)))
  {
    var node := Top(s);
    match ExportTriage(sys, node, s.ub, s.hasUb, 0, true)
    case Vanished(push) =>
      ExportDropStep(s, push, dim, maxBbNodes);
      r := Popped(Counted(s, node.depth), push);
    case Pruned =>
      ExportDropStep(s, [], dim, maxBbNodes);
      r := Popped(Counted(s, node.depth), []);
    case Explore(x, goal, hint) =>
      r := ExportKDiveNode(sys, s, runId, k, dMaxFdive, epsBox, maxBbNodes, maxItersFdive, dim, x, hint, BisectBox(x));
  }

  /** The end of a pass for a node that survived triage: dive from the
      contracted box with the node's depth as `base_depth`, update the
      incumbent, fold the counters in, and push the halves of the contracted
      box (`halves`) at `k * T / 2`. */
  method ExportKDiveNode(sys: System, s: BbState, runId: int, k: real, dMaxFdive: int, epsBox: real,
                         maxBbNodes: int, maxItersFdive: int, dim: int, x: Box, hint: EReal, halves: (Box, Box))
    returns (r: BbState)
    requires dim >= 1 && SystemValid(sys)
    requires BbInv(s, dim, maxBbNodes) && |s.active| > 0 && s.processed < maxBbNodes && |x| == dim
    requires |halves.0| == dim && |halves.1| == dim
    ensures BbInv(r, dim, maxBbNodes) && Progress(s, r) && r.t.nodes > s.t.nodes
    ensures r.processed == s.processed + 1
    ensures r.ub == s.ub || (IsFinite(r.ub) && Lt(r.ub, s.ub))
    ensures r.active == s.active[..|s.active| - 1] + Children(halves, Top(s).depth + 1, FixedChildT(k, Top(s).T))
  {
    var node := Top(s);
    var local, bestLocal, why := ExportDiveDepthK(sys, x, node.depth, runId, node.T, k, dMaxFdive,
                                                  epsBox, maxItersFdive, hint);
    if local.nodes_visited > 0 {
      DiveStatsRecovered(0, local.nodes_visited, runId, "depth_k", bestLocal, why == BoxSmall);
    }
    var children := Children(halves, node.depth + 1, FixedChildT(k, node.T));
    DiveStep(s, local, bestLocal, children, dim, maxBbNodes);
    r := AfterDive(Counted(s, node.depth), node.depth, local, bestLocal, children);
  }
}
