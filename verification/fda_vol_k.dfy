/** The volume-and-temperature Feasible Diving variant (FDA_vol_k.cpp): a
    dive over an `OptContext` that, once it is five levels deep, stops when
    contraction leaves less than a depth-dependent fraction of the volume of
    the box it started the pass with; children are scored with the same
    decaying temperature bonus as in `dive_depth_k`. Also the single-dive
    entry point and the B&B driver, which has no base depth. */
module FdaVolK {
  import opened ExtReal
  import opened Bridge
  import opened RealMath
  import opened Accounting
  import opened BbCommon
  import opened FdaDepthK

  /** `depth_vol >= 5`: the number of levels before the volume cut applies. */
  const VolumeWarmup: int := 5

  /** The loop state of `dive_vol_Tk`: the box `X`, its `goal_bounds`, the
      local `depth`, `UB`, `has_ub`, `UB_prev`, the temperature `T`,
      `use_volume`, the reference volume `V0` and the counter `depth_vol`. */
  datatype VDive = VDive(box: Box, goal: Enclosure, depth: int, ub: EReal, hasUb: bool, ubPrev: EReal,
                         T: real, useVolume: bool, V0: EReal, depthVol: int)

  /** The parameters a dive keeps fixed: `k`, `eps_V`, `beta`, `eps_box`. */
  datatype VParams = VParams(k: real, epsV: real, beta: real, epsBox: real)

  /** `tau_V(d) = eps_V * exp(-beta * d)`: the relative volume below which
      the dive stops at depth `d`. */
  function Threshold(m: Measure, p: VParams, depth: int): (tau: real)
    requires MeasureValid(m)
    ensures p.epsV > 0.0 ==> tau > 0.0
    ensures p.epsV == 0.0 ==> tau == 0.0
    ensures p.beta == 0.0 || depth == 0 ==> tau == p.epsV
  {
    var e := m.exp(-p.beta * (depth as real));
    assert p.beta == 0.0 || depth == 0 ==> -p.beta * (depth as real) == 0.0;
    PositiveScale(p.epsV, e);
    p.epsV * e
  }

  lemma PositiveScale(a: real, e: real)
    requires e > 0.0
    ensures a > 0.0 ==> a * e > 0.0
  {
  }

  /** `X.volume() / V0 <= tau_V(depth)` for the contracted box `x`. */
  predicate VolumeCut(m: Measure, p: VParams, st: VDive, x: Box)
    requires MeasureValid(m)
  {
    st.useVolume && st.depthVol >= VolumeWarmup && Le(Div(m.volume(x), st.V0), Fin(Threshold(m, p, st.depth)))
  }

  /** Whether the goal update after contraction sets `has_ub`: the upper
      end of non-empty goal bounds, or then the objective at the midpoint,
      is finite and below the incumbent of that moment. */
  predicate Improves(opt: OptContext, ub: EReal, x: Box, g: Enclosure) {
    !g.empty &&
    ((IsFinite(g.ub) && Lt(g.ub, ub)) ||
     (IsFinite(opt.evalAtMid(x)) && Lt(opt.evalAtMid(x), TightenFinite(ub, g.ub))))
  }

  /** `has_ub` is set exactly when the goal update changes the incumbent. */
  lemma ImprovesExactly(opt: OptContext, ub: EReal, x: Box, g: Enclosure)
    ensures Improves(opt, ub, x, g) <==> GoalUpdate(opt, ub, x, g) != ub
  {
    if !g.empty {
      var u1 := TightenFinite(ub, g.ub);
      var f := opt.evalAtMid(x);
      if IsFinite(g.ub) && Lt(g.ub, ub) && IsFinite(f) && Lt(f, u1) {
        LtTransitiveFinite(f, u1, ub);
      } else if !(IsFinite(g.ub) && Lt(g.ub, ub)) && IsFinite(f) && Lt(f, u1) {
        assert u1 == ub;
        LtIrreflexive(f);
      }
    }
  }

  lemma LtTransitiveFinite(x: EReal, y: EReal, z: EReal)
    requires Lt(x, y) && Lt(y, z)
    ensures x != z
  {
    LtIrreflexive(x);
    LtLeTransitive(x, y, z);
  }

  /** The loop body of `dive_vol_Tk` after the visit counters: contract with
      the goal and stop on an empty box; past the warm-up, stop when the
      relative volume is at most `tau_V(depth)`; update the incumbent and
      `has_ub`; stop on a small box below the root; otherwise bisect, take
      the better half at the child temperature, and take its volume as the
      new reference when it is bounded. A stop leaves the loop state as it
      was apart from the incumbent. */
  function VolStep(opt: OptContext, m: Measure, p: VParams, st: VDive): (r: Step<VDive>)
    requires OptValid(opt) && MeasureValid(m) && |st.box| >= 1
    ensures r.Halt? ==> r.why == BoxEmptied || (r.why == VolumeSmall && st.depthVol >= VolumeWarmup) ||
                         (r.why == BoxSmall && st.depth > 0)
    ensures r.Halt? ==> r.s == st.(ub := r.s.ub, hasUb := r.s.hasUb)
    ensures r.Halt? && r.why != BoxSmall ==> r.s == st
    ensures r.Next? ==>
              |r.s.box| == |st.box| && r.s.depth == st.depth + 1 && r.s.depthVol == st.depthVol + 1 &&
              r.s.useVolume == !Unbounded(r.s.box) && (r.s.useVolume ==> r.s.V0 == m.volume(r.s.box)) &&
              r.s.T == ChildTemperature(opt, p.k, st.ubPrev, r.s.ub, st.T)
    ensures !st.ub.NaN? ==> Le(r.s.ub, st.ub)
    ensures r.s.ub == st.ub || IsFinite(r.s.ub)
    ensures r.s.hasUb == (st.hasUb || r.s.ub != st.ub)
  {
    match opt.contractWithGoal(st.box, st.goal, st.ub)
    case GoalEmptied => Halt(st, BoxEmptied)
    case GoalNarrowed(x, g) =>
      if VolumeCut(m, p, st, x) then Halt(st, VolumeSmall)
      else
        var ub := GoalUpdate(opt, st.ub, x, g);
        ImprovesExactly(opt, st.ub, x, g);
        var hasUb := st.hasUb || Improves(opt, st.ub, x, g);
        if st.depth > 0 && Lt(MaxDiam(x), Fin(p.epsBox)) then
          Halt(st.(ub := ub, hasUb := hasUb), BoxSmall)
        else
          Next(VolBranch(opt, m, p, st, x, g, ub, hasUb))
  }

  /** The split at the end of a pass that did not stop: the better half at
      the child temperature (the left one on ties), with fresh goal bounds,
      `use_volume` recomputed for it and, when it is bounded, its volume as
      the new `V0`; an unbounded half keeps the old `V0`, unused. */
  function VolBranch(opt: OptContext, m: Measure, p: VParams, st: VDive, x: Box, g: Enclosure,
                     ub: EReal, hasUb: bool): (r: VDive)
    requires OptValid(opt)
    ensures |r.box| == |x| && r.depth == st.depth + 1 && r.depthVol == st.depthVol + 1
    ensures r.ub == ub && r.ubPrev == ub && r.hasUb == hasUb && r.goal == Entire
    ensures r.box == opt.bisect(x, g).0 || r.box == opt.bisect(x, g).1
    ensures r.useVolume == !Unbounded(r.box) && (r.useVolume ==> r.V0 == m.volume(r.box))
    ensures !r.useVolume ==> r.V0 == st.V0
    ensures r.T == ChildTemperature(opt, p.k, st.ubPrev, ub, st.T)
  {
    var (left, right) := opt.bisect(x, g);
    var tChild := ChildTemperature(opt, p.k, st.ubPrev, ub, st.T);
    var next := if Ge(Scored(opt, left, tChild), Scored(opt, right, tChild)) then left else right;
    var useVolume := !Unbounded(next);
    VDive(next, Entire, st.depth + 1, ub, hasUb, ub, tChild, useVolume,
          if useVolume then m.volume(next) else st.V0, st.depthVol + 1)
  }

  /** As in `dive_depth_k`, the temperature never steers the descent: the
      half taken is the one with the higher plain score, the left one on
      ties. */
  lemma VolBranchIgnoresTemperature(opt: OptContext, m: Measure, p: VParams, st: VDive, x: Box, g: Enclosure,
                                    ub: EReal, hasUb: bool)
    requires OptValid(opt)
    ensures var (left, right) := opt.bisect(x, g);
            VolBranch(opt, m, p, st, x, g, ub, hasUb).box ==
              (if Ge(opt.score(left, Entire), opt.score(right, Entire)) then left else right)
  {
    var (left, right) := opt.bisect(x, g);
    SameBonusKeepsOrder(opt.score(left, Entire), opt.score(right, Entire), ChildTemperature(opt, p.k, st.ubPrev, ub, st.T));
  }

  /** What one pass decides: it stops exactly when contraction empties the
      box; otherwise it stops on volume exactly when the volume cut holds,
      and then the goal bounds of that pass are not used; otherwise the
      incumbent takes the goal update, the dive stops exactly when the
      depth is positive and the box is narrower than `eps_box`, and else it
      takes the half with the higher score, the left one on ties. */
  lemma VolStepSpec(opt: OptContext, m: Measure, p: VParams, st: VDive)
    requires OptValid(opt) && MeasureValid(m) && |st.box| >= 1
    ensures var r := VolStep(opt, m, p, st);
            r.Halt? && r.why == BoxEmptied <==> opt.contractWithGoal(st.box, st.goal, st.ub).GoalEmptied?
    ensures opt.contractWithGoal(st.box, st.goal, st.ub).GoalNarrowed? ==>
              var r := VolStep(opt, m, p, st);
              var c := opt.contractWithGoal(st.box, st.goal, st.ub);
              (r.Halt? && r.why == VolumeSmall <==> VolumeCut(m, p, st, c.box)) &&
              (VolumeCut(m, p, st, c.box) ==> r.s.ub == st.ub) &&
              (!VolumeCut(m, p, st, c.box) ==>
                 r.s.ub == GoalUpdate(opt, st.ub, c.box, c.goal) &&
                 (r.Halt? <==> st.depth > 0 && Lt(MaxDiam(c.box), Fin(p.epsBox))) &&
                 (r.Next? ==>
                    var (left, right) := opt.bisect(c.box, c.goal);
                    var tChild := ChildTemperature(opt, p.k, st.ubPrev, r.s.ub, st.T);
                    r.s.box == (if Ge(Scored(opt, left, tChild), Scored(opt, right, tChild)) then left else right)))
  {
  }

  /** Past the warm-up, a pass whose contraction leaves a box of zero volume
      ends the dive whenever `eps_V >= 0` and the reference volume is
      positive: the threshold is never negative. */
  lemma ZeroVolumeStops(opt: OptContext, m: Measure, p: VParams, st: VDive)
    requires OptValid(opt) && MeasureValid(m) && |st.box| >= 1
    requires st.useVolume && st.depthVol >= VolumeWarmup && p.epsV >= 0.0
    requires IsFinite(st.V0) && st.V0.v > 0.0
    requires var c := opt.contractWithGoal(st.box, st.goal, st.ub);
             c.GoalNarrowed? && m.volume(c.box) == Fin(0.0)
    ensures VolStep(opt, m, p, st) == Halt(st, VolumeSmall)
  {
    var c := opt.contractWithGoal(st.box, st.goal, st.ub);
    assert Div(Fin(0.0), st.V0) == Fin(0.0);
    assert Threshold(m, p, st.depth) >= 0.0;
    assert VolumeCut(m, p, st, c.box);
  }

  /** What the dive loop keeps: `depth_vol` equals the depth; the incumbent
      never above `UB_global_in` and either that or finite; `has_ub` exactly
      when the incumbent is finite; `use_volume` exactly when the current box
      is bounded, and then `V0` is that box's volume; and, with a constant
      multiplier, the temperature `T0 * (k/2)^depth`. */
  ghost predicate VolInv(opt: OptContext, m: Measure, k: real, T0: real, ubIn: EReal, st: VDive) {
    st.depth >= 0 && st.depthVol == st.depth &&
    (!ubIn.NaN? ==> Le(st.ub, ubIn)) && (st.ub == ubIn || IsFinite(st.ub)) &&
    (st.hasUb <==> IsFinite(st.ub)) &&
    st.useVolume == !Unbounded(st.box) && (st.useVolume ==> st.V0 == m.volume(st.box)) &&
    (ConstantK(opt, k) ==> st.T == T0 * Pow(k / 2.0, st.depth))
  }

  lemma StepKeepsVolInv(opt: OptContext, m: Measure, p: VParams, T0: real, ubIn: EReal, st: VDive)
    requires OptValid(opt) && MeasureValid(m) && |st.box| >= 1 && VolInv(opt, m, p.k, T0, ubIn, st)
    ensures VolInv(opt, m, p.k, T0, ubIn, VolStep(opt, m, p, st).s)
  {
    var step := VolStep(opt, m, p, st);
    var r, split := step.s, step.Next?;
    assert split ==>
             r.depth == st.depth + 1 && r.depthVol == st.depthVol + 1 &&
             r.useVolume == !Unbounded(r.box) && (r.useVolume ==> r.V0 == m.volume(r.box)) &&
             r.T == ChildTemperature(opt, p.k, st.ubPrev, r.ub, st.T);
    assert !split ==> r == st.(ub := r.ub, hasUb := r.hasUb);
    assert (!st.ub.NaN? ==> Le(r.ub, st.ub)) && (r.ub == st.ub || IsFinite(r.ub));
    assert r.hasUb == (st.hasUb || r.ub != st.ub);
    KeepsVolInv(opt, m, p.k, T0, ubIn, st, r, split);
  }

  lemma KeepsVolInv(opt: OptContext, m: Measure, k: real, T0: real, ubIn: EReal, st: VDive, r: VDive, split: bool)
    requires VolInv(opt, m, k, T0, ubIn, st)
    requires split ==>
               r.depth == st.depth + 1 && r.depthVol == st.depthVol + 1 &&
               r.useVolume == !Unbounded(r.box) && (r.useVolume ==> r.V0 == m.volume(r.box)) &&
               r.T == ChildTemperature(opt, k, st.ubPrev, r.ub, st.T)
    requires !split ==> r == st.(ub := r.ub, hasUb := r.hasUb)
    requires (!st.ub.NaN? ==> Le(r.ub, st.ub)) && (r.ub == st.ub || IsFinite(r.ub))
    requires r.hasUb == (st.hasUb || r.ub != st.ub)
    ensures VolInv(opt, m, k, T0, ubIn, r)
  {
    if !ubIn.NaN? {
      LeTransitive(r.ub, st.ub, ubIn);
    }
    if ConstantK(opt, k) && split {
      assert ChildTemperature(opt, k, st.ubPrev, r.ub, st.T) == k * st.T / 2.0;
      PowStep(k, T0, st.T, st.depth);
    }
  }

  /** The loop of `dive_vol_Tk`: at most `max_iters` passes through
      `VolStep` from depth 0, with `V0` the volume of the start box when it
      is bounded and 1 otherwise. */
  method VolLoop(opt: OptContext, m: Measure, startBox: Box, p: VParams, T0: real, maxIters: int, ubIn: EReal)
    returns (t: Tally, st: VDive, why: Stop)
    requires OptValid(opt) && MeasureValid(m) && |startBox| >= 1
    ensures 0 <= t.nodes <= Max(0, maxIters)
    ensures t == VisitAll(NoVisits, DepthRun(0, t.nodes))
    ensures why == BudgetSpent ==> t.nodes == Max(0, maxIters) && st.depth == t.nodes
    ensures why != BudgetSpent ==> t.nodes >= 1 && st.depth == t.nodes - 1
    ensures why == BoxSmall ==> st.depth > 0
    ensures why == VolumeSmall ==> st.depth >= VolumeWarmup
    ensures VolInv(opt, m, p.k, T0, ubIn, st)
  {
    var bounded := !Unbounded(startBox);
    st := VDive(startBox, Entire, 0, ubIn, IsFinite(ubIn), ubIn, T0, bounded,
                if bounded then m.volume(startBox) else Fin(1.0), 0);
    t := NoVisits;
    var it := 0;
    why := BudgetSpent;
    while it < maxIters
      invariant 0 <= it && (it <= maxIters || it == 0)
      invariant st.depth == it && |st.box| == |startBox|
      invariant t == VisitAll(NoVisits, DepthRun(0, it)) && t.nodes == it
      invariant VolInv(opt, m, p.k, T0, ubIn, st)
      invariant why == BudgetSpent
    {
      DepthRunExtend(0, it);
      t := Visit(t, st.depth);
      it := it + 1;
      var step := VolStep(opt, m, p, st);
      StepKeepsVolInv(opt, m, p, T0, ubIn, st);
      st := step.s;
      if step.Halt? {
        why := step.why;
        break;
      }
    }
  }

  /** `dive_vol_Tk`: the statistics of the loop with `reached_optimum =
      isfinite(UB)` (the value the volume stop also writes), and the final
      incumbent (`best_value_out`). */
  method DiveVolTk(opt: OptContext, m: Measure, startBox: Box, runId: int, T0: real, k: real,
                   epsV: real, beta: real, epsBox: real, maxIters: int, ubIn: EReal)
    returns (res: RunStats, best: EReal, why: Stop)
    requires OptValid(opt) && MeasureValid(m) && |startBox| >= 1
    ensures 0 <= res.nodes_visited <= Max(0, maxIters)
    ensures res == Finish(VisitAll(NoVisits, DepthRun(0, res.nodes_visited)),
                          runId, "vol_k", best, IsFinite(best))
    ensures why == BudgetSpent ==> res.nodes_visited == Max(0, maxIters)
    ensures why != BudgetSpent ==> res.nodes_visited >= 1
    ensures why == BoxSmall ==> res.nodes_visited >= 2
    ensures why == VolumeSmall ==> res.nodes_visited >= VolumeWarmup + 1
    ensures !ubIn.NaN? ==> Le(best, ubIn)
    ensures best == ubIn || IsFinite(best)
  {
    var t, st;
    t, st, why := VolLoop(opt, m, startBox, VParams(k, epsV, beta, epsBox), T0, maxIters, ubIn);
    best := st.ub;
    res := Finish(t, runId, "vol_k", best, IsFinite(best));
  }

  /** `run_fda_vol_Tk`: one dive from the root with no incumbent. */
  method RunFdaVolTk(opt: OptContext, m: Measure, rootBox: Box, runId: int, T0: real, k: real,
                     epsV: real, beta: real, epsBox: real, maxIters: int) returns (res: RunStats)
    requires OptValid(opt) && MeasureValid(m) && |rootBox| >= 1
    ensures 0 <= res.nodes_visited <= Max(0, maxIters)
    ensures res.max_depth == Max(0, res.nodes_visited - 1)
    ensures 2.0 * res.avg_depth == Max(0, res.nodes_visited - 1) as real
    ensures res.reached_optimum <==> IsFinite(res.best_value)
    ensures res.best_value.PosInf? || IsFinite(res.best_value)
    ensures res.variant == "vol_k" && res.run_id == runId
  {
    var best: EReal;
    var why: Stop;
    res, best, why := DiveVolTk(opt, m, rootBox, runId, T0, k, epsV, beta, epsBox, maxIters, PosInf);
    LocalDiveStats(res.nodes_visited, runId, "vol_k", best, IsFinite(best));
  }

  // ---------------------------------------------------------------------------
  // run_fda_vol_Tk_bb

  /** `run_fda_vol_Tk_bb`: the driver of `run_fda_depth_Tk_bb` with the
      volume dive in place of the depth dive (no base depth), and
      `reached_optimum = isfinite(UB_global)` at the end. */
  method RunFdaVolTkBb(opt: OptContext, m: Measure, rootBox: Box, runId: int, T0: real, k: real,
                       epsV: real, beta: real, epsBox: real, maxBbNodes: int, maxItersFdive: int)
    returns (res: RunStats, processed: int, pending: seq<BbNode>)
    requires OptValid(opt) && MeasureValid(m) && |rootBox| >= 1
    ensures res.run_id == runId && res.variant == "vol_k_bb"
    ensures 0 <= processed <= Max(0, maxBbNodes)
    ensures pending == [] || processed == Max(0, maxBbNodes)
    ensures res.nodes_visited >= processed
    ensures res.reached_optimum <==> IsFinite(res.best_value)
    ensures res.best_value.PosInf? || IsFinite(res.best_value)
    ensures 0 <= res.max_depth && 0.0 <= res.avg_depth <= res.max_depth as real
    ensures maxBbNodes <= 0 ==> res == Finish(NoVisits, runId, "vol_k_bb", PosInf, false)
  {
    var dim := |rootBox|;
    var root := MakeNode(rootBox, 0, T0);
    var s := InitialState(root);
    while |s.active| > 0 && s.processed < maxBbNodes
      invariant BbInv(s, dim, maxBbNodes)
      invariant maxBbNodes <= 0 ==> s == InitialState(root)
      decreases Max(0, maxBbNodes) - s.processed, StackWeight(s.active)
    {
      s := VolBbPass(opt, m, s, runId, k, epsV, beta, epsBox, maxBbNodes, maxItersFdive, dim);
    }
    FinishBbSpec(s, runId, "vol_k_bb", dim, maxBbNodes);
    res := FinishBb(s, runId, "vol_k_bb");
    processed := s.processed;
    pending := s.active;
  }

  /** One pass of the worklist loop of `run_fda_vol_Tk_bb`: pop and triage
      the top node; a rejected or emptied node is dropped or force-split
      with its own temperature, a pruned one is dropped, and any other dives
      from its contracted box at its own temperature and is replaced by its
      halves at the child temperature. */
  method VolBbPass(opt: OptContext, m: Measure, s: BbState, runId: int, k: real, epsV: real, beta: real,
                   epsBox: real, maxBbNodes: int, maxItersFdive: int, dim: int) returns (r: BbState)
    requires OptValid(opt) && MeasureValid(m) && dim >= 1
    requires BbInv(s, dim, maxBbNodes) && |s.active| > 0 && s.processed < maxBbNodes
    ensures BbInv(r, dim, maxBbNodes) && Progress(s, r)
    ensures var node := Top(s);
            var tr := TriageNode(opt, node, s.ub, s.hasUb);
            (tr.Rejected? ==> r == Popped(s, tr.push)) &&
            (tr.Vanished? ==> r == Popped(Counted(s, node.depth), tr.push)) &&
            (tr.Pruned? ==> r == Popped(Counted(s, node.depth), [])) &&
            (tr.Explore? ==>
               r.processed == s.processed + 1 &&
               (r.ub == s.ub || (IsFinite(r.ub) && Lt(r.ub, s.ub) && Le(r.ub, tr.hint))) &&
               r.active == s.active[..|s.active| - 1] +
                           Children(opt.bisect(tr.box, tr.goal), node.depth + 1,
                                    ChildTemperature(opt, k, s.ub, r.ub, node.T)))
  {
    var node := Top(s);
    match TriageNode(opt, node, s.ub, s.hasUb)
    case Rejected(push) =>
      RejectStep(s, push, dim, maxBbNodes);
      r := Popped(s, push);
    case Vanished(push) =>
      CountedDropStep(s, push, dim, maxBbNodes);
      r := Popped(Counted(s, node.depth), push);
    case Pruned =>
      CountedDropStep(s, [], dim, maxBbNodes);
      r := Popped(Counted(s, node.depth), []);
    case Explore(x, goal, hint) =>
      r := VolExplore(opt, m, s, runId, k, epsV, beta, epsBox, maxBbNodes, maxItersFdive, dim, x, goal, hint);
  }

  /** The explore branch of `VolBbPass`: the dive from the contracted box
      `x` at the node's temperature with incumbent hint `hint`, then the
      node's halves at the child temperature in its place. */
  method VolExplore(opt: OptContext, m: Measure, s: BbState, runId: int, k: real, epsV: real, beta: real,
                    epsBox: real, maxBbNodes: int, maxItersFdive: int, dim: int,
                    x: Box, goal: Enclosure, hint: EReal) returns (r: BbState)
    requires OptValid(opt) && MeasureValid(m) && dim >= 1 && |x| == dim
    requires BbInv(s, dim, maxBbNodes) && |s.active| > 0 && s.processed < maxBbNodes
    requires (!s.ub.NaN? ==> Le(hint, s.ub)) && (hint == s.ub || IsFinite(hint))
    ensures BbInv(r, dim, maxBbNodes) && Progress(s, r)
    ensures r.processed == s.processed + 1
    ensures r.ub == s.ub || (IsFinite(r.ub) && Lt(r.ub, s.ub) && Le(r.ub, hint))
    ensures r.active == s.active[..|s.active| - 1] +
                        Children(opt.bisect(x, goal), Top(s).depth + 1, ChildTemperature(opt, k, s.ub, r.ub, Top(s).T))
  {
    var node := Top(s);
    var local, bestLocal, why := DiveVolTk(opt, m, x, runId, node.T, k, epsV, beta, epsBox,
                                           maxItersFdive, hint);
    if local.nodes_visited > 0 {
      DiveStatsRecovered(0, local.nodes_visited, runId, "vol_k", bestLocal, IsFinite(bestLocal));
    }
    var ub := TightenFinite(s.ub, bestLocal);
    var children := Children(opt.bisect(x, goal), node.depth + 1, ChildTemperature(opt, k, s.ub, ub, node.T));
    DiveStep(s, local, bestLocal, children, dim, maxBbNodes);
    ExploreOutcome(s, node.depth, local, bestLocal, hint, children);
    r := AfterDive(Counted(s, node.depth), node.depth, local, bestLocal, children);
  }
}
