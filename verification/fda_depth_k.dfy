/** The depth-and-temperature Feasible Diving variant (FDA_depth_k.cpp): a
    dive over an `OptContext` whose children are scored with a temperature
    bonus that decays by `k_eff / 2` per level, with a depth budget that is
    extended rather than enforced; the single-dive entry point; and the B&B
    driver that hands every node's temperature to its dive. */
module FdaDepthK {
  import opened ExtReal
  import opened Bridge
  import opened RealMath
  import opened Accounting
  import opened BbCommon

  /** The loop state of `dive_depth_k`: the box `X`, its `goal_bounds`, the
      local `depth`, `UB`, `UB_prev`, the temperature `T` and `d_budget`. */
  datatype KDive = KDive(box: Box, goal: Enclosure, depth: int, ub: EReal, ubPrev: EReal, T: real, budget: int)

  /** The parameters a dive keeps fixed: `k`, `d_max_global`, `base_depth`
      and `eps_box`. */
  datatype KParams = KParams(k: real, dMax: int, baseDepth: int, epsBox: real)

  /** The incumbent update of a dive after contraction: when the goal
      bounds are not empty, first their upper end and then the objective at
      the box midpoint may lower `UB`, each only when finite and smaller. */
  function GoalUpdate(opt: OptContext, ub: EReal, x: Box, g: Enclosure): (r: EReal)
    ensures g.empty ==> r == ub
    ensures !ub.NaN? ==> Le(r, ub)
    ensures r == ub || IsFinite(r)
    ensures !g.empty && !ub.NaN? && IsFinite(g.ub) ==> Le(r, g.ub)
    ensures !g.empty && !ub.NaN? && IsFinite(opt.evalAtMid(x)) ==> Le(r, opt.evalAtMid(x))
  {
    if g.empty then ub else TightenFinite(TightenFinite(ub, g.ub), opt.evalAtMid(x))
  }

  /** The temperature bonus added to a child's score. */
  function Scored(opt: OptContext, child: Box, tChild: real): EReal {
    Add(opt.score(child, Entire), Fin(tChild))
  }

  /** The loop body of `dive_depth_k` after the visit counters: contract with
      the goal; update the incumbent; extend the depth budget when it is
      reached; stop on a small box below `base_depth`; otherwise bisect,
      score both halves with the same child temperature, and move to the
      better one (the left one on ties) with fresh goal bounds. */
  function DepthKStep(opt: OptContext, p: KParams, st: KDive): (r: Step<KDive>)
    requires OptValid(opt) && |st.box| >= 1
    ensures r.Halt? ==> r.why == BoxEmptied || (r.why == BoxSmall && st.depth > p.baseDepth)
    ensures |r.s.box| == |st.box|
    ensures r.s.depth == (if r.Next? then st.depth + 1 else st.depth)
    ensures !st.ub.NaN? ==> Le(r.s.ub, st.ub)
    ensures r.s.ub == st.ub || IsFinite(r.s.ub)
  {
    match opt.contractWithGoal(st.box, st.goal, st.ub)
    case GoalEmptied => Halt(st, BoxEmptied)
    case GoalNarrowed(x, g) =>
      var ub := GoalUpdate(opt, st.ub, x, g);
      var budget := if st.depth >= st.budget then st.budget + p.dMax else st.budget;
      if st.depth > p.baseDepth && Lt(MaxDiam(x), Fin(p.epsBox)) then
        Halt(KDive(x, g, st.depth, ub, st.ubPrev, st.T, budget), BoxSmall)
      else
        Next(Branch(opt, p, st, x, g, ub, budget))
  }

  /** The split at the end of a pass that did not stop: bisect, score both
      halves with the same child temperature, take the better one (the left
      one on ties) with fresh goal bounds one level deeper. */
  function Branch(opt: OptContext, p: KParams, st: KDive, x: Box, g: Enclosure, ub: EReal, budget: int): (r: KDive)
    requires OptValid(opt)
    ensures |r.box| == |x| && r.depth == st.depth + 1 && r.ub == ub && r.ubPrev == ub && r.budget == budget
    ensures r.T == ChildTemperature(opt, p.k, st.ubPrev, ub, st.T) && r.goal == Entire
    ensures r.box == opt.bisect(x, g).0 || r.box == opt.bisect(x, g).1
  {
    var (left, right) := opt.bisect(x, g);
    var tChild := ChildTemperature(opt, p.k, st.ubPrev, ub, st.T);
    var next := if Ge(Scored(opt, left, tChild), Scored(opt, right, tChild)) then left else right;
    KDive(next, Entire, st.depth + 1, ub, ub, tChild, budget)
  }

  /** The temperature never steers the descent: both halves get the same
      bonus, so the half taken is the one with the higher plain score (the
      left one on ties), whatever the temperature. */
  lemma BranchIgnoresTemperature(opt: OptContext, p: KParams, st: KDive, x: Box, g: Enclosure, ub: EReal, budget: int)
    requires OptValid(opt)
    ensures var (left, right) := opt.bisect(x, g);
            Branch(opt, p, st, x, g, ub, budget).box ==
              (if Ge(opt.score(left, Entire), opt.score(right, Entire)) then left else right)
  {
    var (left, right) := opt.bisect(x, g);
    SameBonusKeepsOrder(opt.score(left, Entire), opt.score(right, Entire), ChildTemperature(opt, p.k, st.ubPrev, ub, st.T));
  }

  /** What one pass decides: it stops exactly when contraction empties the
      box; otherwise the budget grows by `d_max_global` exactly when the
      depth has reached it, the dive stops exactly when the depth is past
      `base_depth` and the box is narrower than `eps_box`, and else it takes
      the half with the higher score, the left one on ties, with the child
      temperature `adaptive_k(k, UB_prev, UB) * T / 2` as its temperature and
      the current incumbent as `UB_prev`. */
  lemma DepthKStepSpec(opt: OptContext, p: KParams, st: KDive)
    requires OptValid(opt) && |st.box| >= 1
    ensures var r := DepthKStep(opt, p, st);
            (r.Halt? && r.why == BoxEmptied <==> opt.contractWithGoal(st.box, st.goal, st.ub).GoalEmptied?) &&
            (r.Halt? && r.why == BoxEmptied ==> r.s == st)
    ensures opt.contractWithGoal(st.box, st.goal, st.ub).GoalNarrowed? ==>
              var r := DepthKStep(opt, p, st);
              var c := opt.contractWithGoal(st.box, st.goal, st.ub);
              var ub := GoalUpdate(opt, st.ub, c.box, c.goal);
              r.s.ub == ub &&
              r.s.budget == (if st.depth >= st.budget then st.budget + p.dMax else st.budget) &&
              (r.Halt? <==> st.depth > p.baseDepth && Lt(MaxDiam(c.box), Fin(p.epsBox))) &&
              (r.Halt? ==> r.s.box == c.box && r.s.T == st.T) &&
              (r.Next? ==>
                 var (left, right) := opt.bisect(c.box, c.goal);
                 var tChild := ChildTemperature(opt, p.k, st.ubPrev, ub, st.T);
                 r.s.T == tChild && r.s.ubPrev == ub && r.s.goal == Entire &&
                 r.s.box == (if Ge(Scored(opt, left, tChild), Scored(opt, right, tChild)) then left else right))
  {
  }

  /** The depth budget never steers the dive: two states that differ only in
      their budget take the same step to states that differ only in their
      budget. */
  lemma BudgetInert(opt: OptContext, p: KParams, st: KDive, otherBudget: int)
    requires OptValid(opt) && |st.box| >= 1
    ensures var r := DepthKStep(opt, p, st);
            var r' := DepthKStep(opt, p, st.(budget := otherBudget));
            r.Halt? == r'.Halt? && (r.Halt? ==> r.why == r'.why) &&
            r.s.(budget := 0) == r'.s.(budget := 0)
  {
    var st' := st.(budget := otherBudget);
    assert st'.box == st.box && st'.goal == st.goal && st'.ub == st.ub;
    match opt.contractWithGoal(st.box, st.goal, st.ub)
    case GoalEmptied =>
    case GoalNarrowed(x, g) =>
      var ub := GoalUpdate(opt, st.ub, x, g);
      BranchIgnoresBudget(opt, p, st, st', x, g, ub,
                          if st.depth >= st.budget then st.budget + p.dMax else st.budget,
                          if st'.depth >= st'.budget then st'.budget + p.dMax else st'.budget);
  }

  lemma BranchIgnoresBudget(opt: OptContext, p: KParams, st: KDive, st': KDive, x: Box, g: Enclosure,
                            ub: EReal, b: int, b': int)
    requires OptValid(opt) && st' == st.(budget := st'.budget)
    ensures Branch(opt, p, st, x, g, ub, b).(budget := 0) == Branch(opt, p, st', x, g, ub, b').(budget := 0)
  {
  }

  /** The budget stays ahead of the depth: when the depth reaches it, it
      moves `d_max_global >= 1` levels further. */
  lemma DepthKStepBudget(opt: OptContext, p: KParams, st: KDive)
    requires OptValid(opt) && |st.box| >= 1
    ensures p.dMax >= 1 && st.depth <= st.budget ==>
              DepthKStep(opt, p, st).s.depth <= DepthKStep(opt, p, st).s.budget
  {
  }

  /** With a constant multiplier a split halves the temperature and
      multiplies it by `k`; a stop leaves it alone. */
  lemma DepthKStepTemperature(opt: OptContext, p: KParams, st: KDive)
    requires OptValid(opt) && |st.box| >= 1
    ensures ConstantK(opt, p.k) ==>
              DepthKStep(opt, p, st).s.T == (if DepthKStep(opt, p, st).Next? then p.k * st.T / 2.0 else st.T)
  {
  }

  /** The effective multiplier never varies: `adaptive_k` returns `k`. */
  ghost predicate ConstantK(opt: OptContext, k: real) {
    forall a: EReal, b: EReal :: opt.adaptiveK(k, a, b) == k
  }

  lemma TempDecay(k: real, T0: real, q: real)
    ensures k * (T0 * q) / 2.0 == T0 * ((k / 2.0) * q)
  {
  }

  /** The loop of `dive_depth_k`: at most `max_iters` passes through
      `DepthKStep`, the local depth counted from 0, the budget starting at
      `max(0, d_max_global - base_depth)`. */
  method DepthKLoop(opt: OptContext, startBox: Box, p: KParams, T0: real, maxIters: int, ubIn: EReal)
    returns (t: Tally, st: KDive, why: Stop)
    requires OptValid(opt) && |startBox| >= 1
    ensures 0 <= t.nodes <= Max(0, maxIters)
    ensures t == VisitAll(NoVisits, DepthRun(0, t.nodes))
    ensures why == BudgetSpent ==> t.nodes == Max(0, maxIters) && st.depth == t.nodes
    ensures why != BudgetSpent ==> t.nodes >= 1 && (why == BoxEmptied || why == BoxSmall) && st.depth == t.nodes - 1
    ensures why == BoxSmall ==> st.depth > p.baseDepth
    ensures DiveInv(opt, p, T0, ubIn, st)
  {
    st := KDive(startBox, Entire, 0, ubIn, ubIn, T0, Max(0, p.dMax - p.baseDepth));
    t := NoVisits;
    var it := 0;
    why := BudgetSpent;
    while it < maxIters
      invariant 0 <= it && (it <= maxIters || it == 0)
      invariant st.depth == it && |st.box| == |startBox|
      invariant t == VisitAll(NoVisits, DepthRun(0, it)) && t.nodes == it
      invariant DiveInv(opt, p, T0, ubIn, st)
      invariant why == BudgetSpent
    {
      DepthRunExtend(0, it);
      t := Visit(t, st.depth);
      it := it + 1;
      var step := DepthKStep(opt, p, st);
      StepKeepsDiveInv(opt, p, T0, ubIn, st);
      st := step.s;
      if step.Halt? {
        why := step.why;
        break;
      }
    }
  }

  /** What the dive loop keeps about its state besides the depth: the
      incumbent never above `UB_global_in` and either that or finite, the
      budget ahead of the depth, and, with a constant multiplier, the
      temperature `T0 * (k/2)^depth`. */
  ghost predicate DiveInv(opt: OptContext, p: KParams, T0: real, ubIn: EReal, st: KDive) {
    st.depth >= 0 &&
    (!ubIn.NaN? ==> Le(st.ub, ubIn)) &&
    (st.ub == ubIn || IsFinite(st.ub)) &&
    (p.dMax >= 1 ==> st.depth <= st.budget) &&
    (ConstantK(opt, p.k) ==> st.T == T0 * Pow(p.k / 2.0, st.depth))
  }

  lemma StepKeepsDiveInv(opt: OptContext, p: KParams, T0: real, ubIn: EReal, st: KDive)
    requires OptValid(opt) && |st.box| >= 1 && DiveInv(opt, p, T0, ubIn, st)
    ensures DiveInv(opt, p, T0, ubIn, DepthKStep(opt, p, st).s)
  {
    var step := DepthKStep(opt, p, st);
    DepthKStepBudget(opt, p, st);
    DepthKStepTemperature(opt, p, st);
    KeepsDiveInv(opt, p, T0, ubIn, st, step.s, step.Next?);
  }

  lemma KeepsDiveInv(opt: OptContext, p: KParams, T0: real, ubIn: EReal, st: KDive, r: KDive, next: bool)
    requires DiveInv(opt, p, T0, ubIn, st)
    requires r.depth == (if next then st.depth + 1 else st.depth)
    requires (!st.ub.NaN? ==> Le(r.ub, st.ub)) && (r.ub == st.ub || IsFinite(r.ub))
    requires p.dMax >= 1 && st.depth <= st.budget ==> r.depth <= r.budget
    requires ConstantK(opt, p.k) ==> r.T == (if next then p.k * st.T / 2.0 else st.T)
    ensures DiveInv(opt, p, T0, ubIn, r)
  {
    if !ubIn.NaN? {
      LeTransitive(r.ub, st.ub, ubIn);
    }
    if ConstantK(opt, p.k) && next {
      PowStep(p.k, T0, st.T, st.depth);
    }
  }

  lemma PowStep(k: real, T0: real, T: real, d: nat)
    requires T == T0 * Pow(k / 2.0, d)
    ensures k * T / 2.0 == T0 * Pow(k / 2.0, d + 1)
  {
    TempDecay(k, T0, Pow(k / 2.0, d));
  }

  /** `dive_depth_k`: the statistics of the loop with `reached_optimum =
      isfinite(UB)`, and the final incumbent (`best_value_out`). */
  method DiveDepthK(opt: OptContext, startBox: Box, baseDepth: int, runId: int, T0: real, k: real,
                    dMaxGlobal: int, epsBox: real, maxIters: int, ubIn: EReal)
    returns (res: RunStats, best: EReal, why: Stop)
    requires OptValid(opt) && |startBox| >= 1
    ensures 0 <= res.nodes_visited <= Max(0, maxIters)
    ensures res == Finish(VisitAll(NoVisits, DepthRun(0, res.nodes_visited)),
                          runId, "depth_k", best, IsFinite(best))
    ensures why == BudgetSpent ==> res.nodes_visited == Max(0, maxIters)
    ensures why != BudgetSpent ==> res.nodes_visited >= 1 && (why == BoxEmptied || why == BoxSmall)
    ensures why == BoxSmall ==> res.nodes_visited >= Max(0, baseDepth + 1) + 1
    ensures !ubIn.NaN? ==> Le(best, ubIn)
    ensures best == ubIn || IsFinite(best)
  {
    var t, st;
    t, st, why := DepthKLoop(opt, startBox, KParams(k, dMaxGlobal, baseDepth, epsBox), T0, maxIters, ubIn);
    best := st.ub;
    res := Finish(t, runId, "depth_k", best, IsFinite(best));
  }

  /** `run_fda_depth_Tk`: one dive from the root at base depth 0 with no
      incumbent. */
  method RunFdaDepthTk(opt: OptContext, rootBox: Box, runId: int, T0: real, k: real,
                       dMax: int, epsBox: real, maxIters: int) returns (res: RunStats)
    requires OptValid(opt) && |rootBox| >= 1
    ensures 0 <= res.nodes_visited <= Max(0, maxIters)
    ensures res.max_depth == Max(0, res.nodes_visited - 1)
    ensures 2.0 * res.avg_depth == Max(0, res.nodes_visited - 1) as real
    ensures res.reached_optimum <==> IsFinite(res.best_value)
    ensures res.best_value.PosInf? || IsFinite(res.best_value)
    ensures res.variant == "depth_k" && res.run_id == runId
  {
    var best: EReal;
    var why: Stop;
    res, best, why := DiveDepthK(opt, rootBox, 0, runId, T0, k, dMax, epsBox, maxIters, PosInf);
    LocalDiveStats(res.nodes_visited, runId, "depth_k", best, IsFinite(best));
  }

  // ---------------------------------------------------------------------------
  // run_fda_depth_Tk_bb

  /** The temperature of the children of a node that dived: the multiplier
      `adaptive_k(k, UB_global_prev, UB_global)` (the incumbent before and
      after the dive) times half the node's temperature. */
  function ChildTemperature(opt: OptContext, k: real, ubBefore: EReal, ubAfter: EReal, T: real): (r: real)
    ensures 0.0 <= opt.adaptiveK(k, ubBefore, ubAfter) && 0.0 <= T ==> 0.0 <= r
    ensures opt.adaptiveK(k, ubBefore, ubAfter) <= 2.0 && 0.0 <= T ==> r <= T
    ensures T == 0.0 ==> r == 0.0
  {
    HalfProduct(opt.adaptiveK(k, ubBefore, ubAfter), T)
  }

  /** `run_fda_depth_Tk_bb`. A depth-first worklist seeded with the root at
      temperature `T0`; every node that passes the validity check is
      counted; nodes that survive contraction and pruning launch a dive with
      their own temperature and depth as `base_depth`, improve the
      incumbent, fold the dive's counters in, count as processed, and push
      their two halves with the child temperature. */
  method RunFdaDepthTkBb(opt: OptContext, rootBox: Box, runId: int, T0: real, k: real, dMaxFdive: int,
                         epsBox: real, maxBbNodes: int, maxItersFdive: int)
    returns (res: RunStats, processed: int, pending: seq<BbNode>)
    requires OptValid(opt) && |rootBox| >= 1
    ensures res.run_id == runId && res.variant == "depth_k_bb"
    ensures 0 <= processed <= Max(0, maxBbNodes)
    ensures pending == [] || processed == Max(0, maxBbNodes)
    ensures res.nodes_visited >= processed
    ensures res.reached_optimum <==> IsFinite(res.best_value)
    ensures res.best_value.PosInf? || IsFinite(res.best_value)
    ensures 0 <= res.max_depth && 0.0 <= res.avg_depth <= res.max_depth as real
    ensures maxBbNodes <= 0 ==> res == Finish(NoVisits, runId, "depth_k_bb", PosInf, false)
  {
    var dim := |rootBox|;
    var root := MakeNode(rootBox, 0, T0);
    var s := InitialState(root);
    while |s.active| > 0 && s.processed < maxBbNodes
      invariant BbInv(s, dim, maxBbNodes)
      invariant maxBbNodes <= 0 ==> s == InitialState(root)
      decreases Max(0, maxBbNodes) - s.processed, StackWeight(s.active)
    {
      s := DepthKBbPass(opt, s, runId, k, dMaxFdive, epsBox, maxBbNodes, maxItersFdive, dim);
    }
    FinishBbSpec(s, runId, "depth_k_bb", dim, maxBbNodes);
    res := FinishBb(s, runId, "depth_k_bb");
    processed := s.processed;
    pending := s.active;
  }

  /** One pass of the worklist loop of `run_fda_depth_Tk_bb`: pop and triage
      the top node; a rejected or emptied node is dropped or force-split
      with its own temperature, a pruned one is dropped, and any other dives
      and is replaced by its halves at the child temperature. */
  method DepthKBbPass(opt: OptContext, s: BbState, runId: int, k: real, dMaxFdive: int, epsBox: real,
                      maxBbNodes: int, maxItersFdive: int, dim: int) returns (r: BbState)
    requires OptValid(opt) && dim >= 1
    requires BbInv(s, dim, maxBbNodes) && |s.active| > 0 && s.processed < maxBbNodes
    ensures BbInv(r, dim, maxBbNodes) && Progress(s, r)
    ensures var node := Top(s);
            var tr := TriageNode(opt, node, s.ub, s.hasUb);
            (tr.Rejected? ==> r == Popped(s, tr.push)) &&
            (tr.Vanished? ==> r == Popped(Counted(s, node.depth), tr.push)) &&
            (tr.Pruned? ==> r == Popped(Counted(s, node.depth), [])) &&
            (tr.Explore? ==>
               r.processed == s.processed + 1 &&
               (r.ub == s.ub || (IsFinite(r.ub) && Lt(r.ub, s.ub) && Le(r.ub, tr.hint))) &&
               r.active == s.active[..|s.active| - 1] +
                           Children(opt.bisect(tr.box, tr.goal), node.depth + 1,
                                    ChildTemperature(opt, k, s.ub, r.ub, node.T)))
  {
    var node := Top(s);
    match TriageNode(opt, node, s.ub, s.hasUb)
    case Rejected(push) =>
      RejectStep(s, push, dim, maxBbNodes);
      r := Popped(s, push);
    case Vanished(push) =>
      CountedDropStep(s, push, dim, maxBbNodes);
      r := Popped(Counted(s, node.depth), push);
    case Pruned =>
      CountedDropStep(s, [], dim, maxBbNodes);
      r := Popped(Counted(s, node.depth), []);
    case Explore(x, goal, hint) =>
      var local, bestLocal, why := DiveDepthK(opt, x, node.depth, runId, node.T, k, dMaxFdive,
                                              epsBox, maxItersFdive, hint);
      if local.nodes_visited > 0 {
        DiveStatsRecovered(0, local.nodes_visited, runId, "depth_k", bestLocal, IsFinite(bestLocal));
      }
      var ub := TightenFinite(s.ub, bestLocal);
      var children := Children(opt.bisect(x, goal), node.depth + 1, ChildTemperature(opt, k, s.ub, ub, node.T));
      DiveStep(s, local, bestLocal, children, dim, maxBbNodes);
      ExploreOutcome(s, node.depth, local, bestLocal, hint, children);
      r := AfterDive(Counted(s, node.depth), node.depth, local, bestLocal, children);
  }
}
