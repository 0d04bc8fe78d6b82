/** The base Feasible Diving variant over an `ibex::System` (FD_base.cpp): a
    dive that contracts, records the objective at the midpoint, stops on a
    small box, and otherwise descends into the bisection half with the better
    score; the single-dive entry point; and the B&B driver that launches a
    dive from every node it keeps. */
module FdBase {
  import opened ExtReal
  import opened Bridge
  import opened RealMath
  import opened Accounting
  import opened BbCommon

  /** The loop state of `dive_base`: the current box, the current depth and
      the incumbent `UB`. */
  datatype BaseDive = BaseDive(box: Box, depth: int, ub: EReal)

  /** The loop body of `dive_base` after the visit counters: contract; track
      the objective at the midpoint when there is an objective; stop on a
      box narrower than `eps_box`; otherwise bisect and keep the half with
      the higher score, the left one on ties. */
  function BaseStep(sys: System, epsBox: real, st: BaseDive): (r: Step<BaseDive>)
    requires SystemValid(sys) && |st.box| >= 1
    ensures r.Halt? ==> r.why == BoxEmptied || r.why == BoxSmall
    ensures |r.s.box| == |st.box|
    ensures !st.ub.NaN? ==> Le(r.s.ub, st.ub)
    ensures !sys.hasGoal ==> r.s.ub == st.ub
  {
    match sys.contract(st.box)
    case Emptied => Halt(st, BoxEmptied)
    case Narrowed(x) =>
      var ub := MidUpdate(sys, st.ub, x);
      if Lt(MaxDiam(x), Fin(epsBox)) then Halt(BaseDive(x, st.depth, ub), BoxSmall)
      else
        var (left, right) := BisectBox(x);
        var next := if Ge(HeurScore(sys, left), HeurScore(sys, right)) then left else right;
        Next(BaseDive(next, st.depth + 1, ub))
  }

  /** The incumbent update of the System-based dives after contraction: with
      an objective, `UB` takes the objective at the midpoint of `x` when that
      is strictly smaller (whether finite or not); without one it stays. */
  function MidUpdate(sys: System, ub: EReal, x: Box): (r: EReal)
    ensures !ub.NaN? ==> Le(r, ub)
    ensures !sys.hasGoal ==> r == ub
    ensures r == ub || (sys.hasGoal && r == EvalAtMid(sys, x) && Lt(r, ub))
    ensures sys.hasGoal && Lt(EvalAtMid(sys, x), ub) ==> r == EvalAtMid(sys, x)
  {
    if sys.hasGoal then Tighten(ub, EvalAtMid(sys, x)) else ub
  }

  /** What one pass decides: it stops with the box untouched exactly when
      contraction empties it; otherwise the incumbent takes the objective at
      the midpoint of the contracted box when that is smaller, the dive stops
      exactly when the contracted box is narrower than `eps_box`, and else it
      moves one level down into the bisection half with the higher score,
      the left one when the scores tie. */
  lemma BaseStepSpec(sys: System, epsBox: real, st: BaseDive)
    requires SystemValid(sys) && |st.box| >= 1
    ensures var r := BaseStep(sys, epsBox, st);
            (r.Halt? && r.why == BoxEmptied <==> sys.contract(st.box).Emptied?) &&
            (r.Halt? && r.why == BoxEmptied ==> r.s == st)
    ensures sys.contract(st.box).Narrowed? ==>
              var r := BaseStep(sys, epsBox, st);
              var x := sys.contract(st.box).box;
              var ub := if sys.hasGoal then Tighten(st.ub, EvalAtMid(sys, x)) else st.ub;
              r.s.ub == ub &&
              (r.Halt? <==> Lt(MaxDiam(x), Fin(epsBox))) &&
              (r.Halt? ==> r.s == BaseDive(x, st.depth, ub)) &&
              (r.Next? ==> r.s.depth == st.depth + 1 &&
                           var (left, right) := BisectBox(x);
                           r.s.box == (if Ge(HeurScore(sys, left), HeurScore(sys, right)) then left else right))
  {
  }

  /** A dive step never leaves the contracted box: every point of the box it
      moves to lies in the box it contracted. */
  lemma BaseStepDescends(sys: System, epsBox: real, st: BaseDive, p: seq<real>)
    requires SystemValid(sys) && |st.box| >= 1
    requires BaseStep(sys, epsBox, st).Next?
    requires var x := sys.contract(st.box).box;
             var v := WidestVar(x);
             !x[v].lo.NaN? && !x[v].hi.NaN? && !MidOf(x[v]).NaN?
    ensures InBox(p, BaseStep(sys, epsBox, st).s.box) ==> InBox(p, sys.contract(st.box).box)
  {
    BisectPartition(sys.contract(st.box).box, p);
  }

  /** The loop of `dive_base`: at most `max_iters` passes through `BaseStep`,
      the depth counted from `base_depth`; returns the visit counters, the
      final state and why the loop ended. */
  method BaseLoop(sys: System, startBox: Box, baseDepth: int, epsBox: real, maxIters: int, ubIn: EReal)
    returns (t: Tally, st: BaseDive, why: Stop)
    requires SystemValid(sys) && |startBox| >= 1
    ensures 0 <= t.nodes <= Max(0, maxIters)
    ensures t == VisitAll(NoVisits, DepthRun(baseDepth, t.nodes))
    ensures why == BudgetSpent ==> t.nodes == Max(0, maxIters)
    ensures why != BudgetSpent ==> t.nodes >= 1 && (why == BoxEmptied || why == BoxSmall)
    ensures !ubIn.NaN? ==> Le(st.ub, ubIn)
    ensures !sys.hasGoal ==> st.ub == ubIn
  {
    st := BaseDive(startBox, baseDepth, ubIn);
    t := NoVisits;
    var it := 0;
    why := BudgetSpent;
    while it < maxIters
      invariant 0 <= it && (it <= maxIters || it == 0)
      invariant st.depth == baseDepth + it && |st.box| == |startBox|
      invariant t == VisitAll(NoVisits, DepthRun(baseDepth, it)) && t.nodes == it
      invariant !ubIn.NaN? ==> Le(st.ub, ubIn)
      invariant !sys.hasGoal ==> st.ub == ubIn
      invariant why == BudgetSpent
    {
      DepthRunExtend(baseDepth, it);
      t := Visit(t, st.depth);
      it := it + 1;
      var step := BaseStep(sys, epsBox, st);
      if !ubIn.NaN? {
        LeTransitive(step.s.ub, st.ub, ubIn);
      }
      st := step.s;
      if step.Halt? {
        why := step.why;
        break;
      }
    }
  }

  /** `dive_base`: the statistics of the loop, the final incumbent
      (`best_value_out`) and why the loop ended. `reached_optimum` is set only
      when the box became small enough. */
  method DiveBase(sys: System, startBox: Box, runId: int, baseDepth: int, epsBox: real,
                  maxIters: int, ubIn: EReal) returns (res: RunStats, best: EReal, why: Stop)
    requires SystemValid(sys) && |startBox| >= 1
    ensures 0 <= res.nodes_visited <= Max(0, maxIters)
    ensures res == Finish(VisitAll(NoVisits, DepthRun(baseDepth, res.nodes_visited)),
                          runId, "base", best, why == BoxSmall)
    ensures why == BudgetSpent ==> res.nodes_visited == Max(0, maxIters)
    ensures why != BudgetSpent ==> res.nodes_visited >= 1 && (why == BoxEmptied || why == BoxSmall)
    ensures !ubIn.NaN? ==> Le(best, ubIn)
    ensures !sys.hasGoal ==> best == ubIn
  {
    var t, st;
    t, st, why := BaseLoop(sys, startBox, baseDepth, epsBox, maxIters, ubIn);
    best := st.ub;
    res := Finish(t, runId, "base", best, why == BoxSmall);
  }

  /** `run_fda_base`: one dive from the root at depth 0 with no incumbent. */
  method RunFdaBase(sys: System, rootBox: Box, runId: int, epsBox: real, maxIters: int)
    returns (res: RunStats)
    requires SystemValid(sys) && |rootBox| >= 1
    ensures 0 <= res.nodes_visited <= Max(0, maxIters)
    ensures res.max_depth == Max(0, res.nodes_visited - 1)
    ensures 2.0 * res.avg_depth == Max(0, res.nodes_visited - 1) as real
    ensures res.best_value.PosInf? || sys.hasGoal
    ensures res.variant == "base" && res.run_id == runId
  {
    var best: EReal;
    var why: Stop;
    res, best, why := DiveBase(sys, rootBox, runId, 0, epsBox, maxIters, PosInf);
    LocalDiveStats(res.nodes_visited, runId, "base", best, why == BoxSmall);
  }

  // ---------------------------------------------------------------------------
  // run_fda_base_bb

  /** The forced split of a rejected or emptied node: `bisect_box` on the
      node's own box, both halves one level deeper with temperature 0. */
  function SysForcedSplit(node: BbNode): (c: seq<BbNode>)
    requires |node.box| >= 1
    ensures c == Children(BisectBox(node.box), node.depth + 1, 0.0)
  {
    Children(BisectBox(node.box), node.depth + 1, 0.0)
  }

  /** The loop body of `run_fda_base_bb` from the pop to the dive: validity
      check and forced split, contraction and forced split, then, when there
      is an objective whose enclosure over the contracted box is not empty,
      the pruning test and the incumbent hint. */
  function SysTriage(sys: System, node: BbNode, ubGlobal: EReal, hasUb: bool): (r: Triage)
    requires SystemValid(sys) && |node.box| >= 1
    ensures (!IsValidBox(node.box, sys.nbVar) || IsEmptyBox(node.box)) <==> r.Rejected?
    ensures r.Rejected? ==>
              r.push == (if node.depth < MinForceDepth && |node.box| == sys.nbVar then SysForcedSplit(node) else [])
    ensures r.Vanished? <==> !r.Rejected? && sys.contract(node.box).Emptied?
    ensures r.Vanished? ==> r.push == (if node.depth < MinForceDepth then SysForcedSplit(node) else [])
    ensures r.Pruned? <==>
              !r.Rejected? && sys.hasGoal && sys.contract(node.box).Narrowed? &&
              var f := sys.goalEval(sys.contract(node.box).box);
              !f.empty && Prunable(hasUb, f.lb, ubGlobal)
    ensures r.Explore? ==>
              sys.contract(node.box).Narrowed? && r.box == sys.contract(node.box).box &&
              |r.box| == |node.box| &&
              (!ubGlobal.NaN? ==> Le(r.hint, ubGlobal)) &&
              (r.hint == ubGlobal || IsFinite(r.hint)) &&
              (!sys.hasGoal ==> r.hint == ubGlobal)
  {
    if !IsValidBox(node.box, sys.nbVar) || IsEmptyBox(node.box) then
      Rejected(if node.depth < MinForceDepth && |node.box| == sys.nbVar then SysForcedSplit(node) else [])
    else
      match sys.contract(node.box)
      case Emptied =>
        Vanished(if node.depth < MinForceDepth then SysForcedSplit(node) else [])
      case Narrowed(x) =>
        if !sys.hasGoal then Explore(x, Entire, ubGlobal)
        else
          var f := sys.goalEval(x);
          if f.empty then Explore(x, f, ubGlobal)
          else if Prunable(hasUb, f.lb, ubGlobal) then Pruned
          else Explore(x, f, UbHint(ubGlobal, f.ub, if Unbounded(x) then None else Some(EvalAtMid(sys, x))))
  }

  /** `run_fda_base_bb`, with the dive's depths counted from 0 (see
      `BbNodeAccounting`). A depth-first worklist, left child on top; every
      node that passes the validity check is counted; nodes that survive
      contraction and pruning launch a dive seeded with the incumbent hint,
      improve the incumbent with the dive's result, fold the dive's counters
      in, count as processed, and push their two halves. Returns the run
      statistics, the number of processed nodes and the nodes left pending. */
  method RunFdaBaseBb(sys: System, rootBox: Box, runId: int, epsBox: real,
                      maxBbNodes: int, maxItersFdive: int)
    returns (res: RunStats, processed: int, pending: seq<BbNode>)
    requires SystemValid(sys) && |rootBox| >= 1
    ensures res.run_id == runId && res.variant == "base_bb"
    ensures 0 <= processed <= Max(0, maxBbNodes)
    ensures pending == [] || processed == Max(0, maxBbNodes)
    ensures res.nodes_visited >= processed
    ensures res.reached_optimum <==> IsFinite(res.best_value)
    ensures res.best_value.PosInf? || IsFinite(res.best_value)
    ensures 0 <= res.max_depth && 0.0 <= res.avg_depth <= res.max_depth as real
    ensures maxBbNodes <= 0 ==> res == Finish(NoVisits, runId, "base_bb", PosInf, false)
  {
    var dim := |rootBox|;
    var s := InitialState(NewNode(rootBox, 0));
    while |s.active| > 0 && s.processed < maxBbNodes
      invariant BbInv(s, dim, maxBbNodes)
      invariant maxBbNodes <= 0 ==> s == InitialState(NewNode(rootBox, 0))
      decreases Max(0, maxBbNodes) - s.processed, StackWeight(s.active)
    {
      s := BaseBbPass(sys, s, runId, epsBox, maxBbNodes, maxItersFdive, dim);
    }
    FinishBbSpec(s, runId, "base_bb", dim, maxBbNodes);
    res := FinishBb(s, runId, "base_bb");
    processed := s.processed;
    pending := s.active;
  }

  /** One pass of the worklist loop of `run_fda_base_bb`: pop, triage, and
      either drop or split the node, or dive from it (local depth 0, the
      incumbent hint as `UB_global_in`) and push its halves. */
  method BaseBbPass(sys: System, s: BbState, runId: int, epsBox: real, maxBbNodes: int,
                    maxItersFdive: int, dim: int) returns (r: BbState)
    requires SystemValid(sys) && dim >= 1
    requires BbInv(s, dim, maxBbNodes) && |s.active| > 0 && s.processed < maxBbNodes
    ensures BbInv(r, dim, maxBbNodes) && Progress(s, r)
    ensures r.ub == s.ub || (IsFinite(r.ub) && Lt(r.ub, s.ub))
    ensures s.hasUb ==> r.hasUb
    ensures var node := Top(s);
            var tr := SysTriage(sys, node, s.ub, s.hasUb);
            (tr.Rejected? ==> r == Popped(s, tr.push)) &&
            (tr.Vanished? ==> r == Popped(Counted(s, node.depth), tr.push)) &&
            (tr.Pruned? ==> r == Popped(Counted(s, node.depth), [])) &&
            (tr.Explore? ==>
               r.processed == s.processed + 1 &&
               (r.ub == s.ub || (IsFinite(r.ub) && Lt(r.ub, s.ub) && Le(r.ub, tr.hint))) &&
               r.active == s.active[..|s.active| - 1] + Children(BisectBox(tr.box), node.depth + 1, 0.0))
  {
    var node := Top(s);
    match SysTriage(sys, node, s.ub, s.hasUb)
    case Rejected(push) =>
      RejectStep(s, push, dim, maxBbNodes);
      r := Popped(s, push);
    case Vanished(push) =>
      CountedDropStep(s, push, dim, maxBbNodes);
      r := Popped(Counted(s, node.depth), push);
    case Pruned =>
      CountedDropStep(s, [], dim, maxBbNodes);
      r := Popped(Counted(s, node.depth), []);
    case Explore(x, goal, hint) =>
      var local, bestLocal, why := DiveBase(sys, x, runId, 0, epsBox, maxItersFdive, hint);
      if local.nodes_visited > 0 {
        DiveStatsRecovered(0, local.nodes_visited, runId, "base", bestLocal, why == BoxSmall);
      }
      var children := Children(BisectBox(x), node.depth + 1, 0.0);
      DiveStep(s, local, bestLocal, children, dim, maxBbNodes);
      ExploreOutcome(s, node.depth, local, bestLocal, hint, children);
      r := AfterDive(Counted(s, node.depth), node.depth, local, bestLocal, children);
  }

  /** The counters after a B&B node at `depth` and its dive of `n` nodes, as
      the driver computes them with the dive's depths counted from 0. */
  function BbNodeAccounting(t: Tally, depth: int, n: nat, runId: int, best: EReal, reached: bool): Tally {
    FoldDive(Visit(t, depth), depth, DiveStats(0, n, runId, "base", best, reached))
  }

  /** The same counters with the dive's depths counted from `depth`, the B&B
      node's own depth, which is what FD_base.cpp passes as `base_depth`. */
  function BbNodeAccountingAsWritten(t: Tally, depth: int, n: nat, runId: int, best: EReal, reached: bool): Tally {
    FoldDive(Visit(t, depth), depth, DiveStats(depth, n, runId, "base", best, reached))
  }

  /** Counting the dive from 0, a B&B node and its dive add exactly the
      nodes at depths `depth .. depth + n - 1`. */
  lemma BbNodeAccountingExact(t: Tally, depth: int, n: nat, runId: int, best: EReal, reached: bool)
    requires n >= 1 && depth >= 0
    ensures BbNodeAccounting(t, depth, n, runId, best, reached) == VisitAll(t, DepthRun(depth, n))
  {
    FoldLocalDive(Visit(t, depth), depth, n, runId, "base", best, reached);
    VisitAllShift(t, depth, n);
  }

  /** Visiting `depth` and then `depth + 1 .. depth + n - 1` is visiting `depth .. depth + n - 1`. */
  lemma {:induction false} VisitAllShift(t: Tally, depth: int, n: nat)
    requires n >= 1
    ensures VisitAll(Visit(t, depth), DepthRun(depth + 1, n - 1)) == VisitAll(t, DepthRun(depth, n))
    decreases n
  {
    if n == 1 {
      assert DepthRun(depth, 1)[..0] == [];
    } else {
      VisitAllShift(t, depth, n - 1);
      assert DepthRun(depth + 1, n - 1)[..n - 2] == DepthRun(depth + 1, n - 2);
      assert DepthRun(depth, n)[..n - 1] == DepthRun(depth, n - 1);
    }
  }

  /** Counting the dive from the node's absolute depth reports a node at
      depth 1 whose dive visits only itself as reaching depth 2. */
  lemma BbNodeAccountingAsWrittenOvercounts()
    ensures BbNodeAccountingAsWritten(NoVisits, 1, 1, 0, PosInf, false).maxDepth == 2
    ensures VisitAll(NoVisits, DepthRun(1, 1)).maxDepth == 1
  {
    assert Visit(NoVisits, 1) == Tally(1, 1, 1);
    FoldAbsoluteDiveExample();
    assert DepthRun(1, 1)[..0] == [];
  }
}
