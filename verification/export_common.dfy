/** What the exported System-based drivers (export_variantes/) share: the
    `depth > 20` precision stop of their dives, the treatment of a popped
    node before its dive (counted first, no validity check, forced split of
    an emptied shallow node at the node's own temperature), and their final
    report, which never sets `reached_optimum`. Also the exported
    `dive_base`, which is `dive_base` started at depth 0. */
module ExportCommon {
  import opened ExtReal
  import opened Bridge
  import opened RealMath
  import opened Accounting
  import opened BbCommon
  import opened FdBase

  /** The exported dives stop on a small box only past this local depth. */
  const PrecisionDepth: int := 20

  /** The exported `dive_base`: the loop of `dive_base` from local depth 0,
      so the dive reports depths `0 .. n - 1`. */
  method ExportDiveBase(sys: System, startBox: Box, runId: int, epsBox: real, maxIters: int, ubIn: EReal)
    returns (res: RunStats, best: EReal, why: Stop)
    requires SystemValid(sys) && |startBox| >= 1
    ensures 0 <= res.nodes_visited <= Max(0, maxIters)
    ensures res == Finish(VisitAll(NoVisits, DepthRun(0, res.nodes_visited)), runId, "base", best, why == BoxSmall)
    ensures res.max_depth == Max(0, res.nodes_visited - 1)
    ensures 2.0 * res.avg_depth == Max(0, res.nodes_visited - 1) as real
    ensures why != BudgetSpent ==> res.nodes_visited >= 1 && (why == BoxEmptied || why == BoxSmall)
    ensures !ubIn.NaN? ==> Le(best, ubIn)
    ensures !sys.hasGoal ==> best == ubIn
  {
    res, best, why := DiveBase(sys, startBox, runId, 0, epsBox, maxIters, ubIn);
    LocalDiveStats(res.nodes_visited, runId, "base", best, why == BoxSmall);
  }

  /** The exported `run_fda_base`: one dive from the root with `UB = +inf`;
      its best value is the dive's incumbent, so `+inf` or a midpoint value
      that improved on it. */
  method ExportRunFdaBase(sys: System, rootBox: Box, runId: int, epsBox: real, maxIters: int)
    returns (res: RunStats)
    requires SystemValid(sys) && |rootBox| >= 1
    ensures 0 <= res.nodes_visited <= Max(0, maxIters)
    ensures res.max_depth == Max(0, res.nodes_visited - 1)
    ensures res.best_value.PosInf? || sys.hasGoal
    ensures res.variant == "base" && res.run_id == runId
  {
    var best: EReal;
    var why: Stop;
    res, best, why := ExportDiveBase(sys, rootBox, runId, epsBox, maxIters, PosInf);
  }

  /** The child temperature of the exported drivers, `k * T / 2`: the
      multiplier is fixed, with no `adaptive_k`. */
  function FixedChildT(k: real, T: real): (r: real)
    ensures 0.0 <= k && 0.0 <= T ==> 0.0 <= r
    ensures k <= 2.0 && 0.0 <= T ==> r <= T
    ensures 2.0 < k && 0.0 < T ==> T < r
    ensures T == 0.0 ==> r == 0.0
  {
    HalfProduct(k, T)
  }

  /** The forced split of an emptied node: `bisect_box` on the node's box,
      both halves one level deeper with the node's temperature. */
  function KeepTempSplit(node: BbNode): (c: seq<BbNode>)
    requires |node.box| >= 1
    ensures c == Children(BisectBox(node.box), node.depth + 1, node.T)
  {
    Children(BisectBox(node.box), node.depth + 1, node.T)
  }

  /** The loop body of the exported drivers from contraction to the dive
      (the node is already counted): an emptied node is dropped, or split
      when shallower than `min_force_depth`; with an objective, the node is
      pruned when the test against the incumbent holds and its depth is at
      least `pruneFrom`, and otherwise the incumbent hint is computed. With
      `skipEmptyGoal` an empty objective enclosure skips both; without it
      the enclosure's bounds are used as the library reports them. */
  function ExportTriage(sys: System, node: BbNode, ubGlobal: EReal, hasUb: bool, pruneFrom: int,
                        skipEmptyGoal: bool): (r: Triage)
    requires SystemValid(sys) && |node.box| >= 1
    ensures !r.Rejected?
    ensures r.Vanished? <==> sys.contract(node.box).Emptied?
    ensures r.Vanished? ==> r.push == (if node.depth < MinForceDepth then KeepTempSplit(node) else [])
    ensures r.Pruned? <==>
              sys.hasGoal && sys.contract(node.box).Narrowed? &&
              var f := sys.goalEval(sys.contract(node.box).box);
              !(skipEmptyGoal && f.empty) && node.depth >= pruneFrom && Prunable(hasUb, f.lb, ubGlobal)
    ensures r.Explore? ==>
              sys.contract(node.box).Narrowed? && r.box == sys.contract(node.box).box &&
              |r.box| == |node.box| &&
              (!ubGlobal.NaN? ==> Le(r.hint, ubGlobal)) &&
              (r.hint == ubGlobal || IsFinite(r.hint)) &&
              (!sys.hasGoal ==> r.hint == ubGlobal)
  {
    match sys.contract(node.box)
    case Emptied =>
      Vanished(if node.depth < MinForceDepth then KeepTempSplit(node) else [])
    case Narrowed(x) =>
      if !sys.hasGoal then Explore(x, Entire, ubGlobal)
      else
        var f := sys.goalEval(x);
        if skipEmptyGoal && f.empty then Explore(x, f, ubGlobal)
        else if node.depth >= pruneFrom && Prunable(hasUb, f.lb, ubGlobal) then Pruned
        else Explore(x, f, UbHint(ubGlobal, f.ub, if Unbounded(x) then None else Some(EvalAtMid(sys, x))))
  }

  /** The final report of the exported drivers: the counters and
      `UB_global`, with `reached_optimum` left at its default. */
  function ExportFinish(s: BbState, runId: int, variant: string): (res: RunStats)
    ensures !res.reached_optimum
    ensures res.best_value == s.ub && res.nodes_visited == s.t.nodes && res.max_depth == s.t.maxDepth
    ensures res == Finish(s.t, runId, variant, s.ub, false)
  {
    Finish(s.t, runId, variant, s.ub, false)
  }

  /** The exported report hides an incumbent the driver found: with a finite
      `UB_global` (so `has_ub` under the driver invariant) the row still says
      the optimum was not reached, where `FinishBb` says it was. */
  lemma ExportFinishHidesIncumbent(s: BbState, runId: int, variant: string, dim: int, maxBb: int)
    requires BbInv(s, dim, maxBb) && IsFinite(s.ub)
    ensures IsFinite(ExportFinish(s, runId, variant).best_value)
    ensures !ExportFinish(s, runId, variant).reached_optimum
    ensures FinishBb(s, runId, variant).reached_optimum
  {
  }

  /** A counted node that is dropped or split by `ExportTriage` keeps the
      driver invariant and makes progress. */
  lemma ExportDropStep(s: BbState, push: seq<BbNode>, dim: int, maxBb: int)
    requires BbInv(s, dim, maxBb) && |s.active| >= 1 && |Top(s).box| >= 1
    requires push == [] || push == KeepTempSplit(Top(s))
    requires push != [] ==> Top(s).depth < MinForceDepth
    ensures BbInv(Popped(Counted(s, Top(s).depth), push), dim, maxBb)
    ensures Progress(s, Popped(Counted(s, Top(s).depth), push))
  {
    CountedDropStep(s, push, dim, maxBb);
  }
}
