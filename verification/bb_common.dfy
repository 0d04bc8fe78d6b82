/** The pieces the B&B drivers around the dives have in common: the pruning
    test against the incumbent, the incumbent hint handed to a dive, the
    children pushed on the worklist, the treatment of a popped node before its
    dive, and the termination measure of the worklist loop. */
module BbCommon {
  import opened ExtReal
  import opened Bridge
  import opened RealMath
  import opened Accounting

  /** `lb_tol`: slack of the pruning test. */
  const LbTol: real := 0.000000000001

  /** `min_force_depth`: nodes shallower than this are split even when their
      box is rejected or contracts to nothing. */
  const MinForceDepth: int := 3

  /** The pruning test `has_ub && isfinite(f_lb) && f_lb >= UB_global - lb_tol`. */
  predicate Prunable(hasUb: bool, lb: EReal, ubGlobal: EReal) {
    hasUb && IsFinite(lb) && Ge(lb, Sub(ubGlobal, Fin(LbTol)))
  }

  /** With a finite incumbent, a node is pruned exactly when its objective
      lower bound is finite and within `lb_tol` of the incumbent or above it:
      such a node cannot improve the incumbent by more than `lb_tol`. */
  lemma PruneSound(lb: EReal, u: real)
    ensures Prunable(true, lb, Fin(u)) <==> IsFinite(lb) && lb.v >= u - LbTol
    ensures !Prunable(false, lb, Fin(u))
  {
  }

  /** Without a recorded incumbent (`UB_global = +inf`) nothing is pruned. */
  lemma NoPruneWithoutIncumbent(hasUb: bool, lb: EReal)
    ensures !Prunable(hasUb, lb, PosInf)
  {
  }

  /** The incumbent hint for a dive: the incumbent, lowered to the objective
      upper bound of the box and then to the objective at its midpoint when
      either is finite and smaller. `mid` is absent when the box is unbounded
      and the midpoint is not evaluated. */
  function UbHint(ubGlobal: EReal, fUb: EReal, mid: Option<EReal>): (h: EReal)
    ensures h == ubGlobal || IsFinite(h)
    ensures h == ubGlobal || h == fUb || (mid.Some? && h == mid.value)
    ensures !ubGlobal.NaN? ==> Le(h, ubGlobal)
    ensures !ubGlobal.NaN? && IsFinite(fUb) ==> Le(h, fUb)
    ensures !ubGlobal.NaN? && mid.Some? && IsFinite(mid.value) ==> Le(h, mid.value)
  {
    var h1 := TightenFinite(ubGlobal, fUb);
    if mid.Some? then TightenFinite(h1, mid.value) else h1
  }

  /** The two children `{right, ..., depth, T}` then `{left, ..., depth, T}`
      pushed in that order, so the left child is popped first. */
  function Children(halves: (Box, Box), depth: int, T: real): (c: seq<BbNode>)
    ensures |c| == 2 && c[1].box == halves.0 && c[0].box == halves.1
    ensures c[0].depth == depth && c[1].depth == depth && c[0].T == T && c[1].T == T
    ensures c[0].goalBounds == Entire && c[1].goalBounds == Entire
  {
    [MakeNode(halves.1, depth, T), MakeNode(halves.0, depth, T)]
  }

  /** What happens to a popped node before any dive. */
  datatype Triage =
    /** Rejected by the validity check; not counted; maybe split. */
    | Rejected(push: seq<BbNode>)
    /** Counted, but contraction emptied the box; maybe split. */
    | Vanished(push: seq<BbNode>)
    /** Counted and discarded by the pruning test. */
    | Pruned
    /** Counted; dive from the contracted box with this incumbent hint. */
    | Explore(box: Box, goal: Enclosure, hint: EReal)

  /** The forced split of a rejected or emptied node: the parent box is
      bisected and both halves keep the parent's temperature. */
  function ForcedSplit(opt: OptContext, node: BbNode): (c: seq<BbNode>)
    ensures c == Children(opt.bisect(node.box, node.goalBounds), node.depth + 1, node.T)
  {
    Children(opt.bisect(node.box, node.goalBounds), node.depth + 1, node.T)
  }

  /** The part of the loop body of the `OptContext` B&B drivers (depth, depth
      with noise, volume) from the pop to the dive call: validity check and
      forced split, contraction with the goal bounds and forced split,
      pruning, and the incumbent hint. */
  function TriageNode(opt: OptContext, node: BbNode, ubGlobal: EReal, hasUb: bool): (r: Triage)
    ensures (!IsValidBox(node.box, opt.sys.nbVar) || IsEmptyBox(node.box)) <==> r.Rejected?
    ensures r.Rejected? ==>
              r.push == (if node.depth < MinForceDepth && |node.box| == opt.sys.nbVar
                         then ForcedSplit(opt, node) else [])
    ensures r.Vanished? <==> !r.Rejected? && opt.contractWithGoal(node.box, node.goalBounds, ubGlobal).GoalEmptied?
    ensures r.Vanished? ==> r.push == (if node.depth < MinForceDepth then ForcedSplit(opt, node) else [])
    ensures r.Pruned? ==>
              var c := opt.contractWithGoal(node.box, node.goalBounds, ubGlobal);
              c.GoalNarrowed? && !c.goal.empty && Prunable(hasUb, c.goal.lb, ubGlobal)
    ensures r.Explore? ==>
              var c := opt.contractWithGoal(node.box, node.goalBounds, ubGlobal);
              c.GoalNarrowed? && r.box == c.box && r.goal == c.goal &&
              !(!c.goal.empty && Prunable(hasUb, c.goal.lb, ubGlobal)) &&
              (c.goal.empty ==> r.hint == ubGlobal) &&
              (!ubGlobal.NaN? ==> Le(r.hint, ubGlobal)) &&
              (r.hint == ubGlobal || IsFinite(r.hint))
  {
    if !IsValidBox(node.box, opt.sys.nbVar) || IsEmptyBox(node.box) then
      Rejected(if node.depth < MinForceDepth && |node.box| == opt.sys.nbVar then ForcedSplit(opt, node) else [])
    else
      match opt.contractWithGoal(node.box, node.goalBounds, ubGlobal)
      case GoalEmptied =>
        Vanished(if node.depth < MinForceDepth then ForcedSplit(opt, node) else [])
      case GoalNarrowed(x, g) =>
        if g.empty then Explore(x, g, ubGlobal)
        else if Prunable(hasUb, g.lb, ubGlobal) then Pruned
        else Explore(x, g, UbHint(ubGlobal, g.ub, if Unbounded(x) then None else Some(opt.evalAtMid(x))))
  }

  // ---------------------------------------------------------------------------
  // Termination of the worklist loop

  /** A node's share of the measure: a split below `min_force_depth` may push
      two children without advancing the processed-node counter, so a node
      must outweigh two of its children there. */
  function NodeWeight(depth: int): nat {
    if depth <= 0 then 27 else if depth == 1 then 9 else if depth == 2 then 3 else 1
  }

  lemma NodeWeightShrinks(depth: int)
    requires 0 <= depth < MinForceDepth
    ensures NodeWeight(depth) > 2 * NodeWeight(depth + 1)
  {
  }

  /** The weight of a worklist (last element on top). */
  function StackWeight(s: seq<BbNode>): nat
    decreases |s|
  {
    if |s| == 0 then 0 else StackWeight(s[..|s| - 1]) + NodeWeight(s[|s| - 1].depth)
  }

  /** Popping the top and pushing the two children of a shallow node lowers
      the weight; popping without pushing always does. */
  lemma {:induction false} StackWeightPop(s: seq<BbNode>, push: seq<BbNode>)
    requires |s| >= 1
    requires push == [] ||
             (|push| == 2 && 0 <= s[|s| - 1].depth < MinForceDepth &&
              push[0].depth == s[|s| - 1].depth + 1 && push[1].depth == s[|s| - 1].depth + 1)
    ensures StackWeight(s[..|s| - 1] + push) < StackWeight(s)
  {
    var rest := s[..|s| - 1];
    assert s == rest + [s[|s| - 1]];
    if push != [] {
      NodeWeightShrinks(s[|s| - 1].depth);
      assert (rest + push)[..|rest + push| - 1] == rest + [push[0]];
      assert (rest + [push[0]])[..|rest|] == rest;
      assert StackWeight(rest + push) == StackWeight(rest) + NodeWeight(push[0].depth) + NodeWeight(push[1].depth);
    } else {
      assert rest + push == rest;
    }
  }

  /** The worklist invariant every driver keeps: depths are non-negative and
      every box has the root's dimension. */
  predicate WellFormedStack(s: seq<BbNode>, dim: int) {
    forall i :: 0 <= i < |s| ==> s[i].depth >= 0 && |s[i].box| == dim
  }

  // ---------------------------------------------------------------------------
  // Global counters

  /** The counters of a run describe visited depths that are all non-negative:
      the depth sum lies between 0 and `nodes * max_depth`. */
  predicate CoherentTally(t: Tally) {
    t.nodes >= 0 && t.maxDepth >= 0 && 0 <= t.depthSum <= t.nodes * t.maxDepth
  }

  lemma VisitCoherent(t: Tally, depth: int)
    requires CoherentTally(t) && depth >= 0
    ensures CoherentTally(Visit(t, depth))
  {
    var r := Visit(t, depth);
    assert t.nodes * t.maxDepth <= t.nodes * r.maxDepth by {
      MulMonotone(t.nodes, t.maxDepth, r.maxDepth);
    }
    assert r.nodes * r.maxDepth == t.nodes * r.maxDepth + r.maxDepth;
  }

  lemma MulMonotone(a: int, b: int, c: int)
    requires a >= 0 && b <= c
    ensures a * b <= a * c
  {
  }

  lemma {:induction false} VisitAllCoherent(t: Tally, ds: seq<int>)
    requires CoherentTally(t) && forall i :: 0 <= i < |ds| ==> ds[i] >= 0
    ensures CoherentTally(VisitAll(t, ds))
    decreases |ds|
  {
    if |ds| > 0 {
      VisitAllCoherent(t, ds[..|ds| - 1]);
      VisitCoherent(VisitAll(t, ds[..|ds| - 1]), ds[|ds| - 1]);
    }
  }

  /** Folding a dive counted from local depth 0 into coherent counters keeps
      them coherent. */
  lemma FoldCoherent(t: Tally, depth: int, local: RunStats)
    requires CoherentTally(t) && depth >= 0 && t.maxDepth >= depth
    requires local.nodes_visited <= 0 || RecoveredRun(local, 0, local.nodes_visited)
    ensures CoherentTally(FoldDive(t, depth, local))
  {
    if local.nodes_visited > 0 {
      var n := local.nodes_visited;
      FoldLocalRun(t, depth, local, n);
      VisitAllCoherent(t, DepthRun(depth + 1, n - 1));
    }
  }

  /** The average depth of coherent counters lies between 0 and the maximum. */
  lemma FinishCoherent(t: Tally, runId: int, variant: string, best: EReal, reached: bool)
    requires CoherentTally(t)
    ensures 0.0 <= Finish(t, runId, variant, best, reached).avg_depth <= t.maxDepth as real
  {
    var s := Finish(t, runId, variant, best, reached);
    if t.nodes > 0 {
      var n := t.nodes as real;
      assert s.avg_depth * n == t.depthSum as real;
      assert (t.depthSum as real) <= n * (t.maxDepth as real);
    }
  }

  // ---------------------------------------------------------------------------
  // Driver state

  /** The state of a B&B driver between two pops: the worklist (top last),
      `UB_global`, `has_ub`, the visit counters and `bb_nodes_processed`. */
  datatype BbState = BbState(active: seq<BbNode>, ub: EReal, hasUb: bool, t: Tally, processed: int)

  /** The driver state before the first pop: only the root, no incumbent. */
  function InitialState(root: BbNode): (s: BbState)
    ensures s.active == [root] && s.ub == PosInf && !s.hasUb && s.t == NoVisits && s.processed == 0
  {
    BbState([root], PosInf, false, NoVisits, 0)
  }

  /** What every driver keeps between pops: the processed count within the
      budget, a well-formed worklist, `has_ub` exactly when the incumbent is
      finite, an incumbent that is `+inf` or finite, coherent counters, and
      every processed node counted. */
  predicate BbInv(s: BbState, dim: int, maxBb: int) {
    0 <= s.processed <= Max(0, maxBb) && WellFormedStack(s.active, dim) &&
    (s.hasUb <==> IsFinite(s.ub)) && (s.ub.PosInf? || IsFinite(s.ub)) &&
    CoherentTally(s.t) && s.t.nodes >= s.processed
  }

  /** One pass of a driver's loop moved forward: a node was processed, or
      the worklist got lighter. */
  predicate Progress(s: BbState, r: BbState) {
    r.processed == s.processed + 1 ||
    (r.processed == s.processed && StackWeight(r.active) < StackWeight(s.active))
  }

  /** The node on top of the worklist. */
  function Top(s: BbState): BbNode
    requires |s.active| >= 1
  {
    s.active[|s.active| - 1]
  }

  /** Counting the popped node (`nodes_visited++`, `depth_accum += depth`, `max_depth`). */
  function Counted(s: BbState, depth: int): (r: BbState)
    ensures r.t == Visit(s.t, depth) && r.active == s.active && r.ub == s.ub
    ensures r.hasUb == s.hasUb && r.processed == s.processed
  {
    s.(t := Visit(s.t, depth))
  }

  /** Dropping the popped node and pushing `push` in its place. */
  function Popped(s: BbState, push: seq<BbNode>): (r: BbState)
    requires |s.active| >= 1
    ensures r.active == s.active[..|s.active| - 1] + push
    ensures r.t == s.t && r.ub == s.ub && r.hasUb == s.hasUb && r.processed == s.processed
  {
    s.(active := s.active[..|s.active| - 1] + push)
  }

  /** The end of a node that dived: the incumbent takes the dive's result
      when it is finite and smaller, the dive's counters are folded in, the
      node counts as processed, and its children replace it on the worklist. */
  function AfterDive(s: BbState, depth: int, local: RunStats, bestLocal: EReal, children: seq<BbNode>): (r: BbState)
    requires |s.active| >= 1
    ensures r.active == s.active[..|s.active| - 1] + children
    ensures r.ub == TightenFinite(s.ub, bestLocal)
    ensures r.hasUb == (s.hasUb || (IsFinite(bestLocal) && Lt(bestLocal, s.ub)))
    ensures r.t == FoldDive(s.t, depth, local) && r.processed == s.processed + 1
  {
    BbState(s.active[..|s.active| - 1] + children, TightenFinite(s.ub, bestLocal),
            s.hasUb || (IsFinite(bestLocal) && Lt(bestLocal, s.ub)),
            FoldDive(s.t, depth, local), s.processed + 1)
  }

  /** A node that dived with incumbent hint `hint` and returned `bestLocal`
      no worse than that hint: it counts as processed, its halves replace
      it on the stack, and the incumbent either stays or drops to a finite
      value below it and no worse than the hint. */
  lemma ExploreOutcome(s: BbState, depth: int, local: RunStats, bestLocal: EReal, hint: EReal,
                       children: seq<BbNode>)
    requires |s.active| >= 1
    requires (!hint.NaN? ==> Le(bestLocal, hint)) && (hint == s.ub || IsFinite(hint))
    ensures var r := AfterDive(Counted(s, depth), depth, local, bestLocal, children);
            r.processed == s.processed + 1 && r.ub == TightenFinite(s.ub, bestLocal) &&
            (r.ub == s.ub || (IsFinite(r.ub) && Lt(r.ub, s.ub) && Le(r.ub, hint))) &&
            r.active == s.active[..|s.active| - 1] + children
  {
  }

  /** The pushes a forced split may make: nothing, or two children one level
      below a node shallower than `min_force_depth`, of the right dimension. */
  predicate ForcedPush(node: BbNode, push: seq<BbNode>, dim: int) {
    push == [] ||
    (|push| == 2 && node.depth < MinForceDepth &&
     push[0].depth == node.depth + 1 && push[1].depth == node.depth + 1 &&
     |push[0].box| == dim && |push[1].box| == dim)
  }

  /** A rejected node (not counted) keeps the invariant and makes progress. */
  lemma RejectStep(s: BbState, push: seq<BbNode>, dim: int, maxBb: int)
    requires BbInv(s, dim, maxBb) && |s.active| >= 1 && ForcedPush(Top(s), push, dim)
    ensures BbInv(Popped(s, push), dim, maxBb) && Progress(s, Popped(s, push))
  {
    StackWeightPop(s.active, push);
    PushWellFormed(s.active, push, dim);
  }

  /** A counted node that is dropped or split without a dive keeps the
      invariant and makes progress. */
  lemma CountedDropStep(s: BbState, push: seq<BbNode>, dim: int, maxBb: int)
    requires BbInv(s, dim, maxBb) && |s.active| >= 1 && ForcedPush(Top(s), push, dim)
    ensures BbInv(Popped(Counted(s, Top(s).depth), push), dim, maxBb)
    ensures Progress(s, Popped(Counted(s, Top(s).depth), push))
  {
    VisitCoherent(s.t, Top(s).depth);
    StackWeightPop(s.active, push);
    PushWellFormed(s.active, push, dim);
  }

  /** A node that dived keeps the invariant and makes progress, provided its
      dive counted its depths from 0 and its result is `+inf`, finite, or at
      most the hint (which is at most the incumbent). */
  lemma DiveStep(s: BbState, local: RunStats, bestLocal: EReal, children: seq<BbNode>, dim: int, maxBb: int)
    requires BbInv(s, dim, maxBb) && |s.active| >= 1 && s.processed < maxBb
    requires local.nodes_visited <= 0 || RecoveredRun(local, 0, local.nodes_visited)
    requires |children| == 2 && forall i :: 0 <= i < 2 ==> children[i].depth == Top(s).depth + 1 && |children[i].box| == dim
    ensures var c := Counted(s, Top(s).depth);
            BbInv(AfterDive(c, Top(s).depth, local, bestLocal, children), dim, maxBb) &&
            Progress(s, AfterDive(c, Top(s).depth, local, bestLocal, children))
  {
    var d := Top(s).depth;
    VisitCoherent(s.t, d);
    FoldCoherent(Visit(s.t, d), d, local);
    PushWellFormed(s.active, children, dim);
  }

  lemma PushWellFormed(active: seq<BbNode>, push: seq<BbNode>, dim: int)
    requires |active| >= 1 && WellFormedStack(active, dim)
    requires forall i :: 0 <= i < |push| ==> push[i].depth >= 0 && |push[i].box| == dim
    ensures WellFormedStack(active[..|active| - 1] + push, dim)
  {
    var r := active[..|active| - 1] + push;
    forall i | 0 <= i < |r|
      ensures r[i].depth >= 0 && |r[i].box| == dim
    {
      if i < |active| - 1 {
        assert r[i] == active[i];
      } else {
        assert r[i] == push[i - (|active| - 1)];
      }
    }
  }

  /** The statistics a driver reports from its final state: `has_ub` as
      `reached_optimum`, which under the invariant is `isfinite(UB_global)`. */
  function FinishBb(s: BbState, runId: int, variant: string): (res: RunStats)
    ensures res.run_id == runId && res.variant == variant
    ensures res.best_value == s.ub && (res.reached_optimum <==> s.hasUb)
    ensures res.nodes_visited == s.t.nodes && res.max_depth == s.t.maxDepth
    ensures s.t.nodes > 0 ==> res.avg_depth * (s.t.nodes as real) == s.t.depthSum as real
  {
    Finish(s.t, runId, variant, s.ub, s.hasUb)
  }

  /** What the final statistics of a driver satisfy under the invariant. */
  lemma FinishBbSpec(s: BbState, runId: int, variant: string, dim: int, maxBb: int)
    requires BbInv(s, dim, maxBb)
    ensures var res := FinishBb(s, runId, variant);
            res.nodes_visited >= s.processed &&
            (res.reached_optimum <==> IsFinite(res.best_value)) &&
            (res.best_value.PosInf? || IsFinite(res.best_value)) &&
            0 <= res.max_depth && 0.0 <= res.avg_depth <= res.max_depth as real
  {
    FinishCoherent(s.t, runId, variant, s.ub, s.hasUb);
  }
}
