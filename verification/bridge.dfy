/** The shared vocabulary of the Feasible Diving variants: boxes, objective
    enclosures, the run statistics record, the B&B node, the oracles standing
    for the interval library, and the concrete box helpers (widest variable,
    midpoint split, validity check, point evaluation, diving score). */
module Bridge {
  import opened ExtReal
  import opened RealMath

  /** A value that may be absent: a null pointer, or a result not computed. */
  datatype Option<T> = None | Some(value: T)

  /** One `ibex::Interval` coordinate of a box, bounds as stored. */
  datatype Range = Range(lo: EReal, hi: EReal)

  /** `ibex::IntervalVector` */
  type Box = seq<Range>

  /** An `ibex::Interval` enclosure of the objective. How the library stores an
      empty interval depends on its arithmetic back end, so emptiness is a flag
      and the bounds of an empty enclosure are whatever the library reports. */
  datatype Enclosure = Enclosure(lb: EReal, ub: EReal, empty: bool)

  /** `Interval()`: the whole real line. */
  const Entire := Enclosure(NegInf, PosInf, false)

  /** Outcome of a contraction: the box became empty, or it was narrowed. */
  datatype Contracted = Emptied | Narrowed(box: Box)

  /** Outcome of `contract_with_goal`, which also refreshes the goal bounds. */
  datatype GoalContracted = GoalEmptied | GoalNarrowed(box: Box, goal: Enclosure)

  /** The `ibex::System` view used by the System-based variants: the problem
      dimension, whether there is an objective, the constraint contractor,
      and the objective enclosure over a box and at a point. */
  datatype System = System(
    nbVar: int,
    hasGoal: bool,
    contract: Box -> Contracted,
    goalEval: Box -> Enclosure,
    pointEval: seq<real> -> Enclosure
  )

  /** A contractor narrows a box; it never changes its dimension. */
  ghost predicate SystemValid(sys: System) {
    forall b: Box :: sys.contract(b).Narrowed? ==> |sys.contract(b).box| == |b|
  }

  /** `OptContext` and the helpers declared for it whose definitions are not
      part of this model: they stay uninterpreted. */
  datatype OptContext = OptContext(
    sys: System,
    /** contract_with_goal(opt, box, goal_bounds, current_ub) */
    contractWithGoal: (Box, Enclosure, EReal) -> GoalContracted,
    /** bisect_box(opt, parent, goal_bounds, left, right) */
    bisect: (Box, Enclosure) -> (Box, Box),
    /** eval_at_mid(opt, box) */
    evalAtMid: Box -> EReal,
    /** heur_diving_score(opt, box, goal_bounds) */
    score: (Box, Enclosure) -> EReal,
    /** adaptive_k(k_base, ub_prev, ub_new) */
    adaptiveK: (real, EReal, EReal) -> real
  )

  /** The two numeric services the volume-guided dives call and this model
      does not define: `IntervalVector::volume` and `std::exp`. */
  datatype Measure = Measure(volume: Box -> EReal, exp: real -> real)

  /** The only facts used about `std::exp`: it is positive and `exp(0) = 1`. */
  ghost predicate MeasureValid(m: Measure) {
    (forall x: real :: m.exp(x) > 0.0) && m.exp(0.0) == 1.0
  }

  ghost predicate OptValid(opt: OptContext) {
    (forall b: Box, g: Enclosure, u: EReal :: opt.contractWithGoal(b, g, u).GoalNarrowed? ==>
       |opt.contractWithGoal(b, g, u).box| == |b|) &&
    (forall b: Box, g: Enclosure :: |opt.bisect(b, g).0| == |b| && |opt.bisect(b, g).1| == |b|)
  }

  // ---------------------------------------------------------------------------
  // Box geometry (IntervalVector members)

  /** `Interval::diam` */
  function Diam(r: Range): EReal {
    Sub(r.hi, r.lo)
  }

  /** `IntervalVector::is_unbounded`: some bound is not finite. */
  predicate Unbounded(b: Box) {
    exists i :: 0 <= i < |b| && !(IsFinite(b[i].lo) && IsFinite(b[i].hi))
  }

  /** `IntervalVector::mid` of a bounded box. */
  function Midpoint(b: Box): (p: seq<real>)
    requires !Unbounded(b)
    ensures |p| == |b|
    ensures forall i :: 0 <= i < |b| ==> p[i] == (b[i].lo.v + b[i].hi.v) / 2.0
  {
    seq(|b|, i requires 0 <= i < |b| => (b[i].lo.v + b[i].hi.v) / 2.0)
  }

  /** The real `x` lies in the interval `r`. */
  predicate InRange(x: real, r: Range) {
    Le(r.lo, Fin(x)) && Le(Fin(x), r.hi)
  }

  /** The point `p` lies in the box `b`. */
  predicate InBox(p: seq<real>, b: Box) {
    |p| == |b| && forall i :: 0 <= i < |b| ==> InRange(p[i], b[i])
  }

  predicate NoNaNDiams(b: Box) {
    forall j :: 0 <= j < |b| ==> !Diam(b[j]).NaN?
  }

  // ---------------------------------------------------------------------------
  // fda_bridge_common.cpp

  /** The scan of `widest_var` from index `i`, with `idx` the widest so far. */
  function WidestFrom(b: Box, i: nat, idx: nat): (r: nat)
    requires 1 <= i <= |b| && idx < i
    requires forall j :: idx < j < i ==> !Gt(Diam(b[j]), Diam(b[idx]))
    requires NoNaNDiams(b) ==> forall j :: 0 <= j < idx ==> Lt(Diam(b[j]), Diam(b[idx]))
    ensures idx <= r < |b|
    ensures forall j :: r < j < |b| ==> !Gt(Diam(b[j]), Diam(b[r]))
    ensures NoNaNDiams(b) ==> forall j :: 0 <= j < r ==> Lt(Diam(b[j]), Diam(b[r]))
    decreases |b| - i
  {
    if i == |b| then idx
    else if Gt(Diam(b[i]), Diam(b[idx])) then
      assert NoNaNDiams(b) ==> forall j :: 0 <= j < i ==> Lt(Diam(b[j]), Diam(b[i])) by {
        if NoNaNDiams(b) {
          forall j | 0 <= j < i
            ensures Lt(Diam(b[j]), Diam(b[i]))
          {
            if j < idx {
              LtLeTransitive(Diam(b[j]), Diam(b[idx]), Diam(b[i]));
            } else if idx < j {
              assert !Gt(Diam(b[j]), Diam(b[idx]));
              assert !Diam(b[j]).NaN? && !Diam(b[idx]).NaN?;
              LeTotal(Diam(b[j]), Diam(b[idx]));
              LeLtTransitive(Diam(b[j]), Diam(b[idx]), Diam(b[i]));
            }
          }
        }
      }
      WidestFrom(b, i + 1, i)
    else
      WidestFrom(b, i + 1, idx)
  }

  /** `widest_var`: the index of the widest coordinate. The comparison is a
      strict `>`, so among coordinates of equal diameter the first one wins. */
  function WidestVar(b: Box): (r: nat)
    requires |b| >= 1
    ensures r < |b|
    ensures forall j :: r < j < |b| ==> !Gt(Diam(b[j]), Diam(b[r]))
    ensures NoNaNDiams(b) ==> forall j :: 0 <= j < r ==> Lt(Diam(b[j]), Diam(b[r]))
  {
    WidestFrom(b, 1, 0)
  }

  /** `IntervalVector::max_diam`: the diameter of the widest coordinate. */
  function MaxDiam(b: Box): EReal
    requires |b| >= 1
  {
    Diam(b[WidestVar(b)])
  }

  /** With NaN-free diameters, the widest coordinate has the largest diameter. */
  lemma MaxDiamIsMaximum(b: Box, j: int)
    requires |b| >= 1 && NoNaNDiams(b) && 0 <= j < |b|
    ensures Le(Diam(b[j]), MaxDiam(b))
  {
    var w := WidestVar(b);
    if j > w {
      LeTotal(Diam(b[j]), Diam(b[w]));
    }
  }

  /** The midpoint `0.5 * (lb + ub)` of a coordinate. */
  function MidOf(r: Range): EReal {
    Half(Add(r.lo, r.hi))
  }

  /** `bisect_box` (System version): split the widest coordinate at its
      midpoint; every other coordinate is copied to both halves. */
  function BisectBox(parent: Box): (r: (Box, Box))
    requires |parent| >= 1
    ensures |r.0| == |parent| && |r.1| == |parent|
    ensures forall i :: 0 <= i < |parent| && i != WidestVar(parent) ==>
              r.0[i] == parent[i] && r.1[i] == parent[i]
    ensures var v := WidestVar(parent);
            r.0[v] == Range(parent[v].lo, MidOf(parent[v])) &&
            r.1[v] == Range(MidOf(parent[v]), parent[v].hi)
  {
    var v := WidestVar(parent);
    var mid := MidOf(parent[v]);
    (parent[v := Range(parent[v].lo, mid)], parent[v := Range(mid, parent[v].hi)])
  }

  /** Splitting one coordinate at its midpoint partitions it: every point of
      the parent interval is in one half, and the halves share only the midpoint. */
  lemma RangeSplitPartition(r: Range, x: real)
    requires !r.lo.NaN? && !r.hi.NaN? && !MidOf(r).NaN?
    ensures InRange(x, r) <==> InRange(x, Range(r.lo, MidOf(r))) || InRange(x, Range(MidOf(r), r.hi))
    ensures InRange(x, Range(r.lo, MidOf(r))) && InRange(x, Range(MidOf(r), r.hi)) ==> MidOf(r) == Fin(x)
  {
  }

  /** The partition invariant of `bisect_box`: the two halves cover the parent
      box and overlap only on the hyperplane through the midpoint. */
  lemma BisectPartition(parent: Box, p: seq<real>)
    requires |parent| >= 1
    requires var v := WidestVar(parent);
             !parent[v].lo.NaN? && !parent[v].hi.NaN? && !MidOf(parent[v]).NaN?
    ensures InBox(p, parent) <==> InBox(p, BisectBox(parent).0) || InBox(p, BisectBox(parent).1)
    ensures InBox(p, BisectBox(parent).0) && InBox(p, BisectBox(parent).1) ==>
              MidOf(parent[WidestVar(parent)]) == Fin(p[WidestVar(parent)])
  {
    var v := WidestVar(parent);
    var (l, r) := BisectBox(parent);
    if |p| == |parent| {
      RangeSplitPartition(parent[v], p[v]);
      if InBox(p, parent) {
        if InRange(p[v], l[v]) {
          assert forall i :: 0 <= i < |l| ==> InRange(p[i], l[i]);
        } else {
          assert forall i :: 0 <= i < |r| ==> InRange(p[i], r[i]);
        }
      }
      if InBox(p, l) {
        assert InRange(p[v], l[v]);
        assert forall i :: 0 <= i < |parent| ==> InRange(p[i], parent[i]);
      }
      if InBox(p, r) {
        assert InRange(p[v], r[v]);
        assert forall i :: 0 <= i < |parent| ==> InRange(p[i], parent[i]);
      }
      if InBox(p, l) && InBox(p, r) {
        assert InRange(p[v], l[v]) && InRange(p[v], r[v]);
      }
    }
  }

  /** A coordinate that passes the validity check is a finite, non-empty interval. */
  predicate ValidRange(r: Range) {
    IsFinite(r.lo) && IsFinite(r.hi) && r.lo.v <= r.hi.v
  }

  /** The loop of `is_valid_box` from index `i` on. */
  function ValidFrom(box: Box, i: nat): (ok: bool)
    requires i <= |box|
    ensures ok <==> forall j :: i <= j < |box| ==> ValidRange(box[j])
    decreases |box| - i
  {
    if i == |box| then true
    else if !IsFinite(box[i].lo) || !IsFinite(box[i].hi) || Gt(box[i].lo, box[i].hi) then false
    else ValidFrom(box, i + 1)
  }

  /** `is_valid_box`: the right dimension, and every bound finite with lb <= ub. */
  function IsValidBox(box: Box, expectedDim: int): (ok: bool)
    ensures ok <==> |box| == expectedDim && forall j :: 0 <= j < |box| ==> ValidRange(box[j])
  {
    |box| == expectedDim && ValidFrom(box, 0)
  }

  /** A valid box is bounded, has a finite midpoint on every coordinate, and
      contains its own midpoint. */
  lemma ValidBoxMidpoint(box: Box, dim: int)
    requires IsValidBox(box, dim)
    ensures !Unbounded(box)
    ensures InBox(Midpoint(box), box)
    ensures forall j :: 0 <= j < |box| ==> MidOf(box[j]).Fin?
  {
  }

  /** A box the driver treats as empty: some coordinate with lb > ub, or a NaN bound. */
  predicate IsEmptyBox(b: Box) {
    exists i :: 0 <= i < |b| && !Le(b[i].lo, b[i].hi)
  }

  /** `eval_at_mid` (System version). */
  function EvalAtMid(sys: System, box: Box): (r: EReal)
    ensures !sys.hasGoal || Unbounded(box) ==> r == PosInf
    ensures sys.hasGoal && !Unbounded(box) ==>
              r == Half(Add(sys.pointEval(Midpoint(box)).lb, sys.pointEval(Midpoint(box)).ub))
  {
    if !sys.hasGoal then PosInf
    else if Unbounded(box) then PosInf
    else
      var val := sys.pointEval(Midpoint(box));
      Half(Add(val.lb, val.ub))
  }

  /** When the point enclosure is a finite interval [a, b], the value
      `eval_at_mid` returns is finite and lies between a and b. */
  lemma EvalAtMidWithinEnclosure(sys: System, box: Box)
    requires sys.hasGoal && !Unbounded(box)
    requires var e := sys.pointEval(Midpoint(box));
             IsFinite(e.lb) && IsFinite(e.ub) && e.lb.v <= e.ub.v
    ensures var e := sys.pointEval(Midpoint(box));
            IsFinite(EvalAtMid(sys, box)) && e.lb.v <= EvalAtMid(sys, box).v <= e.ub.v
  {
  }

  /** `heur_diving_score` (System version): 0 without objective, otherwise the
      negated lower bound of the objective over the box. */
  function HeurScore(sys: System, box: Box): (r: EReal)
    ensures !sys.hasGoal ==> r == Fin(0.0)
    ensures sys.hasGoal ==> Neg(r) == sys.goalEval(box).lb || (r.NaN? && sys.goalEval(box).lb.NaN?)
  {
    if !sys.hasGoal then Fin(0.0) else Neg(sys.goalEval(box).lb)
  }

  /** A box whose objective lower bound is smaller scores strictly higher. */
  lemma HeurScorePrefersLowerBound(sys: System, a: Box, b: Box)
    requires sys.hasGoal
    ensures Lt(sys.goalEval(a).lb, sys.goalEval(b).lb) <==> Gt(HeurScore(sys, a), HeurScore(sys, b))
  {
    NegAntitone(sys.goalEval(a).lb, sys.goalEval(b).lb);
  }

  // ---------------------------------------------------------------------------
  // fda_bridge_common.h data model

  /** `RunStats`: one CSV row of a run. */
  datatype RunStats = RunStats(
    run_id: int,
    variant: string,
    best_value: EReal,
    nodes_visited: int,
    elapsed_seconds: real,
    max_depth: int,
    avg_depth: real,
    reached_optimum: bool
  )

  /** A `RunStats` as declared, with the run id and variant name set. */
  function FreshStats(runId: int, variant: string): (s: RunStats)
    ensures s.run_id == runId && s.variant == variant
    ensures s.best_value == PosInf && s.nodes_visited == 0 && s.max_depth == 0
    ensures s.avg_depth == 0.0 && s.elapsed_seconds == 0.0 && !s.reached_optimum
  {
    RunStats(runId, variant, PosInf, 0, 0.0, 0, 0.0, false)
  }

  /** `BbNode`: a pending box of the B&B worklist. */
  datatype BbNode = BbNode(box: Box, goalBounds: Enclosure, depth: int, T: real)

  /** A pending node as the drivers mean to build it, in the declared field
      order: the box, the whole line as goal bounds, the depth, the
      temperature. */
  function MakeNode(box: Box, depth: int, T: real): (n: BbNode)
    ensures n.box == box && n.goalBounds == Entire
    ensures n.depth == depth && n.T == T
  {
    BbNode(box, Entire, depth, T)
  }

  /** A node built without goal bounds or temperature: `Interval()` and `T = 0`. */
  function NewNode(box: Box, depth: int): (n: BbNode)
    ensures n.box == box && n.depth == depth
    ensures n.T == 0.0 && n.goalBounds == Entire
  {
    MakeNode(box, depth, 0.0)
  }

  /** The three-value initialiser `{box, d, t}` of the base and exported
      drivers, read against the declared fields `box, goal_bounds, depth, T`:
      the integer becomes the point interval `[d, d]` of the goal bounds
      (the one-argument `Interval` constructor), the double is truncated
      into `depth`, and `T` keeps its default 0. */
  function PositionalNode(box: Box, d: int, t: real): (n: BbNode)
    ensures n.box == box && n.T == 0.0
    ensures n.goalBounds == Enclosure(Fin(d as real), Fin(d as real), false)
    ensures 0.0 <= t ==> n.depth as real <= t < n.depth as real + 1.0
  {
    BbNode(box, Enclosure(Fin(d as real), Fin(d as real), false), Trunc(t), 0.0)
  }

  /** Read that way, the initialisers lose the depth and the temperature:
      a child `{half, depth + 1, 0.0}` sits at depth 0, so the shallow-node
      forced split (`depth < 3`) applies to it again, and its goal bounds
      are no longer the whole line; a root `{root_box, 0, T0}` with
      `T0 >= 1` starts at a positive depth with temperature 0. */
  lemma PositionalNodeLosesDepth(box: Box, depth: nat, T0: real)
    ensures PositionalNode(box, depth + 1, 0.0).depth == 0
    ensures PositionalNode(box, depth + 1, 0.0).depth != MakeNode(box, depth + 1, 0.0).depth
    ensures PositionalNode(box, depth + 1, 0.0).goalBounds != Entire
    ensures T0 >= 1.0 ==> PositionalNode(box, 0, T0).depth >= 1 && PositionalNode(box, 0, T0).T != T0
  {
    TruncExact(0.0, 0);
  }

  /** `contract_with_goal` called without its last argument uses `+inf` as the
      incumbent hint. */
  function ContractWithGoalDefault(opt: OptContext, box: Box, goal: Enclosure): (r: GoalContracted)
    ensures r == opt.contractWithGoal(box, goal, PosInf)
  {
    opt.contractWithGoal(box, goal, PosInf)
  }
}
