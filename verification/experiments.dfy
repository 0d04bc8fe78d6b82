/** The standalone simulator `fda_experimentos`: the same greedy descent as
    the dives, over a toy node that carries only a depth, a relative volume
    and a score, with every random quantity drawn from one global engine
    (`std::mt19937_64 rng(123456)` with `unif01`). The engine is threaded
    through explicitly, so a run is a function of the engine state it
    starts from. */
module Experiments {
  import opened ExtReal
  import opened RealMath
  import opened Random
  import opened Accounting
  import opened Bridge
  import opened FdaDepthK
  import opened FdaDepthKRand

  /** `Node`: depth, relative volume `V/V0`, and heuristic score. */
  datatype SimNode = SimNode(depth: int, volumeRel: real, heurScore: real)

  /** `RunResult`. The wall-clock time is not modelled and stays 0. */
  datatype SimResult = SimResult(reachedOptimum: bool, bestValue: real, nodesVisited: int, elapsedSeconds: real,
                                 maxDepth: int, avgDepth: real)

  /** The starting `best_value`. */
  const InitialBest: real := 1.0e100

  /** `evaluate_node_value`: `100 / (1 + depth) + 0.1 * unif01(rng)`, one draw. */
  function EvalValue(g: Rng, s: State, n: SimNode): (r: (real, State))
    requires Valid(g) && n.depth >= 0
    ensures 100.0 / (1.0 + n.depth as real) <= r.0 < 100.0 / (1.0 + n.depth as real) + 0.1
    ensures 0.0 < r.0 < 100.1
    ensures r.1 == Draws(g, s, 1)
  {
    var (u, s1) := Unit01(g, s);
    ShareAtMostWhole(n.depth);
    (100.0 / (1.0 + n.depth as real) + 0.1 * u, s1)
  }

  lemma ShareAtMostWhole(d: int)
    requires d >= 0
    ensures 0.0 < 100.0 / (1.0 + d as real) <= 100.0
  {
    var x := 1.0 + d as real;
    assert 100.0 / x * x == 100.0;
  }

  /** One pass of `generate_children`'s loop: the child is one level deeper,
      its volume is the parent's times `0.4 + 0.3 * unif01(rng)`, and its score
      is evaluated; two draws. */
  function MakeChild(g: Rng, s: State, parent: SimNode): (r: (SimNode, State))
    requires Valid(g) && parent.depth >= 0
    ensures r.0.depth == parent.depth + 1
    ensures parent.volumeRel >= 0.0 ==> 0.4 * parent.volumeRel <= r.0.volumeRel <= 0.7 * parent.volumeRel
    ensures r.1 == Draws(g, s, 2)
  {
    var (u, s1) := Unit01(g, s);
    var factor := 0.4 + 0.3 * u;
    ShrinkBetween(parent.volumeRel, factor);
    var child := SimNode(parent.depth + 1, parent.volumeRel * factor, 0.0);
    var (score, s2) := EvalValue(g, s1, child);
    (child.(heurScore := score), s2)
  }

  lemma ShrinkBetween(v: real, f: real)
    requires 0.4 <= f <= 0.7
    ensures v >= 0.0 ==> 0.4 * v <= v * f <= 0.7 * v
  {
  }

  /** `generate_children`: exactly two children, made one after the other. */
  function GenerateChildren(g: Rng, s: State, parent: SimNode): (r: (seq<SimNode>, State))
    requires Valid(g) && parent.depth >= 0
    ensures |r.0| == 2
    ensures forall j :: 0 <= j < 2 ==> r.0[j].depth == parent.depth + 1
    ensures parent.volumeRel >= 0.0 ==>
              forall j :: 0 <= j < 2 ==> 0.4 * parent.volumeRel <= r.0[j].volumeRel <= 0.7 * parent.volumeRel
    ensures r.1 == Draws(g, s, 4)
  {
    var (c0, s1) := MakeChild(g, s, parent);
    var (c1, s2) := MakeChild(g, s1, parent);
    DrawsAdd(g, s, 2, 2);
    ([c0, c1], s2)
  }

  /** The index the selection loop settles on, scanning from `from` with the
      best so far at `best`: it moves only on a strictly larger score. */
  function FirstMaxFrom(scores: seq<real>, from: nat, best: nat): (j: nat)
    requires 1 <= from <= |scores| && best < from
    requires forall i :: 0 <= i < from ==> scores[i] <= scores[best]
    requires forall i :: 0 <= i < best ==> scores[i] < scores[best]
    ensures j < |scores|
    ensures forall i :: 0 <= i < |scores| ==> scores[i] <= scores[j]
    ensures forall i :: 0 <= i < j ==> scores[i] < scores[j]
    decreases |scores| - from
  {
    if from == |scores| then best
    else if scores[from] > scores[best] then FirstMaxFrom(scores, from + 1, from)
    else FirstMaxFrom(scores, from + 1, best)
  }

  /** The selection loop: the first index of a maximal score (the
      comparison is a strict `>`, so ties stay with the earlier child). */
  function FirstMax(scores: seq<real>): (j: nat)
    requires |scores| >= 1
    ensures j < |scores|
    ensures forall i :: 0 <= i < |scores| ==> scores[i] <= scores[j]
    ensures forall i :: 0 <= i < j ==> scores[i] < scores[j]
  {
    FirstMaxFrom(scores, 1, 0)
  }

  /** The five simulated variants with their parameters. */
  datatype Variant =
    | Base
    | DepthTk(dMax: int, k: real)
    | DepthTkRand(dMax: int, k: real)
    | VolTk(k: real, tauV: real)
    | VolTkRand(k: real, tauV: real)
  {
    predicate Randomised() { DepthTkRand? || VolTkRand? }
    predicate ByVolume() { VolTk? || VolTkRand? }
  }

  /** The variant's stop test, made after the node's value is taken:
      deeper than 50 for the base run, at `d_max` for the depth runs, a
      relative volume at most `tauV` for the volume runs. */
  predicate Cut(v: Variant, n: SimNode) {
    match v
    case Base => n.depth > 50
    case DepthTk(dMax, _) => n.depth >= dMax
    case DepthTkRand(dMax, _) => n.depth >= dMax
    case VolTk(_, tauV) => n.volumeRel <= tauV
    case VolTkRand(_, tauV) => n.volumeRel <= tauV
  }

  function CutReason(v: Variant): Stop {
    if v.ByVolume() then VolumeSmall else DepthLimit
  }

  /** How many draws a split takes: four for the children, plus one per
      child and one `r_star` in the randomised runs. */
  function DrawsPerSplit(v: Variant): nat {
    if v.Randomised() then 7 else 4
  }

  /** The loop state: current node, temperature, best value, engine. */
  datatype SimState = SimState(cur: SimNode, T: real, best: real, rs: State)

  /** The temperature bonuses of the two children: none in the base run,
      `k * T / 2` for both in the plain runs, `k * T / 2 * r` with a fresh
      draw per child in the randomised ones. */
  function Bonuses(g: Rng, v: Variant, T: real, s: State): (r: (real, real, State))
    requires Valid(g)
    ensures v.Base? ==> r.0 == 0.0 && r.1 == 0.0 && r.2 == s
    ensures (v.DepthTk? || v.VolTk?) ==> r.0 == r.1 == HalfScaled(v.k, T) && r.2 == s
    ensures v.Randomised() ==> r.2 == Draws(g, s, 2) &&
                               r.0 == Jitter(HalfScaled(v.k, T), Unit01(g, s).0) &&
                               r.1 == Jitter(HalfScaled(v.k, T), Unit01(g, Unit01(g, s).1).0)
  {
    match v
    case Base => (0.0, 0.0, s)
    case DepthTk(_, k) => (HalfScaled(k, T), HalfScaled(k, T), s)
    case VolTk(k, _) => (HalfScaled(k, T), HalfScaled(k, T), s)
    case _ =>
      var (rL, s1) := Unit01(g, s);
      var (rR, s2) := Unit01(g, s1);
      (Jitter(HalfScaled(v.k, T), rL), Jitter(HalfScaled(v.k, T), rR), s2)
  }

  /** The next level's temperature: unchanged in the base run, `k * T / 2` in
      the plain runs, and `k * T / 2 * r_star` with a fresh draw `r_star`
      (not either child's draw) in the randomised ones. */
  function NextTemperature(g: Rng, v: Variant, T: real, s: State): (r: (real, State))
    requires Valid(g)
    ensures v.Base? ==> r == (T, s)
    ensures (v.DepthTk? || v.VolTk?) ==> r == (HalfScaled(v.k, T), s)
    ensures v.Randomised() ==> r.1 == Draws(g, s, 1) && r.0 == Jitter(HalfScaled(v.k, T), Unit01(g, s).0) &&
                               Cools(v.k, T, r.0)
  {
    if v.Base? then (T, s)
    else if v.Randomised() then
      var (rStar, s1) := Unit01(g, s);
      (Jitter(HalfScaled(v.k, T), rStar), s1)
    else (HalfScaled(v.k, T), s)
  }

  /** One pass of a run's loop after the visit counters: take the node's
      value (one draw) and keep it if strictly better; stop on the variant's
      cut; otherwise generate the two children, add the bonuses, move to the
      first child of highest score, and update the temperature. */
  function SimStep(g: Rng, v: Variant, st: SimState): (r: Step<SimState>)
    requires Valid(g) && st.cur.depth >= 0
    ensures r.s.best == (if EvalValue(g, st.rs, st.cur).0 < st.best then EvalValue(g, st.rs, st.cur).0 else st.best)
    ensures r.Halt? <==> Cut(v, st.cur)
    ensures r.Halt? ==> r.why == CutReason(v) && r.s == st.(best := r.s.best, rs := Draws(g, st.rs, 1))
    ensures r.Next? ==> r.s.cur.depth == st.cur.depth + 1 && r.s.rs == Draws(g, st.rs, 1 + DrawsPerSplit(v))
    ensures r.Next? && st.cur.volumeRel >= 0.0 ==>
              0.4 * st.cur.volumeRel <= r.s.cur.volumeRel <= 0.7 * st.cur.volumeRel
    ensures r.Next? ==> r.s.T == NextTemperature(g, v, st.T, Bonuses(g, v, st.T, GenerateChildren(g, Draws(g, st.rs, 1), st.cur).1).2).0
  {
    var (val, s1) := EvalValue(g, st.rs, st.cur);
    var best := if val < st.best then val else st.best;
    if Cut(v, st.cur) then Halt(st.(best := best, rs := s1), CutReason(v))
    else
      var (kids, s2) := GenerateChildren(g, s1, st.cur);
      var (bL, bR, s3) := Bonuses(g, v, st.T, s2);
      var scores := [kids[0].heurScore + bL, kids[1].heurScore + bR];
      var j := FirstMax(scores);
      var (T', s4) := NextTemperature(g, v, st.T, s3);
      DrawsAdd(g, st.rs, 1, 4);
      DrawsAdd(g, st.rs, 5, if v.Randomised() then 2 else 0);
      DrawsAdd(g, st.rs, 5 + (if v.Randomised() then 2 else 0), if v.Randomised() then 1 else 0);
      Next(SimState(kids[j].(heurScore := scores[j]), T', best, s4))
  }

  /** Adding the same bonus to both scores never changes the choice. */
  lemma SameBonusSameChoice(a: real, c: real, b: real)
    ensures FirstMax([a + b, c + b]) == FirstMax([a, c])
  {
    assert FirstMax([a + b, c + b]) == (if c + b > a + b then 1 else 0);
    assert FirstMax([a, c]) == (if c > a then 1 else 0);
  }

  /** In the plain runs both children get the same bonus `k * T / 2`, so the
      temperature never changes which child is taken: the step moves to
      the same node, with the same engine state, as the base run's step
      would, and only the carried score differs. */
  lemma PlainChoiceIgnoresTemperature(g: Rng, v: Variant, st: SimState)
    requires Valid(g) && st.cur.depth >= 0 && (v.DepthTk? || v.VolTk?)
    requires !Cut(v, st.cur) && !Cut(Base, st.cur)
    ensures SimStep(g, v, st).s.cur.depth == SimStep(g, Base, st).s.cur.depth
    ensures SimStep(g, v, st).s.cur.volumeRel == SimStep(g, Base, st).s.cur.volumeRel
    ensures SimStep(g, v, st).s.rs == SimStep(g, Base, st).s.rs
    ensures SimStep(g, v, st).s.best == SimStep(g, Base, st).s.best
  {
    var s1 := EvalValue(g, st.rs, st.cur).1;
    var kids := GenerateChildren(g, s1, st.cur).0;
    var b := HalfScaled(v.k, st.T);
    SameBonusSameChoice(kids[0].heurScore, kids[1].heurScore, b);
  }

  /** The temperature the loop keeps: `T0` in the base run, `T0 * (k/2)^depth`
      in the plain runs, and between 0 and that in the randomised runs when
      `k, T0 >= 0`. */
  ghost predicate TempInv(v: Variant, T0: real, st: SimState) {
    st.cur.depth >= 0 &&
    (v.Base? ==> st.T == T0) &&
    ((v.DepthTk? || v.VolTk?) ==> st.T == T0 * Pow(v.k / 2.0, st.cur.depth)) &&
    (v.Randomised() && v.k >= 0.0 && T0 >= 0.0 ==> 0.0 <= st.T <= T0 * Pow(v.k / 2.0, st.cur.depth))
  }

  lemma StepKeepsTempInv(g: Rng, v: Variant, T0: real, st: SimState)
    requires Valid(g) && TempInv(v, T0, st)
    ensures TempInv(v, T0, SimStep(g, v, st).s)
  {
    var r := SimStep(g, v, st);
    if r.Next? {
      var s3 := Bonuses(g, v, st.T, GenerateChildren(g, Draws(g, st.rs, 1), st.cur).1).2;
      KeepsTempInv(g, v, T0, st, r.s, s3);
    }
  }

  lemma KeepsTempInv(g: Rng, v: Variant, T0: real, st: SimState, next: SimState, s3: State)
    requires Valid(g) && TempInv(v, T0, st)
    requires next.cur.depth == st.cur.depth + 1 && next.T == NextTemperature(g, v, st.T, s3).0
    ensures TempInv(v, T0, next)
  {
    if v.Base? {
      TempInvBase(v, T0, st, next);
    } else if v.DepthTk? || v.VolTk? {
      TempInvScheduled(v, T0, st, next);
    } else {
      TempInvRandomised(v, T0, st, next);
    }
  }

  lemma TempInvBase(v: Variant, T0: real, st: SimState, next: SimState)
    requires v.Base? && TempInv(v, T0, st)
    requires next.cur.depth == st.cur.depth + 1 && next.T == st.T
    ensures TempInv(v, T0, next)
  {
  }

  lemma TempInvScheduled(v: Variant, T0: real, st: SimState, next: SimState)
    requires (v.DepthTk? || v.VolTk?) && TempInv(v, T0, st)
    requires next.cur.depth == st.cur.depth + 1 && next.T == HalfScaled(v.k, st.T)
    ensures TempInv(v, T0, next)
  {
    PowStep(v.k, T0, st.T, st.cur.depth);
  }

  lemma TempInvRandomised(v: Variant, T0: real, st: SimState, next: SimState)
    requires v.Randomised() && TempInv(v, T0, st)
    requires next.cur.depth == st.cur.depth + 1 && Cools(v.k, st.T, next.T)
    ensures TempInv(v, T0, next)
  {
    if v.k >= 0.0 && T0 >= 0.0 {
      CoolerThanSchedule(v.k, T0, st.T, next.T, st.cur.depth);
    }
  }

  /** The node's relative volume stays between `0.4^depth` and `0.7^depth`. */
  ghost predicate VolumeInv(st: SimState) {
    st.cur.depth >= 0 && Pow(0.4, st.cur.depth) <= st.cur.volumeRel <= Pow(0.7, st.cur.depth)
  }

  lemma StepKeepsVolumeInv(g: Rng, v: Variant, st: SimState)
    requires Valid(g) && VolumeInv(st)
    ensures VolumeInv(SimStep(g, v, st).s)
  {
    var r := SimStep(g, v, st);
    if r.Next? {
      PowPositive(0.4, st.cur.depth);
      KeepsVolumeInv(st.cur.volumeRel, r.s.cur.volumeRel, st.cur.depth);
    }
  }

  lemma KeepsVolumeInv(v: real, v': real, d: nat)
    requires Pow(0.4, d) <= v <= Pow(0.7, d) && 0.4 * v <= v' <= 0.7 * v
    ensures Pow(0.4, d + 1) <= v' <= Pow(0.7, d + 1)
  {
    assert Pow(0.4, d + 1) == 0.4 * Pow(0.4, d);
    assert Pow(0.7, d + 1) == 0.7 * Pow(0.7, d);
  }

  /** How deep a run can go: one past 50 for the base run, `d_max` (or 0)
      for the depth runs, and 7 for the volume runs when `tauV >= 0.1`,
      because every split keeps at most 0.7 of the volume and `0.7^7 < 0.1`. */
  predicate WithinHorizon(v: Variant, d: int) {
    match v
    case Base => d <= 51
    case DepthTk(dMax, _) => d <= Max(0, dMax)
    case DepthTkRand(dMax, _) => d <= Max(0, dMax)
    case VolTk(_, tauV) => tauV >= 0.1 ==> d <= 7
    case VolTkRand(_, tauV) => tauV >= 0.1 ==> d <= 7
  }

  lemma StepKeepsHorizon(g: Rng, v: Variant, st: SimState)
    requires Valid(g) && VolumeInv(st) && WithinHorizon(v, st.cur.depth)
    ensures WithinHorizon(v, SimStep(g, v, st).s.cur.depth)
  {
    if v.ByVolume() && v.tauV >= 0.1 && st.cur.depth == 7 {
      SeventhPowerSmall();
      assert Cut(v, st.cur);
    }
  }

  lemma SeventhPowerSmall()
    ensures Pow(0.7, 7) < 0.1
  {
    assert Pow(0.7, 0) == 1.0;
    assert Pow(0.7, 1) == 0.7;
    assert Pow(0.7, 2) == 0.49;
    assert Pow(0.7, 3) == 0.343;
    assert Pow(0.7, 4) == 0.2401;
    assert Pow(0.7, 5) == 0.16807;
    assert Pow(0.7, 6) == 0.117649;
    assert Pow(0.7, 7) == 0.0823543;
  }

  /** Engine draws a run has made after visiting `nodes` nodes and
      descending `depth` levels: the root's score, one value per visit, and
      the draws of every split. */
  function Used(v: Variant, nodes: int, depth: int): int {
    1 + nodes + DrawsPerSplit(v) * depth
  }

  /** What holds of a run's counters and state between visits: the tally is
      that of one visit per depth 0, 1, ..., the temperature and volume
      invariants hold, the best value is positive, below `InitialBest` and,
      once a node has been visited, below `100.1`, and the engine has made
      exactly the draws the run accounts for. */
  ghost predicate Settled(g: Rng, v: Variant, T0: real, s: State, t: Tally, st: SimState) {
    Valid(g) && 0 <= t.nodes && t == VisitAll(NoVisits, DepthRun(0, t.nodes)) &&
    TempInv(v, T0, st) && VolumeInv(st) && WithinHorizon(v, st.cur.depth) &&
    0.0 < st.best <= InitialBest && (t.nodes > 0 ==> st.best < 100.1) &&
    Used(v, t.nodes, st.cur.depth) >= 0 && st.rs == Draws(g, s, Used(v, t.nodes, st.cur.depth))
  }

  /** One visit and step of the loop from a settled state at depth `nodes`:
      the loop either goes on one level deeper, or stops on the variant's
      cut at the node it just visited. */
  lemma VisitKeepsSettled(g: Rng, v: Variant, T0: real, s: State, t: Tally, st: SimState)
    requires Settled(g, v, T0, s, t, st) && st.cur.depth == t.nodes
    ensures Settled(g, v, T0, s, Visit(t, st.cur.depth), SimStep(g, v, st).s)
  {
    VisitExtendsRun(t, t.nodes);
    StepKeepsState(g, v, T0, st);
    StepDraws(g, v, s, t.nodes, st);
  }

  /** What one step keeps of the state alone: the temperature and volume
      invariants, the depth horizon and the bounds on the best value. */
  lemma StepKeepsState(g: Rng, v: Variant, T0: real, st: SimState)
    requires Valid(g) && TempInv(v, T0, st) && VolumeInv(st) && WithinHorizon(v, st.cur.depth)
    requires st.cur.depth >= 0 && 0.0 < st.best <= InitialBest
    ensures TempInv(v, T0, SimStep(g, v, st).s) && VolumeInv(SimStep(g, v, st).s)
    ensures WithinHorizon(v, SimStep(g, v, st).s.cur.depth)
    ensures 0.0 < SimStep(g, v, st).s.best <= InitialBest && SimStep(g, v, st).s.best < 100.1
  {
    StepKeepsTempInv(g, v, T0, st);
    StepKeepsVolumeInv(g, v, st);
    StepKeepsHorizon(g, v, st);
    StepKeepsBest(g, v, st);
  }

  /** A step keeps the best value positive and at most `InitialBest`, and
      after it the best value is below `100.1`. */
  lemma StepKeepsBest(g: Rng, v: Variant, st: SimState)
    requires Valid(g) && st.cur.depth >= 0 && 0.0 < st.best <= InitialBest
    ensures 0.0 < SimStep(g, v, st).s.best <= InitialBest && SimStep(g, v, st).s.best < 100.1
  {
    var val := EvalValue(g, st.rs, st.cur).0;
    assert 0.0 < val < 100.1;
  }

  lemma VisitExtendsRun(t: Tally, n: nat)
    requires t == VisitAll(NoVisits, DepthRun(0, n))
    ensures Visit(t, n) == VisitAll(NoVisits, DepthRun(0, n + 1))
  {
    DepthRunExtend(0, n);
    var ds := DepthRun(0, n + 1);
    assert ds[..n] == DepthRun(0, n);
  }

  /** The draws of one step, added to those of the steps before it. */
  lemma StepDraws(g: Rng, v: Variant, s: State, n: nat, st: SimState)
    requires Valid(g) && st.cur.depth == n && st.rs == Draws(g, s, Used(v, n, n))
    ensures Used(v, n + 1, SimStep(g, v, st).s.cur.depth) >= 0
    ensures SimStep(g, v, st).s.rs == Draws(g, s, Used(v, n + 1, SimStep(g, v, st).s.cur.depth))
  {
    UsedStep(v, n);
    if SimStep(g, v, st).Next? {
      DrawsAdd(g, s, Used(v, n, n), 1 + DrawsPerSplit(v));
    } else {
      DrawsAdd(g, s, Used(v, n, n), 1);
    }
  }

  lemma UsedStep(v: Variant, n: nat)
    ensures Used(v, n, n) >= 0
    ensures Used(v, n, n) + 1 + DrawsPerSplit(v) == Used(v, n + 1, n + 1)
    ensures Used(v, n, n) + 1 == Used(v, n + 1, n)
  {
  }

  /** The loop shared by the five runs, from the root node whose score was
      drawn before it (`current.heur_score = evaluate_node_value(current)`).
      Reported: the final tally and state and why the loop stopped. */
  method Descend(g: Rng, v: Variant, maxNodes: int, T0: real, s: State)
    returns (t: Tally, st: SimState, why: Stop)
    requires Valid(g)
    ensures Settled(g, v, T0, s, t, st)
    ensures t.nodes <= Max(0, maxNodes)
    ensures why == BudgetSpent ==> t.nodes == Max(0, maxNodes) && st.cur.depth == t.nodes
    ensures why != BudgetSpent ==> why == CutReason(v) && Cut(v, st.cur) && t.nodes == st.cur.depth + 1
  {
    var root := SimNode(0, 1.0, 0.0);
    var (h, s0) := EvalValue(g, s, root);
    st := SimState(root.(heurScore := h), T0, InitialBest, s0);
    t := NoVisits;
    why := BudgetSpent;
    StartSettled(g, v, T0, s, st);
    while t.nodes < maxNodes
      invariant Settled(g, v, T0, s, t, st) && st.cur.depth == t.nodes
      invariant t.nodes <= maxNodes || t.nodes == 0
      invariant why == BudgetSpent
    {
      VisitKeepsSettled(g, v, T0, s, t, st);
      var step := SimStep(g, v, st);
      t := Visit(t, st.cur.depth);
      st := step.s;
      if step.Halt? {
        why := step.why;
        return;
      }
    }
  }

  /** The root, scored with one draw, at temperature `T0` and with the
      initial best value, is settled before any visit. */
  lemma StartSettled(g: Rng, v: Variant, T0: real, s: State, st: SimState)
    requires Valid(g) && st.cur == SimNode(0, 1.0, st.cur.heurScore)
    requires st.T == T0 && st.best == InitialBest && st.rs == Draws(g, s, 1)
    ensures Settled(g, v, T0, s, NoVisits, st) && st.cur.depth == NoVisits.nodes
  {
    assert Pow(0.4, 0) == 1.0 && Pow(0.7, 0) == 1.0;
    assert DepthRun(0, 0) == [];
  }

  /** A whole run: the loop, then `reached_optimum = true`, `avg_depth =
      depth_accum / nodes_visited` and the wall-clock time, which is not
      modelled. Also reported: the node the loop ended on, the final
      temperature, why it stopped, and the engine state left behind. */
  method Simulate(g: Rng, v: Variant, maxNodes: int, T0: real, s: State)
    returns (res: SimResult, last: SimNode, finalT: real, why: Stop, sOut: State)
    requires Valid(g)
    ensures 0 <= res.nodesVisited <= Max(0, maxNodes) && last.depth >= 0
    ensures why == BudgetSpent ==> res.nodesVisited == Max(0, maxNodes) && last.depth == res.nodesVisited
    ensures why != BudgetSpent ==> why == CutReason(v) && Cut(v, last) && res.nodesVisited == last.depth + 1
    ensures res.maxDepth == Max(0, res.nodesVisited - 1)
    ensures 2.0 * res.avgDepth == Max(0, res.nodesVisited - 1) as real
    ensures res.reachedOptimum && res.elapsedSeconds == 0.0
    ensures 0.0 < res.bestValue <= InitialBest
    ensures res.nodesVisited > 0 ==> res.bestValue < 100.1
    ensures TempInv(v, T0, SimState(last, finalT, res.bestValue, sOut))
    ensures Pow(0.4, last.depth) <= last.volumeRel <= Pow(0.7, last.depth)
    ensures WithinHorizon(v, last.depth)
    ensures Used(v, res.nodesVisited, last.depth) >= 0 && sOut == Draws(g, s, Used(v, res.nodesVisited, last.depth))
  {
    var t, st;
    t, st, why := Descend(g, v, maxNodes, T0, s);
    var stats := DiveStats(0, t.nodes, 0, "", Fin(st.best), true);
    LocalDiveStats(t.nodes, 0, "", Fin(st.best), true);
    res := SimResult(true, st.best, t.nodes, 0.0, stats.max_depth, stats.avg_depth);
    last := st.cur;
    finalT := st.T;
    sOut := st.rs;
  }

  /** `run_base`: no temperature, stop past depth 50. Its only stop is by
      depth, so the run visits `min(max_nodes, 52)` nodes. */
  method RunBase(g: Rng, maxNodes: int, s: State) returns (res: SimResult, sOut: State)
    requires Valid(g)
    ensures res.nodesVisited == Min(Max(0, maxNodes), 52)
    ensures res.maxDepth == Max(0, res.nodesVisited - 1) && 2.0 * res.avgDepth == Max(0, res.nodesVisited - 1) as real
    ensures res.reachedOptimum && 0.0 < res.bestValue <= InitialBest
    ensures sOut == Draws(g, s, 1 + res.nodesVisited + 4 * Min(res.nodesVisited, 51))
  {
    var last, finalT, why;
    res, last, finalT, why, sOut := Simulate(g, Base, maxNodes, 0.0, s);
  }

  /** `run_depth_Tk`: stop at depth `d_max`, so `min(max_nodes, d_max + 1)`
      nodes; the node reached carries the temperature `T0 (k/2)^depth`. */
  method RunDepthTk(g: Rng, maxNodes: int, dMax: int, T0: real, k: real, s: State)
    returns (res: SimResult, last: SimNode, finalT: real, sOut: State)
    requires Valid(g)
    ensures res.nodesVisited == Min(Max(0, maxNodes), Max(0, dMax) + 1)
    ensures res.maxDepth == Max(0, res.nodesVisited - 1) && 2.0 * res.avgDepth == Max(0, res.nodesVisited - 1) as real
    ensures res.reachedOptimum && 0.0 < res.bestValue <= InitialBest
    ensures last.depth >= 0 && finalT == T0 * Pow(k / 2.0, last.depth)
  {
    var why;
    res, last, finalT, why, sOut := Simulate(g, DepthTk(dMax, k), maxNodes, T0, s);
  }

  /** `run_depth_Tk_rand`: the same stop as `run_depth_Tk`; the temperature
      only cools, never above `T0 (k/2)^depth` when `k, T0 >= 0`. */
  method RunDepthTkRand(g: Rng, maxNodes: int, dMax: int, T0: real, k: real, s: State)
    returns (res: SimResult, last: SimNode, finalT: real, sOut: State)
    requires Valid(g)
    ensures res.nodesVisited == Min(Max(0, maxNodes), Max(0, dMax) + 1)
    ensures res.maxDepth == Max(0, res.nodesVisited - 1) && 2.0 * res.avgDepth == Max(0, res.nodesVisited - 1) as real
    ensures res.reachedOptimum && 0.0 < res.bestValue <= InitialBest
    ensures last.depth >= 0 && (k >= 0.0 && T0 >= 0.0 ==> 0.0 <= finalT <= T0 * Pow(k / 2.0, last.depth))
  {
    var why;
    res, last, finalT, why, sOut := Simulate(g, DepthTkRand(dMax, k), maxNodes, T0, s);
  }

  /** `run_vol_Tk`: stop once the relative volume is at most `tauV`; with
      `tauV >= 0.1` that happens by depth 7, so at most 8 nodes. */
  method RunVolTk(g: Rng, maxNodes: int, T0: real, k: real, tauV: real, s: State)
    returns (res: SimResult, last: SimNode, finalT: real, sOut: State)
    requires Valid(g)
    ensures 0 <= res.nodesVisited <= Max(0, maxNodes)
    ensures tauV >= 0.1 ==> res.nodesVisited <= 8
    ensures res.nodesVisited < Max(0, maxNodes) ==> last.volumeRel <= tauV
    ensures res.reachedOptimum && 0.0 < res.bestValue <= InitialBest
    ensures last.depth >= 0 && finalT == T0 * Pow(k / 2.0, last.depth)
  {
    var why;
    res, last, finalT, why, sOut := Simulate(g, VolTk(k, tauV), maxNodes, T0, s);
  }

  /** `run_vol_Tk_rand`: the volume stop with the randomised temperature. */
  method RunVolTkRand(g: Rng, maxNodes: int, T0: real, k: real, tauV: real, s: State)
    returns (res: SimResult, last: SimNode, finalT: real, sOut: State)
    requires Valid(g)
    ensures 0 <= res.nodesVisited <= Max(0, maxNodes)
    ensures tauV >= 0.1 ==> res.nodesVisited <= 8
    ensures res.nodesVisited < Max(0, maxNodes) ==> last.volumeRel <= tauV
    ensures res.reachedOptimum && 0.0 < res.bestValue <= InitialBest
    ensures last.depth >= 0 && (k >= 0.0 && T0 >= 0.0 ==> 0.0 <= finalT <= T0 * Pow(k / 2.0, last.depth))
  {
    var why;
    res, last, finalT, why, sOut := Simulate(g, VolTkRand(k, tauV), maxNodes, T0, s);
  }

  /** The depth cut `main` passes to the depth runs. */
  const MainDepthCut := 30

  /** The command-line name of each variant. */
  function VariantName(v: Variant): string {
    match v
    case Base => "base"
    case DepthTk(_, _) => "depth_k"
    case DepthTkRand(_, _) => "depth_k_rand"
    case VolTk(_, _) => "vol_k"
    case VolTkRand(_, _) => "vol_k_rand"
  }

  /** The optional sixth argument `tauV`, 0.10 when absent. */
  function TauOrDefault(arg: Option<real>): real {
    if arg.Some? then arg.value else 0.10
  }

  /** `main`'s dispatch on the variant name, with `d_max = 30`; `None` for an
      unknown name. */
  function SelectVariant(name: string, k: real, tauArg: Option<real>): (r: Option<Variant>)
    ensures r.Some? <==> name in {"base", "depth_k", "depth_k_rand", "vol_k", "vol_k_rand"}
    ensures r.Some? ==> VariantName(r.value) == name
    ensures r.Some? && (r.value.DepthTk? || r.value.DepthTkRand?) ==> r.value.dMax == 30 && r.value.k == k
    ensures r.Some? && r.value.ByVolume() ==> r.value.k == k && r.value.tauV == TauOrDefault(tauArg)
  {
    if name == "base" then Some(Base)
    else if name == "depth_k" then Some(DepthTk(MainDepthCut, k))
    else if name == "depth_k_rand" then Some(DepthTkRand(MainDepthCut, k))
    else if name == "vol_k" then Some(VolTk(k, TauOrDefault(tauArg)))
    else if name == "vol_k_rand" then Some(VolTkRand(k, TauOrDefault(tauArg)))
    else None
  }

  /** Every variant `main` can build is selected back from its own name. */
  lemma SelectNamesRoundTrip(v: Variant, tauArg: Option<real>)
    requires v.Base? || ((v.DepthTk? || v.DepthTkRand?) && v.dMax == MainDepthCut) ||
             (v.ByVolume() && v.tauV == TauOrDefault(tauArg))
    ensures SelectVariant(VariantName(v), if v.Base? then 0.0 else v.k, tauArg) ==
            Some(if v.Base? then Base else v)
  {
  }

  /** One run of the chosen variant, as `main`'s loop calls it; the base run
      ignores `T0` and `k`. */
  method RunVariant(g: Rng, v: Variant, maxNodes: int, T0: real, s: State) returns (res: SimResult, sOut: State)
    requires Valid(g)
    ensures 0 <= res.nodesVisited <= Max(0, maxNodes) && res.reachedOptimum
    ensures 0.0 < res.bestValue <= InitialBest
    ensures v.Base? ==> res.nodesVisited == Min(Max(0, maxNodes), 52)
    ensures (v.DepthTk? || v.DepthTkRand?) ==> res.nodesVisited == Min(Max(0, maxNodes), Max(0, v.dMax) + 1)
    ensures v.ByVolume() && v.tauV >= 0.1 ==> res.nodesVisited <= 8
  {
    var last, finalT;
    match v {
      case Base => res, sOut := RunBase(g, maxNodes, s);
      case DepthTk(dMax, k) => res, last, finalT, sOut := RunDepthTk(g, maxNodes, dMax, T0, k, s);
      case DepthTkRand(dMax, k) => res, last, finalT, sOut := RunDepthTkRand(g, maxNodes, dMax, T0, k, s);
      case VolTk(k, tauV) => res, last, finalT, sOut := RunVolTk(g, maxNodes, T0, k, tauV, s);
      case VolTkRand(k, tauV) => res, last, finalT, sOut := RunVolTkRand(g, maxNodes, T0, k, tauV, s);
    }
  }

  /** `main` after argument parsing: `reps` runs of the named variant, one
      output row each, all drawing from the one engine in turn. An unknown
      name is reported inside the loop, so it fails (exit code 1) only when
      `reps > 0`, before any row. */
  method Experiment(g: Rng, name: string, reps: int, maxNodes: int, T0: real, k: real, tauArg: Option<real>, s: State)
    returns (exitCode: int, rows: seq<SimResult>, sOut: State)
    requires Valid(g)
    ensures exitCode == 1 <==> SelectVariant(name, k, tauArg).None? && reps > 0
    ensures exitCode == 0 || exitCode == 1
    ensures exitCode == 0 ==> |rows| == Max(0, reps)
    ensures exitCode == 1 ==> rows == []
    ensures forall i :: 0 <= i < |rows| ==> rows[i].reachedOptimum && 0 <= rows[i].nodesVisited <= Max(0, maxNodes)
    ensures name == "base" ==> forall i :: 0 <= i < |rows| ==> rows[i].nodesVisited == Min(Max(0, maxNodes), 52)
  {
    var sel := SelectVariant(name, k, tauArg);
    rows := [];
    sOut := s;
    var r := 0;
    while r < reps
      invariant 0 <= r && (r <= reps || r == 0) && |rows| == r && (sel.None? ==> r == 0)
      invariant forall i :: 0 <= i < |rows| ==> rows[i].reachedOptimum && 0 <= rows[i].nodesVisited <= Max(0, maxNodes)
      invariant name == "base" ==> forall i :: 0 <= i < |rows| ==> rows[i].nodesVisited == Min(Max(0, maxNodes), 52)
    {
      if sel.None? {
        return 1, [], sOut;
      }
      var res;
      res, sOut := RunVariant(g, sel.value, maxNodes, T0, sOut);
      rows := rows + [res];
      r := r + 1;
    }
    exitCode := 0;
  }
}
