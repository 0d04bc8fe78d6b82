/** The node and depth bookkeeping every search loop keeps: a visit counter,
    the running sum of visited depths (`depth_accum`) and the deepest level
    seen, folded into a `RunStats` at the end; and the way a B&B driver folds
    the statistics of a dive launched from one of its nodes into its own. */
module Accounting {
  import opened ExtReal
  import opened Bridge
  import opened RealMath

  /** Why a dive left its loop: the iteration budget ran out, contraction
      emptied the box, the box became small enough, its relative volume did,
      or the depth reached a hard limit. */
  datatype Stop = BudgetSpent | BoxEmptied | BoxSmall | VolumeSmall | DepthLimit

  /** One pass through a dive's loop body: go on from a new state, or leave the
      loop in a final state. */
  datatype Step<S> = Next(s: S) | Halt(s: S, why: Stop)

  /** The three running counters of a search loop. */
  datatype Tally = Tally(nodes: int, depthSum: int, maxDepth: int)

  /** Counters before the first visit (`RunStats` defaults, `depth_accum = 0`). */
  const NoVisits := Tally(0, 0, 0)

  /** Visiting a node at `depth`: `nodes_visited++`, `depth_accum += depth`,
      `if (depth > max_depth) max_depth = depth`. */
  function Visit(t: Tally, depth: int): (r: Tally)
    ensures r.nodes == t.nodes + 1 && r.depthSum == t.depthSum + depth
    ensures r.maxDepth == Max(t.maxDepth, depth)
  {
    Tally(t.nodes + 1, t.depthSum + depth, if depth > t.maxDepth then depth else t.maxDepth)
  }

  /** Visiting the depths `ds` in order. */
  function VisitAll(t: Tally, ds: seq<int>): Tally
    decreases |ds|
  {
    if |ds| == 0 then t else Visit(VisitAll(t, ds[..|ds| - 1]), ds[|ds| - 1])
  }

  function Sum(ds: seq<int>): int
    decreases |ds|
  {
    if |ds| == 0 then 0 else Sum(ds[..|ds| - 1]) + ds[|ds| - 1]
  }

  /** `m` is the largest of `m0` and the elements of `ds`. */
  predicate IsMaxOf(m: int, m0: int, ds: seq<int>) {
    m >= m0 && (forall i :: 0 <= i < |ds| ==> ds[i] <= m) &&
    (m == m0 || exists i :: 0 <= i < |ds| && ds[i] == m)
  }

  /** The counters after a sequence of visits are its length, its sum, and its
      maximum (never below the starting maximum). */
  lemma {:induction false} VisitAllSpec(t: Tally, ds: seq<int>)
    ensures VisitAll(t, ds).nodes == t.nodes + |ds|
    ensures VisitAll(t, ds).depthSum == t.depthSum + Sum(ds)
    ensures IsMaxOf(VisitAll(t, ds).maxDepth, t.maxDepth, ds)
    decreases |ds|
  {
    if |ds| > 0 {
      var init := ds[..|ds| - 1];
      VisitAllSpec(t, init);
      var m := VisitAll(t, init).maxDepth;
      var last := ds[|ds| - 1];
      var r := VisitAll(t, ds).maxDepth;
      assert forall i :: 0 <= i < |init| ==> ds[i] == init[i];
      if r != t.maxDepth {
        if r == last {
          assert ds[|ds| - 1] == r;
        } else {
          assert r == m && m != t.maxDepth;
          var i :| 0 <= i < |init| && init[i] == m;
          assert ds[i] == r;
        }
      }
    }
  }

  /** The depths a dive visits when it starts at `base` and goes `n` levels:
      `base, base + 1, ..., base + n - 1`. */
  function DepthRun(base: int, n: nat): (ds: seq<int>)
    ensures |ds| == n && forall i :: 0 <= i < n ==> ds[i] == base + i
  {
    seq(n, i => base + i)
  }

  lemma DepthRunExtend(base: int, n: nat)
    ensures DepthRun(base, n + 1) == DepthRun(base, n) + [base + n]
  {
  }

  /** Twice the sum of `base, ..., base + n - 1` is `n * (2 base + n - 1)`. */
  lemma {:induction false} DepthRunSum(base: int, n: nat)
    ensures 2 * Sum(DepthRun(base, n)) == n * (2 * base + n - 1)
    decreases n
  {
    if n > 0 {
      DepthRunSum(base, n - 1);
      assert DepthRun(base, n)[..n - 1] == DepthRun(base, n - 1);
      assert Sum(DepthRun(base, n)) == Sum(DepthRun(base, n - 1)) + base + n - 1;
    }
  }

  /** The counters of a dive that visited the depths `base .. base + n - 1`
      (its `max_depth` starts at 0, so a shallower dive reports 0). */
  lemma DepthRunTally(base: int, n: nat)
    ensures VisitAll(NoVisits, DepthRun(base, n)).nodes == n
    ensures 2 * VisitAll(NoVisits, DepthRun(base, n)).depthSum == n * (2 * base + n - 1)
    ensures VisitAll(NoVisits, DepthRun(base, n)).maxDepth == (if n == 0 then 0 else Max(0, base + n - 1))
  {
    VisitAllSpec(NoVisits, DepthRun(base, n));
    DepthRunSum(base, n);
    var m := VisitAll(NoVisits, DepthRun(base, n)).maxDepth;
    if n > 0 {
      assert DepthRun(base, n)[n - 1] == base + n - 1;
    }
  }

  /** The closing lines of every search loop: `avg_depth = depth_accum / nodes`
      when something was visited, and the best value and success flag. The
      wall-clock time is not modelled and stays 0. */
  function Finish(t: Tally, runId: int, variant: string, best: EReal, reached: bool): (s: RunStats)
    ensures s.run_id == runId && s.variant == variant
    ensures s.best_value == best && s.reached_optimum == reached
    ensures s.nodes_visited == t.nodes && s.max_depth == t.maxDepth
    ensures t.nodes > 0 ==> s.avg_depth * (t.nodes as real) == t.depthSum as real
    ensures t.nodes <= 0 ==> s.avg_depth == 0.0
    ensures s.elapsed_seconds == 0.0
  {
    RunStats(runId, variant, best, t.nodes, 0.0, t.maxDepth,
             if t.nodes > 0 then (t.depthSum as real) / (t.nodes as real) else 0.0, reached)
  }

  /** A B&B driver folding the statistics of a dive from a node at `depth`
      into its own counters: the dive's first node is the B&B node already
      counted, its depth sum is recovered as `(long)(avg_depth * nodes)`, and
      its depths are shifted by `depth`. */
  function FoldDive(t: Tally, depth: int, local: RunStats): (r: Tally)
    ensures local.nodes_visited <= 0 ==> r == t
    ensures local.nodes_visited > 0 ==>
              r.nodes == t.nodes + local.nodes_visited - 1 &&
              r.maxDepth == Max(t.maxDepth, depth + local.max_depth)
  {
    if local.nodes_visited > 0 then
      var n := local.nodes_visited;
      Tally(t.nodes + n - 1,
            t.depthSum + depth * (n - 1) + Trunc(local.avg_depth * (n as real)),
            if depth + local.max_depth > t.maxDepth then depth + local.max_depth else t.maxDepth)
    else t
  }

  /** The statistics a dive reports after visiting `n` nodes from `base`. */
  function DiveStats(base: int, n: nat, runId: int, variant: string, best: EReal, reached: bool): RunStats {
    Finish(VisitAll(NoVisits, DepthRun(base, n)), runId, variant, best, reached)
  }

  /** The depth sum a driver recovers from a dive's `avg_depth * nodes` is the
      dive's own `depth_accum`. */
  lemma DiveStatsSum(base: int, n: nat, runId: int, variant: string, best: EReal, reached: bool)
    requires n >= 1
    ensures Trunc(DiveStats(base, n, runId, variant, best, reached).avg_depth * (n as real)) ==
            VisitAll(NoVisits, DepthRun(base, n)).depthSum
  {
    var t := VisitAll(NoVisits, DepthRun(base, n));
    VisitAllCount(NoVisits, DepthRun(base, n));
    FinishAverage(t, runId, variant, best, reached);
  }

  /** Multiplying a finished run's average depth back by its node count
      and truncating gives its depth sum exactly. */
  lemma FinishAverage(t: Tally, runId: int, variant: string, best: EReal, reached: bool)
    requires t.nodes > 0
    ensures Trunc(Finish(t, runId, variant, best, reached).avg_depth * (t.nodes as real)) == t.depthSum
  {
    var a := Finish(t, runId, variant, best, reached).avg_depth;
    TruncExact(a * (t.nodes as real), t.depthSum);
  }

  lemma {:induction false} VisitAllCount(t: Tally, ds: seq<int>)
    ensures VisitAll(t, ds).nodes == t.nodes + |ds|
    decreases |ds|
  {
    if |ds| > 0 {
      VisitAllCount(t, ds[..|ds| - 1]);
    }
  }

  /** What a dive's statistics give back to the driver: its node count, its
      deepest level, and its depth sum recovered through `avg_depth * nodes`. */
  lemma DiveStatsRecovered(base: int, n: nat, runId: int, variant: string, best: EReal, reached: bool)
    requires n >= 1
    ensures RecoveredRun(DiveStats(base, n, runId, variant, best, reached), base, n)
  {
    DepthRunTally(base, n);
    DiveStatsSum(base, n, runId, variant, best, reached);
  }

  lemma FoldSumArith(d: int, n: int, sum: int, s: int)
    requires 2 * sum == n * (n - 1) && 2 * s == (n - 1) * (2 * d + n)
    ensures d * (n - 1) + sum == s
  {
    assert (n - 1) * (2 * d + n) == 2 * d * (n - 1) + n * (n - 1);
  }

  /** The statistics of a dive whose `n >= 1` nodes sat at the depths
      `base .. base + n - 1`, as the driver reads them back. */
  predicate RecoveredRun(local: RunStats, base: int, n: int) {
    n >= 1 && local.nodes_visited == n && local.max_depth == Max(0, base + n - 1) &&
    2 * Trunc(local.avg_depth * (n as real)) == n * (2 * base + n - 1)
  }

  /** Folding a dive that counted its depths from 0 is exactly visiting the
      dive's nodes below the B&B node, at their absolute depths
      `depth + 1 .. depth + n - 1` (the B&B node itself is already counted). */
  lemma FoldLocalRun(t: Tally, depth: int, local: RunStats, n: int)
    requires RecoveredRun(local, 0, n) && depth >= 0 && t.maxDepth >= depth
    ensures FoldDive(t, depth, local) == VisitAll(t, DepthRun(depth + 1, n - 1))
  {
    var sum := Trunc(local.avg_depth * (n as real));
    assert 2 * sum == n * (n - 1) by {
      assert n * (2 * 0 + n - 1) == n * (n - 1);
    }
    DepthRunShiftedSum(depth, n, sum);
    FoldDiveShape(t, depth, local, n);
    VisitAllRunShape(t, depth, n);
  }

  lemma FoldDiveShape(t: Tally, depth: int, local: RunStats, n: int)
    requires n >= 1 && local.nodes_visited == n
    ensures FoldDive(t, depth, local) ==
            Tally(t.nodes + n - 1, t.depthSum + depth * (n - 1) + Trunc(local.avg_depth * (n as real)),
                  Max(t.maxDepth, depth + local.max_depth))
  {
  }

  lemma VisitAllRunShape(t: Tally, depth: int, n: int)
    requires n >= 1 && t.maxDepth >= depth
    ensures VisitAll(t, DepthRun(depth + 1, n - 1)) ==
            Tally(t.nodes + n - 1, t.depthSum + Sum(DepthRun(depth + 1, n - 1)), Max(t.maxDepth, depth + n - 1))
  {
    var ds := DepthRun(depth + 1, n - 1);
    VisitAllSpec(t, ds);
    if n >= 2 {
      assert ds[n - 2] == depth + n - 1;
    }
  }

  lemma DepthRunShiftedSum(depth: int, n: int, sum: int)
    requires n >= 1 && 2 * sum == n * (n - 1)
    ensures depth * (n - 1) + sum == Sum(DepthRun(depth + 1, n - 1))
  {
    DepthRunSum(depth + 1, n - 1);
    FoldSumArith(depth, n, sum, Sum(DepthRun(depth + 1, n - 1)));
  }

  /** The same, for the statistics a dive from local depth 0 reports. */
  lemma FoldLocalDive(t: Tally, depth: int, n: nat, runId: int, variant: string, best: EReal, reached: bool)
    requires n >= 1 && depth >= 0 && t.maxDepth >= depth
    ensures FoldDive(t, depth, DiveStats(0, n, runId, variant, best, reached)) ==
            VisitAll(t, DepthRun(depth + 1, n - 1))
  {
    DiveStatsRecovered(0, n, runId, variant, best, reached);
    FoldLocalRun(t, depth, DiveStats(0, n, runId, variant, best, reached), n);
  }

  /** Folding a dive that counted its depths from the absolute depth of the
      B&B node shifts them twice: for a node at depth `d >= 1` whose dive
      visits `n >= 1` nodes the reported maximum is `2d + n - 1`, deeper than
      any node visited, and the depth sum gains an extra `n * d`. */
  lemma FoldAbsoluteRunOvercounts(t: Tally, depth: int, local: RunStats, n: int)
    requires RecoveredRun(local, depth, n) && depth >= 1 && depth <= t.maxDepth <= depth + n - 1
    ensures FoldDive(t, depth, local).maxDepth == 2 * depth + n - 1
    ensures VisitAll(t, DepthRun(depth + 1, n - 1)).maxDepth == depth + n - 1
    ensures FoldDive(t, depth, local).depthSum == VisitAll(t, DepthRun(depth + 1, n - 1)).depthSum + n * depth
  {
    var sum := Trunc(local.avg_depth * (n as real));
    FoldDiveShape(t, depth, local, n);
    VisitAllRunShape(t, depth, n);
    AbsoluteSumArith(depth, n, sum);
    DepthRunShiftedSum(depth, n, sum - n * depth);
  }

  lemma AbsoluteSumArith(d: int, n: int, sum: int)
    requires 2 * sum == n * (2 * d + n - 1)
    ensures 2 * (sum - n * d) == n * (n - 1)
  {
  }

  /** The smallest instance: a B&B node at depth 1 whose dive (counted from
      absolute depth 1) visits only itself is reported as reaching depth 2. */
  lemma FoldAbsoluteDiveExample()
    ensures FoldDive(Tally(1, 1, 1), 1, DiveStats(1, 1, 0, "base", PosInf, false)).maxDepth == 2
    ensures VisitAll(Tally(1, 1, 1), DepthRun(2, 0)).maxDepth == 1
  {
    DiveStatsRecovered(1, 1, 0, "base", PosInf, false);
    FoldAbsoluteRunOvercounts(Tally(1, 1, 1), 1, DiveStats(1, 1, 0, "base", PosInf, false), 1);
  }

  /** A dive counted from local depth 0 that visited `n` nodes reports
      `max_depth = n - 1` and `avg_depth = (n - 1) / 2` (both 0 when `n = 0`). */
  lemma LocalDiveStats(n: nat, runId: int, variant: string, best: EReal, reached: bool)
    ensures DiveStats(0, n, runId, variant, best, reached).max_depth == Max(0, n - 1)
    ensures 2.0 * DiveStats(0, n, runId, variant, best, reached).avg_depth == Max(0, n - 1) as real
  {
    DepthRunTally(0, n);
    if n > 0 {
      var s := DiveStats(0, n, runId, variant, best, reached);
      RunAverage(n, s.avg_depth, VisitAll(NoVisits, DepthRun(0, n)).depthSum);
    }
  }

  /** The average depth of a dive of `n` nodes from depth 0 is `(n - 1) / 2`. */
  lemma RunAverage(n: int, avg: real, sum: int)
    requires n >= 1 && avg * (n as real) == sum as real && 2 * sum == n * (n - 1)
    ensures 2.0 * avg == (n - 1) as real
  {
    MulAsReal(n, n - 1);
    assert 2.0 * (sum as real) == (n as real) * ((n - 1) as real);
    HalfOfProduct(n as real, avg, sum as real);
  }

  lemma MulAsReal(a: int, b: int)
    ensures (a * b) as real == (a as real) * (b as real)
  {
  }

  lemma HalfOfProduct(n: real, avg: real, s: real)
    requires n > 0.0 && avg * n == s && 2.0 * s == n * (n - 1.0)
    ensures 2.0 * avg == n - 1.0
  {
    var x := 2.0 * avg - (n - 1.0);
    assert x * n == 2.0 * s - n * (n - 1.0);
  }
}
