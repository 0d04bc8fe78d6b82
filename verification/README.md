# Feasible Diving scheduler — a Dafny model

This project models the search scheduler of an interval branch-and-bound
optimiser built on the ibex library: the *Feasible Diving* (FD) variants and
the stack-driven branch-and-bound (B&B) drivers built on them.

- A **dive** is a bounded greedy descent from a box. Each pass contracts the
  box, tries to tighten the incumbent (the best objective value found so
  far, `UB`), tests the stop rules in order, splits the widest coordinate at
  its midpoint and moves to the half with the better score. The left half
  wins ties. The variants differ in their stop rules:
  - `dive_base` stops on precision;
  - `dive_depth_k` and `dive_depth_k_rand` carry a depth budget and a child
    temperature, the second with per-child noise;
  - `dive_vol_Tk` stops on a relative-volume cut after a warm-up;
  - the exported variants stop hard at the depth budget and, in the
    `vol_k_rand` one, draw a threshold factor once per dive.
- A **B&B driver** keeps a LIFO worklist of nodes. Each popped node is
  counted, triaged and either dropped, force-split (invalid or emptied nodes
  shallower than 3), pruned against `UB - 1e-12`, or dived from. After a dive
  the driver folds the dive's statistics into its own and pushes the node's
  two halves.
- The **node model** (`ibex::Cell`) carries a depth and a temperature. Both
  children of a split get `(T/2) * k * noise`, where the noise comes from a
  splitmix-style 64-bit hash.
- The **buffers** order or filter cells:
  - `TempBuffer` scores a cell by its objective bound plus a thermal term
    `bias / (1 + T)`, and only counts depth or volume triggers;
  - `TempHeap` discards cells past a depth or volume cut and costs the rest
    `lb - bias * 100 * (k/2)^depth`.
- Around them sit:
  - a standalone **simulator** of the same descent over a toy node
    (`fda_experimentos`);
  - the **mode inference and parameter derivation** of the `ibexopt`
    front end;
  - the **variant selection and task list** (`RunMenu`) and the **CSV
    rows** (`RunResults`) of the `run_menu` launcher.

The numerics that belong to the interval library are oracles. These are
contraction, the objective's enclosure, box volume, relative bisection,
`exp`, the heap order, `adaptive_k` and the `OptContext` overloads the
source only declares. Each oracle is a function-typed field of a record
(`Bridge.System`, `Bridge.OptContext`, `Bridge.Measure`,
`TempBuffer.HeapOrder`), constrained only by what the call sites rely on.

Doubles are `real`. Where the code tests `isfinite` or compares with
`±inf`, the model uses `ExtReal.EReal` (`Fin`, `PosInf`, `NegInf`, `NaN`),
with IEEE comparisons in which NaN compares false. Random engines
(`std::mt19937`, `std::mt19937_64`) are an abstract engine `Random.Rng`
whose state is threaded through the code in source order. Each draw lies in
the distribution's range, and a fixed seed gives a fixed trace. The 64-bit
noise hash is computed on `bv64`, and cell depths are `unsigned int` with
explicit wrap-around.

Each dive pass and each B&B pass is a pure step function returning
`Next(state)` or `Halt(state, reason)`. The loops are methods whose
invariants are stated as ghost predicates, preserved by a step lemma.

## Model

| member | source | states |
|---|---|---|
| ExtReal.Tighten | memoria_cofigo/FD_base.cpp:44-49 | the incumbent after `if (f < UB) UB = f` is the old one or a strictly smaller `f`, never above the old one, and any smaller `f` is taken |
| ExtReal.TightenFinite | memoria_cofigo/FDA_depth_k.cpp:48-53 | the incumbent after `if (isfinite(f) && f < UB) UB = f` is the old one or a finite, strictly smaller `f`; it is never above the old one or above a finite `f` |
| ExtReal.SameBonusKeepsOrder | memoria_cofigo/FDA_depth_k.cpp:66-71 | adding the same finite temperature bonus to both children's scores never changes which child `scoreL >= scoreR` selects |
| ExtReal.NegAntitone | memoria_cofigo/fda_bridge_common.cpp:10-14 | negating the objective lower bound reverses the order, so a lower bound that is smaller scores higher |
| Bridge.WidestFrom | memoria_cofigo/fda_bridge_common.cpp:16-24 | the scan from `i` returns an index at or after the current best whose diameter no later coordinate strictly exceeds, and, without NaN diameters, one strictly wider than every earlier coordinate (the first widest wins ties) |
| Bridge.WidestVar | memoria_cofigo/fda_bridge_common.cpp:16-24 | `widest_var` returns a valid index; no later coordinate is strictly wider, and without NaN diameters every earlier coordinate is strictly narrower |
| Bridge.MaxDiamIsMaximum | memoria_cofigo/fda_bridge_common.cpp:16-24 | without NaN diameters the widest coordinate's diameter bounds every coordinate's diameter |
| Bridge.BisectBox | memoria_cofigo/fda_bridge_common.cpp:26-35 | both halves keep the parent's dimension and every coordinate but the widest; the widest is cut at its midpoint, left half below, right half above |
| Bridge.RangeSplitPartition | memoria_cofigo/fda_bridge_common.cpp:32-34 | a point lies in a coordinate exactly when it lies in one of its two halves, and lies in both only at the midpoint |
| Bridge.BisectPartition | memoria_cofigo/fda_bridge_common.cpp:26-35 | the two halves of `bisect_box` cover the parent exactly and overlap only on the cutting hyperplane |
| Bridge.ValidFrom | memoria_cofigo/fda_bridge_common.cpp:50-56 | the check from index `i` on succeeds exactly when every later coordinate has finite bounds with `lb <= ub` |
| Bridge.IsValidBox | memoria_cofigo/fda_bridge_common.cpp:47-57 | a box is valid exactly when it has the expected dimension and every coordinate has finite bounds with `lb <= ub` |
| Bridge.ValidBoxMidpoint | memoria_cofigo/fda_bridge_common.cpp:47-57 | a valid box is bounded, its midpoint lies inside it and every coordinate's midpoint is finite |
| Bridge.EvalAtMid | memoria_cofigo/fda_bridge_common.cpp:37-45 | without an objective, or on an unbounded box, the value is `+inf`; otherwise it is the midpoint of the objective's enclosure at the box midpoint |
| Bridge.EvalAtMidWithinEnclosure | memoria_cofigo/fda_bridge_common.cpp:42-44 | when the point enclosure is a finite interval, the value `eval_at_mid` reports lies within it |
| Bridge.HeurScore | memoria_cofigo/fda_bridge_common.cpp:10-14 | the score is 0 without an objective and otherwise the negated objective lower bound |
| Bridge.HeurScorePrefersLowerBound | memoria_cofigo/fda_bridge_common.cpp:10-14 | one box scores strictly higher than another exactly when its objective lower bound is strictly smaller |
| Bridge.FreshStats | memoria_cofigo/fda_bridge_common.h:21-30 | a new `RunStats` has the given id and variant, best value `+inf`, no nodes, depth 0, average 0 and no optimum |
| Bridge.NewNode | memoria_cofigo/fda_bridge_common.h:33-38 | a node built from a box and a depth has whole-line goal bounds and temperature 0 |
| Bridge.MakeNode | memoria_cofigo/FDA_depth_k.cpp:130 | a node built in the declared field order keeps the box, depth and temperature it is given, with the whole line as goal bounds |
| Bridge.PositionalNode | memoria_cofigo/fda_bridge_common.h:33-38 | a three-value initialiser read against the declared fields puts the integer into the goal bounds as a point interval. It truncates the double into the depth and leaves `T` at 0 |
| Bridge.PositionalNodeLosesDepth | memoria_cofigo/FD_base.cpp:134-135 | read that way, a child built one level deeper lands at depth 0 with goal bounds other than the whole line. A root built with `T0 >= 1` starts at a positive depth with temperature 0 |
| Accounting.Visit | memoria_cofigo/FD_base.cpp:34-37 | visiting a node adds one node, adds its depth to the sum and raises the maximum depth to it when larger |
| Accounting.VisitAllSpec | memoria_cofigo/FD_base.cpp:34-37 | after a sequence of visits the counters hold its length, its sum and the maximum of the old maximum and its elements |
| Accounting.DepthRunTally | memoria_cofigo/FD_base.cpp:29-67 | a dive that visits `n` consecutive depths from `base` counts `n` nodes, a depth sum of `n(2 base + n - 1)/2` and maximum depth `base + n - 1` (0 for an empty dive) |
| Accounting.Finish | memoria_cofigo/FD_base.cpp:70-79 | the reported row carries the counters, the best value and the optimum flag; its average times the node count is the depth sum, and it is 0 when nothing was visited |
| Accounting.FoldDive | memoria_cofigo/FD_base.cpp:181-189 | a dive with no nodes leaves the driver's counters alone; otherwise it adds all but one of its nodes, its depth sum recovered from the average shifted by the node depth, and the shifted maximum depth |
| Accounting.DiveStatsSum | memoria_cofigo/FD_base.cpp:183-185 | truncating `avg_depth * nodes` of a dive's statistics gives back the exact depth sum it visited |
| Accounting.FinishAverage | memoria_cofigo/FD_base.cpp:70-72 | truncating the reported average times the node count gives back the depth sum |
| Accounting.DiveStatsRecovered | memoria_cofigo/FD_base.cpp:183-185 | a driver reading a dive's statistics recovers its node count, its depth sum and its maximum depth |
| Accounting.FoldLocalRun | memoria_cofigo/FDA_depth_k.cpp:199-207 | folding a dive that counted its depths from 0 into the counters is exactly visiting the depths `depth + 1 .. depth + n - 1` after the B&B node itself |
| Accounting.FoldLocalDive | memoria_cofigo/FDA_depth_k.cpp:199-207 | the same exactness for the statistics a dive from local depth 0 reports |
| Accounting.FoldAbsoluteRunOvercounts | memoria_cofigo/FD_base.cpp:171-188 | folding a dive that counted from the node's absolute depth reports maximum depth `2 depth + n - 1` instead of `depth + n - 1` and adds `n * depth` too much to the depth sum |
| Accounting.FoldAbsoluteDiveExample | memoria_cofigo/FD_base.cpp:171-188 | a node at depth 1 whose dive visits one node raises the reported maximum depth to 2, although no node deeper than 1 was visited |
| Accounting.LocalDiveStats | memoria_cofigo/FDA_depth_k.cpp:31-43 | a dive of `n` nodes counted from depth 0 reports maximum depth `n - 1` and average depth `(n - 1)/2` |
| IbexCell.SetTempParams | memoria_cofigo/ibex_cell/ibex_Cell.h:49-54 | setting the temperature parameters replaces all four of them with the given values |
| IbexCell.ScaleLow53 | memoria_cofigo/ibex_cell/ibex_Cell.cpp:27-28 | the low 53 bits of a word divided by `2^53 - 1` and shifted by 0.5 lie in [0.5, 1.5] |
| IbexCell.DeterministicNoise | memoria_cofigo/ibex_cell/ibex_Cell.cpp:22-29 | the splitmix64 noise factor, computed with 64-bit wrap-around, lies in [0.5, 1.5] |
| IbexCell.ChildDepth | memoria_cofigo/ibex_cell/ibex_Cell.cpp:48-49 | a child's depth is the parent's plus one, wrapping to 0 past the largest `unsigned int` |
| IbexCell.NewCell | memoria_cofigo/ibex_cell/ibex_Cell.cpp:31-34 | a new cell keeps its box, split variable and depth and starts at the current `T0` |
| IbexCell.RootCellDefaults | memoria_cofigo/ibex_cell/ibex_Cell.h:44-60 | a cell built with the defaults has split variable -1, depth 0 and temperature `T0`, which is 100 before any call to `set_temp_params` |
| IbexCell.CopyCell | memoria_cofigo/ibex_cell/ibex_Cell.cpp:36-39 | a copy carries every field over, the temperature included |
| IbexCell.SplitNoise | memoria_cofigo/ibex_cell/ibex_Cell.cpp:59 | the split noise is 1 without randomisation and lies in [0.5, 1.5] with it |
| IbexCell.Bisect | memoria_cofigo/ibex_cell/ibex_Cell.cpp:41-67 | both children are one level deeper, record the split variable and share the temperature `(T/2) * k * noise`; an absolute split cuts the chosen coordinate at `pos` and leaves the others alone |
| IbexCell.SplitAtPartition | memoria_cofigo/ibex_cell/ibex_Cell.cpp:53-54 | cutting an interval at a position inside it covers the interval, and the two parts share only the cut |
| IbexCell.AbsoluteBisectPartition | memoria_cofigo/ibex_cell/ibex_Cell.cpp:50-57 | the boxes of an absolute split cover the cell's box exactly and overlap only on the cut |
| IbexCell.DescendTemperature | memoria_cofigo/ibex_cell/ibex_Cell.cpp:41-67 | without randomisation, `d` splits below a cell multiply its temperature by `(k/2)^d` and add `d` to its depth while it does not wrap |
| IbexCell.SplitOnce | memoria_cofigo/ibex_cell/ibex_Cell.cpp:59-62 | one noise-free split gives the chosen child the parent's temperature times `k/2` |
| IbexCell.RootTemperatureAfterSplits | memoria_cofigo/ibex_cell/ibex_Cell.cpp:31-67 | from a root cell, `d` noise-free splits give temperature `T0 * (k/2)^d` at depth `d` |
| FdBase.BaseStep | memoria_cofigo/FD_base.cpp:39-67 | a pass stops only because contraction emptied the box or the box got small, keeps the dimension, never raises the incumbent, and leaves it alone without an objective |
| FdBase.MidUpdate | memoria_cofigo/FD_base.cpp:44-49 | the incumbent after the midpoint update is the old one or a strictly smaller midpoint value, and any strictly smaller midpoint value is taken |
| FdBase.BaseStepSpec | memoria_cofigo/FD_base.cpp:39-67 | a pass stops exactly when contraction empties the box or the contracted box is below `eps_box`; otherwise it moves to the half whose score is at least the other's, the left one on ties, one level deeper |
| FdBase.BaseStepDescends | memoria_cofigo/FD_base.cpp:57-67 | the next box of a dive lies inside the contracted box, so a dive never leaves the region contraction kept |
| FdBase.BaseLoop | memoria_cofigo/FD_base.cpp:34-68 | the loop visits consecutive depths from `base_depth`, at most `max_iters` of them, all of them when it stops on the budget and at least one otherwise; the incumbent never rises |
| FdBase.DiveBase | memoria_cofigo/FD_base.cpp:12-81 | `dive_base` reports the counters of the consecutive depths it visited, a best value no worse than the incumbent it was given and unchanged without an objective |
| FdBase.RunFdaBase | memoria_cofigo/FD_base.cpp:83-94 | a dive from the root visits at most `max_iters` nodes, reports maximum depth `nodes - 1` and average `(nodes - 1)/2`, and finds a finite value only with an objective |
| FdBase.SysForcedSplit | memoria_cofigo/FD_base.cpp:130-138 | the forced split of a node pushes the right then the left half of its box one level deeper with temperature 0 |
| FdBase.SysTriage | memoria_cofigo/FD_base.cpp:125-168 | a popped node is rejected exactly when invalid or empty, vanishes exactly when contraction empties it, is pruned exactly when there is an objective, its enclosure over the contracted box is not empty, an incumbent exists and the finite lower bound is at least `UB_global - lb_tol`, and otherwise dives with a hint no worse than the incumbent; shallow nodes are force-split in the first two cases |
| FdBase.RunFdaBaseBb | memoria_cofigo/FD_base.cpp:97-209 | the corrected driver stops with an empty worklist or a spent budget, counts at least every processed node, reports `reached_optimum` exactly when the best value is finite, and keeps the average depth between 0 and the maximum |
| FdBase.BaseBbPass | memoria_cofigo/FD_base.cpp:123-198 | one pass keeps the driver invariant and either processes a node or lightens the worklist. The incumbent only decreases, and only to a finite value, and `has_ub` once set stays set. A rejected node is popped uncounted and a vanished node counted, each with its forced split; a pruned node is counted and dropped. An explored node counts as processed, lowers the incumbent at most to its triage hint, and is replaced by its right then left halves at depth + 1 with T = 0 |
| FdBase.BbNodeAccountingExact | memoria_cofigo/FD_base.cpp:140-142 | with the dive counted from local depth 0, a B&B node and its `n`-node dive add exactly the visits of depths `depth .. depth + n - 1` |
| FdBase.BbNodeAccountingAsWrittenOvercounts | memoria_cofigo/FD_base.cpp:170-188 | with the dive counted from the node's absolute depth, a node at depth 1 whose dive visits one node reports maximum depth 2 where only depth 1 was visited |
| BbCommon.PruneSound | memoria_cofigo/FDA_depth_k.cpp:177 | with a finite incumbent a node is pruned exactly when its finite lower bound is at least the incumbent minus `lb_tol`; nothing is pruned before an incumbent exists |
| BbCommon.NoPruneWithoutIncumbent | memoria_cofigo/FDA_depth_k.cpp:132-134 | with the incumbent still `+inf` no node is pruned |
| BbCommon.UbHint | memoria_cofigo/FDA_depth_k.cpp:173-183 | the dive's hint is the incumbent, the box's objective upper bound or its midpoint value; it is finite unless it is the incumbent, and never above the incumbent or any finite candidate |
| BbCommon.Children | memoria_cofigo/FDA_depth_k.cpp:211-217 | the right half is pushed before the left so the left is popped first; both carry the depth, the temperature and whole-line goal bounds |
| BbCommon.ForcedSplit | memoria_cofigo/FDA_depth_k.cpp:149-153 | a forced split pushes both halves of the parent one level deeper with the parent's temperature |
| BbCommon.TriageNode | memoria_cofigo/FDA_depth_k.cpp:144-183 | a popped node is rejected exactly when invalid or empty, vanishes exactly when contraction with the goal empties it, is pruned exactly when there is an objective, its enclosure over the contracted box is not empty, an incumbent exists and the finite lower bound is at least `UB_global - lb_tol`, and otherwise dives from the contracted box with a hint no worse than the incumbent; shallow nodes are force-split in the first two cases |
| BbCommon.StackWeightPop | memoria_cofigo/FDA_depth_k.cpp:140-155 | popping a node and pushing nothing, or two children of a node shallower than `min_force_depth`, lowers the worklist's weight, so forced splits cannot loop forever |
| BbCommon.InitialState | memoria_cofigo/FDA_depth_k.cpp:129-136 | the driver starts with only the root, incumbent `+inf`, no `has_ub`, no visits and nothing processed |
| BbCommon.AfterDive | memoria_cofigo/FDA_depth_k.cpp:193-217 | after a dive the incumbent takes a finite smaller result, `has_ub` records that, the dive's counters are folded in, the node counts as processed and its children replace it |
| BbCommon.ExploreOutcome | memoria_cofigo/FDA_depth_k.cpp:185-217 | a node whose dive returns no worse than its hint is processed, its children replace it, and the incumbent stays or drops to a finite value no worse than the hint |
| BbCommon.RejectStep | memoria_cofigo/FDA_depth_k.cpp:148-156 | a rejected node keeps the driver invariant and lightens the worklist |
| BbCommon.CountedDropStep | memoria_cofigo/FDA_depth_k.cpp:158-171 | a counted node that is dropped or force-split keeps the driver invariant and lightens the worklist |
| BbCommon.DiveStep | memoria_cofigo/FDA_depth_k.cpp:185-217 | a node that dived keeps the driver invariant and raises the processed count by one |
| BbCommon.FoldCoherent | memoria_cofigo/FDA_depth_k.cpp:199-207 | folding a dive counted from local depth 0 keeps the depth sum between 0 and `nodes * max_depth` |
| BbCommon.FinishCoherent | memoria_cofigo/FDA_depth_k.cpp:221-223 | the reported average depth lies between 0 and the maximum depth |
| BbCommon.FinishBb | memoria_cofigo/FD_base.cpp:203-207 | the final row reports the incumbent as the best value and `has_ub` as `reached_optimum`, with the tally's node count and maximum depth, and an average that, multiplied by the node count, gives the depth sum |
| BbCommon.FinishBbSpec | memoria_cofigo/FDA_depth_k.cpp:221-230 | the final row counts at least every processed node, flags an optimum exactly when the best value is finite, and has its average depth between 0 and the maximum |
| FdaDepthK.GoalUpdate | memoria_cofigo/FDA_depth_k.cpp:48-53 | with empty goal bounds the incumbent is untouched; otherwise it never rises, stays or becomes finite, and ends no worse than any finite objective upper bound or midpoint value |
| FdaDepthK.DepthKStep | memoria_cofigo/FDA_depth_k.cpp:45-80 | a pass stops only on an emptied box or a small box deeper than `base_depth`, keeps the dimension, descends one level when it goes on, and never raises the incumbent |
| FdaDepthK.Branch | memoria_cofigo/FDA_depth_k.cpp:61-80 | the split moves to one of the two halves one level deeper, with whole-line goal bounds, the child temperature, and `UB_prev` set to the current incumbent |
| FdaDepthK.BranchIgnoresTemperature | memoria_cofigo/FDA_depth_k.cpp:66-77 | the half chosen is the one the plain score prefers, the left on ties, whatever the temperature: both halves get the same bonus |
| FdaDepthK.DepthKStepSpec | memoria_cofigo/FDA_depth_k.cpp:45-80 | a pass stops exactly when contraction empties the box, or when the box is deeper than `base_depth` and below `eps_box`; otherwise it takes the preferred half |
| FdaDepthK.BudgetInert | memoria_cofigo/FDA_depth_k.cpp:55-57 | the depth budget only ever grows and never affects the box, the incumbent, the temperature or when the dive stops |
| FdaDepthK.DepthKStepBudget | memoria_cofigo/FDA_depth_k.cpp:55-57 | when the depth reaches the budget the budget grows by `d_max_global`, so it stays ahead of the depth |
| FdaDepthK.DepthKStepTemperature | memoria_cofigo/FDA_depth_k.cpp:64-66 | with a constant multiplier each split multiplies the temperature by `k / 2` |
| FdaDepthK.DepthKLoop | memoria_cofigo/FDA_depth_k.cpp:40-81 | the loop visits depths `0, 1, ...`, at most `max_iters` of them, all of them when it stops on the budget; a small-box stop happens only below `base_depth`; the incumbent never rises |
| FdaDepthK.DiveDepthK | memoria_cofigo/FDA_depth_k.cpp:12-94 | `dive_depth_k` reports the counters of the local depths it visited, a best value no worse than the incumbent given and either that incumbent or finite; a small-box stop needs more than `base_depth + 1` nodes |
| FdaDepthK.RunFdaDepthTk | memoria_cofigo/FDA_depth_k.cpp:96-109 | a dive from the root reports maximum depth `nodes - 1`, average `(nodes - 1)/2`, an optimum exactly when the best value is finite, and the `depth_k` variant name |
| FdaDepthK.RunFdaDepthTkBb | memoria_cofigo/FDA_depth_k.cpp:111-231 | the driver stops with an empty worklist or a spent budget, counts at least every processed node, reports `reached_optimum` exactly when the best value is finite, keeps the average depth between 0 and the maximum, and reports nothing when the budget is not positive |
| FdaDepthK.DepthKBbPass | memoria_cofigo/FDA_depth_k.cpp:140-218 | one pass keeps the driver invariant and makes progress; a node that dives is processed, its halves replace it with the child temperature, and the incumbent stays or drops to a finite value no worse than the hint |
| FdaDepthK.ChildTemperature | memoria_cofigo/FDA_depth_k.cpp:214-215 | the children's temperature is non-negative when the multiplier and the node's temperature are. It never exceeds the node's temperature when `adaptive_k` returns at most 2, and it is 0 for a node at temperature 0 |
| FdaDepthK.BranchIgnoresBudget | memoria_cofigo/FDA_depth_k.cpp:55-80 | apart from the budget itself, the split never depends on the depth budget |
| FdaDepthK.StepKeepsDiveInv | memoria_cofigo/FDA_depth_k.cpp:45-80 | a pass keeps the incumbent no worse than the one given and either that or finite, the budget ahead of the depth, and with a constant multiplier the temperature at `T0 * (k/2)^depth` |
| FdaDepthKRand.RandStep | memoria_cofigo/FDA_depth_k_rand.cpp:51-90 | a pass stops only on an emptied box or a small box deeper than `base_depth`, and then draws nothing; a split draws exactly two values, keeps the budget ahead of the depth, cools the temperature at least as much as the noise-free rule, and never raises the incumbent |
| FdaDepthKRand.RandBranch | memoria_cofigo/FDA_depth_k_rand.cpp:67-90 | the split draws `rL` then `rR`, moves one level deeper into one of the halves and cools the temperature at least as much as the noise-free rule |
| FdaDepthKRand.HalfScaled | memoria_cofigo/FDA_depth_k_rand.cpp:70-75 | the noise-free child temperature of a non-negative multiplier and temperature is non-negative |
| FdaDepthKRand.Jitter | memoria_cofigo/FDA_depth_k_rand.cpp:74-75 | a child temperature scaled by a draw in [0, 1) lies between 0 and the noise-free value |
| FdaDepthKRand.RandBranchSpec | memoria_cofigo/FDA_depth_k_rand.cpp:72-88 | the left half wins exactly when its score plus its own jittered temperature is at least the right half's with its own, and the winner keeps its own temperature |
| FdaDepthKRand.RandStepSpec | memoria_cofigo/FDA_depth_k_rand.cpp:51-65 | a pass stops exactly when contraction empties the box, or when the depth exceeds `base_depth` and the box is below `eps_box`; the budget grows by `d_max_run` when the depth reaches it |
| FdaDepthKRand.CoolerThanSchedule | memoria_cofigo/FDA_depth_k_rand.cpp:70-90 | with a constant non-negative multiplier, a temperature at most the noise-free schedule at one depth stays at most it one level deeper |
| FdaDepthKRand.RandLoop | memoria_cofigo/FDA_depth_k_rand.cpp:46-91 | the loop visits depths `0, 1, ...`, at most `max_iters` of them, advances the engine by two draws per split, keeps the incumbent from rising and the temperature between 0 and `T0 * (k/2)^depth` |
| FdaDepthKRand.DrawDMaxRun | memoria_cofigo/FDA_depth_k_rand.cpp:41-43 | `d_max_run` is at least 1 and within `max(1, d_max_global ± 10)`, and consumes one integer draw |
| FdaDepthKRand.DiveDepthKRand | memoria_cofigo/FDA_depth_k_rand.cpp:12-104 | `dive_depth_k_rand` reports the counters of the local depths it visited, a best value no worse than the incumbent given, a `d_max_run` in range, and the engine advanced by one integer draw and two draws per split |
| FdaDepthKRand.RunFdaDepthTkRand | memoria_cofigo/FDA_depth_k_rand.cpp:106-120 | a dive from the root reports maximum depth `nodes - 1`, average `(nodes - 1)/2`, an optimum exactly when the best value is finite, and the `depth_k_rand` variant name |
| FdaDepthKRand.BbSeed | memoria_cofigo/FDA_depth_k_rand.cpp:149 | the driver's seed is `123456 + run_id` reduced to unsigned 32 bits |
| FdaDepthKRand.RunFdaDepthTkRandBb | memoria_cofigo/FDA_depth_k_rand.cpp:122-241 | the driver stops with an empty worklist or a spent budget, counts at least every processed node, reports `reached_optimum` exactly when the best value is finite, and with no budget reports nothing and leaves the seeded engine untouched |
| FdaDepthKRand.RandBbPass | memoria_cofigo/FDA_depth_k_rand.cpp:152-229 | one pass keeps the driver invariant and makes progress; only a node that dives draws from the engine; its halves replace it with the noise-free child temperature |
| FdaDepthKRand.RandDiveNode | memoria_cofigo/FDA_depth_k_rand.cpp:197-229 | a node that dives is processed, the incumbent stays or drops to a finite value no worse than the hint, and its halves replace it |
| FdaDepthKRand.StepKeepsRandInv | memoria_cofigo/FDA_depth_k_rand.cpp:51-90 | a pass keeps the incumbent no worse than the one given and either that or finite, the budget ahead of the depth, and the engine two draws further per split |
| FdaDepthKRand.StepKeepsCoolInv | memoria_cofigo/FDA_depth_k_rand.cpp:70-90 | with a constant non-negative multiplier and `T0 >= 0` a pass keeps the temperature between 0 and `T0 * (k/2)^depth` |
| FdaVolK.Threshold | memoria_cofigo/FDA_vol_k.cpp:54 | `tau_V` is positive for a positive `eps_V`, zero for a zero one, and equals `eps_V` at depth 0 or with `beta = 0` |
| FdaVolK.ImprovesExactly | memoria_cofigo/FDA_vol_k.cpp:61-66 | `has_ub` is set in a pass exactly when the goal update changes the incumbent |
| FdaVolK.VolStep | memoria_cofigo/FDA_vol_k.cpp:49-93 | a pass stops only on an emptied box, on volume past the warm-up, or on a small box below the root, and a stop changes nothing but the incumbent; a split goes one level deeper, takes the new box's volume as reference when bounded, and sets `has_ub` exactly when the incumbent changed |
| FdaVolK.VolBranch | memoria_cofigo/FDA_vol_k.cpp:70-93 | the split moves to one of the halves one level deeper, refreshes `use_volume` and `V0` from it, and sets the child temperature |
| FdaVolK.VolBranchIgnoresTemperature | memoria_cofigo/FDA_vol_k.cpp:75-89 | the half chosen is the one the plain score prefers, the left on ties, whatever the temperature |
| FdaVolK.VolStepSpec | memoria_cofigo/FDA_vol_k.cpp:49-89 | a pass stops on volume exactly when the volume cut holds, and then ignores that pass's goal bounds; otherwise it stops exactly on a small box below the root, and else takes the preferred half |
| FdaVolK.ZeroVolumeStops | memoria_cofigo/FDA_vol_k.cpp:52-58 | past the warm-up, with `eps_V >= 0` and a positive reference volume, a contracted box of zero volume ends the dive |
| FdaVolK.VolLoop | memoria_cofigo/FDA_vol_k.cpp:44-94 | the loop visits depths `0, 1, ...`, at most `max_iters` of them; a volume stop happens only past 5 levels; `has_ub` tracks a finite incumbent and `V0` the current box's volume |
| FdaVolK.DiveVolTk | memoria_cofigo/FDA_vol_k.cpp:12-107 | `dive_vol_Tk` reports the counters of the depths it visited, a best value no worse than the incumbent given, and needs at least 6 nodes for a volume stop |
| FdaVolK.RunFdaVolTk | memoria_cofigo/FDA_vol_k.cpp:109-123 | a dive from the root reports maximum depth `nodes - 1`, average `(nodes - 1)/2`, an optimum exactly when the best value is finite, and the `vol_k` variant name |
| FdaVolK.RunFdaVolTkBb | memoria_cofigo/FDA_vol_k.cpp:125-244 | the driver stops with an empty worklist or a spent budget, counts at least every processed node, reports `reached_optimum` exactly when the best value is finite, and keeps the average depth between 0 and the maximum |
| FdaVolK.VolBbPass | memoria_cofigo/FDA_vol_k.cpp:155-232 | one pass keeps the driver invariant and makes progress; a node that dives is processed and its halves replace it with the child temperature |
| FdaVolK.VolExplore | memoria_cofigo/FDA_vol_k.cpp:201-232 | a node that dives is processed, the incumbent stays or drops to a finite value no worse than the hint, and its halves replace it |
| FdaVolK.StepKeepsVolInv | memoria_cofigo/FDA_vol_k.cpp:49-93 | a pass keeps `depth_vol` equal to the depth, the incumbent no worse than the one given, `has_ub` exactly when it is finite, `use_volume` exactly when the box is bounded with `V0` its volume, and with a constant multiplier the temperature at `T0 * (k/2)^depth` |
| ExportCommon.ExportDiveBase | memoria_cofigo/export_variantes/FD_base.cpp:12-80 | the exported `dive_base` counts its depths from 0, so it reports maximum depth `nodes - 1` and average `(nodes - 1)/2`; `reached_optimum` means it stopped on a small box; the incumbent never rises and is untouched without an objective |
| ExportCommon.ExportRunFdaBase | memoria_cofigo/export_variantes/FD_base.cpp:82-92 | a dive from the root reports at most `max_iters` nodes, maximum depth `nodes - 1`, and a finite best value only with an objective |
| ExportCommon.KeepTempSplit | memoria_cofigo/export_variantes/FDA_depth_k.cpp:146-153 | an emptied shallow node pushes both halves of its own box one level deeper with its own temperature |
| ExportCommon.FixedChildT | memoria_cofigo/export_variantes/FDA_depth_k.cpp:199 | `k * T / 2` is non-negative for non-negative inputs and 0 at temperature 0. It is at most `T` for `k <= 2`, and strictly above `T` for `k > 2` and positive `T` |
| ExportCommon.ExportTriage | memoria_cofigo/export_variantes/FDA_depth_k.cpp:145-169 | no node is rejected before contraction; a node vanishes exactly when contraction empties it; it is pruned exactly when it has an objective, is deep enough and passes the `lb_tol` test (the depth variant skips the test on an empty enclosure); otherwise its hint is no worse than the incumbent and equals it without an objective |
| ExportCommon.ExportFinish | memoria_cofigo/export_variantes/FDA_depth_k.cpp:204-212 | the exported report carries the counters and the incumbent and never flags an optimum |
| ExportCommon.ExportFinishHidesIncumbent | memoria_cofigo/export_variantes/FDA_depth_k.cpp:179-212 | with a finite incumbent the exported report still says the optimum was not reached, where the other drivers report it reached |
| ExportCommon.ExportDropStep | memoria_cofigo/export_variantes/FDA_depth_k.cpp:141-154 | a counted node that is dropped or force-split keeps the driver invariant and lightens the worklist |
| ExportDepthK.ExportKStep | memoria_cofigo/export_variantes/FDA_depth_k.cpp:43-74 | a pass stops only on an emptied box, at the depth budget, or on a small box past depth 20; a split stays within the budget and halves the temperature times `k`; the incumbent never rises and is untouched without an objective |
| ExportDepthK.ExportKStepSpec | memoria_cofigo/export_variantes/FDA_depth_k.cpp:43-74 | a pass stops exactly when contraction empties the box, when the depth reaches the budget, or when the depth exceeds 20 and the box is below `eps_box`; otherwise it takes the half with the higher score, the left on ties |
| ExportDepthK.StepKeepsExportInv | memoria_cofigo/export_variantes/FDA_depth_k.cpp:43-74 | a pass keeps the depth within the budget, the incumbent no worse than the one given, and the temperature at `T0 * (k/2)^depth` |
| ExportDepthK.ExportKLoop | memoria_cofigo/export_variantes/FDA_depth_k.cpp:38-75 | the loop visits depths `0, 1, ...`, at most `max_iters` of them; a depth-limit stop happens exactly at the budget and a small-box stop only past depth 20 |
| ExportDepthK.ExportDiveDepthK | memoria_cofigo/export_variantes/FDA_depth_k.cpp:11-87 | the exported `dive_depth_k` visits at most `max(0, d_max_global - base_depth) + 1` nodes, exactly that many when it stops on the limit, and at least 22 for a small-box stop, which alone sets `reached_optimum` |
| ExportDepthK.ExportRunFdaDepthTk | memoria_cofigo/export_variantes/FDA_depth_k.cpp:89-103 | a dive from the root visits at most `d_max + 1` and at most `max_iters` nodes and reports maximum depth `nodes - 1` |
| ExportDepthK.ExportRunFdaDepthTkBb | memoria_cofigo/export_variantes/FDA_depth_k.cpp:105-213 | the driver stops with an empty worklist or a spent budget, counts at least every processed node, never reports an optimum, and keeps the average depth between 0 and the maximum |
| ExportDepthK.ExportKBbPass | memoria_cofigo/export_variantes/FDA_depth_k.cpp:134-202 | one pass counts the popped node, keeps the driver invariant and makes progress |
| ExportDepthK.ExportKDiveNode | memoria_cofigo/export_variantes/FDA_depth_k.cpp:171-201 | a node that dives is processed, the incumbent stays or drops to a finite smaller value, and its halves replace it with temperature `k T / 2` |
| ExportVolKRand.PlainThreshold | memoria_cofigo/export_variantes/FDA_vol_k_rand.cpp:58 | `eps_V * exp(-beta * depth)` is non-negative for a non-negative `eps_V` |
| ExportVolKRand.TauThreshold | memoria_cofigo/export_variantes/FDA_vol_k_rand.cpp:58 | with a factor in [0.7, 1.3] the noisy threshold lies between 0.7 and 1.3 times the plain one |
| ExportVolKRand.XStep | memoria_cofigo/export_variantes/FDA_vol_k_rand.cpp:53-93 | a pass stops only on an emptied box, on volume, or on a small box past depth 20, and a stop changes nothing but the incumbent; a split draws exactly two values and cools the temperature at least as much as `k T / 2` |
| ExportVolKRand.XBranch | memoria_cofigo/export_variantes/FDA_vol_k_rand.cpp:73-93 | the split draws `rL` then `rR`, takes the half whose score plus its own temperature is higher, the left on ties, and keeps that half's temperature |
| ExportVolKRand.XStepSpec | memoria_cofigo/export_variantes/FDA_vol_k_rand.cpp:53-71 | a pass stops exactly when contraction empties the box, when the volume cut holds for a bounded start box, or when the depth exceeds 20 and the box is below `eps_box` |
| ExportVolKRand.UnboundedIgnoresVolume | memoria_cofigo/export_variantes/FDA_vol_k_rand.cpp:31-35 | a dive from an unbounded start box never consults the volume: any volume function gives the same pass |
| ExportVolKRand.XLoop | memoria_cofigo/export_variantes/FDA_vol_k_rand.cpp:48-94 | the loop visits depths `0, 1, ...`, at most `max_iters` of them, draws two values per split, keeps the incumbent from rising and the temperature between 0 and `T0 * (k/2)^depth` |
| ExportVolKRand.DrawTau | memoria_cofigo/export_variantes/FDA_vol_k_rand.cpp:44-46 | the threshold factor lies in [0.7, 1.3) and consumes one real draw |
| ExportVolKRand.ExportDiveVolKRand | memoria_cofigo/export_variantes/FDA_vol_k_rand.cpp:11-106 | the exported `dive_vol_Tk_rand` reports the counters of depths from 0, needs at least 22 nodes for a small-box stop, which alone sets `reached_optimum`, and advances the engine by one factor draw and two draws per split |
| ExportVolKRand.ExportRunFdaVolTkRand | memoria_cofigo/export_variantes/FDA_vol_k_rand.cpp:108-124 | a dive from the root reports at most `max_iters` nodes, maximum depth `nodes - 1` and a finite best value only with an objective |
| ExportVolKRand.ExportRunFdaVolTkRandBb | memoria_cofigo/export_variantes/FDA_vol_k_rand.cpp:126-234 | the driver stops with an empty worklist or a spent budget, counts at least every processed node, never reports an optimum, and with no budget leaves the seeded engine untouched |
| ExportVolKRand.XBbPass | memoria_cofigo/export_variantes/FDA_vol_k_rand.cpp:159-224 | one pass counts the popped node, prunes only from depth 5 on, keeps the driver invariant and makes progress |
| ExportVolKRand.XDiveNode | memoria_cofigo/export_variantes/FDA_vol_k_rand.cpp:196-223 | a node that dives is processed, the incumbent stays or drops to a finite smaller value, and its halves replace it with temperature `k T / 2` |
| ExportVolKRand.StepKeepsXInv | memoria_cofigo/export_variantes/FDA_vol_k_rand.cpp:53-93 | a pass keeps the incumbent no worse than the one given, equal to it without an objective, and the engine two draws further per split |
| ExportVolKRand.StepKeepsXCool | memoria_cofigo/export_variantes/FDA_vol_k_rand.cpp:73-93 | with `k, T0 >= 0` a pass keeps the temperature between 0 and `T0 * (k/2)^depth` |
| TempBuffer.SameTemperature | memoria_cofigo/temp_buffer.cpp:38-45 | the temperature the cost uses depends only on `k`, `T0`, `rand_k` and `rand_seed` |
| TempBuffer.TempTermValue | memoria_cofigo/temp_buffer.cpp:48 | for a non-negative temperature the thermal term is the finite `bias / (1 + T)` |
| TempBuffer.JitterRange | memoria_cofigo/temp_buffer.cpp:20-24 | a base scaled by `1 + rel * n` with `n` in [-0.5, 0.5] stays within `base * rel / 2` of the base, and non-negative for `rel <= 2` |
| TempBuffer.FreshItem | memoria_cofigo/temp_buffer.h:76-84 | a default `Item` has no cell, depth 0, every bound and score `+inf`, and is alive |
| TempBuffer.SignedDepth | memoria_cofigo/temp_buffer.cpp:119 | casting a depth to `int` keeps depths below 2^31 and makes larger ones negative |
| TempBuffer.Jitter | memoria_cofigo/temp_buffer.cpp:20-24 | `jitter` returns the base when `rel <= 0`, and otherwise a value within `base * rel / 2` of it that is non-negative for `rel <= 2` |
| TempBuffer.Jittered | memoria_cofigo/temp_buffer.cpp:22-23 | a base scaled by `1 + rel * (noise - 1)` stays within `base * rel / 2` of the base |
| TempBuffer.DepthLimit | memoria_cofigo/temp_buffer.cpp:114-118 | the jittered depth limit is `depth_cut` when that is not positive or there is no jitter, and at least 1 otherwise |
| TempBuffer.VolThreshold | memoria_cofigo/temp_buffer.cpp:124-128 | the volume threshold is `vol_ratio_cut * V0_ref` without jitter and non-negative for a positive ratio and reference with a jitter of at most 2 |
| TempBuffer.Bound | memoria_cofigo/temp_buffer.cpp:31-36 | the cost's main term is the lower end of the objective coordinate when finite, and its upper end otherwise |
| TempBuffer.KEff | memoria_cofigo/temp_buffer.cpp:38-41 | `k_eff` is `k` without `rand_k`, and between `k/2` and `3k/2` with it |
| TempBuffer.Schedule | memoria_cofigo/temp_buffer.cpp:44 | the schedule temperature `T0 * (k/2)^depth` is non-negative for non-negative `T0` and `k` |
| TempBuffer.EffectiveTemperature | memoria_cofigo/temp_buffer.cpp:42-45 | the cost uses the cell's temperature when it is positive and the schedule temperature otherwise, never a negative one for non-negative parameters |
| TempBuffer.TempTerm | memoria_cofigo/temp_buffer.cpp:48 | the thermal term `bias / (1 + T)` lies in (0, bias] for a non-negative temperature and positive bias |
| TempBuffer.TieTerm | memoria_cofigo/temp_buffer.cpp:76-79 | the tie term is 0 without `tie_noise` and between half and one and a half times it otherwise |
| TempBuffer.Cost | memoria_cofigo/temp_buffer.cpp:30-82 | with a finite bound, `bias >= 0` and a non-negative temperature, the score lies between the bound plus the tie term and that plus `bias`; with no finite bound the score is not finite |
| TempBuffer.Score | memoria_cofigo/temp_buffer.cpp:47-79 | the score is the bound plus the thermal term plus the tie term, within `bias` of the bound plus the tie term |
| TempBuffer.HotterScoresLower | memoria_cofigo/temp_buffer.cpp:42-49 | of two otherwise equal cells with positive temperatures, the hotter one scores strictly lower when `bias > 0` |
| TempBuffer.HotterTermLower | memoria_cofigo/temp_buffer.cpp:48 | a hotter temperature gives a strictly smaller thermal term |
| TempBuffer.ScheduleFallback | memoria_cofigo/temp_buffer.cpp:42-45 | a cell without a positive temperature costs what it would with the schedule temperature |
| TempBuffer.CostParamsOnly | memoria_cofigo/temp_buffer.cpp:51-74 | the depth and volume tests inside `cost` never change the score: only `k`, `bias`, `T0`, `rand_k`, `rand_seed` and `tie_noise` matter |
| TempBuffer.CostIgnoresUpperEnd | memoria_cofigo/temp_buffer.cpp:31-36 | with a finite lower end, the upper end of the objective coordinate plays no part in the cost |
| TempBuffer.NewBuffer | memoria_cofigo/temp_buffer.cpp:84-93 | a new buffer is empty with `last_min_ = +inf` and zero counters, and installs `k`, `rand_k`, `rand_seed` and `T0` as the cells' temperature parameters |
| TempBuffer.Push | memoria_cofigo/temp_buffer.cpp:110-145 | a null cell changes nothing; any other cell is inserted whatever the triggers say, and `trigger_count_` grows by one exactly when the push is not a reinsertion, the cell is not the root and a trigger fires |
| TempBuffer.CountTriggers | memoria_cofigo/temp_buffer.cpp:132-133 | at most one trigger is counted per pushed cell |
| TempBuffer.PushAllSpec | memoria_cofigo/temp_buffer.cpp:110-145 | after a run of pushes every cell is in the buffer in push order and `trigger_count_` grew by the number of pushes that counted, at most one each |
| TempBuffer.PushAll | memoria_cofigo/temp_buffer.cpp:110-145 | a run of pushes stores one cell per push and raises `trigger_count_` by at most one per push |
| TempBuffer.DefaultsNeverTrigger | memoria_cofigo/temp_buffer.h:18-37 | with the default parameters no push ever counts a trigger |
| TempBuffer.Size | memoria_cofigo/temp_buffer.cpp:103 | `size()` is the number of stored cells |
| TempBuffer.Pop | memoria_cofigo/temp_buffer.cpp:152-155 | `pop()` on an empty buffer returns null and changes nothing; otherwise it returns a stored cell and removes exactly that one |
| TempBuffer.Top | memoria_cofigo/temp_buffer.cpp:157-160 | `top()` returns the cell `pop()` would return, null exactly on an empty buffer |
| TempBuffer.Minimum | memoria_cofigo/temp_buffer.cpp:105-107 | `minimum()` is `+inf` on an empty buffer and the heap's minimum otherwise |
| TempBuffer.Flush | memoria_cofigo/temp_buffer.cpp:99-102 | `flush()` empties the buffer and resets `last_min_`, keeping the counters |
| TempBuffer.Contract | memoria_cofigo/temp_buffer.cpp:108 | `contract(loup)` only removes cells and changes nothing else |
| TempBuffer.PushThenPop | memoria_cofigo/temp_buffer.cpp:110-155 | pushing a cell into an empty buffer and popping gives the cell back and leaves the buffer empty |
| TempHeap.NewHeap | memoria_cofigo/temp_heap.cpp:8-22 | a new heap is empty and its reference volume is `V0_ref` when positive and 1 otherwise |
| TempHeap.LowerOrZero | memoria_cofigo/temp_heap.h:34-35 | the cost reads the lower end of the objective coordinate, and 0 when it is not finite |
| TempHeap.HeapTemperature | memoria_cofigo/temp_heap.h:36 | the cost's temperature `100 * (k/2)^depth` is non-negative for `k >= 0` |
| TempHeap.HeapCost | memoria_cofigo/temp_heap.h:33-38 | the cost never exceeds the lower bound it starts from when `bias` and `k` are non-negative |
| TempHeap.HeapCostIgnoresCellTemperature | memoria_cofigo/temp_heap.h:33-38 | the cost does not depend on the cell's own temperature |
| TempHeap.ScheduleGrows | memoria_cofigo/temp_heap.h:36 | with `k > 2` the cost's temperature strictly grows with depth |
| TempHeap.DeeperCostsLess | memoria_cofigo/temp_heap.h:33-38 | with `k > 2` and `bias > 0`, a cell one level deeper costs strictly less |
| TempHeap.Push | memoria_cofigo/temp_heap.cpp:38-53 | a null cell changes nothing, a cell past the depth cut or below the volume cut is discarded, and any other cell is appended unchanged |
| TempHeap.Survivors | memoria_cofigo/temp_heap.cpp:41-51 | the cells the filter keeps are none of them discarded and all come from the input |
| TempHeap.PushAllKeepsSurvivors | memoria_cofigo/temp_heap.cpp:38-53 | a run of pushes appends exactly the cells the filter keeps, in order |
| TempHeap.PushAll | memoria_cofigo/temp_heap.cpp:38-53 | a run of pushes never changes the settings, keeps the stored cells as a prefix, and adds at most one cell per push |
| TempHeap.SurvivorsOnlyReadSettings | memoria_cofigo/temp_heap.cpp:41-51 | the filter depends only on the heap's settings, never on its stored cells |
| TempHeap.DepthCutBoundsStoredCells | memoria_cofigo/temp_heap.cpp:41-44 | with a positive depth cut, a heap filled from empty holds only cells shallower than the cut |
| Experiments.EvalValue | memoria_cofigo/fda_experimentos.cpp:37-40 | a node's value is its depth share `100 / (1 + depth)` plus less than 0.1 of noise, so it lies in (0, 100.1), and takes exactly one draw |
| Experiments.MakeChild | memoria_cofigo/fda_experimentos.cpp:48-56 | a child is one level deeper, keeps between 0.4 and 0.7 of its parent's relative volume, and takes two draws |
| Experiments.GenerateChildren | memoria_cofigo/fda_experimentos.cpp:44-58 | there are exactly two children, both one level deeper and each shrunk to between 0.4 and 0.7 of the parent's volume, after four draws |
| Experiments.FirstMax | memoria_cofigo/fda_experimentos.cpp:98-105 | the selection loop settles on a maximal score, and on the first one when several tie |
| Experiments.Bonuses | memoria_cofigo/fda_experimentos.cpp:160-163 | the base run adds no bonus, the plain runs add `k * T / 2` to both children, and the randomised runs add a share of it drawn per child |
| Experiments.NextTemperature | memoria_cofigo/fda_experimentos.cpp:175 | the next temperature is `T` in the base run, `k * T / 2` in the plain runs, and that times one fresh draw in the randomised runs |
| Experiments.SimStep | memoria_cofigo/fda_experimentos.cpp:140-176 | a step keeps the smaller of the best value and the node's value, stops exactly when the variant's cut holds, and otherwise moves one level deeper with the draws of one split |
| Experiments.SameBonusSameChoice | memoria_cofigo/fda_experimentos.cpp:160-172 | adding the same bonus to both scores never changes which child is chosen |
| Experiments.PlainChoiceIgnoresTemperature | memoria_cofigo/fda_experimentos.cpp:156-174 | a plain temperature run descends to the same node, with the same best value and engine state, as the base run would |
| Experiments.StepKeepsTempInv | memoria_cofigo/fda_experimentos.cpp:138-175 | the temperature stays `T0` in the base run, equals `T0 * (k/2)^depth` in the plain runs, and stays between 0 and that in the randomised runs |
| Experiments.StepKeepsVolumeInv | memoria_cofigo/fda_experimentos.cpp:52-53 | a node's relative volume stays between `0.4^depth` and `0.7^depth` |
| Experiments.StepKeepsHorizon | memoria_cofigo/fda_experimentos.cpp:92-96 | no run goes deeper than its stop allows: depth 51 for the base run, `d_max` for the depth runs, and 7 for the volume runs when `tauV >= 0.1`, since `0.7^7 < 0.1` |
| Experiments.StepKeepsBest | memoria_cofigo/fda_experimentos.cpp:86-89 | the best value stays positive, at most its starting `1e100`, and below 100.1 once a node was seen |
| Experiments.VisitKeepsSettled | memoria_cofigo/fda_experimentos.cpp:78-107 | one visit and step keep the run's tally equal to a straight descent from depth 0 and the engine at the draws made so far |
| Experiments.Descend | memoria_cofigo/fda_experimentos.cpp:78-107 | the loop visits at most `max_nodes` nodes, a single straight path from the root; it stops either on the budget or on the variant's cut right after the node that meets it |
| Experiments.Simulate | memoria_cofigo/fda_experimentos.cpp:62-121 | a run reports `max_depth = nodes - 1`, `avg_depth = (nodes - 1) / 2` and `reached_optimum = true`, with a best value in (0, 1e100] and the engine advanced by exactly the draws the run made |
| Experiments.RunBase | memoria_cofigo/fda_experimentos.cpp:62-121 | the base run visits `min(max_nodes, 52)` nodes and makes one draw for the root, one per visit and four per split |
| Experiments.RunDepthTk | memoria_cofigo/fda_experimentos.cpp:125-187 | the depth run visits `min(max_nodes, d_max + 1)` nodes and ends at temperature `T0 * (k/2)^depth` |
| Experiments.RunDepthTkRand | memoria_cofigo/fda_experimentos.cpp:191-254 | the randomised depth run visits `min(max_nodes, d_max + 1)` nodes and ends at a temperature between 0 and `T0 * (k/2)^depth` |
| Experiments.RunVolTk | memoria_cofigo/fda_experimentos.cpp:258-319 | the volume run stops early only at a node whose relative volume is at most `tauV`, and after at most 8 nodes when `tauV >= 0.1` |
| Experiments.RunVolTkRand | memoria_cofigo/fda_experimentos.cpp:323-385 | the randomised volume run stops early only at a node of relative volume at most `tauV`, after at most 8 nodes when `tauV >= 0.1` |
| Experiments.SelectVariant | memoria_cofigo/fda_experimentos.cpp:412-446 | exactly the five variant names are accepted, each builds the variant of that name, and the depth runs get `d_max = 30` and the volume runs `tauV` (0.10 by default) |
| Experiments.SelectNamesRoundTrip | memoria_cofigo/fda_experimentos.cpp:412-446 | every variant `main` can build is selected back from its own name |
| Experiments.RunVariant | memoria_cofigo/fda_experimentos.cpp:428-441 | each dispatched run keeps its own node bound |
| Experiments.Experiment | memoria_cofigo/fda_experimentos.cpp:407-462 | `main` exits with 1 exactly when the name is unknown and at least one repetition is asked for, and otherwise returns one row per repetition, each within its node bound |
| OptFull.InferMode | memoria_cofigo/ibex_opt_full.cpp:157-163 | the inferred mode is one of the four mode names or empty; it is empty exactly when the executable's name contains neither `depth_k` nor `vol_k`, and each mode is chosen exactly when its name occurs and no earlier-checked name does |
| OptFull.FdChoice | memoria_cofigo/ibex_opt_full.cpp:166 | an explicit `--fd-mode` is taken as given. Without it the choice is one of the four mode names or empty, and it is empty exactly when the executable's name mentions neither `depth_k` nor `vol_k` |
| OptFull.InferOwnName | memoria_cofigo/ibex_opt_full.cpp:157-165 | an executable named after a mode, with any prefix and suffix that mention no other mode, infers that mode |
| OptFull.FdPathChoice | memoria_cofigo/ibex_opt_full.cpp:165-169 | without `--fd-mode` the FD path is taken exactly when the executable's name contains `depth_k` or `vol_k`; with it, exactly when the given mode is one of the four names |
| OptFull.ModeFlags | memoria_cofigo/ibex_opt_full.cpp:368-370 | each of the four modes orders by exactly one of depth and volume, and is randomised exactly for the `_rand` modes |
| OptFull.IsRand | memoria_cofigo/ibex_opt_full.cpp:368 | among the four modes, exactly `depth_k_rand` and `vol_k_rand` are randomised |
| OptFull.RefVolume | memoria_cofigo/ibex_opt_full.cpp:364-367 | the reference volume differs from 1 only when the root box is neither empty nor unbounded and its volume is that value |
| OptFull.LogVolume | memoria_cofigo/ibex_opt_full.cpp:390-391 | `logV` is 0 when the reference volume is not positive |
| OptFull.ScaleVol | memoria_cofigo/ibex_opt_full.cpp:393-401 | the domain adjustments scale a non-negative volume cut by a factor between 0.63 and 1.8 |
| OptFull.ScaleDepth | memoria_cofigo/ibex_opt_full.cpp:402-410 | the domain adjustments keep a depth cut of at least 2 between 2 and two more than it, and at most 3 on huge domains for a base of at most 3 |
| OptFull.SampleK | memoria_cofigo/ibex_opt_full.cpp:383-386 | the sampled `k` lies in [5, 15] |
| OptFull.SampleDepthCut | memoria_cofigo/ibex_opt_full.cpp:412-415 | the sampled and clamped depth cut lies in [2, 6], and is at most 3 on huge domains |
| OptFull.SampleVolCut | memoria_cofigo/ibex_opt_full.cpp:422-426 | the sampled and clamped volume cut lies in [0.07, 0.13] |
| OptFull.BaseParams | memoria_cofigo/ibex_opt_full.cpp:380-437 | before the domain adjustments, the derived parameters are `T0 = 100`, bias 0.01, tie noise 0.001 and the sampled `k`. A depth mode keeps its cut, with a hard cut 3 above it and no volume cut. A volume mode keeps its cut, with hard ratio 0.02 and no depth cut. `rand_k` holds exactly in the `_rand` modes |
| OptFull.LargeDomain | memoria_cofigo/ibex_opt_full.cpp:439-460 | a domain with `logV <= 3` keeps every parameter. A larger one only lowers the bias, the tie noise and the volume cut (to at most 0.15), and raises the hard volume ratio to at least 0.025. A huge domain also clamps a depth mode's cut to [2, 4], with a hard cut 2 above it, and resamples `k` only in the randomised modes. Every other parameter is unchanged |
| OptFull.DeriveParams | memoria_cofigo/ibex_opt_full.cpp:364-460 | the derived parameters have `k` in [5, 15], `T0 = 100`, a depth cut in [2, 6] with hard cut 3 above it for depth modes (in [2, 4] with 2 above on huge domains) and 0 otherwise, a volume cut in [0.07, 0.13] for volume modes (at most 0.12 on large domains) and 0 otherwise, and the mode's randomisation flag and seed |
| OptFull.HugeDomainDepthCut | memoria_cofigo/ibex_opt_full.cpp:440-448 | on huge domains the depth cut ends up in [2, 3], so the clamp to [2, 4] never lowers it |
| RunMenu.DropLeadingBlanks | memoria_cofigo/run_menu.cpp:122-123 | only spaces and tabs are cut from the front, up to the first other character |
| RunMenu.DropTrailingBlanks | memoria_cofigo/run_menu.cpp:124-125 | only spaces and tabs are cut from the end, back to the last other character |
| RunMenu.Trim | memoria_cofigo/run_menu.cpp:122-125 | a token with a non-blank character is cut to a piece that starts and ends with a non-blank, and a token that already does is unchanged; an all-blank token is left as it is, since both searches fail |
| RunMenu.PickOne | memoria_cofigo/run_menu.cpp:121-129 | a token selects at most one variant, and only one of the menu's |
| RunMenu.Pick | memoria_cofigo/run_menu.cpp:120-130 | the tokens select at most one variant each, all of them from the menu |
| RunMenu.ParseSelection | memoria_cofigo/run_menu.cpp:115-135 | an empty line, or one that selects nothing, runs all five variants; otherwise the variants its tokens name, in order and with repeats |
| RunMenu.AtoiDigit | memoria_cofigo/run_menu.cpp:126 | `atoi` reads a one-digit token as its digit |
| RunMenu.Atoi | memoria_cofigo/run_menu.cpp:126 | a negative value needs a minus sign after the leading white space. A token whose first non-space character is neither a sign nor a digit reads as 0 |
| RunMenu.AtoiRoundTrip | memoria_cofigo/run_menu.cpp:126 | `atoi` reads back every integer as it is printed |
| RunMenu.PickDigits | memoria_cofigo/run_menu.cpp:120-130 | the tokens `1`..`5` select the variants of those menu numbers, in order |
| RunMenu.SelectionRoundTrip | memoria_cofigo/run_menu.cpp:115-135 | typing some menu numbers separated by commas selects exactly those variants, in the order typed |
| RunMenu.ProblemTasks | memoria_cofigo/run_menu.cpp:154-158 | one variant contributes ten runs per problem |
| RunMenu.Tasks | memoria_cofigo/run_menu.cpp:153-159 | the task list is one block of ten runs per problem for each selected variant |
| RunMenu.TaskCount | memoria_cofigo/run_menu.cpp:152-159 | the batch holds `|selected| * |problems| * 10` tasks |
| RunMenu.TaskAt | memoria_cofigo/run_menu.cpp:153-159 | task `(i * |problems| + j) * 10 + r` runs variant `i` on problem `j` with run id `r`: variant-major, then problem, then repetition |
| RunMenu.Command | memoria_cofigo/run_menu.cpp:170-173 | the command is the binary and the problem, followed by `--fd-mode=<mode>` exactly when the variant has a mode |
| RunMenu.VariantModes | memoria_cofigo/run_menu.cpp:28-34 | `base` runs the optimiser without a mode and every other variant runs the mode of its own name |
| RunResults.ScanLine | memoria_cofigo/run_menu.cpp:47-59 | a line sets `optimal` exactly when it announces success and mentions none of the markers checked before it; `optimal` is never cleared |
| RunResults.ScanOptimal | memoria_cofigo/run_menu.cpp:46-60 | after the whole output, `optimal` holds exactly when some line announced success |
| RunResults.ScanAll | memoria_cofigo/run_menu.cpp:46-60 | once a line has announced success, `optimal` stays set to the end of the output |
| RunResults.RowSplits | memoria_cofigo/run_menu.cpp:63-65 | a run's row splits back into its eight fields when the variant name and the printed numbers have no comma |
| RunResults.RowFields | memoria_cofigo/run_menu.cpp:63-65 | a run's row has eight fields: run id, variant, best, nodes, elapsed, `NA` twice, and `1` exactly when the run was optimal (`0` otherwise). With a comma-free variant name and number printing, no field holds a comma |
| RunResults.RunRow | memoria_cofigo/run_menu.cpp:37-67 | the row is empty exactly when the process could not be started; otherwise it has eight fields, the run id first, the variant second, `NA` for both depths, and `1` last exactly when the output announced success |
| RunResults.HeaderFields | memoria_cofigo/run_menu.cpp:182 | the header line splits into its nine column names |
| RunResults.Splice | memoria_cofigo/run_menu.cpp:185-189 | a row with at least two commas gets the problem name as a new third field; a row with fewer is left alone |
| RunResults.SpliceFields | memoria_cofigo/run_menu.cpp:185-188 | inserting `,problem` at the second comma is the same as inserting the problem as the third field |
| RunResults.WithNewline | memoria_cofigo/run_menu.cpp:190-191 | a written row ends with a line end, added only when missing |
| RunResults.FailureRow | memoria_cofigo/run_menu.cpp:193-194 | the row of a run that could not start ends with a line end |
| RunResults.Appended | memoria_cofigo/run_menu.cpp:184-195 | every append is a non-empty text ending in a line end |
| RunResults.AppendedMatchesHeader | memoria_cofigo/run_menu.cpp:179-195 | every row a worker appends has the header's nine fields, with the run id, the variant and the problem first; a run that did not start gets the failure fields |
| RunResults.FailureRowFields | memoria_cofigo/run_menu.cpp:292-294 | a failure row splits back into its nine fields |
| RunResults.FailureFields | memoria_cofigo/run_menu.cpp:193-194 | a failure row has nine fields: run id, variant and problem, then `nan` (batch mode) or `NA` (single-problem mode) as the best value, and `0` as optimal. No field holds a comma when the names hold none |
| RunMenu.MaxParallel | memoria_cofigo/run_menu.cpp:254-255 | the suggested parallelism is two fewer than the hardware threads, and at least 1 |
| RunMenu.ClampRuns | memoria_cofigo/run_menu.cpp:257-261 | the number of runs is raised to 1 and capped at the suggested parallelism, and kept exactly when already within those bounds |
| Text.SplitCommaFree | memoria_cofigo/run_menu.cpp:120 | no field `getline(ss, token, ',')` returns holds a comma |
| Text.IndexOf | memoria_cofigo/run_menu.cpp:185 | `find(',')` returns the first position of the character, and the length when it is absent |
| Text.SplitJoin | memoria_cofigo/run_menu.cpp:120 | splitting comma-free fields joined with commas gives the fields back |
| Text.JoinSplit | memoria_cofigo/run_menu.cpp:120 | joining a line's comma-separated fields gives the line back |
| Text.OccursAt | memoria_cofigo/ibex_opt_full.cpp:158 | a successful substring search finds an occurrence at some position |
| Text.AtOccurs | memoria_cofigo/ibex_opt_full.cpp:158 | an occurrence at a known position is found by the substring search |
| Random.Unit01 | memoria_cofigo/fda_experimentos.cpp:31 | a draw from `uniform_real_distribution(0, 1)` lies in [0, 1) |
| Random.DrawsAdd | memoria_cofigo/fda_experimentos.cpp:30-31 | drawing `a` values and then `b` more leaves the engine where drawing `a + b` would |
| RealMath.Round | memoria_cofigo/ibex_opt_full.cpp:413 | `round` gives the nearest integer, halfway cases away from zero |
| RealMath.HalfProduct | memoria_cofigo/FDA_depth_k.cpp:66 | the halved product `k * T / 2` of the temperature rules is non-negative for non-negative factors and 0 at `T = 0`. It is at most `T` for a factor of at most 2, and strictly above `T` for a factor above 2 and positive `T` |

## Left out

- Interval-library numerics are oracles, not definitions. This covers contraction, the objective's enclosure, `volume`, relative `bisect`, the ibex `Heap`, `Optimizer` and `DefaultSolver`. `is_unbounded` and `max_diam` are defined (`Bridge.Unbounded`, `Bridge.MaxDiam`). The source declares `adaptive_k`, `contract_with_goal`, and the `OptContext` overloads of `bisect_box`, `eval_at_mid` and `heur_diving_score`, but never defines them. The model gives these only the properties the call sites rely on.
- Floating-point rounding is not modelled. `exp` is an oracle that is positive with `exp(0) = 1`. `pow` is defined on integer exponents, and `log10` is a parameter.
- Random engines become the abstract `Random.Rng`. A `random_device` seed becomes a parameter.
- Timing is not modelled: `chrono` and `elapsed_seconds` are left out, and the simulator's `elapsed_seconds` stays 0.
- Process, thread and file handling is left to the caller. This covers `popen` and the `fgets` line splitting, the thread pools, the mutex-guarded appends, `fs::path` file names and the directory listing. The optimiser's output arrives as a sequence of lines, and `sscanf` and the printing of doubles are parameters.
- Console output is not modelled: the `[fd-debug]` printing in `TempBuffer::push` and its `getenv` switch, the menus and the usage text.
- The following mains are outside this model: argument parsing in the mains, the main of `ibex_opt_full.cpp` beyond lines 157-169 and 355-460, `fda_bridge_ibex.cpp`, `run_vol_k_main.cpp`, `ibex_opt_base.cpp` and `mini_ibexsolve.cpp`. They are I/O wrappers over ibex.
- `run_fda_base_bb` in `export_variantes/FD_base.cpp` only delegates to ibex's `DefaultSolver`.
- `prop.update_bisect` in `Cell::bisect` belongs to ibex's property list.
- temp_buffer.h declares members that temp_buffer.cpp never defines: a delegate constructor, `items_`, `score_heap_`, `lb_heap_` and `prune_*`. The model follows the .cpp, and takes only the `Params` and `Item` defaults and the counters from the header.
- Integer widths: `atoi` overflow and the double-to-`uint64_t` seed cast are not modelled. The node and depth counters are unbounded integers, because they never come close to their C++ limits within a bounded budget.
- Bridge.MaxDiamIsMaximum: states the maximum property only when no coordinate's diameter is NaN. With a NaN diameter, `Bridge.MaxDiam` is the diameter of the first coordinate that no later one strictly exceeds, and need not be what ibex's `max_diam` returns.
- TempBuffer.Pop: says only that some stored cell comes out and exactly one copy leaves, because which one depends on the ibex heap order, an oracle.
- TempBuffer.Minimum: is the heap order's minimum, an oracle, on a non-empty buffer.
- TempBuffer.Contract: states only that contraction removes cells and touches nothing else, because which cells go depends on the ibex heap.
- TempHeap.HeapCost: states the bound below the lower bound. The ordering facts are separate lemmas (`DeeperCostsLess`, `HeapCostIgnoresCellTemperature`).
- TempBuffer.Cost: states bounds around the objective bound. The exact sum is stated by `TempBuffer.Score` and `TempBuffer.TempTermValue`.
- IbexCell.Bisect: the relative-position split is ibex's `IntervalVector::bisect`, an oracle. Only the absolute split's boxes are stated.
- OptFull.RefVolume: states that a value other than 1 comes from a non-empty bounded box. It does not state that such a box's volume is always taken.
- OptFull.LogVolume: states only the non-positive case, because `log10` is a parameter.
- RunMenu.PickOne: states only that at most one menu variant is selected. Which one is stated for digit tokens by `RunMenu.DigitTokenPicks` and `RunMenu.PickDigits`.
- RunMenu.Pick: states membership and length only. The exact selection for typed menu numbers is `RunMenu.PickDigits`.
- RunResults.FailureRow: states only the line end. Its fields are stated by `RunResults.FailureRowFields`.
- RunResults.Appended: states only the line end. Its fields are stated by `RunResults.AppendedMatchesHeader`.
- Experiments.RunVariant: states the node bounds of each dispatched run. Each run's full contract is on the run itself.
- Experiments.RunVolTk: the node count depends on the drawn volume factors, so only its bounds are stated.
- Experiments.RunVolTkRand: the node count depends on the drawn volume factors, so only its bounds are stated.

## Findings

| source | as written | input that shows it | evidently intended | confidence | as-written member | corrected member |
|---|---|---|---|---|---|---|
| memoria_cofigo/FD_base.cpp:171-188 | `run_fda_base_bb` passes the node's depth as `base_depth` to `dive_base`, which then counts absolute depths, but the fold adds `depth` again (`depth + max_depth`, `depth * (n - 1) + sum`) | a B&B node at depth 1 whose dive visits one node: the run reports `max_depth = 2`, and the depth sum grows by `n * depth` too much | the dive counts from local depth 0, as in `FDA_depth_k.cpp`, so the fold adds exactly the depths `depth .. depth + n - 1` | not executed | FdBase.BbNodeAccountingAsWrittenOvercounts | FdBase.BbNodeAccountingExact |
| memoria_cofigo/FD_base.cpp:134-135 | the three-value initialiser `{right, depth + 1, 0.0}` does not match `BbNode`'s declared fields `box, goal_bounds, depth, T`. The integer lands in `goal_bounds` and the double in `int depth`, a narrowing conversion that list-initialisation forbids. The same form is at lines 114, 149-150 and 196-197, and in `export_variantes/FDA_depth_k.cpp` and `export_variantes/FDA_vol_k_rand.cpp` | a child `{half, depth + 1, 0.0}`: read in declared order, it has depth 0 and goal bounds `[depth + 1, depth + 1]`. An exported root `{root_box, 0, T0}` with `T0 = 100` would start at depth 100 with `T = 0` | the four-value form of `FDA_depth_k.cpp:130`, `{box, Interval(), depth, T}` | not executed; a conforming compiler rejects the narrowing, so as shown these files do not build against this header | Bridge.PositionalNodeLosesDepth | Bridge.MakeNode |

The corrected accounting is what `FdBase.RunFdaBaseBb` uses: its dives start from local depth 0. The as-written fold is also stated in general by `Accounting.FoldAbsoluteRunOvercounts`, with the concrete case in `Accounting.FoldAbsoluteDiveExample`. The corrected fold is stated in general by `Accounting.FoldLocalRun`.

For the node initialisers, `Bridge.PositionalNode` models the three-value form read in declared field order. `Bridge.PositionalNodeLosesDepth` shows the lost depth and temperature. Every driver of the model builds its nodes with `Bridge.MakeNode`.

## Notes on the code

- The exported B&B drivers never set `reached_optimum`, so their rows report 0 even after an incumbent was found (`ExportCommon.ExportFinishHidesIncumbent`). The other drivers report `has_ub`. The model follows the code.
- The deterministic variants give both halves the same temperature bonus, so the temperature never changes which half a dive takes. This is stated by `ExtReal.SameBonusKeepsOrder`, `FdaDepthK.BranchIgnoresTemperature`, `FdaVolK.VolBranchIgnoresTemperature` and `Experiments.PlainChoiceIgnoresTemperature`. Only the noisy variants can choose differently.
- In `dive_depth_k` and `dive_depth_k_rand` the precision stop compares the dive's local depth, counted from 0, with the absolute `base_depth`. The model follows the code.
- `fda_bridge_common.h` declares `BbNode` with the fields `box, goal_bounds, depth, T`. The non-exported depth and volume drivers build it with four values, as in `{root_box, Interval(), 0, T0}`. `FD_base.cpp` and the two exported drivers build it with three, as in `{root_box, 0, 0.0}` and `{left, depth + 1, T_child}`. Against the declared struct, these initialisers bind the integer to `goal_bounds` and the double to `int depth`. That is a narrowing conversion, which list-initialisation forbids. The model follows the evident intent: the whole line as goal bounds, then the depth, then the temperature (`Bridge.MakeNode`, used by every driver). The as-written reading is `Bridge.PositionalNode` (see Findings).
- `deterministic_noise` is documented as lying in `[0.5, 1.5)`, but a masked value of `2^53 - 1` gives exactly 1.5. The model states the closed range `[0.5, 1.5]`.
- In the parameter derivation of `ibex_opt_full.cpp`, some clamps never change a value:
  - the cap of the volume cut at 0.15 never applies, because the cut is already at most 0.13;
  - on huge domains the scaled depth cut is already in [2, 3], so the clamp to [2, 4] never lowers it (`OptFull.HugeDomainDepthCut`).
