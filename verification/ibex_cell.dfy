/** The search-tree node `ibex::Cell` extended with a temperature: the four
    process-wide temperature parameters become an explicit record, and a split
    produces two children one level deeper that share a decayed temperature. */
module IbexCell {
  import opened ExtReal
  import opened Bridge
  import opened RealMath

  /** `unsigned int` */
  type U32 = x: int | 0 <= x < 0x1_0000_0000

  /** The statics `temp_k_`, `temp_T0_`, `temp_rand_`, `temp_seed_`. */
  datatype TempParams = TempParams(k: real, T0: real, rand: bool, seed: bv64)

  /** The values the statics hold before anyone sets them. */
  const DefaultTempParams := TempParams(10.0, 100.0, false, 1)

  /** `set_temp_params(k, rand_flag, seed, T0)`: replaces all four parameters. */
  function SetTempParams(k: real, randFlag: bool, seed: bv64, T0: real): (p: TempParams)
    ensures p.k == k && p.rand == randFlag && p.seed == seed && p.T0 == T0
  {
    TempParams(k, T0, randFlag, seed)
  }

  datatype Cell = Cell(box: Box, bisectedVar: int, depth: U32, temperature: real)

  /** `BisectionPoint`: the variable to split, the split position, and whether
      the position is relative to the interval or absolute. */
  datatype BisectionPoint = BisectionPoint(splitVar: int, pos: real, relPos: bool)

  const Mask53: bv64 := 0x1F_FFFF_FFFF_FFFF

  /** The low 53 bits of a word, as a number, never exceed 2^53 - 1. */
  lemma MaskedBound(z: bv64)
    ensures (z & Mask53) as int <= Mask53 as int
  {
    assert (z & Mask53) <= Mask53;
  }

  /** The splitmix64 scramble of `depth + 1` and the seed, with 64-bit
      wrap-around on every addition and multiplication. */
  function Splitmix(seed: bv64, depth: bv64): bv64 {
    var z0 := (depth + 1) ^ (seed + 0x9e3779b97f4a7c15);
    var z1 := (z0 ^ (z0 >> 30)) * 0xbf58476d1ce4e5b9;
    var z2 := (z1 ^ (z1 >> 27)) * 0x94d049bb133111eb;
    z2 ^ (z2 >> 31)
  }

  /** The low 53 bits of a word scaled into [0.5, 1.5]. */
  function ScaleLow53(z: bv64): (r: real)
    ensures 0.5 <= r <= 1.5
  {
    MaskedBound(z);
    0.5 + ((z & Mask53) as int) as real / (Mask53 as int) as real
  }

  /** `deterministic_noise(seed, depth)`: a multiplicative factor in [0.5, 1.5]
      that depends on nothing but its two arguments. */
  function DeterministicNoise(seed: bv64, depth: bv64): (r: real)
    ensures 0.5 <= r <= 1.5
  {
    ScaleLow53(Splitmix(seed, depth))
  }

  /** `depth + 1` on an `unsigned int`. */
  function ChildDepth(d: U32): (r: U32)
    ensures d < 0xFFFF_FFFF ==> r == d + 1
    ensures d == 0xFFFF_FFFF ==> r == 0
  {
    (d + 1) % 0x1_0000_0000
  }

  /** `Cell(box, bisected_var = -1, depth = 0)`: a new cell takes the current
      root temperature `T0`. */
  function NewCell(params: TempParams, box: Box, bisectedVar: int := -1, depth: U32 := 0): (c: Cell)
    ensures c.box == box && c.bisectedVar == bisectedVar && c.depth == depth
    ensures c.temperature == params.T0
  {
    Cell(box, bisectedVar, depth, params.T0)
  }

  /** The root cell built with the constructor's defaults. */
  lemma RootCellDefaults(params: TempParams, box: Box)
    ensures NewCell(params, box).bisectedVar == -1
    ensures NewCell(params, box).depth == 0
    ensures NewCell(params, box).temperature == params.T0
    ensures NewCell(DefaultTempParams, box).temperature == 100.0
  {
  }

  /** The copy constructor: every field carried over. */
  function CopyCell(e: Cell): (c: Cell)
    ensures c == e
  {
    Cell(e.box, e.bisectedVar, e.depth, e.temperature)
  }

  /** The noise factor of a split at `depth`: 1 unless randomisation is on. */
  function SplitNoise(params: TempParams, depth: U32): (r: real)
    ensures !params.rand ==> r == 1.0
    ensures 0.5 <= r <= 1.5
  {
    if params.rand then DeterministicNoise(params.seed, ChildDepth(depth) as bv64) else 1.0
  }

  /** `Cell::bisect`. A relative split position is resolved by the interval
      library (`IntervalVector::bisect`), given here as `relSplit`; an absolute
      one cuts the chosen coordinate at `pos`. Both children are one level
      deeper, remember the split variable, and get the temperature
      `(T/2) * k * noise`. */
  function Bisect(params: TempParams, c: Cell, pt: BisectionPoint,
                  relSplit: (Box, int, real) -> (Box, Box)): (r: (Cell, Cell))
    requires 0 <= pt.splitVar < |c.box|
    ensures r.0.depth == ChildDepth(c.depth) && r.1.depth == ChildDepth(c.depth)
    ensures r.0.bisectedVar == pt.splitVar && r.1.bisectedVar == pt.splitVar
    ensures r.0.temperature == r.1.temperature
    ensures r.0.temperature == (c.temperature / 2.0) * params.k * SplitNoise(params, c.depth)
    ensures pt.relPos ==> (r.0.box, r.1.box) == relSplit(c.box, pt.splitVar, pt.pos)
    ensures !pt.relPos ==>
              |r.0.box| == |c.box| && |r.1.box| == |c.box| &&
              r.0.box[pt.splitVar] == Range(c.box[pt.splitVar].lo, Fin(pt.pos)) &&
              r.1.box[pt.splitVar] == Range(Fin(pt.pos), c.box[pt.splitVar].hi) &&
              forall i :: 0 <= i < |c.box| && i != pt.splitVar ==> r.0.box[i] == c.box[i] && r.1.box[i] == c.box[i]
  {
    var boxes :=
      if pt.relPos then relSplit(c.box, pt.splitVar, pt.pos)
      else (c.box[pt.splitVar := Range(c.box[pt.splitVar].lo, Fin(pt.pos))],
            c.box[pt.splitVar := Range(Fin(pt.pos), c.box[pt.splitVar].hi)]);
    var childTemp := (c.temperature / 2.0) * params.k * SplitNoise(params, c.depth);
    (Cell(boxes.0, pt.splitVar, ChildDepth(c.depth), childTemp),
     Cell(boxes.1, pt.splitVar, ChildDepth(c.depth), childTemp))
  }

  /** Cutting one interval at a position inside it partitions the interval. */
  lemma SplitAtPartition(r: Range, pos: real, x: real)
    requires !r.lo.NaN? && !r.hi.NaN?
    requires Le(r.lo, Fin(pos)) && Le(Fin(pos), r.hi)
    ensures InRange(x, r) <==> InRange(x, Range(r.lo, Fin(pos))) || InRange(x, Range(Fin(pos), r.hi))
    ensures InRange(x, Range(r.lo, Fin(pos))) && InRange(x, Range(Fin(pos), r.hi)) ==> x == pos
  {
  }

  /** An absolute split at a position inside the chosen interval partitions the
      cell's box: every point lies in a child, and points in both lie on the cut. */
  lemma AbsoluteBisectPartition(params: TempParams, c: Cell, pt: BisectionPoint,
                                relSplit: (Box, int, real) -> (Box, Box), p: seq<real>)
    requires 0 <= pt.splitVar < |c.box| && !pt.relPos
    requires !c.box[pt.splitVar].lo.NaN? && !c.box[pt.splitVar].hi.NaN?
    requires Le(c.box[pt.splitVar].lo, Fin(pt.pos)) && Le(Fin(pt.pos), c.box[pt.splitVar].hi)
    ensures var (l, r) := Bisect(params, c, pt, relSplit);
            InBox(p, c.box) <==> InBox(p, l.box) || InBox(p, r.box)
    ensures var (l, r) := Bisect(params, c, pt, relSplit);
            InBox(p, l.box) && InBox(p, r.box) ==> p[pt.splitVar] == pt.pos
  {
    var (l, r) := Bisect(params, c, pt, relSplit);
    var v := pt.splitVar;
    if |p| == |c.box| {
      SplitAtPartition(c.box[v], pt.pos, p[v]);
      if InBox(p, c.box) {
        if InRange(p[v], l.box[v]) {
          assert forall i :: 0 <= i < |l.box| ==> InRange(p[i], l.box[i]);
        } else {
          assert forall i :: 0 <= i < |r.box| ==> InRange(p[i], r.box[i]);
        }
      }
      if InBox(p, l.box) {
        assert InRange(p[v], l.box[v]);
        assert forall i :: 0 <= i < |c.box| ==> InRange(p[i], c.box[i]);
      }
      if InBox(p, r.box) {
        assert InRange(p[v], r.box[v]);
        assert forall i :: 0 <= i < |c.box| ==> InRange(p[i], c.box[i]);
      }
      if InBox(p, l.box) && InBox(p, r.box) {
        assert InRange(p[v], l.box[v]) && InRange(p[v], r.box[v]);
      }
    }
  }

  /** The cell reached by a sequence of absolute splits, taking the left child
      (`true`) or the right child (`false`) each time. */
  function Descend(params: TempParams, c: Cell, path: seq<(BisectionPoint, bool)>,
                   relSplit: (Box, int, real) -> (Box, Box)): Cell
    requires forall j :: 0 <= j < |path| ==> 0 <= path[j].0.splitVar < |c.box| && !path[j].0.relPos
    decreases |path|
  {
    if |path| == 0 then c
    else
      var kids := Bisect(params, c, path[0].0, relSplit);
      var next := if path[0].1 then kids.0 else kids.1;
      Descend(params, next, path[1..], relSplit)
  }

  /** Without randomisation, `d` splits below a cell multiply its temperature
      by `(k/2)^d` and add `d` to its depth (while the depth does not wrap). */
  lemma {:induction false} DescendTemperature(params: TempParams, c: Cell,
                                              path: seq<(BisectionPoint, bool)>,
                                              relSplit: (Box, int, real) -> (Box, Box))
    requires !params.rand
    requires forall j :: 0 <= j < |path| ==> 0 <= path[j].0.splitVar < |c.box| && !path[j].0.relPos
    requires c.depth + |path| < 0x1_0000_0000
    ensures Descend(params, c, path, relSplit).temperature == c.temperature * Pow(params.k / 2.0, |path|)
    ensures Descend(params, c, path, relSplit).depth == c.depth + |path|
    ensures |Descend(params, c, path, relSplit).box| == |c.box|
    decreases |path|
  {
    if |path| > 0 {
      var next := SplitOnce(params, c, path[0].0, path[0].1, relSplit);
      DescendTemperature(params, next, path[1..], relSplit);
      var q := params.k / 2.0;
      assert Pow(q, |path|) == q * Pow(q, |path| - 1);
      MulAssoc(c.temperature, q, Pow(q, |path| - 1));
    }
  }

  /** The child a single noise-free absolute split leads to. */
  function SplitOnce(params: TempParams, c: Cell, pt: BisectionPoint, goLeft: bool,
                     relSplit: (Box, int, real) -> (Box, Box)): (next: Cell)
    requires !params.rand && 0 <= pt.splitVar < |c.box| && !pt.relPos
    ensures next == (if goLeft then Bisect(params, c, pt, relSplit).0 else Bisect(params, c, pt, relSplit).1)
    ensures next.temperature == c.temperature * (params.k / 2.0)
    ensures next.depth == ChildDepth(c.depth) && |next.box| == |c.box|
  {
    var kids := Bisect(params, c, pt, relSplit);
    if goLeft then kids.0 else kids.1
  }

  lemma MulAssoc(a: real, b: real, c: real)
    ensures a * (b * c) == (a * b) * c
  {
  }

  /** From a root cell, `d` noise-free splits give temperature `T0 * (k/2)^d`
      and depth `d`. */
  lemma RootTemperatureAfterSplits(params: TempParams, box: Box,
                                   path: seq<(BisectionPoint, bool)>,
                                   relSplit: (Box, int, real) -> (Box, Box))
    requires !params.rand
    requires forall j :: 0 <= j < |path| ==> 0 <= path[j].0.splitVar < |box| && !path[j].0.relPos
    requires |path| < 0x1_0000_0000
    ensures Descend(params, NewCell(params, box), path, relSplit).temperature ==
              params.T0 * Pow(params.k / 2.0, |path|)
    ensures Descend(params, NewCell(params, box), path, relSplit).depth == |path|
  {
    DescendTemperature(params, NewCell(params, box), path, relSplit);
  }
}
