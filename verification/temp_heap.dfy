/** `TempHeap`, the optimiser's cell heap with a thermal cost and two
    discard filters: a cell deep enough, or of small enough volume relative
    to the reference volume, is deleted on push instead of being stored.
    Ordering is the interval library's heap and is not modelled; only which
    cells reach the heap is. */
module TempHeap {
  import opened ExtReal
  import opened Bridge
  import opened RealMath
  import opened IbexCell
  import opened TempBuffer

  /** The heap's state: the stored cells and the constructor's settings. */
  datatype Heap = Heap(cells: seq<Cell>, goalVar: int, k: real, bias: real, depthCut: int, volRatioCut: real,
                       V0: real)

  /** The constructor: an empty heap whose reference volume is `V0_ref` when
      positive and 1 otherwise, so it is always positive. */
  function NewHeap(goalVar: int, k: real, bias: real, depthCut: int, volRatioCut: real, V0Ref: real): (h: Heap)
    ensures h.cells == [] && h.V0 > 0.0
    ensures V0Ref > 0.0 ==> h.V0 == V0Ref
    ensures V0Ref <= 0.0 ==> h.V0 == 1.0
    ensures h.goalVar == goalVar && h.k == k && h.bias == bias
    ensures h.depthCut == depthCut && h.volRatioCut == volRatioCut
  {
    Heap([], goalVar, k, bias, depthCut, volRatioCut, if V0Ref > 0.0 then V0Ref else 1.0)
  }

  /** The lower end of the objective coordinate, with a non-finite one read as 0. */
  function LowerOrZero(r: Range): (lb: real)
    ensures IsFinite(r.lo) ==> lb == r.lo.v
    ensures !IsFinite(r.lo) ==> lb == 0.0
  {
    if IsFinite(r.lo) then r.lo.v else 0.0
  }

  /** The cost's temperature: `T0 * (k/2)^depth` with `T0` fixed at 100, from
      the depth alone. */
  function HeapTemperature(k: real, depth: U32): (T: real)
    ensures k >= 0.0 ==> T >= 0.0
  {
    Schedule(100.0, k, depth)
  }

  /** `TempCost::cost`: the lower bound (0 when not finite) minus `bias`
      times the schedule temperature. With `bias >= 0` and `k >= 0` it never
      exceeds that lower bound. */
  function HeapCost(h: Heap, c: Cell): (cost: real)
    requires 0 <= h.goalVar < |c.box|
    ensures h.bias >= 0.0 && h.k >= 0.0 ==> cost <= LowerOrZero(c.box[h.goalVar])
  {
    var T := HeapTemperature(h.k, c.depth);
    NonNegProduct(h.bias, T);
    LowerOrZero(c.box[h.goalVar]) - h.bias * T
  }

  /** The cost never reads the cell's own temperature. */
  lemma HeapCostIgnoresCellTemperature(h: Heap, c: Cell, T: real)
    requires 0 <= h.goalVar < |c.box|
    ensures HeapCost(h, c) == HeapCost(h, c.(temperature := T))
  {
  }

  /** With `k > 2` the schedule grows with depth ... */
  lemma {:induction false} ScheduleGrows(k: real, d: nat)
    requires k > 2.0
    ensures Schedule(100.0, k, d) < Schedule(100.0, k, d + 1)
  {
    PowPositive(k / 2.0, d);
    var pd := Pow(k / 2.0, d);
    assert Pow(k / 2.0, d + 1) == (k / 2.0) * pd;
    GrowsByFactor(pd, k / 2.0);
  }

  lemma GrowsByFactor(x: real, f: real)
    requires x > 0.0 && f > 1.0
    ensures 100.0 * x < 100.0 * (f * x)
  {
  }

  /** ... so between two cells with the same objective coordinate, the
      deeper one costs strictly less when `bias > 0`. */
  lemma DeeperCostsLess(h: Heap, c: Cell)
    requires 0 <= h.goalVar < |c.box| && h.bias > 0.0 && h.k > 2.0 && c.depth < 0xFFFF_FFFF
    ensures HeapCost(h, c.(depth := c.depth + 1)) < HeapCost(h, c)
  {
    var deeper := c.(depth := c.depth + 1);
    var T, T' := HeapTemperature(h.k, c.depth), HeapTemperature(h.k, c.depth + 1);
    ScheduleGrows(h.k, c.depth);
    ScaleStrict(h.bias, T, T');
    assert HeapCost(h, c) == LowerOrZero(c.box[h.goalVar]) - h.bias * T;
    assert HeapCost(h, deeper) == LowerOrZero(c.box[h.goalVar]) - h.bias * T';
  }

  /** The discard filter of `push`: a positive `depth_cut_` the cell's
      (signed) depth reaches, or a positive `vol_ratio_cut_` with a bounded
      box of finite volume at most `vol_ratio_cut_ * V0_`. */
  predicate Discarded(h: Heap, m: Measure, c: Cell) {
    (h.depthCut > 0 && SignedDepth(c.depth) >= h.depthCut) ||
    (h.volRatioCut > 0.0 && !Unbounded(c.box) && m.volume(c.box).Fin? &&
     m.volume(c.box).v <= h.volRatioCut * h.V0)
  }

  /** `TempHeap::push`: a null cell changes nothing, a discarded cell is
      deleted and never reaches the heap, and any other cell is stored
      unchanged. The settings never change. */
  function Push(h: Heap, m: Measure, cell: Option<Cell>): (r: Heap)
    ensures r == h.(cells := r.cells)
    ensures r.cells == h.cells || (cell.Some? && r.cells == h.cells + [cell.value])
    ensures cell.Some? ==> (r.cells == h.cells + [cell.value] <==> !Discarded(h, m, cell.value))
  {
    match cell
    case None => h
    case Some(c) => if Discarded(h, m, c) then h else h.(cells := h.cells + [c])
  }

  /** The cells of `cells` the filter keeps, in order. */
  function Survivors(h: Heap, m: Measure, cells: seq<Cell>): (kept: seq<Cell>)
    ensures |kept| <= |cells|
    ensures forall i :: 0 <= i < |kept| ==> !Discarded(h, m, kept[i]) && kept[i] in cells
    decreases |cells|
  {
    if |cells| == 0 then []
    else
      var rest := Survivors(h, m, cells[1..]);
      if Discarded(h, m, cells[0]) then rest else [cells[0]] + rest
  }

  /** Pushing cells one after another. */
  function PushAll(h: Heap, m: Measure, cells: seq<Cell>): (r: Heap)
    ensures r == h.(cells := r.cells)
    ensures |h.cells| <= |r.cells| <= |h.cells| + |cells| && r.cells[..|h.cells|] == h.cells
    decreases |cells|
  {
    if |cells| == 0 then h else PushAll(Push(h, m, Some(cells[0])), m, cells[1..])
  }

  /** A run of pushes appends exactly the cells the filter keeps, in order;
      so a heap that starts empty never holds a discarded cell. */
  lemma {:induction false} PushAllKeepsSurvivors(h: Heap, m: Measure, cells: seq<Cell>)
    ensures PushAll(h, m, cells) == h.(cells := h.cells + Survivors(h, m, cells))
    decreases |cells|
  {
    if |cells| > 0 {
      var h1 := Push(h, m, Some(cells[0]));
      PushAllKeepsSurvivors(h1, m, cells[1..]);
      assert Survivors(h1, m, cells[1..]) == Survivors(h, m, cells[1..]) by {
        SurvivorsOnlyReadSettings(h1, h, m, cells[1..]);
      }
      if Discarded(h, m, cells[0]) {
        assert h1 == h;
      } else {
        assert h1.cells + Survivors(h, m, cells[1..]) == h.cells + ([cells[0]] + Survivors(h, m, cells[1..]));
      }
    }
  }

  /** The filter reads only the settings, never the stored cells. */
  lemma {:induction false} SurvivorsOnlyReadSettings(h: Heap, h': Heap, m: Measure, cells: seq<Cell>)
    requires h' == h.(cells := h'.cells)
    ensures Survivors(h, m, cells) == Survivors(h', m, cells)
    decreases |cells|
  {
    if |cells| > 0 {
      SurvivorsOnlyReadSettings(h, h', m, cells[1..]);
      assert Discarded(h, m, cells[0]) == Discarded(h', m, cells[0]);
    }
  }

  /** With a positive depth cut, a heap filled from empty holds only cells
      shallower than the cut. */
  lemma DepthCutBoundsStoredCells(h: Heap, m: Measure, cells: seq<Cell>)
    requires h.cells == [] && h.depthCut > 0
    ensures forall c :: c in PushAll(h, m, cells).cells ==> SignedDepth(c.depth) < h.depthCut
  {
    PushAllKeepsSurvivors(h, m, cells);
    var kept := Survivors(h, m, cells);
    forall c | c in PushAll(h, m, cells).cells
      ensures SignedDepth(c.depth) < h.depthCut
    {
      assert c in kept;
      var i :| 0 <= i < |kept| && kept[i] == c;
      assert !Discarded(h, m, kept[i]);
    }
  }
}
