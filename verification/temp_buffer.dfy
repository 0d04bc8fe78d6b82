/** `TempBuffer`, the thermal cell buffer of the optimiser: a cost that puts
    the objective's lower bound first and breaks ties by temperature, and a
    push that counts (but never acts on) depth and volume triggers with
    jittered thresholds. The heap behind it is the interval library's; only
    its contents are modelled, and which cell it hands out is an oracle. */
module TempBuffer {
  import opened ExtReal
  import opened Bridge
  import opened RealMath
  import opened IbexCell

  /** `TempBuffer::Params`. `tie_break_mode` is kept but never read. */
  datatype Params = Params(
    k: real, bias: real, T0: real, depthCut: int, volRatioCut: real, V0Ref: real, logV0Ref: real,
    useLogVolume: bool, depthPenalty: real, volPenalty: real, depthHardCut: real, volHardRatio: real,
    randK: bool, randSeed: bv64, tieNoise: real, depthCutJitter: real, volCutJitter: real, tieBreakMode: int)

  /** The member initialisers of `Params`. */
  const DefaultParams := Params(10.0, 0.001, 100.0, 0, 0.0, 1.0, 0.0, false, 0.0, 0.0, 0.0, 0.0,
                                false, 1, 0.0, 0.0, 0.0, 0)

  /** `TempBuffer::Item` as declared (a cell pointer, its bounds and score,
      its volume data and depth, and a liveness flag). */
  datatype Item = Item(cell: Option<Cell>, lb: EReal, score: EReal, volRatio: EReal, logVolume: EReal,
                       depth: int, alive: bool)

  /** A default-initialised `Item`: no cell, everything at `+inf` or 0, alive. */
  function FreshItem(): (it: Item)
    ensures it.alive && it.cell.None? && it.depth == 0
    ensures it.lb == PosInf && it.score == PosInf && it.volRatio == PosInf && it.logVolume == PosInf
  {
    Item(None, PosInf, PosInf, PosInf, PosInf, 0, true)
  }

  // ---------------------------------------------------------------------------
  // Noise and jitter

  /** `static_cast<int>` of an `unsigned int` depth: values from 2^31 on
      wrap to negative numbers. */
  function SignedDepth(d: U32): (r: int)
    ensures d < 0x8000_0000 ==> r == d
    ensures d >= 0x8000_0000 ==> r < 0
  {
    if d < 0x8000_0000 then d else d - 0x1_0000_0000
  }

  /** `jitter(base, rel, seed, depth)`: `base` when `rel <= 0`, otherwise
      `base * (1 + rel * n)` for a deterministic `n` in [-0.5, 0.5], so a
      non-negative base moves by at most `rel / 2` of itself. */
  function Jitter(base: real, rel: real, seed: bv64, depth: bv64): (r: real)
    ensures rel <= 0.0 ==> r == base
    ensures rel > 0.0 && base >= 0.0 ==> base - base * rel / 2.0 <= r <= base + base * rel / 2.0
    ensures 0.0 <= rel <= 2.0 && base >= 0.0 ==> r >= 0.0
  {
    if rel <= 0.0 then base else Jittered(base, rel, DeterministicNoise(seed, depth))
  }

  /** `base * (1 + rel * (noise - 1))` for a noise factor from [0.5, 1.5]. */
  function Jittered(base: real, rel: real, noise: real): (r: real)
    requires 0.5 <= noise <= 1.5
    ensures rel > 0.0 && base >= 0.0 ==> base - base * rel / 2.0 <= r <= base + base * rel / 2.0
    ensures 0.0 < rel <= 2.0 && base >= 0.0 ==> r >= 0.0
  {
    JitterRange(base, rel, noise - 1.0);
    base * (1.0 + rel * (noise - 1.0))
  }

  lemma JitterRange(base: real, rel: real, n: real)
    requires -0.5 <= n <= 0.5
    ensures rel > 0.0 && base >= 0.0 ==> base - base * rel / 2.0 <= base * (1.0 + rel * n) <= base + base * rel / 2.0
    ensures 0.0 < rel <= 2.0 && base >= 0.0 ==> base * (1.0 + rel * n) >= 0.0
  {
    if base >= 0.0 && rel > 0.0 {
      var br := base * rel;
      assert br >= 0.0;
      assert base * (1.0 + rel * n) == base + br * n;
      assert -0.5 * br <= br * n <= 0.5 * br;
      if rel <= 2.0 {
        assert rel * n >= -0.5 * rel;
        NonNegProduct(base, 1.0 + rel * n);
      }
    }
  }

  /** The depth limit after jitter: `depth_cut` unless both it and
      `depth_cut_jitter` are positive, in which case the rounded jittered
      value, but never below 1. */
  function DepthLimit(p: Params, depth: U32): (r: int)
    ensures p.depthCut <= 0 ==> r == p.depthCut
    ensures p.depthCut > 0 ==> r >= 1
    ensures p.depthCut > 0 && p.depthCutJitter <= 0.0 ==> r == p.depthCut
  {
    if p.depthCut > 0 && p.depthCutJitter > 0.0 then
      Max(1, Round(Jitter(p.depthCut as real, p.depthCutJitter, p.randSeed ^ 0x44444444, depth as bv64)))
    else p.depthCut
  }

  /** The volume threshold `vr * V0_ref`, with `vr` the jittered
      `vol_ratio_cut` when `vol_cut_jitter` is positive. A jitter of at most
      2 keeps a positive ratio's threshold non-negative. */
  function VolThreshold(p: Params, depth: U32): (r: real)
    ensures p.volCutJitter <= 0.0 ==> r == p.volRatioCut * p.V0Ref
    ensures p.volRatioCut > 0.0 && p.V0Ref > 0.0 && p.volCutJitter <= 2.0 ==> r >= 0.0
  {
    var vr := if p.volCutJitter > 0.0 then Jitter(p.volRatioCut, p.volCutJitter, p.randSeed ^ 0x33333333, depth as bv64)
              else p.volRatioCut;
    NonNegProduct(vr, p.V0Ref);
    vr * p.V0Ref
  }

  lemma NonNegProduct(a: real, b: real)
    ensures a >= 0.0 && b >= 0.0 ==> a * b >= 0.0
  {
  }

  // ---------------------------------------------------------------------------
  // TempCost::cost

  /** The cost's main term: the lower end of the coordinate when finite,
      otherwise its upper end. */
  function Bound(r: Range): (b: EReal)
    ensures IsFinite(r.lo) ==> b == r.lo
    ensures !IsFinite(r.lo) ==> b == r.hi
  {
    if IsFinite(r.lo) then r.lo else r.hi
  }

  /** `k_eff`: `k`, scaled by the noise of the cell's depth when `rand_k`. */
  function KEff(k: real, randK: bool, seed: bv64, depth: U32): (kEff: real)
    ensures !randK ==> kEff == k
    ensures k >= 0.0 ==> k / 2.0 <= kEff <= 3.0 * k / 2.0
  {
    if randK then Noisy(k, DeterministicNoise(seed, depth as bv64)) else k
  }

  /** `a` times a noise factor from [0.5, 1.5]. */
  function Noisy(a: real, n: real): (r: real)
    requires 0.5 <= n <= 1.5
    ensures a >= 0.0 ==> a / 2.0 <= r <= 3.0 * a / 2.0
  {
    a * n
  }

  /** The schedule temperature `T0 * (k/2)^depth`, non-negative when both
      `T0` and `k` are. */
  function Schedule(T0: real, k: real, depth: nat): (T: real)
    ensures T0 >= 0.0 && k >= 0.0 ==> T >= 0.0
  {
    if k >= 0.0 then
      PowNonNegative(k / 2.0, depth);
      NonNegProduct(T0, Pow(k / 2.0, depth));
      T0 * Pow(k / 2.0, depth)
    else T0 * Pow(k / 2.0, depth)
  }

  /** The temperature the cost uses: the cell's own when positive, otherwise
      the schedule value `T0 * (k_eff/2)^depth`. */
  function EffectiveTemperature(p: Params, c: Cell): (T: real)
    ensures c.temperature > 0.0 ==> T == c.temperature
    ensures c.temperature <= 0.0 ==> T == Schedule(p.T0, KEff(p.k, p.randK, p.randSeed, c.depth), c.depth)
    ensures p.T0 >= 0.0 && p.k >= 0.0 ==> T >= 0.0
  {
    if c.temperature > 0.0 then c.temperature else Schedule(p.T0, KEff(p.k, p.randK, p.randSeed, c.depth), c.depth)
  }

  /** `bias * (1 / (1 + T))`; `1 + T == 0` divides by +0. */
  function TempTerm(bias: real, T: real): (r: EReal)
    ensures T >= 0.0 && bias >= 0.0 ==> r.Fin? && 0.0 <= r.v <= bias
    ensures T >= 0.0 && bias > 0.0 ==> r.Fin? && 0.0 < r.v
  {
    var q := DivBy(Fin(1.0), 1.0 + T);
    if T >= 0.0 then
      ReciprocalBounds(T);
      ScaleUnit(bias, 1.0 / (1.0 + T));
      Scale(bias, q)
    else Scale(bias, q)
  }

  lemma ReciprocalBounds(T: real)
    requires T >= 0.0
    ensures 0.0 < 1.0 / (1.0 + T) <= 1.0
  {
  }

  lemma ScaleUnit(bias: real, q: real)
    requires 0.0 < q <= 1.0
    ensures bias >= 0.0 ==> 0.0 <= bias * q <= bias
    ensures bias > 0.0 ==> 0.0 < bias * q
  {
  }

  /** The tie-break term `tie_noise * noise`, present only when `tie_noise > 0`. */
  function TieTerm(tieNoise: real, seed: bv64, depth: U32): (r: real)
    ensures tieNoise <= 0.0 ==> r == 0.0
    ensures tieNoise > 0.0 ==> tieNoise / 2.0 <= r <= 3.0 * tieNoise / 2.0
  {
    if tieNoise > 0.0 then Noisy(tieNoise, DeterministicNoise(seed ^ 0x22222222, depth as bv64)) else 0.0
  }

  /** `TempCost::cost`: the bound of the objective coordinate plus a thermal
      term that is smaller for hotter cells, plus the optional tie noise.
      With a finite bound, `bias >= 0` and a non-negative temperature, the
      score exceeds the bound by at most `bias` plus the tie noise. The
      depth and volume tests the function also computes never reach the
      score, so they are not part of it. */
  function Cost(p: Params, goalVar: int, c: Cell): (score: EReal)
    requires 0 <= goalVar < |c.box|
    ensures var b := Bound(c.box[goalVar]);
            IsFinite(b) && p.bias >= 0.0 && EffectiveTemperature(p, c) >= 0.0 ==>
              score.Fin? && b.v + TieTerm(p.tieNoise, p.randSeed, c.depth) <= score.v <= b.v + p.bias + TieTerm(p.tieNoise, p.randSeed, c.depth)
    ensures !IsFinite(Bound(c.box[goalVar])) ==> !score.Fin?
  {
    Score(p.bias, Bound(c.box[goalVar]), EffectiveTemperature(p, c), TieTerm(p.tieNoise, p.randSeed, c.depth))
  }

  /** The score from its parts: bound, thermal term, and tie term (added only
      when positive). */
  function Score(bias: real, b: EReal, T: real, tie: real): (score: EReal)
    ensures IsFinite(b) && bias >= 0.0 && T >= 0.0 ==> score.Fin? && b.v + tie <= score.v <= b.v + bias + tie
    ensures !IsFinite(b) ==> !score.Fin?
    ensures IsFinite(b) && T >= 0.0 ==> score.Fin? && score.v == b.v + TempTerm(bias, T).v + tie
  {
    var s := Add(b, TempTerm(bias, T));
    if tie != 0.0 then Add(s, Fin(tie)) else s
  }

  /** Between two cells that differ only in a positive temperature, the
      hotter one gets the strictly smaller score when `bias > 0`. */
  lemma HotterScoresLower(p: Params, goalVar: int, c: Cell, hot: real, cold: real)
    requires 0 <= goalVar < |c.box| && IsFinite(Bound(c.box[goalVar]))
    requires p.bias > 0.0 && 0.0 < cold < hot
    ensures Lt(Cost(p, goalVar, c.(temperature := hot)), Cost(p, goalVar, c.(temperature := cold)))
  {
    var ch := c.(temperature := hot);
    var cc := c.(temperature := cold);
    assert EffectiveTemperature(p, ch) == hot && EffectiveTemperature(p, cc) == cold;
    assert TieTerm(p.tieNoise, p.randSeed, ch.depth) == TieTerm(p.tieNoise, p.randSeed, cc.depth);
    HotterTermLower(p.bias, hot, cold);
  }

  /** A hotter cell's thermal term is strictly smaller. */
  lemma HotterTermLower(bias: real, hot: real, cold: real)
    requires bias > 0.0 && 0.0 < cold < hot
    ensures TempTerm(bias, hot).v < TempTerm(bias, cold).v
  {
    TempTermValue(bias, hot);
    TempTermValue(bias, cold);
    ReciprocalDecreasing(cold, hot);
    ScaleStrict(bias, 1.0 / (1.0 + hot), 1.0 / (1.0 + cold));
  }

  lemma ReciprocalDecreasing(a: real, b: real)
    requires 0.0 < a < b
    ensures 1.0 / (1.0 + b) < 1.0 / (1.0 + a)
  {
    var x := 1.0 + a;
    var y := 1.0 + b;
    assert 1.0 / y == (1.0 / x) * (x / y);
    assert x / y < 1.0;
    assert 1.0 / x > 0.0;
  }

  /** For a non-negative temperature the thermal term is the finite
      `bias / (1 + T)`. */
  lemma TempTermValue(bias: real, T: real)
    requires T >= 0.0
    ensures TempTerm(bias, T) == Fin(bias * (1.0 / (1.0 + T)))
  {
    assert DivBy(Fin(1.0), 1.0 + T) == Fin(1.0 / (1.0 + T));
  }

  lemma ScaleStrict(c: real, x: real, y: real)
    requires c > 0.0 && x < y
    ensures c * x < c * y
  {
  }

  /** A cell without a positive temperature costs what it would cost if it
      carried the schedule temperature `T0 * (k_eff/2)^depth`. */
  lemma ScheduleFallback(p: Params, goalVar: int, c: Cell)
    requires 0 <= goalVar < |c.box| && c.temperature <= 0.0
    ensures Cost(p, goalVar, c) ==
            Cost(p, goalVar, c.(temperature := Schedule(p.T0, KEff(p.k, p.randK, p.randSeed, c.depth), c.depth)))
  {
    var c' := c.(temperature := Schedule(p.T0, KEff(p.k, p.randK, p.randSeed, c.depth), c.depth));
    assert EffectiveTemperature(p, c') == EffectiveTemperature(p, c);
    assert c'.box == c.box && c'.depth == c.depth;
    assert Cost(p, goalVar, c') == Score(p.bias, Bound(c.box[goalVar]), EffectiveTemperature(p, c'), TieTerm(p.tieNoise, p.randSeed, c.depth));
  }

  /** Only `k`, `bias`, `T0`, `rand_k`, `rand_seed` and `tie_noise` reach a
      cost: the depth and volume tests inside `cost` only count, and that
      count is never read, so the trigger parameters never change a score. */
  lemma CostParamsOnly(p: Params, q: Params, goalVar: int, c: Cell)
    requires 0 <= goalVar < |c.box|
    requires p.k == q.k && p.bias == q.bias && p.T0 == q.T0 && p.randK == q.randK
    requires p.randSeed == q.randSeed && p.tieNoise == q.tieNoise
    ensures Cost(p, goalVar, c) == Cost(q, goalVar, c)
  {
    SameTemperature(p, q, c);
    assert TieTerm(p.tieNoise, p.randSeed, c.depth) == TieTerm(q.tieNoise, q.randSeed, c.depth);
  }

  lemma SameTemperature(p: Params, q: Params, c: Cell)
    requires p.k == q.k && p.T0 == q.T0 && p.randK == q.randK && p.randSeed == q.randSeed
    ensures EffectiveTemperature(p, c) == EffectiveTemperature(q, c)
  {
    assert KEff(p.k, p.randK, p.randSeed, c.depth) == KEff(q.k, q.randK, q.randSeed, c.depth);
  }

  /** With a finite lower end, the upper end of the coordinate plays no part. */
  lemma CostIgnoresUpperEnd(p: Params, goalVar: int, c: Cell, hi: EReal)
    requires 0 <= goalVar < |c.box| && IsFinite(c.box[goalVar].lo)
    ensures Cost(p, goalVar, c) == Cost(p, goalVar, c.(box := c.box[goalVar := c.box[goalVar].(hi := hi)]))
  {
    var c' := c.(box := c.box[goalVar := c.box[goalVar].(hi := hi)]);
    assert Bound(c'.box[goalVar]) == Bound(c.box[goalVar]);
    assert EffectiveTemperature(p, c') == EffectiveTemperature(p, c);
    assert Cost(p, goalVar, c') == Score(p.bias, Bound(c.box[goalVar]), EffectiveTemperature(p, c), TieTerm(p.tieNoise, p.randSeed, c.depth));
  }

  // ---------------------------------------------------------------------------
  // The buffer

  /** The buffer's state: the cells in the library heap, the cached minimum,
      the reinsertion flag, and the five read-only counters. */
  datatype Buffer = Buffer(
    heap: seq<Cell>, lastMin: EReal, reinserting: bool,
    triggerCount: nat, depthTriggerCount: nat, volTriggerCount: nat, volEvalCount: nat, volNonfiniteCount: nat)

  /** What the library heap decides: which cell `pop`/`top` hands out, the
      minimum cost it reports, and which cells `contract` keeps. */
  datatype HeapOrder = HeapOrder(pick: seq<Cell> -> nat, minimum: seq<Cell> -> EReal,
                                 prune: (seq<Cell>, real) -> seq<Cell>)

  /** The heap picks one of its cells and only ever removes cells on contraction. */
  ghost predicate OrderValid(o: HeapOrder) {
    (forall s: seq<Cell> :: |s| > 0 ==> o.pick(s) < |s|) &&
    (forall s: seq<Cell>, loup: real :: multiset(o.prune(s, loup)) <= multiset(s))
  }

  /** The constructor: an empty buffer with counters at 0 and `last_min_ = +inf`;
      it also installs `k`, `rand_k`, `rand_seed` and `T0` as the cells'
      temperature parameters. */
  function NewBuffer(p: Params): (r: (Buffer, TempParams))
    ensures r.0.heap == [] && r.0.lastMin == PosInf && !r.0.reinserting
    ensures r.0.triggerCount == 0 && r.0.depthTriggerCount == 0 && r.0.volTriggerCount == 0
    ensures r.0.volEvalCount == 0 && r.0.volNonfiniteCount == 0
    ensures r.1.k == p.k && r.1.rand == p.randK && r.1.seed == p.randSeed && r.1.T0 == p.T0
  {
    (Buffer([], PosInf, false, 0, 0, 0, 0, 0), SetTempParams(p.k, p.randK, p.randSeed, p.T0))
  }

  /** The depth trigger of `push`: a positive jittered limit the cell's
      (signed) depth reaches. */
  predicate DepthTrigger(p: Params, c: Cell) {
    var limit := DepthLimit(p, c.depth);
    limit > 0 && SignedDepth(c.depth) >= limit
  }

  /** The volume trigger of `push`: a positive ratio, a bounded box whose
      volume is finite, a positive `V0_ref`, and a volume at most the
      threshold. */
  predicate VolTrigger(p: Params, m: Measure, c: Cell) {
    p.volRatioCut > 0.0 && !Unbounded(c.box) && m.volume(c.box).Fin? && p.V0Ref > 0.0 &&
    m.volume(c.box).v <= VolThreshold(p, c.depth)
  }

  /** Whether a push adds one to `trigger_count_`: not while reinserting,
      not for the root (depth 0), and only when a trigger fires. */
  predicate Counts(p: Params, m: Measure, reinserting: bool, c: Cell) {
    !reinserting && c.depth > 0 && (DepthTrigger(p, c) || VolTrigger(p, m, c))
  }

  /** `TempBuffer::push`: a null cell changes nothing; any other cell is
      inserted whatever the triggers say, and `trigger_count_` grows by one
      exactly when the push counts. Nothing else changes. */
  function Push(p: Params, m: Measure, b: Buffer, cell: Option<Cell>): (r: Buffer)
    ensures cell.None? ==> r == b
    ensures cell.Some? ==> r.heap == b.heap + [cell.value]
    ensures cell.Some? ==> (r.triggerCount == b.triggerCount + 1 <==> Counts(p, m, b.reinserting, cell.value))
    ensures r.triggerCount == b.triggerCount || r.triggerCount == b.triggerCount + 1
    ensures r == b.(heap := r.heap, triggerCount := r.triggerCount)
  {
    match cell
    case None => b
    case Some(c) =>
      var bump := if Counts(p, m, b.reinserting, c) then 1 else 0;
      b.(heap := b.heap + [c], triggerCount := b.triggerCount + bump)
  }

  /** Pushing cells one after another. */
  function PushAll(p: Params, m: Measure, b: Buffer, cells: seq<Cell>): (r: Buffer)
    ensures |r.heap| == |b.heap| + |cells|
    ensures b.triggerCount <= r.triggerCount <= b.triggerCount + |cells|
    decreases |cells|
  {
    if |cells| == 0 then b else PushAll(p, m, Push(p, m, b, Some(cells[0])), cells[1..])
  }

  /** How many of `cells` a push would count. */
  function CountTriggers(p: Params, m: Measure, reinserting: bool, cells: seq<Cell>): (n: nat)
    ensures n <= |cells|
    decreases |cells|
  {
    if |cells| == 0 then 0
    else (if Counts(p, m, reinserting, cells[0]) then 1 else 0) + CountTriggers(p, m, reinserting, cells[1..])
  }

  /** After a run of pushes every cell is in the buffer, in push order, and
      `trigger_count_` has grown by the number of pushes that counted, so by
      at most one per push. */
  lemma {:induction false} PushAllSpec(p: Params, m: Measure, b: Buffer, cells: seq<Cell>)
    ensures PushAll(p, m, b, cells).heap == b.heap + cells
    ensures PushAll(p, m, b, cells).triggerCount == b.triggerCount + CountTriggers(p, m, b.reinserting, cells)
    ensures PushAll(p, m, b, cells).triggerCount <= b.triggerCount + |cells|
    ensures PushAll(p, m, b, cells) == b.(heap := b.heap + cells, triggerCount := b.triggerCount + CountTriggers(p, m, b.reinserting, cells))
    decreases |cells|
  {
    if |cells| > 0 {
      var bump := if Counts(p, m, b.reinserting, cells[0]) then 1 else 0;
      var b1 := Push(p, m, b, Some(cells[0]));
      assert b1 == b.(heap := b.heap + [cells[0]], triggerCount := b.triggerCount + bump);
      PushAllSpec(p, m, b1, cells[1..]);
      assert b1.heap + cells[1..] == b.heap + cells;
      assert CountTriggers(p, m, b.reinserting, cells) == bump + CountTriggers(p, m, b.reinserting, cells[1..]);
    }
  }

  /** With the default parameters no push ever counts: both triggers are off. */
  lemma DefaultsNeverTrigger(m: Measure, reinserting: bool, c: Cell)
    ensures !Counts(DefaultParams, m, reinserting, c)
  {
  }

  /** `size()` */
  function Size(b: Buffer): (n: nat)
    ensures n == |b.heap|
  {
    |b.heap|
  }

  /** `pop()`: null on an empty buffer, which stays as it is; otherwise the
      cell the heap picks, removed once from the contents. */
  function Pop(o: HeapOrder, b: Buffer): (r: (Option<Cell>, Buffer))
    requires OrderValid(o)
    ensures |b.heap| == 0 ==> r.0.None? && r.1 == b
    ensures |b.heap| > 0 ==> r.0.Some? && r.0.value in b.heap && |r.1.heap| == |b.heap| - 1 &&
                             multiset(r.1.heap) + multiset{r.0.value} == multiset(b.heap)
    ensures r.1 == b.(heap := r.1.heap)
  {
    if |b.heap| == 0 then (None, b)
    else
      var i := o.pick(b.heap);
      assert b.heap == b.heap[..i] + [b.heap[i]] + b.heap[i + 1..];
      (Some(b.heap[i]), b.(heap := b.heap[..i] + b.heap[i + 1..]))
  }

  /** `top()`: null on an empty buffer; otherwise the cell `pop` would hand
      out. The buffer is left alone. */
  function Top(o: HeapOrder, b: Buffer): (r: Option<Cell>)
    requires OrderValid(o)
    ensures r == Pop(o, b).0
    ensures r.Some? <==> |b.heap| > 0
  {
    if |b.heap| == 0 then None else Some(b.heap[o.pick(b.heap)])
  }

  /** `minimum()`: `+inf` on an empty buffer, the heap's minimum otherwise. */
  function Minimum(o: HeapOrder, b: Buffer): (r: EReal)
    ensures |b.heap| == 0 ==> r == PosInf
    ensures |b.heap| > 0 ==> r == o.minimum(b.heap)
  {
    if |b.heap| == 0 then PosInf else o.minimum(b.heap)
  }

  /** `flush()`: the buffer is emptied and `last_min_` reset; the counters stay. */
  function Flush(b: Buffer): (r: Buffer)
    ensures r.heap == [] && r.lastMin == PosInf
    ensures r == b.(heap := [], lastMin := PosInf)
  {
    b.(heap := [], lastMin := PosInf)
  }

  /** `contract(loup)`: the heap drops what it prunes; nothing is added. */
  function Contract(o: HeapOrder, b: Buffer, loup: real): (r: Buffer)
    requires OrderValid(o)
    ensures multiset(r.heap) <= multiset(b.heap)
    ensures r == b.(heap := r.heap)
  {
    b.(heap := o.prune(b.heap, loup))
  }

  /** A push followed by a pop of an otherwise empty buffer gives the cell
      back and leaves the buffer empty again, with the counters of the push. */
  lemma PushThenPop(p: Params, m: Measure, o: HeapOrder, b: Buffer, c: Cell)
    requires OrderValid(o) && b.heap == []
    ensures Pop(o, Push(p, m, b, Some(c))).0 == Some(c)
    ensures Pop(o, Push(p, m, b, Some(c))).1 == Push(p, m, b, Some(c)).(heap := [])
  {
    var b1 := Push(p, m, b, Some(c));
    assert b1.heap == [c];
  }
}
