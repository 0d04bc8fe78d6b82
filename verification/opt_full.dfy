/** The pure decisions inside the `ibexopt` front end: which Feasible Diving
    mode a run uses (inferred from the executable name or given with
    `--fd-mode`), and how the `TempBuffer` parameters are derived from the
    mode, the root box's volume, the number of variables and a few draws of
    the run's engine. */
module OptFull {
  import opened RealMath
  import opened Random
  import opened Bridge
  import opened TempBuffer
  import opened Text

  // ---------------------------------------------------------------------------
  // Mode selection

  /** The four Feasible Diving modes. */
  predicate IsFdMode(m: string) {
    m == "depth_k" || m == "depth_k_rand" || m == "vol_k" || m == "vol_k_rand"
  }

  /** The `infer_mode` lambda: the first of `depth_k_rand`, `depth_k`,
      `vol_k_rand`, `vol_k` that occurs in the executable's name, else "". */
  function InferMode(exe: string): (m: string)
    ensures m == "" || IsFdMode(m)
    ensures m != "" ==> Occurs(m, exe)
    ensures m == "" <==> !Occurs("depth_k", exe) && !Occurs("vol_k", exe)
    ensures m == "depth_k_rand" <==> Occurs("depth_k_rand", exe)
    ensures m == "depth_k" <==> Occurs("depth_k", exe) && !Occurs("depth_k_rand", exe)
    ensures m == "vol_k_rand" <==> !Occurs("depth_k", exe) && Occurs("vol_k_rand", exe)
    ensures m == "vol_k" <==> !Occurs("depth_k", exe) && Occurs("vol_k", exe) && !Occurs("vol_k_rand", exe)
  {
    if Occurs("depth_k_rand", exe) then
      assert "depth_k" + "_rand" == "depth_k_rand";
      OccursPrefix("depth_k", "_rand", exe);
      "depth_k_rand"
    else if Occurs("depth_k", exe) then "depth_k"
    else if Occurs("vol_k_rand", exe) then
      assert "vol_k" + "_rand" == "vol_k_rand";
      OccursPrefix("vol_k", "_rand", exe);
      "vol_k_rand"
    else if Occurs("vol_k", exe) then "vol_k"
    else ""
  }

  /** An executable named after a mode (with any prefix and suffix, as in
      `ibexopt_vol_k`) is inferred to run that mode, unless the name also
      mentions a mode that is checked first. */
  lemma InferOwnName(pre: string, m: string, post: string)
    requires IsFdMode(m)
    requires m == "depth_k" ==> !Occurs("depth_k_rand", pre + m + post)
    requires m == "vol_k" || m == "vol_k_rand" ==> !Occurs("depth_k", pre + m + post)
    requires m == "vol_k" ==> !Occurs("vol_k_rand", pre + m + post)
    ensures InferMode(pre + m + post) == m
  {
    var s := pre + m + post;
    assert s[|pre|..|pre| + |m|] == m;
    AtOccurs(m, s, |pre|);
  }

  /** `fd_choice`: an explicit `--fd-mode` wins over the inferred mode. */
  function FdChoice(fdMode: Option<string>, exe: string): (r: string)
    ensures fdMode.Some? ==> r == fdMode.value
    ensures fdMode.None? ==> r == "" || IsFdMode(r)
    ensures fdMode.None? ==> (r == "" <==> !Occurs("depth_k", exe) && !Occurs("vol_k", exe))
  {
    if fdMode.Some? then fdMode.value else InferMode(exe)
  }

  /** The FD path is taken exactly for the four mode names. */
  predicate UseFdVariant(choice: string) {
    IsFdMode(choice)
  }

  /** Without `--fd-mode`, the FD path is taken exactly when the executable's
      name mentions `depth_k` or `vol_k`; with it, only the flag counts. */
  lemma FdPathChoice(fdMode: Option<string>, exe: string)
    ensures fdMode.None? ==> (UseFdVariant(FdChoice(fdMode, exe)) <==> Occurs("depth_k", exe) || Occurs("vol_k", exe))
    ensures fdMode.Some? ==> (UseFdVariant(FdChoice(fdMode, exe)) <==> IsFdMode(fdMode.value))
  {
  }

  /** `is_rand`, `use_depth`, `use_vol`: substring tests on the mode. */
  function IsRand(m: string): (r: bool)
    ensures IsFdMode(m) ==> (r <==> m == "depth_k_rand" || m == "vol_k_rand")
  {
    if m == "depth_k_rand" || m == "vol_k_rand" then RandFlag(m); Occurs("_rand", m)
    else if m == "depth_k" || m == "vol_k" then NoRandFlag(m); Occurs("_rand", m)
    else Occurs("_rand", m)
  }
  function UsesDepth(m: string): bool { Occurs("depth", m) }
  function UsesVol(m: string): bool { Occurs("vol", m) }

  /** Each mode orders by exactly one of depth and volume, and is randomised
      exactly when it is one of the `_rand` names. */
  lemma ModeFlags(m: string)
    requires IsFdMode(m)
    ensures UsesDepth(m) != UsesVol(m)
    ensures UsesDepth(m) <==> m == "depth_k" || m == "depth_k_rand"
    ensures IsRand(m) <==> m == "depth_k_rand" || m == "vol_k_rand"
  {
    if m == "depth_k" {
      DepthFlags(m);
      OccursNeeds("_rand", m, 'r');
    } else if m == "depth_k_rand" {
      DepthFlags(m);
      RandFlag(m);
    } else if m == "vol_k" {
      VolFlags(m);
      OccursNeeds("_rand", m, 'r');
    } else {
      VolFlags(m);
      RandFlag(m);
    }
  }

  lemma NoRandFlag(m: string)
    requires m == "depth_k" || m == "vol_k"
    ensures !Occurs("_rand", m)
  {
    OccursNeeds("_rand", m, 'r');
  }

  lemma DepthFlags(m: string)
    requires m == "depth_k" || m == "depth_k_rand"
    ensures UsesDepth(m) && !UsesVol(m)
  {
    assert At("depth", m, 0);
    AtOccurs("depth", m, 0);
    OccursNeeds("vol", m, 'v');
  }

  lemma VolFlags(m: string)
    requires m == "vol_k" || m == "vol_k_rand"
    ensures UsesVol(m) && !UsesDepth(m)
  {
    assert At("vol", m, 0);
    AtOccurs("vol", m, 0);
    OccursNeeds("depth", m, 'p');
  }

  lemma RandFlag(m: string)
    requires m == "depth_k_rand" || m == "vol_k_rand"
    ensures Occurs("_rand", m)
  {
    assert m[|m| - 5..] == "_rand";
    assert At("_rand", m, |m| - 5);
    AtOccurs("_rand", m, |m| - 5);
  }

  // ---------------------------------------------------------------------------
  // Parameter derivation

  /** `V0_ref`: the root box's volume when the box is neither empty nor
      unbounded and computing it does not throw (`None`), else 1.0. */
  function RefVolume(empty: bool, unbounded: bool, volume: Option<real>): (v: real)
    ensures v != 1.0 ==> !empty && !unbounded && volume == Some(v)
  {
    if !empty && !unbounded && volume.Some? then volume.value else 1.0
  }

  /** `logV`: `log10(max(1e-12, V0_ref))` when `V0_ref > 0`, else 0; the
      logarithm is a parameter. */
  function LogVolume(V0Ref: real, log10: real -> real): (l: real)
    ensures V0Ref <= 0.0 ==> l == 0.0
  {
    if V0Ref > 0.0 then log10(MaxR(1.0e-12, V0Ref)) else 0.0
  }

  /** `scale_vol`: raise the volume threshold for huge domains and many
      variables, lower it for tiny domains and few variables. */
  function ScaleVol(base: real, logV: real, nv: int): (v: real)
    ensures base >= 0.0 ==> 0.63 * base <= v <= 1.8 * base
  {
    var v1 := if logV > 6.0 then base * 1.5 else if logV > 3.0 then base * 1.2
              else if logV < -2.0 then base * 0.7 else base;
    var v2 := if nv > 20 then v1 * 1.2 else v1;
    if nv < 8 then v2 * 0.9 else v2
  }

  /** `scale_depth`: fewer levels for huge domains and many variables, more
      for tiny domains and few variables, never below 2 from a base of 2. */
  function ScaleDepth(base: int, logV: real, nv: int): (d: int)
    ensures base >= 2 ==> 2 <= d <= base + 2
    ensures logV > 6.0 && base <= 3 ==> d <= 3
  {
    var d1 := if logV > 6.0 then Max(2, base - 2) else if logV > 3.0 then Max(3, base - 1)
              else if logV < -2.0 then base + 1 else base;
    var d2 := if nv > 20 then Max(2, d1 - 1) else d1;
    if nv < 8 then d2 + 1 else d2
  }

  /** `k` sampled around 10 with relative spread `spread`, clamped to [5, 15]. */
  function SampleK(spread: real, u: real): (k: real)
    ensures 5.0 <= k <= 15.0
  {
    MaxR(5.0, MinR(15.0, 10.0 * (1.0 + spread * (2.0 * u - 1.0))))
  }

  /** The sampled depth cut: `round(2.5 (1 + 0.1 (2u - 1)))`, which is 2 or
      3, scaled, then clamped to [2, 6]. */
  function SampleDepthCut(u: real, logV: real, nv: int): (d: int)
    requires 0.0 <= u < 1.0
    ensures 2 <= d <= 6
    ensures logV > 6.0 ==> d <= 3
  {
    var x := 2.5 * (1.0 + 0.1 * (2.0 * u - 1.0));
    var base := Round(x);
    assert 2 <= base <= 3;
    Max(2, Min(6, ScaleDepth(base, logV, nv)))
  }

  /** The sampled volume cut: `0.1 (1 + 0.1 (2u - 1))`, scaled, then clamped
      to [0.07, 0.13]. */
  function SampleVolCut(u: real, logV: real, nv: int): (v: real)
    ensures 0.07 <= v <= 0.13
  {
    MaxR(0.07, MinR(0.13, ScaleVol(0.1 * (1.0 + 0.1 * (2.0 * u - 1.0)), logV, nv)))
  }

  /** The parameters before the domain-size adjustments. */
  function BaseParams(m: string, V0Ref: real, seed: bv64, k: real, depthCut: int, volCut: real): (p: Params)
    ensures p.k == k && p.T0 == 100.0 && p.bias == 0.01 && p.tieNoise == 0.001
    ensures p.V0Ref == V0Ref && p.randK == IsRand(m) && p.randSeed == seed
    ensures UsesDepth(m) ==> p.depthCut == depthCut && p.depthHardCut == (depthCut + 3) as real
    ensures !UsesDepth(m) ==> p.depthCut == 0 && p.depthHardCut == 0.0
    ensures UsesVol(m) ==> p.volRatioCut == volCut && p.volHardRatio == 0.02
    ensures !UsesVol(m) ==> p.volRatioCut == 0.0 && p.volHardRatio == 0.0
    ensures IsFdMode(m) ==> p.depthCut == 0 || p.volRatioCut == 0.0
  {
    if IsFdMode(m) then ModeFlags(m); BaseParamsOf(m, V0Ref, seed, k, depthCut, volCut)
    else BaseParamsOf(m, V0Ref, seed, k, depthCut, volCut)
  }

  function BaseParamsOf(m: string, V0Ref: real, seed: bv64, k: real, depthCut: int, volCut: real): Params
  {
    DefaultParams.(
      k := k, bias := 0.01, T0 := 100.0,
      depthCut := if UsesDepth(m) then depthCut else 0,
      depthCutJitter := if UsesDepth(m) then 0.1 else 0.0,
      depthHardCut := if UsesDepth(m) then (depthCut + 3) as real else 0.0,
      volRatioCut := if UsesVol(m) then volCut else 0.0,
      volCutJitter := if UsesVol(m) then 0.1 else 0.0,
      volHardRatio := if UsesVol(m) then 0.02 else 0.0,
      V0Ref := V0Ref, depthPenalty := 1.0e6, volPenalty := 1.0e6,
      randK := IsRand(m), randSeed := seed, tieNoise := 0.001)
  }

  /** The adjustments for very large (`logV > 6`) and large (`logV > 3`)
      domains: less thermal weight and tie noise, a higher hard volume
      ratio, the volume cut capped at 0.15 or 0.12, and for huge domains the
      depth cut clamped to [2, 4] with a hard cut 2 above it and `k`
      resampled with spread 0.15 in the randomised modes (`kRedraw`). */
  function LargeDomain(m: string, logV: real, p: Params, kRedraw: real): (q: Params)
    ensures logV <= 3.0 ==> q == p
    ensures q == p.(bias := q.bias, tieNoise := q.tieNoise, volHardRatio := q.volHardRatio,
                    volRatioCut := q.volRatioCut, depthCut := q.depthCut, depthHardCut := q.depthHardCut, k := q.k)
    ensures 0.0 <= p.bias ==> 0.0 <= q.bias <= p.bias
    ensures 0.0 <= p.tieNoise ==> 0.0 <= q.tieNoise <= p.tieNoise
    ensures q.volRatioCut <= p.volRatioCut
    ensures logV > 3.0 ==> q.volRatioCut <= 0.15 && q.volHardRatio >= 0.025
    ensures logV > 6.0 && UsesDepth(m) ==> 2 <= q.depthCut <= 4 && q.depthHardCut == (q.depthCut + 2) as real
    ensures !UsesDepth(m) ==> q.depthCut == p.depthCut && q.depthHardCut == p.depthHardCut
    ensures !(logV > 6.0 && IsRand(m)) ==> q.k == p.k
  {
    if logV > 6.0 then
      var depthCut := if UsesDepth(m) then Max(2, Min(4, p.depthCut)) else p.depthCut;
      p.(bias := p.bias * 0.1, tieNoise := p.tieNoise * 0.1, volHardRatio := 0.03,
         volRatioCut := if p.volRatioCut > 0.15 then 0.15 else p.volRatioCut,
         depthCut := depthCut,
         depthHardCut := if UsesDepth(m) then (depthCut + 2) as real else p.depthHardCut,
         k := if IsRand(m) then kRedraw else p.k)
    else if logV > 3.0 then
      p.(bias := p.bias * 0.3, tieNoise := p.tieNoise * 0.3, volHardRatio := 0.025,
         volRatioCut := if p.volRatioCut > 0.12 then 0.12 else p.volRatioCut)
    else p
  }

  /** How many engine draws the derivation makes: `k`, one cut, and the
      second `k` of a randomised mode on a huge domain. */
  function DerivationDraws(m: string, logV: real): nat {
    2 + (if logV > 6.0 && IsRand(m) then 1 else 0)
  }

  /** The `TempBuffer::Params` derivation of an FD mode, drawing from the
      run's engine in source order: `k`, then the depth or the volume cut,
      then (randomised mode, huge domain) `k` again. */
  function DeriveParams(g: Rng, s: State, m: string, V0Ref: real, logV: real, nv: int, seed: bv64): (r: (Params, State))
    requires Valid(g) && IsFdMode(m)
    ensures 5.0 <= r.0.k <= 15.0 && r.0.T0 == 100.0
    ensures UsesDepth(m) && logV <= 6.0 ==> 2 <= r.0.depthCut <= 6 && r.0.depthHardCut == (r.0.depthCut + 3) as real
    ensures UsesDepth(m) && logV > 6.0 ==> 2 <= r.0.depthCut <= 4 && r.0.depthHardCut == (r.0.depthCut + 2) as real
    ensures !UsesDepth(m) ==> r.0.depthCut == 0
    ensures UsesVol(m) ==> 0.07 <= r.0.volRatioCut <= 0.13
    ensures UsesVol(m) && 3.0 < logV <= 6.0 ==> r.0.volRatioCut <= 0.12
    ensures !UsesVol(m) ==> r.0.volRatioCut == 0.0
    ensures r.0.V0Ref == V0Ref && r.0.randK == IsRand(m) && r.0.randSeed == seed
    ensures 0.0 < r.0.bias <= 0.01 && 0.0 < r.0.tieNoise <= 0.001
    ensures r.0.logV0Ref == 0.0 && !r.0.useLogVolume && r.0.tieBreakMode == 0
    ensures r.1 == Draws(g, s, DerivationDraws(m, logV))
  {
    ModeFlags(m);
    var (u1, s1) := Unit01(g, s);
    var k := SampleK(if IsRand(m) then 0.3 else 0.2, u1);
    var (u2, s2) := Unit01(g, s1);
    var depthCut := if UsesDepth(m) then SampleDepthCut(u2, logV, nv) else 0;
    var volCut := if UsesVol(m) then SampleVolCut(u2, logV, nv) else 0.0;
    var p := BaseParams(m, V0Ref, seed, k, depthCut, volCut);
    if logV > 6.0 && IsRand(m) then
      var (u3, s3) := Unit01(g, s2);
      (LargeDomain(m, logV, p, SampleK(0.15, u3)), s3)
    else
      (LargeDomain(m, logV, p, k), s2)
  }

  /** On huge domains the clamp to [2, 4] never bites from above: the scaled
      depth cut is already 2 or 3 there, so a depth cut of 4 never occurs. */
  lemma HugeDomainDepthCut(g: Rng, s: State, m: string, V0Ref: real, logV: real, nv: int, seed: bv64)
    requires Valid(g) && IsFdMode(m) && UsesDepth(m) && logV > 6.0
    ensures 2 <= DeriveParams(g, s, m, V0Ref, logV, nv, seed).0.depthCut <= 3
  {
    ModeFlags(m);
  }
}
