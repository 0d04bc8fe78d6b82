/** The pure parts of the `run_menu` launcher that choose and start runs:
    the variant table, the parsing of the "which variants" line, the
    enumeration of the batch's tasks and their command lines, and the clamp
    on the number of parallel runs. Processes, threads, files and the
    directory listing are left to the caller. */
module RunMenu {
  import opened Bridge
  import opened Text

  /** `VariantInfo`: menu name, binary, and the optional `--fd-mode` value. */
  datatype VariantInfo = VariantInfo(name: string, binary: string, fdMode: string)

  /** `kVariants`, in menu order 1..5. */
  const Variants: seq<VariantInfo> := [
    VariantInfo("base", "./ibex_opt_full", ""),
    VariantInfo("vol_k", "./ibex_opt_full", "vol_k"),
    VariantInfo("vol_k_rand", "./ibex_opt_full", "vol_k_rand"),
    VariantInfo("depth_k", "./ibex_opt_full", "depth_k"),
    VariantInfo("depth_k_rand", "./ibex_opt_full", "depth_k_rand")
  ]

  // ---------------------------------------------------------------------------
  // The selection line

  /** The control characters the runner matches on, by code point. */
  const Tab: char := 9 as char
  const NewLine: char := 10 as char
  const CarriageReturn: char := 13 as char

  /** The characters `find_first_not_of` skips: space and tab. */
  predicate IsBlank(c: char) { c == ' ' || c == Tab }

  predicate AllBlank(t: string) { forall i :: 0 <= i < |t| ==> IsBlank(t[i]) }

  /** The characters `atoi` skips before the number (`isspace`). */
  predicate IsSpace(c: char) {
    c == ' ' || c == Tab || c == NewLine || c == CarriageReturn || c as int == 11 || c as int == 12
  }

  function DropLeadingBlanks(t: string): (r: string)
    ensures |r| <= |t| && r == t[|t| - |r|..] && AllBlank(t[..|t| - |r|])
    ensures |r| > 0 ==> !IsBlank(r[0])
    decreases |t|
  {
    if |t| > 0 && IsBlank(t[0]) then DropLeadingBlanks(t[1..]) else t
  }

  function DropTrailingBlanks(t: string): (r: string)
    ensures |r| <= |t| && r == t[..|r|] && AllBlank(t[|r|..])
    ensures |r| > 0 ==> !IsBlank(r[|r| - 1])
    decreases |t|
  {
    if |t| > 0 && IsBlank(t[|t| - 1]) then DropTrailingBlanks(t[..|t| - 1]) else t
  }

  /** The token trimming: blanks are cut from both ends, but a token of
      blanks only is left as it is (both `find` calls return `npos`). */
  function Trim(t: string): (r: string)
    ensures AllBlank(t) ==> r == t
    ensures !AllBlank(t) ==> |r| >= 1 && !IsBlank(r[0]) && !IsBlank(r[|r| - 1])
    ensures !AllBlank(t) && !IsBlank(t[0]) && !IsBlank(t[|t| - 1]) ==> r == t
  {
    if AllBlank(t) then t else DropTrailingBlanks(DropLeadingBlanks(t))
  }

  function SkipSpace(s: string): (r: string)
    decreases |s|
  {
    if |s| > 0 && IsSpace(s[0]) then SkipSpace(s[1..]) else s
  }

  /** The value of the leading decimal digits of `s`, after `acc`. */
  function DigitsValue(s: string, acc: nat): (v: nat)
    ensures v >= acc
    decreases |s|
  {
    if |s| > 0 && '0' <= s[0] <= '9' then DigitsValue(s[1..], acc * 10 + (s[0] as int - '0' as int)) else acc
  }

  /** `atoi`: leading white space, an optional sign, then the longest run of
      digits; 0 when there are none. */
  function Atoi(s: string): (n: int)
    ensures n < 0 ==> |SkipSpace(s)| > 0 && SkipSpace(s)[0] == '-'
    ensures var t := SkipSpace(s);
            (|t| == 0 || (t[0] != '-' && t[0] != '+' && !('0' <= t[0] <= '9'))) ==> n == 0
  {
    var t := SkipSpace(s);
    if |t| > 0 && t[0] == '-' then -(DigitsValue(t[1..], 0) as int)
    else if |t| > 0 && t[0] == '+' then DigitsValue(t[1..], 0)
    else DigitsValue(t, 0)
  }

  /** Reading one more digit after a run of digits: ten times the value so
      far, plus the digit. */
  lemma {:induction false} DigitsValueSnoc(s: string, c: char, acc: nat)
    requires forall i :: 0 <= i < |s| ==> '0' <= s[i] <= '9'
    requires '0' <= c <= '9'
    ensures DigitsValue(s + [c], acc) == DigitsValue(s, acc) * 10 + (c as int - '0' as int)
    decreases |s|
  {
    if |s| == 0 {
      assert (s + [c])[1..] == [];
    } else {
      assert (s + [c])[1..] == s[1..] + [c];
      DigitsValueSnoc(s[1..], c, acc * 10 + (s[0] as int - '0' as int));
    }
  }

  /** The digits of a natural number read back as that number. */
  lemma {:induction false} DigitsValueNat(n: nat)
    ensures DigitsValue(NatToString(n), 0) == n
    decreases n
  {
    if n < 10 {
      assert NatToString(n)[1..] == [];
    } else {
      DigitsValueNat(n / 10);
      DigitsValueSnoc(NatToString(n / 10), Digit(n % 10), 0);
    }
  }

  /** `atoi` reads back every integer as `operator<<` prints it. */
  lemma AtoiRoundTrip(i: int)
    ensures Atoi(IntToString(i)) == i
  {
    var s := IntToString(i);
    if i < 0 {
      assert s == "-" + NatToString(-i);
      assert SkipSpace(s) == s;
      assert s[1..] == NatToString(-i);
      DigitsValueNat(-i);
    } else {
      assert SkipSpace(s) == s;
      DigitsValueNat(i);
    }
  }

  /** The variant a token names, if its number is 1..5; empty tokens are
      skipped. */
  function PickOne(tok: string): (r: seq<VariantInfo>)
    ensures |r| <= 1 && forall i :: 0 <= i < |r| ==> r[i] in Variants
  {
    if tok == "" then []
    else
      var idx := Atoi(Trim(tok));
      if 1 <= idx <= |Variants| then [Variants[idx - 1]] else []
  }

  function Pick(tokens: seq<string>): (r: seq<VariantInfo>)
    ensures |r| <= |tokens| && forall i :: 0 <= i < |r| ==> r[i] in Variants
  {
    if tokens == [] then [] else PickOne(tokens[0]) + Pick(tokens[1..])
  }

  /** The selection line: all five variants for an empty line or one with no
      valid number, else the named variants in order, repeats included. The
      line is split at every comma; `getline` drops a trailing empty field,
      which the empty-token rule skips anyway. */
  function ParseSelection(line: string): (r: seq<VariantInfo>)
    ensures |r| >= 1 && forall i :: 0 <= i < |r| ==> r[i] in Variants
    ensures line == "" || Pick(Split(line)) == [] ==> r == Variants
    ensures line != "" && Pick(Split(line)) != [] ==> r == Pick(Split(line))
  {
    if line == "" then Variants
    else
      var picked := Pick(Split(line));
      if picked == [] then Variants else picked
  }

  predicate MenuNumbers(idxs: seq<int>) {
    forall i :: 0 <= i < |idxs| ==> 1 <= idxs[i] <= 5
  }

  /** The tokens of a typed selection such as `1,3,3`. */
  function DigitTokens(idxs: seq<int>): (ts: seq<string>)
    requires MenuNumbers(idxs)
    ensures |ts| == |idxs| && forall i :: 0 <= i < |ts| ==> ts[i] == [Digit(idxs[i])]
  {
    if idxs == [] then [] else [[Digit(idxs[0])]] + DigitTokens(idxs[1..])
  }

  /** The variants those numbers name, in order. */
  function Chosen(idxs: seq<int>): (vs: seq<VariantInfo>)
    requires MenuNumbers(idxs)
    ensures |vs| == |idxs| && forall i :: 0 <= i < |vs| ==> vs[i] == Variants[idxs[i] - 1]
  {
    if idxs == [] then [] else [Variants[idxs[0] - 1]] + Chosen(idxs[1..])
  }

  lemma AtoiDigit(d: nat)
    requires d < 10
    ensures Atoi([Digit(d)]) == d
  {
    var t := [Digit(d)];
    assert t[1..] == [];
    assert SkipSpace(t) == t;
    assert DigitsValue(t, 0) == DigitsValue([], d);
  }

  lemma TrimDigit(d: nat)
    requires d < 10
    ensures Trim([Digit(d)]) == [Digit(d)]
  {
    var t := [Digit(d)];
    assert !IsBlank(t[0]);
    assert !AllBlank(t);
  }

  lemma DigitTokenPicks(d: int)
    requires 1 <= d <= 5
    ensures PickOne([Digit(d)]) == [Variants[d - 1]]
  {
    TrimDigit(d);
    AtoiDigit(d);
  }

  lemma {:induction false} PickDigits(idxs: seq<int>)
    requires MenuNumbers(idxs)
    ensures Pick(DigitTokens(idxs)) == Chosen(idxs)
  {
    if idxs != [] {
      var ts := DigitTokens(idxs);
      DigitTokenPicks(idxs[0]);
      assert ts[0] == [Digit(idxs[0])] && ts[1..] == DigitTokens(idxs[1..]);
      PickDigits(idxs[1..]);
      assert Pick(ts) == PickOne(ts[0]) + Pick(ts[1..]);
      assert Chosen(idxs) == [Variants[idxs[0] - 1]] + Chosen(idxs[1..]);
    }
  }

  /** Typing the menu numbers of some variants, separated by commas,
      selects exactly those variants in that order, repeats included. */
  lemma SelectionRoundTrip(idxs: seq<int>)
    requires |idxs| >= 1 && MenuNumbers(idxs)
    ensures ParseSelection(Join(DigitTokens(idxs))) == Chosen(idxs)
  {
    var ts := DigitTokens(idxs);
    DigitTokensCommaFree(idxs);
    SplitJoin(ts);
    PickDigits(idxs);
    JoinNonEmpty(ts);
    assert |Chosen(idxs)| >= 1;
  }

  lemma DigitTokensCommaFree(idxs: seq<int>)
    requires MenuNumbers(idxs)
    ensures forall i :: 0 <= i < |DigitTokens(idxs)| ==> ',' !in DigitTokens(idxs)[i]
  {
    var ts := DigitTokens(idxs);
    forall i | 0 <= i < |ts|
      ensures ',' !in ts[i]
    {
      assert ts[i] == [Digit(idxs[i])];
    }
  }

  lemma {:induction false} JoinNonEmpty(ts: seq<string>)
    requires |ts| >= 1 && |ts[0]| >= 1
    ensures Join(ts) != ""
  {
    if |ts| > 1 {
      assert |Join(ts)| >= |ts[0]|;
    }
  }

  // ---------------------------------------------------------------------------
  // The batch's tasks

  /** One launch: a variant, a problem file and a repetition number. */
  datatype Task = Task(variant: VariantInfo, problem: string, runId: int)

  /** Repetitions per variant and problem. */
  const Repetitions := 10

  function ProblemTasks(v: VariantInfo, probs: seq<string>): (ts: seq<Task>)
    ensures |ts| == Repetitions * |probs|
  {
    if probs == [] then []
    else seq(Repetitions, r => Task(v, probs[0], r)) + ProblemTasks(v, probs[1..])
  }

  /** The task list: for each selected variant, for each problem, run ids
      0..9. */
  function Tasks(sel: seq<VariantInfo>, probs: seq<string>): (ts: seq<Task>)
    ensures |ts| == Blocks(|sel|, Repetitions * |probs|)
  {
    if sel == [] then [] else ProblemTasks(sel[0], probs) + Tasks(sel[1..], probs)
  }

  /** The length of `n` consecutive blocks of `b` entries each. */
  function Blocks(n: nat, b: nat): (len: nat)
  {
    if n == 0 then 0 else b + Blocks(n - 1, b)
  }

  lemma {:induction false} BlocksMul(n: nat, b: nat)
    ensures Blocks(n, b) == n * b
  {
    if n > 0 {
      BlocksMul(n - 1, b);
      assert n * b == b + (n - 1) * b;
    }
  }

  lemma {:induction false} ProblemTaskAt(v: VariantInfo, probs: seq<string>, j: int, r: int)
    requires 0 <= j < |probs| && 0 <= r < Repetitions
    ensures ProblemTasks(v, probs)[j * Repetitions + r] == Task(v, probs[j], r)
  {
    if j > 0 {
      ProblemTaskAt(v, probs[1..], j - 1, r);
    }
  }

  lemma {:induction false} TasksBlockAt(sel: seq<VariantInfo>, probs: seq<string>, i: nat, q: int)
    requires i < |sel| && 0 <= q < Repetitions * |probs|
    ensures Blocks(i, Repetitions * |probs|) + q < |Tasks(sel, probs)|
    ensures Tasks(sel, probs)[Blocks(i, Repetitions * |probs|) + q] == ProblemTasks(sel[i], probs)[q]
  {
    if i > 0 {
      TasksBlockAt(sel[1..], probs, i - 1, q);
    }
  }

  /** The task list holds `|selected| * |problems| * 10` entries ... */
  lemma TaskCount(sel: seq<VariantInfo>, probs: seq<string>)
    ensures |Tasks(sel, probs)| == |sel| * |probs| * Repetitions
  {
    BlocksMul(|sel|, Repetitions * |probs|);
    assert |sel| * |probs| * Repetitions == |sel| * (Repetitions * |probs|);
  }

  /** ... variant-major, then problem, then run id: entry `(i |P| + j) 10 + r`
      is run `r` of variant `i` on problem `j`. */
  lemma TaskAt(sel: seq<VariantInfo>, probs: seq<string>, i: int, j: int, r: int)
    requires 0 <= i < |sel| && 0 <= j < |probs| && 0 <= r < Repetitions
    ensures (i * |probs| + j) * Repetitions + r < |Tasks(sel, probs)|
    ensures Tasks(sel, probs)[(i * |probs| + j) * Repetitions + r] == Task(sel[i], probs[j], r)
  {
    var b := Repetitions * |probs|;
    var q := j * Repetitions + r;
    var k := (i * |probs| + j) * Repetitions + r;
    assert k == i * b + q && q < b by {
      TaskIndex(|probs|, i, j, r);
    }
    BlocksMul(i, b);
    TasksBlockAt(sel, probs, i, q);
    ProblemTaskAt(sel[i], probs, j, r);
  }

  lemma TaskIndex(p: nat, i: nat, j: nat, r: nat)
    requires j < p && r < Repetitions
    ensures j * Repetitions + r < Repetitions * p
    ensures (i * p + j) * Repetitions + r == i * (Repetitions * p) + (j * Repetitions + r)
  {
  }

  /** The launch command: binary, problem, and `--fd-mode=` when the variant
      names a mode. */
  function Command(t: Task): (cmd: string)
    ensures t.variant.fdMode == "" ==> cmd == t.variant.binary + " " + t.problem
    ensures t.variant.fdMode != "" ==>
              (|cmd| > |t.variant.binary| + 1 + |t.problem| &&
               cmd[..|t.variant.binary| + 1 + |t.problem|] == t.variant.binary + " " + t.problem &&
               cmd[|t.variant.binary| + 1 + |t.problem|..] == " --fd-mode=" + t.variant.fdMode)
  {
    var head := t.variant.binary + " " + t.problem;
    if t.variant.fdMode != "" then head + " --fd-mode=" + t.variant.fdMode else head
  }

  /** Every variant but `base` runs the mode of its own name; `base` runs the
      plain optimiser. */
  lemma VariantModes()
    ensures Variants[0].fdMode == ""
    ensures forall i :: 1 <= i < |Variants| ==> Variants[i].fdMode == Variants[i].name
  {
  }

  // ---------------------------------------------------------------------------
  // Parallel runs in single-problem mode

  /** The suggested parallelism: two cores fewer than the hardware has, at
      least one. */
  function MaxParallel(hw: nat): (m: nat)
    ensures m >= 1 && (hw > 2 ==> m == hw - 2)
  {
    if hw > 2 then hw - 2 else 1
  }

  /** The number of runs asked for, raised to 1 and capped at the suggested
      parallelism; a request already in range is kept. */
  function ClampRuns(runs: int, hw: nat): (r: int)
    ensures 1 <= r <= MaxParallel(hw)
    ensures 1 <= runs <= MaxParallel(hw) <==> r == runs
  {
    var atLeastOne := if runs < 1 then 1 else runs;
    if atLeastOne > MaxParallel(hw) then MaxParallel(hw) else atLeastOne
  }
}
