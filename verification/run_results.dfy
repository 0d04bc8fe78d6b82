/** The pure parts of the `run_menu` launcher that record results: the CSV
    row a finished run produces (scanned from the optimiser's output), the
    splicing of the problem name into that row, and the failure rows. The
    optimiser's output arrives as a sequence of lines and the number
    printing as a parameter. */
module RunResults {
  import opened Bridge
  import opened Text
  import opened RunMenu

  // ---------------------------------------------------------------------------
  // Scanning the optimiser's output

  /** What `run_ibex_base` keeps while reading: `best`, `nodes`, `elapsed`,
      `optimal`. */
  datatype Scan = Scan(best: real, nodes: int, elapsed: real, optimal: bool)

  const NoScan := Scan(0.0, -1, 0.0, false)

  /** The `sscanf` calls: each yields a value, or `None` when the pattern
      does not match (the variable then keeps its value). */
  datatype Scanners = Scanners(nodes: string -> Option<int>, time: string -> Option<real>,
                               bounds: string -> Option<(real, real)>)

  /** The line announces success: it mentions `optimization successful`
      and none of the markers checked before it. */
  predicate IsSuccessLine(line: string) {
    !Occurs("nodes (cells):", line) && !Occurs("cpu time used:", line) && !Occurs("f* in", line) &&
    Occurs("optimization successful", line)
  }

  /** One line of output: the first marker it mentions decides which value
      it updates; `best` takes the upper end of `f* in [lb, ub]`. */
  function ScanLine(sc: Scan, line: string, sn: Scanners): (r: Scan)
    ensures r.optimal <==> sc.optimal || IsSuccessLine(line)
  {
    if Occurs("nodes (cells):", line) then
      (match sn.nodes(line) case Some(n) => sc.(nodes := n) case None => sc)
    else if Occurs("cpu time used:", line) then
      (match sn.time(line) case Some(e) => sc.(elapsed := e) case None => sc)
    else if Occurs("f* in", line) then
      (match sn.bounds(line) case Some(b) => sc.(best := b.1) case None => sc)
    else if Occurs("optimization successful", line) then sc.(optimal := true)
    else sc
  }

  /** Every line of output in turn; once success is announced it stays. */
  function ScanAll(sc: Scan, lines: seq<string>, sn: Scanners): (r: Scan)
    ensures sc.optimal ==> r.optimal
    decreases |lines|
  {
    if lines == [] then sc else ScanAll(ScanLine(sc, lines[0], sn), lines[1..], sn)
  }

  /** `optimal` ends true exactly when some line announced success. */
  lemma {:induction false} ScanOptimal(sc: Scan, lines: seq<string>, sn: Scanners)
    ensures ScanAll(sc, lines, sn).optimal <==> sc.optimal || exists i :: 0 <= i < |lines| && IsSuccessLine(lines[i])
    decreases |lines|
  {
    if lines != [] {
      ScanOptimal(ScanLine(sc, lines[0], sn), lines[1..], sn);
      if exists i :: 0 <= i < |lines| && IsSuccessLine(lines[i]) {
        var i :| 0 <= i < |lines| && IsSuccessLine(lines[i]);
        if i > 0 {
          assert IsSuccessLine(lines[1..][i - 1]);
        }
      } else {
        assert forall i :: 0 <= i < |lines| - 1 ==> lines[1..][i] == lines[i + 1];
      }
    }
  }

  /** The number printing (`operator<<` on a double) never writes a comma. */
  ghost predicate CommaFree(fmt: real -> string) {
    forall x :: ',' !in fmt(x)
  }

  /** The eight fields of a run's row. */
  function RowFields(runId: int, variant: string, sc: Scan, fmt: real -> string): (fs: seq<string>)
    ensures |fs| == 8 && fs[0] == IntToString(runId) && fs[1] == variant
    ensures fs[5] == "NA" && fs[6] == "NA"
    ensures fs[7] == "1" <==> sc.optimal
    ensures fs[7] == "0" <==> !sc.optimal
    ensures ',' !in variant && CommaFree(fmt) ==> forall i :: 0 <= i < |fs| ==> ',' !in fs[i]
  {
    [IntToString(runId), variant, fmt(sc.best), IntToString(sc.nodes), fmt(sc.elapsed), "NA", "NA",
     if sc.optimal then "1" else "0"]
  }

  lemma RowSplits(runId: int, variant: string, sc: Scan, fmt: real -> string)
    ensures ',' !in variant && CommaFree(fmt) ==> Split(Join(RowFields(runId, variant, sc, fmt))) == RowFields(runId, variant, sc, fmt)
  {
    if ',' !in variant && CommaFree(fmt) {
      SplitJoin(RowFields(runId, variant, sc, fmt));
    }
  }

  /** `run_ibex_base`: "" when the process could not be started, else the
      row `run,variant,best,nodes,elapsed,NA,NA,optimal` of the scanned
      output. */
  function RunRow(started: bool, lines: seq<string>, runId: int, variant: string, sn: Scanners,
                  fmt: real -> string): (row: string)
    ensures !started <==> row == ""
    ensures started && ',' !in variant && CommaFree(fmt) ==>
              |Split(row)| == 8 && Split(row)[0] == IntToString(runId) && Split(row)[1] == variant &&
              Split(row)[5] == "NA" && Split(row)[6] == "NA" &&
              (Split(row)[7] == "1" <==> exists i :: 0 <= i < |lines| && IsSuccessLine(lines[i])) &&
              (Split(row)[7] == "0" <==> !exists i :: 0 <= i < |lines| && IsSuccessLine(lines[i]))
  {
    if !started then ""
    else
      var sc := ScanAll(NoScan, lines, sn);
      var fs := RowFields(runId, variant, sc, fmt);
      ScanOptimal(NoScan, lines, sn);
      JoinNonEmpty(fs);
      RowSplits(runId, variant, sc, fmt);
      Join(fs)
  }

  // ---------------------------------------------------------------------------
  // The rows written to the CSV files

  /** The column names of the CSV header both modes write. */
  const HeaderNames: seq<string> :=
    ["run", "variant", "problem", "best_value", "nodes", "elapsed", "max_depth", "avg_depth", "optimal"]

  /** The header line `run,variant,problem,...,optimal`. */
  function Header(): string {
    Join(HeaderNames)
  }

  /** The header splits back into its nine column names. */
  lemma HeaderFields()
    ensures Split(Header()) == HeaderNames && |Split(Header())| == 9
  {
    var h := HeaderNames;
    assert ',' !in h[0] && ',' !in h[1] && ',' !in h[2] && ',' !in h[3] && ',' !in h[4];
    assert ',' !in h[5] && ',' !in h[6] && ',' !in h[7] && ',' !in h[8];
    assert forall i :: 0 <= i < |h| ==> ',' !in h[i];
    SplitJoin(h);
  }

  /** The problem name inserted as the third field: `","+problem` goes just
      before the second comma, and a row with fewer than two commas is left
      as it is. */
  function Splice(line: string, prob: string): (r: string)
    ensures |Split(line)| < 3 ==> r == line
    ensures |Split(line)| >= 3 ==> r == Join(Split(line)[..2] + [prob] + Split(line)[2..])
  {
    var first := IndexOf(line, ',');
    if first == |line| then line
    else
      var rest := line[first + 1..];
      var j := IndexOf(rest, ',');
      var second := first + 1 + j;
      if j == |rest| then line
      else
        SpliceFields(line, prob, first, j);
        line[..second] + "," + prob + line[second..]
  }

  lemma SpliceFields(line: string, prob: string, first: nat, j: nat)
    requires first == IndexOf(line, ',') < |line| &&
             j == IndexOf(line[first + 1..], ',') < |line[first + 1..]|
    ensures |Split(line)| >= 3
    ensures line[..first + 1 + j] + "," + prob + line[first + 1 + j..] ==
            Join(Split(line)[..2] + [prob] + Split(line)[2..])
  {
    var rest := line[first + 1..];
    var a, b, t := line[..first], rest[..j], rest[j + 1..];
    var fs := Split(line);
    SplitTwoCommas(line, first, j);
    assert fs[..2] + [prob] + fs[2..] == [a, b, prob] + Split(t) by {
      assert fs == [a, b] + Split(t);
    }
    JoinSplit(t);
    JoinFront(a, b, prob, Split(t));
    CutAtSecondComma(line, first, j);
  }

  lemma SplitAtFirst(s: string, i: nat)
    requires i == IndexOf(s, ',') < |s|
    ensures Split(s) == [s[..i]] + Split(s[i + 1..])
  {
  }

  /** A line with two commas splits into the text before the first, the
      text between them, and the fields after the second. */
  lemma SplitTwoCommas(line: string, first: nat, j: nat)
    requires first == IndexOf(line, ',') < |line| &&
             j == IndexOf(line[first + 1..], ',') < |line[first + 1..]|
    ensures Split(line) == [line[..first], line[first + 1..][..j]] + Split(line[first + 1..][j + 1..])
  {
    var rest := line[first + 1..];
    SplitAtFirst(line, first);
    SplitAtFirst(rest, j);
    ConsCons(line[..first], rest[..j], Split(rest[j + 1..]));
  }

  lemma ConsCons(x: string, y: string, t: seq<string>)
    ensures [x] + ([y] + t) == [x, y] + t
  {
  }

  /** Three fields joined in front of the rest of a row. */
  lemma JoinFront(a: string, b: string, c: string, tail: seq<string>)
    requires |tail| >= 1
    ensures Join([a, b, c] + tail) == a + "," + b + "," + c + ("," + Join(tail))
  {
    var bc, ct := [b, c] + tail, [c] + tail;
    assert Join([a, b, c] + tail) == a + "," + Join(bc) by {
      JoinCons(a, bc);
      assert [a] + bc == [a, b, c] + tail;
    }
    assert Join(bc) == b + "," + Join(ct) by {
      JoinCons(b, ct);
      assert [b] + ct == bc;
    }
    assert Join(ct) == c + "," + Join(tail) by {
      JoinCons(c, tail);
    }
    Regroup(a, b, c, Join(tail));
  }

  /** Regrouping the concatenation of a comma-separated prefix. */
  lemma Regroup(a: string, b: string, c: string, d: string)
    ensures (a + ",") + ((b + ",") + ((c + ",") + d)) == a + "," + b + "," + c + ("," + d)
  {
  }

  lemma CutAtSecondComma(line: string, first: nat, j: nat)
    requires first < |line| && line[first] == ','
    requires first + 1 + j < |line| && line[first + 1 + j] == ','
    ensures line[..first + 1 + j] == line[..first] + "," + line[first + 1..][..j]
    ensures line[first + 1 + j..] == "," + line[first + 1..][j + 1..]
  {
    assert line[..first + 1 + j] == line[..first] + [line[first]] + line[first + 1..][..j];
    assert line[first + 1 + j..] == [line[first + 1 + j]] + line[first + 1..][j + 1..];
  }

  /** The row is written with a line end added unless it already has one. */
  function WithNewline(line: string): (r: string)
    requires line != ""
    ensures |r| >= 1 && r[|r| - 1] == NewLine
    ensures line[|line| - 1] == NewLine ==> r == line
    ensures line[|line| - 1] != NewLine ==> r[..|r| - 1] == line
  {
    if line[|line| - 1] != NewLine then line + [NewLine] else line
  }

  /** The batch mode's placeholders for a run whose command could not be
      started: no value, no node count, no time, no depths, not optimal. */
  const PlaceholdersAll: seq<string> := ["nan", "-1", "-1", "NA", "NA", "0"]

  /** The single-problem mode's placeholders for such a run. */
  const PlaceholdersSingle: seq<string> := ["NA", "NA", "NA", "NA", "NA", "0"]

  /** The fields of a failure row: run id, variant and problem, then the
      mode's placeholders. */
  function FailureFields(runId: int, name: string, prob: string, batch: bool): (fs: seq<string>)
    ensures |fs| == 9 && fs[0] == IntToString(runId) && fs[1] == name && fs[2] == prob
    ensures fs[3] == (if batch then "nan" else "NA") && fs[8] == "0"
    ensures ',' !in name && ',' !in prob ==> forall i :: 0 <= i < |fs| ==> ',' !in fs[i]
  {
    [IntToString(runId), name, prob] + (if batch then PlaceholdersAll else PlaceholdersSingle)
  }

  /** The failure row: `run,variant,problem,` then the placeholders and a
      line end. */
  function FailureRow(runId: int, name: string, prob: string, batch: bool): (text: string)
    ensures text != "" && text[|text| - 1] == NewLine
  {
    Join(FailureFields(runId, name, prob, batch)) + [NewLine]
  }

  /** What a worker appends for one finished run (both modes): the run's
      row with the problem spliced in, or the mode's failure row. */
  function Appended(runId: int, name: string, prob: string, line: string, batch: bool): (text: string)
    ensures text != "" && text[|text| - 1] == NewLine
  {
    if line != "" then
      var spliced := Splice(line, prob);
      assert |spliced| >= |line| by {
        if |Split(line)| >= 3 {
          JoinSplit(line);
          JoinLonger(line, prob);
        }
      }
      WithNewline(spliced)
    else FailureRow(runId, name, prob, batch)
  }

  lemma JoinLonger(line: string, prob: string)
    requires |Split(line)| >= 3
    ensures |Join(Split(line)[..2] + [prob] + Split(line)[2..])| >= |line|
  {
    var first := IndexOf(line, ',');
    var j := IndexOf(line[first + 1..], ',');
    SpliceFields(line, prob, first, j);
  }

  /** The fields of a written row, its line end dropped. */
  function Fields(text: string): seq<string>
    requires text != ""
  {
    Split(text[..|text| - 1])
  }

  /** Every row a worker appends matches the nine-field header: for a run
      that started, its eight fields with the problem name third, for one
      that did not, the failure row's fields. */
  lemma AppendedMatchesHeader(started: bool, lines: seq<string>, runId: int, name: string, prob: string,
                              sn: Scanners, fmt: real -> string, batch: bool)
    requires ',' !in name && ',' !in prob && CommaFree(fmt)
    ensures var fs := Fields(Appended(runId, name, prob, RunRow(started, lines, runId, name, sn, fmt), batch));
            |fs| == |HeaderNames| && fs[0] == IntToString(runId) && fs[1] == name && fs[2] == prob &&
            (!started ==> fs == FailureFields(runId, name, prob, batch))
  {
    var row := RunRow(started, lines, runId, name, sn, fmt);
    if started {
      assert row == RunRow(true, lines, runId, name, sn, fmt);
      StartedRowMatches(lines, runId, name, prob, sn, fmt, batch);
    } else {
      assert row == "";
      FailureRowFields(runId, name, prob, batch);
    }
  }

  lemma StartedRowMatches(lines: seq<string>, runId: int, name: string, prob: string,
                          sn: Scanners, fmt: real -> string, batch: bool)
    requires ',' !in name && ',' !in prob && CommaFree(fmt)
    ensures var fs := Fields(Appended(runId, name, prob, RunRow(true, lines, runId, name, sn, fmt), batch));
            |fs| == 9 && fs[0] == IntToString(runId) && fs[1] == name && fs[2] == prob
  {
    var row := RunRow(true, lines, runId, name, sn, fmt);
    assert row != "" && |Split(row)| == 8 && Split(row)[0] == IntToString(runId) && Split(row)[1] == name;
    assert Split(row)[7] == "1" || Split(row)[7] == "0";
    StartedRowFields(row, runId, name, prob, batch);
  }

  lemma StartedRowFields(line: string, runId: int, name: string, prob: string, batch: bool)
    requires line != "" && ',' !in prob
    requires |Split(line)| == 8 && Split(line)[0] == IntToString(runId) && Split(line)[1] == name &&
             (Split(line)[7] == "0" || Split(line)[7] == "1")
    ensures var fs := Fields(Appended(runId, name, prob, line, batch));
            |fs| == 9 && fs[0] == IntToString(runId) && fs[1] == name && fs[2] == prob
  {
    var fs := Split(line);
    var gs := fs[..2] + [prob] + fs[2..];
    SplicedText(line, runId, name, prob, batch);
    SplitCommaFree(line);
    InsertThird(fs, prob);
    SplitJoin(gs);
  }

  /** Inserting a comma-free field third: the first two fields stay, and
      every field is still comma-free. */
  lemma InsertThird(fs: seq<string>, x: string)
    requires |fs| >= 2 && ',' !in x && forall i :: 0 <= i < |fs| ==> ',' !in fs[i]
    ensures var gs := fs[..2] + [x] + fs[2..];
            |gs| == |fs| + 1 && gs[0] == fs[0] && gs[1] == fs[1] && gs[2] == x &&
            forall i :: 0 <= i < |gs| ==> ',' !in gs[i]
  {
    var gs := fs[..2] + [x] + fs[2..];
    forall i | 0 <= i < |gs|
      ensures ',' !in gs[i]
    {
      if i > 2 {
        assert gs[i] == fs[i - 1];
      }
    }
  }

  /** A started run's row, line end dropped, is its fields with the problem
      name inserted third. */
  lemma SplicedText(line: string, runId: int, name: string, prob: string, batch: bool)
    requires line != "" && |Split(line)| == 8 && (Split(line)[7] == "0" || Split(line)[7] == "1")
    ensures var text := Appended(runId, name, prob, line, batch);
            text[..|text| - 1] == Join(Split(line)[..2] + [prob] + Split(line)[2..])
  {
    var text := Appended(runId, name, prob, line, batch);
    var fs := Split(line);
    var spliced := Splice(line, prob);
    var gs := fs[..2] + [prob] + fs[2..];
    assert spliced == Join(gs);
    assert gs[|gs| - 1] == fs[7];
    JoinLast(gs);
    assert spliced[|spliced| - 1] != NewLine;
    assert text == WithNewline(spliced);
  }

  /** A failure row splits back into its nine fields. */
  lemma FailureRowFields(runId: int, name: string, prob: string, batch: bool)
    requires ',' !in name && ',' !in prob
    ensures var fs := Fields(Appended(runId, name, prob, "", batch));
            fs == FailureFields(runId, name, prob, batch) &&
            |fs| == 9 && fs[0] == IntToString(runId) && fs[1] == name && fs[2] == prob
  {
    var fs := FailureFields(runId, name, prob, batch);
    DropLineEnd(Join(fs));
    FailureFieldsCommaFree(runId, name, prob, batch);
    SplitJoin(fs);
  }

  lemma DropLineEnd(x: string)
    ensures (x + [NewLine])[..|x + [NewLine]| - 1] == x
  {
  }

  lemma FailureFieldsCommaFree(runId: int, name: string, prob: string, batch: bool)
    requires ',' !in name && ',' !in prob
    ensures var fs := FailureFields(runId, name, prob, batch);
            |fs| == 9 && fs[0] == IntToString(runId) && fs[1] == name && fs[2] == prob &&
            forall i :: 0 <= i < |fs| ==> ',' !in fs[i]
  {
    var fs := FailureFields(runId, name, prob, batch);
    forall i | 0 <= i < |fs|
      ensures ',' !in fs[i]
    {
      if i >= 3 {
        assert fs[i] == (if batch then PlaceholdersAll else PlaceholdersSingle)[i - 3];
      }
    }
  }

  /** A joined line ends with its last field. */
  lemma {:induction false} JoinLast(fs: seq<string>)
    requires |fs| >= 1 && |fs[|fs| - 1]| >= 1
    ensures |Join(fs)| >= 1 && Join(fs)[|Join(fs)| - 1] == fs[|fs| - 1][|fs[|fs| - 1]| - 1]
    decreases |fs|
  {
    if |fs| > 1 {
      assert fs[1..][|fs[1..]| - 1] == fs[|fs| - 1];
      JoinLast(fs[1..]);
    }
  }
}
