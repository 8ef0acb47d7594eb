/** `main`: validate the options, then for each width patch the header,
    rebuild, run the benchmark and extract its utilization, stopping at the
    first failure; afterwards restore the original header unless
    `--keep-width` was given, and write the CSV only when every width was
    measured. Processes and files are replaced by an oracle: one `Trial` per
    width says what the build and the benchmark would report. */
module Sweep {
  import opened Results
  import opened Decimal
  import opened Config
  import opened Header
  import opened Metric
  import opened Commands

  /** The outcome of one benchmark process. */
  datatype Process = Process(exitCode: int, stdout: string, stderr: string)

  /** What the environment answers while one width is measured: make's exit
      status, whether the benchmark binary exists, and the benchmark's run. */
  datatype Trial = Trial(makeExit: int, vrunExists: bool, vrun: Process)

  /** Why measuring one width failed: the build exited non-zero, the
      benchmark binary is missing, it exited non-zero, or no utilization could
      be read from its output. */
  datatype MeasureError =
    | MakeFailed(code: int)
    | VrunMissing
    | VrunFailed(code: int)
    | Unreadable(error: MetricError)

  /** Why a sweep stopped early; each one is an exception escaping the loop. */
  datatype Failure = PatternMissing | MeasureFailed(error: MeasureError)

  /** One measured width: the width and the utilization text it reported. */
  datatype Record = Record(width: int, utilization: string)

  /** The commands one measurement issued, and its utilization or failure. */
  datatype Measurement = Measurement(commands: seq<seq<string>>, outcome: Result<string, MeasureError>)

  /** A trial from which a utilization is obtained: the build succeeds, the
      binary exists, it exits with status 0 and its output holds a report
      whose number `float()` accepts. */
  predicate TrialSucceeds(t: Trial) {
    t.makeExit == 0 && t.vrunExists && t.vrun.exitCode == 0 && ExtractUtilization(t.vrun.stdout).Ok?
  }

  /** `run_make`, `run_vrun` and `extract_utilization` for one width. */
  function Measure(o: Options, vrun: string, t: Trial): (m: Measurement)
    ensures |m.commands| >= 1 && m.commands[0] == MakeCommand(o.makeJobs)
    ensures |m.commands| == 2 <==> t.makeExit == 0 && t.vrunExists
    ensures |m.commands| == 2 ==> m.commands[1] == VrunCommand(vrun, o.samples)
    ensures |m.commands| <= 2
    ensures m.outcome.Ok? <==> TrialSucceeds(t)
    ensures m.outcome.Ok? ==> m.outcome.value == ExtractUtilization(t.vrun.stdout).value
    ensures t.makeExit != 0 ==> m.outcome == Err(MakeFailed(t.makeExit))
    ensures m.outcome == Err(VrunMissing) <==> t.makeExit == 0 && !t.vrunExists
    ensures m.outcome.Err? && m.outcome.error.VrunFailed? <==> t.makeExit == 0 && t.vrunExists && t.vrun.exitCode != 0
    ensures m.outcome.Err? && m.outcome.error.VrunFailed? ==> m.outcome.error.code == t.vrun.exitCode
    ensures m.outcome.Err? && m.outcome.error.Unreadable? ==>
      t.makeExit == 0 && t.vrunExists && t.vrun.exitCode == 0 && ExtractUtilization(t.vrun.stdout) == Err(m.outcome.error.error)
  {
    var make := [MakeCommand(o.makeJobs)];
    if t.makeExit != 0 then Measurement(make, Err(MakeFailed(t.makeExit)))
    else if !t.vrunExists then Measurement(make, Err(VrunMissing))
    else
      var cmds := make + [VrunCommand(vrun, o.samples)];
      if t.vrun.exitCode != 0 then Measurement(cmds, Err(VrunFailed(t.vrun.exitCode)))
      else match ExtractUtilization(t.vrun.stdout)
        case Err(e) => Measurement(cmds, Err(Unreadable(e)))
        case Ok(u) => Measurement(cmds, Ok(u))
  }

  /** A measurement's outcome and its commands tell the same story: `vrun` was
      issued exactly when the failure, if any, came after the build and the
      existence check, and the issued commands carry the options back. */
  lemma MeasureStepsAgree(o: Options, vrun: string, t: Trial)
    ensures var m := Measure(o, vrun, t);
      |m.commands| == 1 <==> m.outcome.Err? && (m.outcome.error.MakeFailed? || m.outcome.error.VrunMissing?)
    ensures var m := Measure(o, vrun, t);
      |m.commands| == 2 ==> m.commands[1][0] == vrun && ParseInt(m.commands[1][2]) == Some(o.samples)
    ensures var m := Measure(o, vrun, t);
      o.makeJobs.Some? && o.makeJobs.value != 0 ==> ParseInt(m.commands[0][1][|JobsFlag|..]) == o.makeJobs
  {
    VrunSamplesReadBack(vrun, o.samples);
    if o.makeJobs.Some? && o.makeJobs.value != 0 {
      MakeJobsReadBack(o.makeJobs);
    }
  }

  /** The measurement each trial would give, in trial order. */
  function Measurements(o: Options, vrun: string, trials: seq<Trial>): (ms: seq<Measurement>)
    ensures |ms| == |trials|
  {
    seq(|trials|, j requires 0 <= j < |trials| => Measure(o, vrun, trials[j]))
  }

  /** The state of the loop: header text, results so far, commands issued. */
  datatype Loop = Loop(header: string, results: seq<Record>, commands: seq<seq<string>>)

  /** How the loop ended: every width done, or a failure at width index `at`. */
  datatype LoopExit = Finished(state: Loop) | Stopped(state: Loop, at: nat, failure: Failure)

  /** The operation that writes a width into the header text. */
  type Patcher = (string, int) -> Result<string, PatchError>

  /** The `for width in widths` loop from index `i` on: `patch` writes each
      width into the header, and `ms[j]` is what measuring width `j` gives
      once the header is patched. */
  function SweepFrom(patch: Patcher, widths: seq<int>, ms: seq<Measurement>, i: nat, s: Loop): (r: LoopExit)
    requires i <= |widths| <= |ms|
    ensures r.Finished? ==> |r.state.results| == |s.results| + (|widths| - i)
    ensures r.Stopped? ==> i <= r.at < |widths| && |r.state.results| == |s.results| + (r.at - i)
    ensures |s.results| <= |r.state.results| && r.state.results[..|s.results|] == s.results
    ensures |s.commands| <= |r.state.commands| && r.state.commands[..|s.commands|] == s.commands
    decreases |widths| - i
  {
    if i == |widths| then Finished(s)
    else match patch(s.header, widths[i])
      case Err(_) => Stopped(s, i, PatternMissing)
      case Ok(h) =>
        var s' := Loop(h, s.results, s.commands + ms[i].commands);
        match ms[i].outcome
        case Err(e) => Stopped(s', i, MeasureFailed(e))
        case Ok(u) =>
          var next := s'.(results := s.results + [Record(widths[i], u)]);
          var r := SweepFrom(patch, widths, ms, i + 1, next);
          assert next.results[..|s.results|] == s.results;
          assert next.commands[..|s.commands|] == s.commands;
          r
  }

  /** `rs` holds, in order, the utilizations measured for the first `|rs|`
      widths. */
  ghost predicate MeasuredPrefix(widths: seq<int>, ms: seq<Measurement>, rs: seq<Record>) {
    && |rs| <= |widths| && |rs| <= |ms|
    && forall j :: 0 <= j < |rs| ==> rs[j].width == widths[j] && ms[j].outcome == Ok(rs[j].utilization)
  }

  /** The commands of the first `n` measurements, in order. */
  ghost function Issued(ms: seq<Measurement>, n: nat): seq<seq<string>>
    requires n <= |ms|
  {
    if n == 0 then [] else Issued(ms, n - 1) + ms[n - 1].commands
  }

  /** The header after writing the first `n` widths into `original` one
      after another, or the error of the first write that found no match. */
  function WriteAll(patch: Patcher, original: string, widths: seq<int>, n: nat): Result<string, PatchError>
    requires n <= |widths|
  {
    if n == 0 then Ok(original)
    else match WriteAll(patch, original, widths, n - 1)
      case Err(e) => Err(e)
      case Ok(h) => patch(h, widths[n - 1])
  }

  /** Writing several widths one after another leaves what writing only the
      last one into the original would. */
  lemma {:induction false} WriteAllIsLastWrite(original: string, widths: seq<int>, n: nat)
    requires 0 < n <= |widths|
    requires forall j :: 0 <= j < |widths| ==> widths[j] >= 0
    ensures WriteAll(SetWidth, original, widths, n) == SetWidth(original, widths[n - 1])
  {
    if n > 1 {
      WriteAllIsLastWrite(original, widths, n - 1);
      var v: nat := widths[n - 2];
      if SetWidth(original, v).Ok? {
        SetWidthLastWriteWins(original, v, widths[n - 1]);
      } else {
        SetWidthFailsIffNoMatch(original, v);
        SetWidthFailsIffNoMatch(original, widths[n - 1]);
      }
    }
  }

  /** Only the first write can miss: once one succeeded, every later one does. */
  lemma OnlyFirstWriteMisses(original: string, widths: seq<int>, n: nat)
    requires 0 < n < |widths|
    requires forall j :: 0 <= j < |widths| ==> widths[j] >= 0
    ensures WriteAll(SetWidth, original, widths, n).Ok? ==> WriteAll(SetWidth, original, widths, n + 1).Ok?
  {
    WriteAllIsLastWrite(original, widths, n);
    WriteAllIsLastWrite(original, widths, n + 1);
    SetWidthFailsIffNoMatch(original, widths[n - 1]);
    SetWidthFailsIffNoMatch(original, widths[n]);
  }

  /** The loop from index `i` keeps the results in width order and stops
      at the first measurement that fails. */
  lemma {:induction false} SweepFromResults(patch: Patcher, widths: seq<int>, ms: seq<Measurement>, i: nat, s: Loop)
    requires i <= |widths| <= |ms|
    requires |s.results| == i && MeasuredPrefix(widths, ms, s.results)
    ensures var r := SweepFrom(patch, widths, ms, i, s);
      && MeasuredPrefix(widths, ms, r.state.results)
      && (r.Stopped? && r.failure.MeasureFailed? ==> ms[r.at].outcome == Err(r.failure.error))
    decreases |widths| - i
  {
    if i < |widths| {
      match patch(s.header, widths[i])
      case Err(_) =>
      case Ok(h) =>
        match ms[i].outcome
        case Err(f) =>
        case Ok(u) =>
          var next := Loop(h, s.results + [Record(widths[i], u)], s.commands + ms[i].commands);
          ExtendPrefix(widths, ms, s.results, u);
          SweepFromResults(patch, widths, ms, i + 1, next);
    }
  }

  lemma ExtendPrefix(widths: seq<int>, ms: seq<Measurement>, rs: seq<Record>, u: string)
    requires MeasuredPrefix(widths, ms, rs) && |rs| < |widths| && |rs| < |ms|
    requires ms[|rs|].outcome == Ok(u)
    ensures MeasuredPrefix(widths, ms, rs + [Record(widths[|rs|], u)])
  {
    var rs' := rs + [Record(widths[|rs|], u)];
    forall j | 0 <= j < |rs'|
      ensures rs'[j].width == widths[j] && ms[j].outcome == Ok(rs'[j].utilization)
    {
      if j < |rs| {
        assert rs'[j] == rs[j];
      }
    }
  }

  /** The loop from index `i` issues the commands of the measurements it
      reaches, in order, and none after the one that fails. */
  lemma {:induction false} SweepFromCommands(patch: Patcher, widths: seq<int>, ms: seq<Measurement>, i: nat, s: Loop)
    requires i <= |widths| <= |ms|
    requires s.commands == Issued(ms, i)
    ensures var r := SweepFrom(patch, widths, ms, i, s);
      && (r.Finished? ==> r.state.commands == Issued(ms, |widths|))
      && (r.Stopped? && r.failure.PatternMissing? ==> r.state.commands == Issued(ms, r.at))
      && (r.Stopped? && r.failure.MeasureFailed? ==> r.state.commands == Issued(ms, r.at + 1))
    decreases |widths| - i
  {
    if i < |widths| {
      var patched := patch(s.header, widths[i]);
      var r := SweepFrom(patch, widths, ms, i, s);
      assert Issued(ms, i + 1) == s.commands + ms[i].commands;
      if patched.Ok? && ms[i].outcome.Ok? {
        var next := Loop(patched.value, s.results + [Record(widths[i], ms[i].outcome.value)], s.commands + ms[i].commands);
        assert r == SweepFrom(patch, widths, ms, i + 1, next);
        SweepFromCommands(patch, widths, ms, i + 1, next);
      }
    }
  }

  /** The loop from index `i` leaves behind the header of the writes it
      made; it misses the pattern exactly where a write fails. */
  lemma {:induction false} SweepFromHeader(patch: Patcher, widths: seq<int>, ms: seq<Measurement>, i: nat, s: Loop, original: string)
    requires i <= |widths| <= |ms|
    requires WriteAll(patch, original, widths, i) == Ok(s.header)
    ensures var r := SweepFrom(patch, widths, ms, i, s);
      && (r.Finished? ==> WriteAll(patch, original, widths, |widths|) == Ok(r.state.header))
      && (r.Stopped? && r.failure.PatternMissing? ==>
            WriteAll(patch, original, widths, r.at) == Ok(r.state.header) && WriteAll(patch, original, widths, r.at + 1).Err?)
      && (r.Stopped? && r.failure.MeasureFailed? ==> WriteAll(patch, original, widths, r.at + 1) == Ok(r.state.header))
    decreases |widths| - i
  {
    if i < |widths| {
      var patched := patch(s.header, widths[i]);
      var r := SweepFrom(patch, widths, ms, i, s);
      assert WriteAll(patch, original, widths, i + 1) == patched;
      if patched.Err? {
        assert r == Stopped(s, i, PatternMissing);
      } else if ms[i].outcome.Err? {
        assert r == Stopped(Loop(patched.value, s.results, s.commands + ms[i].commands), i, MeasureFailed(ms[i].outcome.error));
      } else {
        var next := Loop(patched.value, s.results + [Record(widths[i], ms[i].outcome.value)], s.commands + ms[i].commands);
        assert r == SweepFrom(patch, widths, ms, i + 1, next);
        SweepFromHeader(patch, widths, ms, i + 1, next, original);
      }
    }
  }

  /** The first row `save_csv` writes. */
  const CsvHeader: seq<string> := ["vector_width", "vector_utilization_percent"]

  function CsvRow(rec: Record): seq<string> {
    [IntText(rec.width), rec.utilization]
  }

  /** The rows `save_csv` writes: the header row, then one row per result in
      order. */
  function CsvRows(results: seq<Record>): (rows: seq<seq<string>>)
    ensures |rows| == |results| + 1 && rows[0] == CsvHeader
  {
    [CsvHeader] + CsvBody(results)
  }

  function CsvBody(results: seq<Record>): (rows: seq<seq<string>>)
    ensures |rows| == |results|
  {
    if results == [] then [] else [CsvRow(results[0])] + CsvBody(results[1..])
  }

  /** Reads the rows of a results file back into records. */
  function ReadCsv(rows: seq<seq<string>>): (r: Option<seq<Record>>)
    ensures r.Some? ==> |r.value| + 1 == |rows|
  {
    if |rows| == 0 || rows[0] != CsvHeader then None else ReadBody(rows[1..])
  }

  function ReadBody(rows: seq<seq<string>>): (r: Option<seq<Record>>)
    ensures r.Some? ==> |r.value| == |rows|
  {
    if rows == [] then Some([])
    else if |rows[0]| != 2 then None
    else match ParseInt(rows[0][0])
      case None => None
      case Some(w) =>
        match ReadBody(rows[1..])
        case None => None
        case Some(rest) => Some([Record(w, rows[0][1])] + rest)
  }

  /** Reading the written rows gives back the results, in order. */
  lemma CsvRoundTrip(results: seq<Record>)
    ensures ReadCsv(CsvRows(results)) == Some(results)
  {
    assert CsvRows(results)[1..] == CsvBody(results);
    CsvBodyRoundTrip(results);
  }

  lemma {:induction false} CsvBodyRoundTrip(results: seq<Record>)
    ensures ReadBody(CsvBody(results)) == Some(results)
  {
    if results != [] {
      var rows := CsvBody(results);
      assert rows[1..] == CsvBody(results[1..]);
      IntTextRoundTrip(results[0].width);
      CsvBodyRoundTrip(results[1..]);
      assert [results[0]] + results[1..] == results;
    }
  }

  /** How the sweep as a whole ended. */
  datatype Exit =
    | Completed(results: seq<Record>)
    | Aborted(at: nat, failure: Failure, partial: seq<Record>)
    | Rejected(error: ConfigError)

  /** The exit, the header text left behind, the CSV rows written (if any)
      and the commands issued. */
  datatype Final = Final(exit: Exit, header: string, csv: Option<seq<seq<string>>>, commands: seq<seq<string>>)

  /** `main`, with `original` the header text read before the loop and one
      trial per width. */
  function Run(o: Options, vrun: string, original: string, trials: seq<Trial>): (f: Final)
    requires Valid(o) ==> |Widths(o)| <= |trials|
    ensures f.exit.Rejected? <==> !Valid(o)
    ensures f.exit.Rejected? ==> f.exit.error == CheckBounds(o).error
    ensures f.exit.Rejected? ==> f.header == original && f.commands == [] && f.csv.None?
    ensures !o.keepWidth ==> f.header == original
    ensures f.csv.Some? <==> f.exit.Completed?
    ensures f.exit.Completed? ==> f.csv == Some(CsvRows(f.exit.results))
    ensures f.exit.Completed? ==> |f.exit.results| == |Widths(o)|
    ensures f.exit.Aborted? ==> f.exit.at < |Widths(o)| && |f.exit.partial| == f.exit.at
  {
    match CheckBounds(o)
    case Err(e) => Final(Rejected(e), original, None, [])
    case Ok(_) =>
      var widths := Widths(o);
      var r := SweepFrom(SetWidth, widths, Measurements(o, vrun, trials), 0, Loop(original, [], []));
      var header := if o.keepWidth then r.state.header else original;
      match r
      case Finished(s) => Final(Completed(s.results), header, Some(CsvRows(s.results)), s.commands)
      case Stopped(s, k, failure) => Final(Aborted(k, failure, s.results), header, None, s.commands)
  }

  /** Facts about the loop of a valid sweep, gathered from the loop lemmas. */
  lemma RunLoop(o: Options, vrun: string, original: string, trials: seq<Trial>)
    requires Valid(o) && |Widths(o)| <= |trials|
    ensures var W := Widths(o);
      var ms := Measurements(o, vrun, trials);
      var r := SweepFrom(SetWidth, W, ms, 0, Loop(original, [], []));
      && MeasuredPrefix(W, ms, r.state.results)
      && (r.Stopped? && r.failure.MeasureFailed? ==> ms[r.at].outcome == Err(r.failure.error))
      && (r.Finished? ==> WriteAll(SetWidth, original, W, |W|) == Ok(r.state.header))
      && (r.Stopped? && r.failure.PatternMissing? ==>
            WriteAll(SetWidth, original, W, r.at) == Ok(r.state.header) && WriteAll(SetWidth, original, W, r.at + 1).Err?)
      && (r.Stopped? && r.failure.MeasureFailed? ==> WriteAll(SetWidth, original, W, r.at + 1) == Ok(r.state.header))
      && (r.Finished? ==> r.state.commands == Issued(ms, |W|))
      && (r.Stopped? && r.failure.PatternMissing? ==> r.state.commands == Issued(ms, r.at))
      && (r.Stopped? && r.failure.MeasureFailed? ==> r.state.commands == Issued(ms, r.at + 1))
  {
    var W := Widths(o);
    var ms := Measurements(o, vrun, trials);
    var s := Loop(original, [], []);
    SweepFromResults(SetWidth, W, ms, 0, s);
    SweepFromHeader(SetWidth, W, ms, 0, s, original);
    SweepFromCommands(SetWidth, W, ms, 0, s);
  }

  /** A valid sweep completes exactly when the header defines the width and
      every trial succeeds; its results are then the widths, in order, each
      with the utilization its run reported. */
  lemma RunCompletes(o: Options, vrun: string, original: string, trials: seq<Trial>)
    requires Valid(o) && |Widths(o)| <= |trials|
    ensures var f := Run(o, vrun, original, trials);
      var W := Widths(o);
      && (f.exit.Completed? <==>
            SetWidth(original, W[0]).Ok? && forall j :: 0 <= j < |W| ==> TrialSucceeds(trials[j]))
      && (f.exit.Completed? ==> forall j :: 0 <= j < |W| ==>
            f.exit.results[j] == Record(W[j], ExtractUtilization(trials[j].vrun.stdout).value))
  {
    RunLoop(o, vrun, original, trials);
    var W := Widths(o);
    var ms := Measurements(o, vrun, trials);
    var r := SweepFrom(SetWidth, W, ms, 0, Loop(original, [], []));
    if r.Finished? {
      assert WriteAll(SetWidth, original, W, 1) == SetWidth(original, W[0]) by {
        WriteAllIsLastWrite(original, W, 1);
      }
      WriteAllOkShrinks(SetWidth, original, W, 1, |W|);
      forall j | 0 <= j < |W|
        ensures TrialSucceeds(trials[j])
        ensures r.state.results[j] == Record(W[j], ExtractUtilization(trials[j].vrun.stdout).value)
      {
        assert ms[j].outcome == Ok(r.state.results[j].utilization);
      }
    } else if r.failure.PatternMissing? {
      PatternMissesOnlyFirst(o, original, r.at);
    } else {
      assert !TrialSucceeds(trials[r.at]) by {
        assert ms[r.at].outcome.Err?;
      }
    }
  }

  /** If writing the first `m` widths succeeds, so does writing fewer. */
  lemma {:induction false} WriteAllOkShrinks(patch: Patcher, original: string, widths: seq<int>, n: nat, m: nat)
    requires n <= m <= |widths|
    requires WriteAll(patch, original, widths, m).Ok?
    ensures WriteAll(patch, original, widths, n).Ok?
    decreases m - n
  {
    if n < m {
      WriteAllOkShrinks(patch, original, widths, n, m - 1);
    }
  }

  /** A missing pattern stops the sweep at its first width, and only when
      the original header has no definition to patch. */
  lemma PatternMissesOnlyFirst(o: Options, original: string, k: nat)
    requires Valid(o) && k < |Widths(o)|
    ensures WriteAll(SetWidth, original, Widths(o), k).Ok? && WriteAll(SetWidth, original, Widths(o), k + 1).Err? ==>
      k == 0 && SetWidth(original, Widths(o)[0]).Err?
  {
    var W := Widths(o);
    if k > 0 {
      OnlyFirstWriteMisses(original, W, k);
    }
    WriteAllIsLastWrite(original, W, 1);
  }

  /** An aborted sweep measured every width before the failing one, in
      order; a failed measurement is the failing trial's own, and a missing
      pattern can only stop the first width. */
  lemma RunAborts(o: Options, vrun: string, original: string, trials: seq<Trial>)
    requires Valid(o) && |Widths(o)| <= |trials|
    ensures var f := Run(o, vrun, original, trials);
      var W := Widths(o);
      && (f.exit.Aborted? ==> forall j :: 0 <= j < f.exit.at ==>
            TrialSucceeds(trials[j]) && f.exit.partial[j] == Record(W[j], ExtractUtilization(trials[j].vrun.stdout).value))
      && (f.exit.Aborted? && f.exit.failure.MeasureFailed? ==>
            Measure(o, vrun, trials[f.exit.at]).outcome == Err(f.exit.failure.error))
      && (f.exit.Aborted? && f.exit.failure.PatternMissing? ==> f.exit.at == 0)
  {
    RunLoop(o, vrun, original, trials);
    var W := Widths(o);
    var ms := Measurements(o, vrun, trials);
    var r := SweepFrom(SetWidth, W, ms, 0, Loop(original, [], []));
    if r.Stopped? {
      forall j | 0 <= j < r.at
        ensures TrialSucceeds(trials[j])
        ensures r.state.results[j] == Record(W[j], ExtractUtilization(trials[j].vrun.stdout).value)
      {
        assert ms[j].outcome == Ok(r.state.results[j].utilization);
      }
      if r.failure.PatternMissing? {
        PatternMissesOnlyFirst(o, original, r.at);
      }
    }
  }

  /** A missing pattern aborts the sweep at its first width, before any
      command, exactly when the original header has no definition to patch. */
  lemma RunMissesPattern(o: Options, vrun: string, original: string, trials: seq<Trial>)
    requires Valid(o) && |Widths(o)| <= |trials|
    ensures var f := Run(o, vrun, original, trials);
      f.exit == Aborted(0, PatternMissing, []) <==> SetWidth(original, Widths(o)[0]).Err?
  {
    RunLoop(o, vrun, original, trials);
    var W := Widths(o);
    var r := SweepFrom(SetWidth, W, Measurements(o, vrun, trials), 0, Loop(original, [], []));
    assert WriteAll(SetWidth, original, W, 1) == SetWidth(original, W[0]);
    if r.Stopped? && r.failure.PatternMissing? {
      PatternMissesOnlyFirst(o, original, r.at);
    }
  }

  /** With `--keep-width` the header keeps the last width written: the last
      width after a complete sweep, the failing width after a failed
      measurement, and the original text when the pattern was missing. */
  lemma RunKeepsLastWidth(o: Options, vrun: string, original: string, trials: seq<Trial>)
    requires Valid(o) && |Widths(o)| <= |trials| && o.keepWidth
    ensures var f := Run(o, vrun, original, trials);
      var W := Widths(o);
      && (f.exit.Completed? ==>
            SetWidth(original, W[|W| - 1]) == Ok(f.header) && ReadWidth(f.header) == Some(W[|W| - 1]))
      && (f.exit.Aborted? && f.exit.failure.MeasureFailed? ==>
            SetWidth(original, W[f.exit.at]) == Ok(f.header) && ReadWidth(f.header) == Some(W[f.exit.at]))
      && (f.exit.Aborted? && f.exit.failure.PatternMissing? ==> f.header == original)
  {
    RunLoop(o, vrun, original, trials);
    var W := Widths(o);
    var ms := Measurements(o, vrun, trials);
    var r := SweepFrom(SetWidth, W, ms, 0, Loop(original, [], []));
    if r.Finished? {
      WriteAllIsLastWrite(original, W, |W|);
      SetWidthReadBack(original, W[|W| - 1]);
    } else if r.failure.MeasureFailed? {
      WriteAllIsLastWrite(original, W, r.at + 1);
      SetWidthReadBack(original, W[r.at]);
    } else {
      PatternMissesOnlyFirst(o, original, r.at);
    }
  }

  /** The commands a sweep issues are those of the measurements it reached,
      in width order: none when the pattern is missing, and none after the
      measurement that failed. */
  lemma RunIssues(o: Options, vrun: string, original: string, trials: seq<Trial>)
    requires Valid(o) && |Widths(o)| <= |trials|
    ensures var f := Run(o, vrun, original, trials);
      var ms := Measurements(o, vrun, trials);
      && (f.exit.Completed? ==> f.commands == Issued(ms, |Widths(o)|))
      && (f.exit.Aborted? && f.exit.failure.MeasureFailed? ==> f.commands == Issued(ms, f.exit.at + 1))
      && (f.exit.Aborted? && f.exit.failure.PatternMissing? ==> f.commands == [])
  {
    RunLoop(o, vrun, original, trials);
    var r := SweepFrom(SetWidth, Widths(o), Measurements(o, vrun, trials), 0, Loop(original, [], []));
    if r.Stopped? && r.failure.PatternMissing? {
      PatternMissesOnlyFirst(o, original, r.at);
    }
  }

  /** `main` as a loop: a failure ends the loop the way an exception leaves
      the `try` block, and the header is restored afterwards in either case
      unless `--keep-width` was given. */
  method RunSweep(o: Options, vrun: string, original: string, trials: seq<Trial>) returns (f: Final)
    requires Valid(o) ==> |Widths(o)| <= |trials|
    ensures f == Run(o, vrun, original, trials)
  {
    var checked := CheckBounds(o);
    if checked.Err? {
      return Final(Rejected(checked.error), original, None, []);
    }
    var widths := Widths(o);
    ghost var ms := Measurements(o, vrun, trials);
    ghost var outcome := SweepFrom(SetWidth, widths, ms, 0, Loop(original, [], []));
    var header, results, commands := original, [], [];
    var i := 0;
    var stop: Option<Failure> := None;
    while i < |widths| && stop.None?
      invariant i <= |widths|
      invariant stop.None? ==> SweepFrom(SetWidth, widths, ms, i, Loop(header, results, commands)) == outcome
      invariant stop.Some? ==> outcome == Stopped(Loop(header, results, commands), i, stop.value)
      decreases |widths| - i, if stop.None? then 1 else 0
    {
      var patched := SetWidth(header, widths[i]);
      if patched.Err? {
        stop := Some(PatternMissing);
      } else {
        header := patched.value;
        var m := Measure(o, vrun, trials[i]);
        assert m == ms[i];
        commands := commands + m.commands;
        if m.outcome.Err? {
          stop := Some(MeasureFailed(m.outcome.error));
        } else {
          results := results + [Record(widths[i], m.outcome.value)];
          i := i + 1;
        }
      }
    }
    var kept := if o.keepWidth then header else original;
    if stop.None? {
      f := Final(Completed(results), kept, Some(CsvRows(results)), commands);
    } else {
      f := Final(Aborted(i, stop.value, results), kept, None, commands);
    }
  }
}
