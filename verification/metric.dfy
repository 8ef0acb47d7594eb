/** `extract_utilization`: the leftmost `Vector Utilization:\s*([0-9.]+)%` in
    the benchmark's output, converted by `float()`. The conversion's value is
    left out: the result is the captured text, once it is known to be text
    `float()` accepts. */
module Metric {
  import opened Chars
  import opened Results
  import opened Patterns

  /** No report in the output (`RuntimeError`), or a captured run of digits
      and dots that `float()` rejects (`ValueError`). */
  datatype MetricError = UtilizationNotFound | NotAFloat

  /** The number of dots in `u`. */
  function DotCount(u: string): (n: nat)
    ensures n <= |u|
  {
    if u == [] then 0 else (if u[0] == '.' then 1 else 0) + DotCount(u[1..])
  }

  /** A run of digits and dots that `float()` accepts: at most one dot and
      at least one digit (`"87.5"`, `"87."` and `".5"`, but not `"."` or
      `"1.2.3"`). */
  predicate IsFloatText(u: string) {
    DotCount(u) <= 1 && exists p :: 0 <= p < |u| && IsDigit(u[p])
  }

  function ExtractUtilization(output: string): (r: Result<string, MetricError>)
    ensures r.Ok? ==> IsFloatText(r.value)
  {
    match Search(UtilizationReport, output)
    case None => Err(UtilizationNotFound)
    case Some(m) =>
      var u := output[m.groupStart..m.groupEnd];
      if IsFloatText(u) then Ok(u) else Err(NotAFloat)
  }

  /** Python's decimal float literal, restricted to digits and dots:
      `digits`, or `[digits] "." [digits]` with a digit on at least one side of
      the point. */
  ghost predicate FloatLiteral(u: string) {
    || (|u| > 0 && AllIn(u, Digit))
    || exists i :: 0 <= i < |u| && u[i] == '.' && |u| > 1 && AllIn(u[..i], Digit) && AllIn(u[i + 1..], Digit)
  }

  /** On a capture of `[0-9.]+`, the dot-counting test is exactly the literal
      grammar `float()` parses. */
  lemma FloatTextIsLiteral(u: string)
    requires AllIn(u, DigitOrDot)
    ensures IsFloatText(u) <==> FloatLiteral(u)
  {
    if IsFloatText(u) {
      if DotCount(u) == 0 {
        NoDotsIsDigits(u);
      } else {
        var i := DotAt(u);
        DotCountAround(u, i);
        NoDotsIsDigits(u[..i]);
        NoDotsIsDigits(u[i + 1..]);
        var p :| 0 <= p < |u| && IsDigit(u[p]);
        assert p != i;
      }
    }
    if FloatLiteral(u) {
      if |u| > 0 && AllIn(u, Digit) {
        NoDotsIsDigits(u);
        assert IsDigit(u[0]);
      } else {
        var i :| 0 <= i < |u| && u[i] == '.' && |u| > 1 && AllIn(u[..i], Digit) && AllIn(u[i + 1..], Digit);
        DotCountAround(u, i);
        NoDotsIsDigits(u[..i]);
        NoDotsIsDigits(u[i + 1..]);
        if i > 0 {
          assert IsDigit(u[..i][0]);
        } else {
          assert IsDigit(u[i + 1..][0]);
        }
      }
    }
  }

  /** A run of digits and dots with no dot is a run of digits. */
  lemma {:induction false} NoDotsIsDigits(u: string)
    requires AllIn(u, DigitOrDot)
    ensures DotCount(u) == 0 <==> AllIn(u, Digit)
  {
    if u != [] {
      NoDotsIsDigits(u[1..]);
      assert AllIn(u[1..], Digit) <==> forall p :: 1 <= p < |u| ==> IsDigit(u[p]);
    }
  }

  /** The position of some dot, when there is one. */
  lemma {:induction false} DotAt(u: string) returns (i: nat)
    requires DotCount(u) > 0
    ensures i < |u| && u[i] == '.'
  {
    if u[0] == '.' {
      i := 0;
    } else {
      var j := DotAt(u[1..]);
      i := j + 1;
    }
  }

  /** The dots of `u` are those before a dot at `i`, that one, and those after. */
  lemma {:induction false} DotCountAround(u: string, i: nat)
    requires i < |u| && u[i] == '.'
    ensures DotCount(u) == DotCount(u[..i]) + 1 + DotCount(u[i + 1..])
  {
    if i > 0 {
      DotCountAround(u[1..], i - 1);
      assert u[1..][..i - 1] == u[..i][1..];
      assert u[1..][i..] == u[i + 1..];
    } else {
      assert u[..0] == [];
    }
  }

  /** Which captures `float()` accepts. */
  lemma FloatTextExamples()
    ensures IsFloatText("87.5") && IsFloatText("87.") && IsFloatText(".5") && IsFloatText("100")
    ensures !IsFloatText(".") && !IsFloatText("1.2.3") && !IsFloatText("..")
  {
    assert IsDigit("87.5"[0]) && IsDigit("87."[0]) && IsDigit(".5"[1]) && IsDigit("100"[0]);
    assert !IsDigit("."[0]);
    assert !IsDigit(".."[0]) && !IsDigit(".."[1]);
  }

  /** The extractor reports a missing utilization exactly when the output
      holds no report. */
  lemma ExtractFailsIffNoReport(output: string)
    ensures ExtractUtilization(output) == Err(UtilizationNotFound) <==> forall q: nat, a: nat, b: nat :: !ReportSplit(output, q, a, b)
  {
    match Search(UtilizationReport, output)
    case None =>
      forall q: nat, a: nat, b: nat | ReportSplit(output, q, a, b)
        ensures false
      {
        ReportMatchIsSplit(output, q, a, b);
      }
    case Some(m) =>
      ReportMatchIsSplit(output, m.start, m.groupStart, m.groupEnd);
  }

  /** When a report starts at `q` and none starts earlier, the extractor
      returns that report's number, or fails when `float()` rejects it. */
  lemma ExtractReturnsLeftmost(output: string, q: nat, a: nat, b: nat)
    requires ReportSplit(output, q, a, b)
    requires forall q': nat, a': nat, b': nat :: q' < q ==> !ReportSplit(output, q', a', b')
    ensures ExtractUtilization(output) == if IsFloatText(output[a..b]) then Ok(output[a..b]) else Err(NotAFloat)
  {
    LeftmostReportIsFound(output, q, a, b);
  }

  lemma LeftmostReportIsFound(output: string, q: nat, a: nat, b: nat)
    requires ReportSplit(output, q, a, b)
    requires forall q': nat, a': nat, b': nat :: q' < q ==> !ReportSplit(output, q', a', b')
    ensures Search(UtilizationReport, output) == Some(Match(q, a, b))
  {
    ReportMatchIsSplit(output, q, a, b);
    forall q' | 0 <= q' < q
      ensures MatchAt(UtilizationReport, output, q').None?
    {
      if MatchAt(UtilizationReport, output, q').Some? {
        var m := MatchAt(UtilizationReport, output, q').value;
        ReportMatchIsSplit(output, q', m.groupStart, m.groupEnd);
      }
    }
    SearchFindsLeftmost(UtilizationReport, output, q);
  }

  /** The captured text is a non-empty run of digits and dots. */
  lemma ExtractedIsNumeric(output: string)
    requires ExtractUtilization(output).Ok?
    ensures AllIn(ExtractUtilization(output).value, DigitOrDot)
    ensures FloatLiteral(ExtractUtilization(output).value)
  {
    var m := Search(UtilizationReport, output).value;
    MatchGroupChars(UtilizationReport, output, m.start);
    var u := output[m.groupStart..m.groupEnd];
    assert forall p :: 0 <= p < |u| ==> u[p] == output[m.groupStart + p];
    FloatTextIsLiteral(u);
  }

  /** A run that prints `Vector Utilization: 87.5%` reports `87.5`. */
  lemma ExtractExample()
    ensures ExtractUtilization("Vector Utilization: 87.5%") == Ok("87.5")
  {
    var s := "Vector Utilization: 87.5%";
    assert HasAt(s, 0, Label);
    assert ReportSplit(s, 0, 20, 24);
    LeftmostReportIsFound(s, 0, 20, 24);
    assert s[20..24] == "87.5";
    assert IsDigit(s[20..24][0]);
  }

  /** A run that prints `Vector Utilization: 1.2.3%` makes `float()` fail. */
  lemma ExtractRejectsExample()
    ensures ExtractUtilization("Vector Utilization: 1.2.3%") == Err(NotAFloat)
  {
    var s := "Vector Utilization: 1.2.3%";
    assert HasAt(s, 0, Label);
    assert ReportSplit(s, 0, 20, 25);
    LeftmostReportIsFound(s, 0, 20, 25);
    assert s[20..25] == "1.2.3";
    FloatTextExamples();
  }
}
