# VECTOR_WIDTH sweep, modelled in Dafny

`vecintrin/vector_width_sweep.py` sweeps the `VECTOR_WIDTH` constant of a C
header. For each width it does four things, in order:

- it rewrites the `#define VECTOR_WIDTH <n>` line of the header;
- it rebuilds with `make`;
- it runs the `vrun` benchmark with `-s <samples>`;
- it reads the `Vector Utilization: <x>%` figure from the benchmark's output.

The first failure stops the sweep. Whatever happens, the original header is
then written back, unless `--keep-width` was given. The results go to a CSV
file only when every width was measured.

This project models that core as pure functions over immutable data and
proves properties of them:

- `results.dfy` holds `Option` and `Result`.
- `chars.dfy` holds Python's `\s` character class, ASCII digits, and one greedy
  character-class run (`RunEnd`). Every quantifier in the two patterns is a
  greedy run of this kind. All but the trailing `(\d+)` of `WIDTH_PATTERN` are
  followed by a character their class excludes. Nothing follows `(\d+)`, so
  Python keeps its whole greedy run. So no backtracking is needed.
- `decimal.dfy` holds decimal text for integers, as `str(n)` and f-strings print
  them, and its parser.
- `patterns.dfy` holds the two regular expressions:
  - `WIDTH_PATTERN` with `re.MULTILINE`;
  - the utilization pattern.

  Each is given as a matcher at one position (`MatchAt`) and a leftmost search
  (`SearchFrom`). Each also gets a declarative reference description of what a
  match is (`DefineSplit`, `ReportSplit`), with a lemma showing the two agree.
- `header.dfy` holds `set_vector_width` as a function on the header text
  (`SetWidth`), and `ReadWidth`, which reads the constant back.
- `metric.dfy` holds `extract_utilization`.
- `config.dfy` holds the option bounds check and the width list,
  `range(min, max + 1, step)`.
- `commands.dfy` holds the argument vectors of `make` and `vrun`.
- `sweep.dfy` holds `main`: the loop, the `finally` restoration and the CSV
  rows. It exists twice, as a function (`Run`) and as a loop method
  (`RunSweep`), and the two are proved equal. The build and the benchmark are
  an oracle: one `Trial` per width gives make's exit status, whether `vrun`
  exists, and `vrun`'s exit status and output.

Three behaviours of the code are worth spelling out:

- A header with two or more matching lines is not an error.
  `subn(..., count=1)` rewrites only the first, so `count` is 0 or 1 and only a
  header with no match fails. A second match is left as it was
  (`Header.SetWidthFailsIffNoMatch`, `Header.SetWidthChangesOnlyDigits`).
- Only the first failing bounds check is reported, because `parser.error`
  exits. The checks run in the order width, step, min/max
  (`Config.CheckBounds`).
- `float()` can also reject the captured `[0-9.]+` text, for example `.` or
  `1.2.3`. That failure is `Metric.NotAFloat`, distinct from a missing report.
- A negative value writes a `-`, and `(\d+)` cannot match after it, so the
  patched header no longer matches the pattern (`Header.NegativeWidthUnmatched`).
  `main` never writes one, because the bounds checks keep every width at
  least 1. The patch lemmas are therefore stated for non-negative values.

## Model

| member | source | states |
|---|---|---|
| Chars.RunEnd | vecintrin/vector_width_sweep.py:16 | a greedy `\s*`/`\d+`/`[0-9.]+` run from `i` ends at the text's end or at the first character outside the class |
| Chars.RunEndSpan | vecintrin/vector_width_sweep.py:16 | every character the greedy run consumed belongs to the class |
| Decimal.IntText | vecintrin/vector_width_sweep.py:46 | the decimal text of an integer is non-empty, and is all digits exactly when the integer is non-negative |
| Decimal.IntTextRoundTrip | vecintrin/vector_width_sweep.py:63 | parsing the printed text of any integer gives the integer back |
| Patterns.MatchAt | vecintrin/vector_width_sweep.py:16 | a match at `j` starts at `j`, and its group lies non-empty inside the text; a utilization match is followed by `%` |
| Patterns.MatchGroupChars | vecintrin/vector_width_sweep.py:76 | the captured group of a match holds only digits (width pattern) or digits and dots (utilization pattern) |
| Patterns.SearchFrom | vecintrin/vector_width_sweep.py:76 | the search returns a match at the first position from `j` where one exists, and no position before it matches |
| Patterns.SearchFindsLeftmost | vecintrin/vector_width_sweep.py:46 | when `s` matches and no earlier position does, the search returns the match at `s` |
| Patterns.DefineMatchIsSplit | vecintrin/vector_width_sweep.py:16 | the width pattern matches at `j` with group 2 at `[e, f)` exactly when `j` starts a line, optional spaces, `#define`, spaces, `VECTOR_WIDTH`, spaces, the maximal digit run `[e, f)` follow |
| Patterns.ReportMatchIsSplit | vecintrin/vector_width_sweep.py:76 | the utilization pattern matches at `j` with group `[a, b)` exactly when the label, optional spaces, the maximal digit-or-dot run `[a, b)` and `%` follow |
| Header.SetWidthFailsIffNoMatch | vecintrin/vector_width_sweep.py:46-48 | the patch fails exactly when no position of the header matches; two or more matches are not an error |
| Header.SetWidthChangesOnlyDigits | vecintrin/vector_width_sweep.py:46 | a patch keeps the text before and after the leftmost match's digits and replaces those digits by the decimal text of the value |
| Header.PatchedTextMatch | vecintrin/vector_width_sweep.py:46 | after a patch with a non-negative value the leftmost match starts where it did, with the new digits as its group |
| Header.SetWidthLastWriteWins | vecintrin/vector_width_sweep.py:44-49 | after a patch with a non-negative value, patching again with `w` gives what patching the original with `w` gives |
| Header.SetWidthIdempotent | vecintrin/vector_width_sweep.py:44-49 | patching twice with the same non-negative value is patching once |
| Header.SetWidthExample | vecintrin/vector_width_sweep.py:46 | `#define VECTOR_WIDTH 4` patched with 8 becomes `#define VECTOR_WIDTH 8` |
| Header.NegativeWidthUnmatched | vecintrin/vector_width_sweep.py:46 | writing -1 into `#define VECTOR_WIDTH 4` gives `#define VECTOR_WIDTH -1`, which the pattern no longer matches, so the next patch fails |
| Header.SetWidthReadBack | vecintrin/vector_width_sweep.py:46 | after patching with a non-negative value, the header's constant reads back as that value |
| Metric.ExtractUtilization | vecintrin/vector_width_sweep.py:75-79 | an extracted utilization is text `float()` accepts |
| Metric.ExtractFailsIffNoReport | vecintrin/vector_width_sweep.py:76-78 | the extractor reports a missing utilization exactly when no position of the output holds a report |
| Metric.ExtractReturnsLeftmost | vecintrin/vector_width_sweep.py:76-79 | with a report at `q` and none earlier, the result is that report's number, or the `float()` failure when it is not a number |
| Metric.ExtractedIsNumeric | vecintrin/vector_width_sweep.py:76-79 | an extracted utilization consists of digits and dots and is a decimal float literal |
| Metric.FloatTextIsLiteral | vecintrin/vector_width_sweep.py:79 | on digits and dots, `IsFloatText` (at most one dot, at least one digit), the model's test for `float()` succeeding, holds exactly for Python's literals `digits`, `digits.`, `.digits` and `digits.digits` |
| Metric.FloatTextExamples | vecintrin/vector_width_sweep.py:79 | `float()` accepts `87.5`, `87.`, `.5`, `100` and rejects `.`, `..`, `1.2.3` |
| Metric.ExtractExample | vecintrin/vector_width_sweep.py:75-79 | `Vector Utilization: 87.5%` yields `87.5` |
| Metric.ExtractRejectsExample | vecintrin/vector_width_sweep.py:79 | `Vector Utilization: 1.2.3%` fails in `float()` |
| Config.CheckBounds | vecintrin/vector_width_sweep.py:35-40 | options are accepted exactly when 1 <= min <= max and step >= 1; otherwise the error is the first failing check's, in source order |
| Config.Widths | vecintrin/vector_width_sweep.py:141 | the width list is non-empty, starts at min, rises by step, stays within [min, max], and the next step would pass max |
| Config.Range | vecintrin/vector_width_sweep.py:141 | `range(start, stop, step)` for a positive step: every element lies in `[start, stop)` |
| Config.RangeLength | vecintrin/vector_width_sweep.py:141 | the range has Python's length: 0 when start >= stop, otherwise `ceil((stop - start) / step)` |
| Config.RangeShape | vecintrin/vector_width_sweep.py:141 | element `i` of `range(start, stop, step)` is `start + i*step` and below stop; it is empty exactly when start >= stop; its last element plus step reaches stop |
| Config.RangeMembership | vecintrin/vector_width_sweep.py:141 | a value is in the range exactly when it lies in `[start, stop)` a whole number of steps from start |
| Config.WidthsMembership | vecintrin/vector_width_sweep.py:141 | a width is swept exactly when min <= w <= max and w - min is a multiple of step |
| Config.WidthsExample | vecintrin/vector_width_sweep.py:141 | min 2, max 7, step 2 sweeps exactly 2, 4, 6 |
| Commands.MakeCommand | vecintrin/vector_width_sweep.py:53-55 | the build command is `make`, with a second argument exactly when a non-zero job count was given |
| Commands.MakeJobsReadBack | vecintrin/vector_width_sweep.py:55 | the second argument is `-j` followed by text that parses back to the job count |
| Commands.VrunCommand | vecintrin/vector_width_sweep.py:63 | the benchmark command is the binary, `-s`, and the sample count |
| Commands.VrunSamplesReadBack | vecintrin/vector_width_sweep.py:63 | the sample-count argument parses back to the sample count |
| Sweep.Measure | vecintrin/vector_width_sweep.py:59-72 | one width's build, run and extraction: `vrun` is issued exactly when the build succeeded and the binary exists; the outcome succeeds exactly when every step does; each failure is the first failing step's |
| Sweep.MeasureStepsAgree | vecintrin/vector_width_sweep.py:53-72 | `vrun` was issued exactly when the failure, if any, is neither the build's nor the missing binary's; the issued commands read back as the `vrun` path, the sample count and the `-j` job count |
| Sweep.SweepFrom | vecintrin/vector_width_sweep.py:145-153 | the loop keeps the results and commands it was given as a prefix, adds one result per width measured, and stops inside the width list |
| Sweep.SweepFromResults | vecintrin/vector_width_sweep.py:145-153 | the loop's results are the widths in order, each with its measured utilization, up to the first failure, which is that measurement's |
| Sweep.SweepFromCommands | vecintrin/vector_width_sweep.py:147-149 | the loop issues the commands of the measurements it reaches, in order, and none after a failure |
| Sweep.SweepFromHeader | vecintrin/vector_width_sweep.py:145-147 | the header the loop leaves is the result of its successive writes; it misses the pattern exactly where a write fails |
| Sweep.WriteAllIsLastWrite | vecintrin/vector_width_sweep.py:145-147 | writing several non-negative widths one after another into the header leaves what writing only the last one would |
| Sweep.OnlyFirstWriteMisses | vecintrin/vector_width_sweep.py:147 | for non-negative widths, once a write succeeded, the next one does too |
| Sweep.CsvRows | vecintrin/vector_width_sweep.py:86-87 | the CSV holds the column-header row and then one row per result |
| Sweep.CsvRoundTrip | vecintrin/vector_width_sweep.py:86-87 | reading the CSV rows back gives the results, in order |
| Sweep.Run | vecintrin/vector_width_sweep.py:138-162 | bad options are rejected before any command or header change; without `--keep-width` the header ends as the original; a CSV is written exactly when the sweep completes, and it holds the results |
| Sweep.RunCompletes | vecintrin/vector_width_sweep.py:144-162 | a valid sweep completes exactly when the header has a match and every trial succeeds; its results are the widths in order with their utilizations |
| Sweep.RunAborts | vecintrin/vector_width_sweep.py:144-161 | an aborted sweep has measured every earlier width in order; its failure is the failing trial's own, and a missing pattern only ever stops the first width |
| Sweep.RunMissesPattern | vecintrin/vector_width_sweep.py:147 | the sweep aborts at the first width with no results exactly when the original header has no match |
| Sweep.RunKeepsLastWidth | vecintrin/vector_width_sweep.py:155-157 | with `--keep-width` the header is the original patched with the last width written, and reads back as that width; it is the original when the pattern was missing |
| Sweep.RunIssues | vecintrin/vector_width_sweep.py:147-149 | the sweep issues the commands of the measurements it reached, in order, and none after the failing one |
| Sweep.RunSweep | vecintrin/vector_width_sweep.py:138-162 | the loop with a failure flag in place of exceptions and the restoration after it computes exactly `Run` |

## Left out

- File and process I/O are left out. The header is its text, and the
  `make`/`vrun` runs are an oracle of outcomes (`Sweep.Trial`). The working
  directory, paths and `Path.exists` are not modelled.
- External interruption of a blocking call is not modelled. Neither are hangs
  or timeouts.
- The plot (`save_plot`), `--skip-plot`, `--verbose` output and progress
  messages are left out. They are presentation with no effect on the sweep.
  So is echoing `vrun`'s streams when it fails.
- `argparse` itself is left out, including its `--help`, its type conversion
  and its usage-error exit. The model starts from parsed `Options`.
- Metric.ExtractUtilization returns the captured text, not the `float` value.
  So the CSV utilization cell is that text and not `repr(float(text))`: for
  example `87.50` is not normalised to `87.5`.
- Chars.IsDigit is ASCII `0`-`9`. Python's `\d` in `WIDTH_PATTERN` also
  matches other Unicode decimal digits, which the model does not.
- Sweep.Run requires one trial per width. The oracle cannot run out, because
  the code performs exactly one build and at most one benchmark run per width.
- The header is the text `Path.read_text()` returns, after universal-newline
  translation of `\r\n` and `\r` to `\n`. `write_text` writes each `\n` as
  the platform's line separator. So the restoration in `finally`
  (`Sweep.Run`'s `!o.keepWidth ==> f.header == original`) gives back the same
  text, not necessarily the same bytes: a CRLF header comes back with LF
  endings on Linux. The positions `^` matches at are those of the translated
  text. Encodings are not modelled.
- Writing the CSV file is left out, as are its quoting and line endings. The
  model stops at the rows passed to `csv.writer`.
