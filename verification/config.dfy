/** Command-line options of the sweep, the bounds check done right after
    parsing, and the list of widths the sweep visits. */
module Config {
  import opened Results

  /** The options the sweep consults. Paths, plotting and verbosity are not
      modelled; `makeJobs` is `None` when `--make-jobs` is not given. */
  datatype Options = Options(
    minWidth: int,
    maxWidth: int,
    step: int,
    samples: int,
    makeJobs: Option<int>,
    keepWidth: bool)

  /** The three usage errors, one per check, in the order they are checked. */
  datatype ConfigError = WidthNotPositive | StepNotPositive | MinAboveMax

  /** The constraints every accepted configuration satisfies. */
  predicate Valid(o: Options) {
    1 <= o.minWidth <= o.maxWidth && 1 <= o.step
  }

  /** The bounds check: the first failing check decides the error. */
  function CheckBounds(o: Options): (r: Result<Options, ConfigError>)
    ensures r.Ok? <==> Valid(o)
    ensures r.Ok? ==> r.value == o
    ensures r == Err(WidthNotPositive) <==> o.minWidth < 1 || o.maxWidth < 1
    ensures r == Err(StepNotPositive) <==> 1 <= o.minWidth && 1 <= o.maxWidth && o.step < 1
    ensures r == Err(MinAboveMax) <==> 1 <= o.minWidth && 1 <= o.maxWidth && 1 <= o.step && o.minWidth > o.maxWidth
  {
    if o.minWidth < 1 || o.maxWidth < 1 then Err(WidthNotPositive)
    else if o.step < 1 then Err(StepNotPositive)
    else if o.minWidth > o.maxWidth then Err(MinAboveMax)
    else Ok(o)
  }

  /** `range(start, stop, step)` for a positive step. */
  function Range(start: int, stop: int, step: int): (r: seq<int>)
    requires step > 0
    ensures forall i :: 0 <= i < |r| ==> start <= r[i] < stop
    decreases stop - start
  {
    if start >= stop then [] else [start] + Range(start + step, stop, step)
  }

  /** A range has Python's length, `max(0, ceil((stop - start) / step))`. */
  lemma {:induction false} RangeLength(start: int, stop: int, step: int)
    requires step > 0
    ensures |Range(start, stop, step)| == if start >= stop then 0 else (stop - start + step - 1) / step
    decreases stop - start
  {
    if start < stop {
      RangeLength(start + step, stop, step);
      if start + step >= stop {
        DivOne(stop - start + step - 1, step);
      } else {
        DivShift(stop - start - 1, step);
      }
    }
  }

  lemma DivOne(x: int, step: int)
    requires 0 < step <= x < 2 * step
    ensures x / step == 1
  {
    ModUnique(x, step, 1, x - step);
  }

  lemma DivShift(x: int, step: int)
    requires step > 0 && x >= 0
    ensures (x + step) / step == x / step + 1
  {
    ModUnique(x + step, step, x / step + 1, x % step);
  }

  /** The widths the sweep visits: `range(min, max + 1, step)`. */
  function Widths(o: Options): (r: seq<int>)
    requires Valid(o)
    ensures |r| > 0 && r[0] == o.minWidth
    ensures forall i :: 0 <= i < |r| ==> o.minWidth <= r[i] <= o.maxWidth
    ensures forall i :: 0 < i < |r| ==> r[i] == r[i - 1] + o.step
    ensures r[|r| - 1] + o.step > o.maxWidth
  {
    RangeShape(o.minWidth, o.maxWidth + 1, o.step);
    Range(o.minWidth, o.maxWidth + 1, o.step)
  }

  /** Element `i` of a range is `start + i * step`, every element lies
      below `stop`, and the range ends only when the next element would not. */
  lemma {:induction false} RangeShape(start: int, stop: int, step: int)
    requires step > 0
    ensures var r := Range(start, stop, step);
      && (|r| == 0 <==> start >= stop)
      && (forall i :: 0 <= i < |r| ==> r[i] == start + i * step && r[i] < stop)
      && (|r| > 0 ==> r[|r| - 1] + step >= stop)
    decreases stop - start
  {
    if start < stop {
      RangeShape(start + step, stop, step);
      var r := Range(start, stop, step);
      var r' := Range(start + step, stop, step);
      forall i | 0 < i < |r|
        ensures r[i] == start + i * step
      {
        assert r[i] == r'[i - 1];
      }
    }
  }

  /** A value lies in a range exactly when it is at least `start`, below
      `stop`, and a whole number of steps from `start`. */
  lemma {:induction false} RangeMembership(start: int, stop: int, step: int, x: int)
    requires step > 0
    ensures x in Range(start, stop, step) <==> start <= x < stop && (x - start) % step == 0
    decreases stop - start
  {
    if start < stop {
      RangeMembership(start + step, stop, step, x);
      assert x in Range(start, stop, step) <==> x == start || x in Range(start + step, stop, step);
      ModStep(x - start - step, step);
      if start < x < start + step {
        ModUnique(x - start, step, 0, x - start);
      }
    }
  }

  /** `(d + step) % step == d % step`. */
  lemma ModStep(d: int, step: int)
    requires step > 0
    ensures (d + step) % step == d % step
  {
    ModUnique(d + step, step, d / step + 1, d % step);
  }

  /** Euclidean division has a unique quotient and remainder. */
  lemma ModUnique(n: int, step: int, q: int, r: int)
    requires step > 0 && 0 <= r < step && n == q * step + r
    ensures n / step == q && n % step == r
  {
    var q', r' := n / step, n % step;
    assert n == q' * step + r';
    assert (q - q') * step == r' - r;
    MulBound(q - q', step);
  }

  lemma MulBound(k: int, step: int)
    requires step > 0
    ensures k >= 1 ==> k * step >= step
    ensures k <= -1 ==> k * step <= -step
  {
  }

  /** The widths are exactly the values `min + k * step` up to `max`. */
  lemma WidthsMembership(o: Options, w: int)
    requires Valid(o)
    ensures w in Widths(o) <==> o.minWidth <= w <= o.maxWidth && (w - o.minWidth) % o.step == 0
  {
    RangeMembership(o.minWidth, o.maxWidth + 1, o.step, w);
  }

  /** `--min-width 2 --max-width 7 --step 2` sweeps 2, 4 and 6. */
  lemma WidthsExample(samples: int, jobs: Option<int>, keep: bool)
    ensures Widths(Options(2, 7, 2, samples, jobs, keep)) == [2, 4, 6]
  {
    assert Range(8, 8, 2) == [];
  }
}
