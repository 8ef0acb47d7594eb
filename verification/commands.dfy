/** The two external commands of one sweep step, as argument vectors.
    Running them is left to the environment (see module Sweep). */
module Commands {
  import opened Results
  import opened Decimal

  const Make := "make"
  const JobsFlag := "-j"
  const SamplesFlag := "-s"

  /** `run_make`: `make`, with `-j<n>` appended when `--make-jobs` holds a
      truthy value (given and non-zero). */
  function MakeCommand(jobs: Option<int>): (cmd: seq<string>)
    ensures |cmd| >= 1 && cmd[0] == Make
    ensures |cmd| == 2 <==> jobs.Some? && jobs.value != 0
    ensures |cmd| <= 2
  {
    if jobs.Some? && jobs.value != 0 then [Make, JobsFlag + IntText(jobs.value)] else [Make]
  }

  /** The jobs argument reads back as the requested job count. */
  lemma MakeJobsReadBack(jobs: Option<int>)
    requires jobs.Some? && jobs.value != 0
    ensures var arg := MakeCommand(jobs)[1];
      && |arg| > |JobsFlag| && arg[..|JobsFlag|] == JobsFlag
      && ParseInt(arg[|JobsFlag|..]) == jobs
  {
    var arg := MakeCommand(jobs)[1];
    assert arg[|JobsFlag|..] == IntText(jobs.value);
    IntTextRoundTrip(jobs.value);
  }

  /** `run_vrun`: the benchmark binary, `-s`, and the sample count. */
  function VrunCommand(vrun: string, samples: int): (argv: seq<string>)
    ensures |argv| == 3 && argv[0] == vrun && argv[1] == SamplesFlag
  {
    [vrun, SamplesFlag, IntText(samples)]
  }

  /** The sample-count argument reads back as the requested count. */
  lemma VrunSamplesReadBack(vrun: string, samples: int)
    ensures ParseInt(VrunCommand(vrun, samples)[2]) == Some(samples)
  {
    IntTextRoundTrip(samples);
  }
}
