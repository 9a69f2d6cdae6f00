/** `main`: parse the arguments, run the benchmark, report the percentiles. */
module Program {
  import opened Text
  import opened Args
  import opened Disk
  import opened Writing
  import opened Sampling
  import opened Report

  /** How a run of the program ends: arguments refused (exit status 1), a
      failed system call (`abort()`), or a report (exit status 0). */
  datatype Exit =
    | BadArguments(error: ParseError)
    | Crashed(why: Abort)
    | Finished(summary: Summary)

  /** The process exit status `main` returns; `abort()` has none. */
  function ExitStatus(e: Exit): (status: int)
    requires !e.Crashed?
    ensures status == 0 <==> e.Finished?
    ensures e.BadArguments? ==> status == 1
  {
    if e.BadArguments? then 1 else 0
  }

  /** `main(argc, argv)` on `fs`, with `clock` and `device` as in
      `Sampling.Benchmark`. The sample count is bounded so that `3 * n`
      stays within `int`. */
  method Run(argv: seq<string>, fs: FileSystem, clock: nat -> TimePoint, device: nat -> Writer)
    returns (e: Exit)
    requires forall n: nat :: WellBehaved(device(n))
    requires Parse(argv).Parsed? ==> Parse(argv).opts.numSamples <= MaxSamples
    modifies fs
    ensures e.BadArguments? <==> Parse(argv).Rejected?
    ensures e.BadArguments? ==> e.error == Parse(argv).error && fs.dirs == old(fs.dirs) && fs.files == old(fs.files)
    ensures Parse(argv).Parsed? ==>
      var opts := Parse(argv).opts;
      && (e.Finished? <==>
            !old(fs.Exists(Working))
            && SucceedsUpTo(old(fs.dirs), old(fs.files), opts.fileSize, device, SampleCount(opts)))
      && (e.Finished? ==>
            && e.summary == Summarize(Spans(clock, SampleCount(opts)))
            && fs.dirs == old(fs.dirs) + {Working}
            && fs.files == old(fs.files) + CreatedFiles(SampleCount(opts), opts.fileSize))
      && (e == Crashed(MkdirFailed) <==> old(fs.Exists(Working)))
      && (e == Crashed(MkdirFailed) ==> fs.dirs == old(fs.dirs) && fs.files == old(fs.files))
      && (e.Crashed? && !e.why.MkdirFailed? ==>
            && e.why.n < SampleCount(opts)
            && SucceedsUpTo(old(fs.dirs), old(fs.files), opts.fileSize, device, e.why.n)
            && FailsAs(old(fs.dirs), old(fs.files), opts.fileSize, device(e.why.n), e.why.n, e.why)
            && fs.dirs == old(fs.dirs) + {Working}
            && fs.files == LeftAfterAbort(old(fs.files), opts.fileSize, device, e.why))
    ensures Parse(argv).Parsed? ==> fs.Exists(Working)
  {
    var parsed := ParseArgs(argv);
    if parsed.Rejected? {
      return BadArguments(parsed.error);
    }
    var opts := parsed.opts;
    var state, data := Benchmark(opts, fs, clock, device);
    if state.Aborted? {
      return Crashed(state.why);
    }
    var summary := ShowBenchmark(data);
    e := Finished(summary);
  }

  /** `--num-samples 0` is accepted, and a run of it reaches the report with
      no samples, where the first read `data[0]` would be out of bounds. */
  lemma ZeroSamplesReachReport()
    ensures var r := Parse(["benchmark", NumSamplesFlag, "0"]);
      && r == Parsed(Options(DefaultFileSize, 0))
      && SampleCount(r.opts) == 0
      && !(PercentileIndices(SampleCount(r.opts))[0] < SampleCount(r.opts))
  {
    var argv := ["benchmark", NumSamplesFlag, "0"];
    assert "0"[..0] == [];
    AtoiOfDigits("0");
    var o := Assign(Defaults, NumSamplesFlag, "0");
    assert o == Options(DefaultFileSize, 0);
    assert argv[1] == NumSamplesFlag && argv[2] == "0" && |argv| == 3;
    assert Scan(argv, 3, o) == Parsed(o);
    assert Parse(argv) == Scan(argv, 3, o);
  }
}
