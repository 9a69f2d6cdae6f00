/** `benchmark`: make the working directory, then for `n = 0, 1, ...,
    num_samples - 1` write file `n` between two clock readings and keep the
    difference in slot `n`. */
module Sampling {
  import opened Args
  import opened Filenames
  import opened Disk
  import opened Writing

  /** The directory every file of a run goes in. */
  const Working := ".testing"

  const TwoTo63: int := 0x8000_0000_0000_0000
  const TwoTo64: int := 0x1_0000_0000_0000_0000

  /** A reading of the wall clock in nanoseconds, held in a `uint64_t`. */
  type TimePoint = x: int | 0 <= x < TwoTo64

  /** `end - start` on `uint64_t`, stored in an `int64_t`: the difference
      modulo 2^64, read as a two's-complement number. */
  function Span(start: TimePoint, end: TimePoint): (d: int)
    ensures -TwoTo63 <= d < TwoTo63
    ensures (d - (end - start)) % TwoTo64 == 0
  {
    var u := (end - start) % TwoTo64;
    if u < TwoTo63 then u else u - TwoTo64
  }

  /** When the two readings are less than 2^63 ns apart (in either
      direction) the stored span is the true difference; so a clock that did
      not step back gives a span that is not negative. */
  lemma SpanExact(start: TimePoint, end: TimePoint)
    requires -TwoTo63 <= end - start < TwoTo63
    ensures Span(start, end) == end - start
    ensures start <= end ==> Span(start, end) >= 0
  {
    var d := Span(start, end);
    var k := (d - (end - start)) / TwoTo64;
    assert d - (end - start) == k * TwoTo64;
    assert -TwoTo64 < d - (end - start) < TwoTo64;
  }

  /** A clock that stepped back between the two readings of a sample, by
      at most 2^63 ns, shows up as a negative span. */
  lemma SpanBackwards(start: TimePoint, end: TimePoint)
    requires start - TwoTo63 <= end < start
    ensures Span(start, end) < 0
  {
    SpanExact(start, end);
  }

  /** Why a run stopped early: `ASSERT_ERRNO` failed on `mkdir`, on `open` of
      file `n`, or on a `write` to file `n` that returned `code`. */
  datatype Abort = MkdirFailed | OpenFailed(n: nat) | WriteFailed(n: nat, code: int)

  datatype RunState = Completed | Aborted(why: Abort)

  /** The number of iterations `for (n = 0; n < num_samples; ++n)` makes. */
  function SampleCount(opts: Options): (count: nat) {
    Max0(opts.numSamples)
  }

  /** The spans of the first `count` samples, the `k`-th reading of the clock
      being `clock(k)`: sample `n` starts at reading `2n` and ends at `2n+1`. */
  function Spans(clock: nat -> TimePoint, count: nat): (s: seq<int>)
    ensures |s| == count
    ensures forall n | 0 <= n < count :: s[n] == Span(clock(2 * n), clock(2 * n + 1))
  {
    seq(count, n requires 0 <= n => Span(clock(2 * n), clock(2 * n + 1)))
  }

  /** The names of the first `count` files of a run. */
  function FileNames(count: nat): (names: set<string>) {
    set n | 0 <= n < count :: MakeFilename(Working, n)
  }

  /** The files the first `count` iterations leave behind, `size` bytes each. */
  function CreatedFiles(count: nat, size: int): (files: map<string, nat>) {
    if count == 0 then map[]
    else CreatedFiles(count - 1, size)[MakeFilename(Working, count - 1) := Max0(size)]
  }

  /** The files of a run are the names of its first `count` files, each
      holding `size` bytes (none when `size` is not positive). */
  lemma {:induction false} CreatedFilesContents(count: nat, size: int)
    ensures CreatedFiles(count, size).Keys == FileNames(count)
    ensures forall name | name in CreatedFiles(count, size) :: CreatedFiles(count, size)[name] == Max0(size)
  {
    if count > 0 {
      CreatedFilesContents(count - 1, size);
      assert FileNames(count) == FileNames(count - 1) + {MakeFilename(Working, count - 1)};
    }
  }

  /** Iteration `n`, started on directories `dirs0` and files `files0` plus
      the earlier iterations' files, opens its file and writes all of it. */
  predicate IterationSucceeds(dirs0: set<string>, files0: map<string, nat>, size: int, write: Writer, n: nat)
    requires WellBehaved(write)
  {
    var name := MakeFilename(Working, n);
    name !in dirs0 && name !in files0 && WriteSpec(size, write).Written?
  }

  /** A run of `count` iterations creates exactly `count` files: no two
      iterations share a name. */
  lemma {:induction false} FileNamesCount(count: nat)
    ensures |FileNames(count)| == count
  {
    if count > 0 {
      var name := MakeFilename(Working, count - 1);
      assert FileNames(count) == FileNames(count - 1) + {name};
      if name in FileNames(count - 1) {
        var m :| 0 <= m < count - 1 && MakeFilename(Working, m) == name;
        MakeFilenameInjective(Working, m, count - 1);
      }
      FileNamesCount(count - 1);
    }
  }

  /** File `n` is not among the files of the iterations before it, nor is it
      the working directory. */
  lemma FreshName(n: nat)
    ensures MakeFilename(Working, n) !in FileNames(n)
    ensures MakeFilename(Working, n) != Working
  {
    if MakeFilename(Working, n) in FileNames(n) {
      var m :| 0 <= m < n && MakeFilename(Working, m) == MakeFilename(Working, n);
      MakeFilenameInjective(Working, m, n);
    }
    MakeFilenameIsNotWorking(Working, n);
  }

  /** While the run is under way, file `n` exists exactly when it existed
      before the run. */
  lemma ExistsDuringRun(dirs0: set<string>, files0: map<string, nat>, n: nat, size: int)
    ensures var name := MakeFilename(Working, n);
      (name in dirs0 + {Working} || name in files0 + CreatedFiles(n, size))
      <==> (name in dirs0 || name in files0)
  {
    FreshName(n);
    CreatedFilesContents(n, size);
  }

  /** Writing one more file into the union is writing it into the right-hand
      side, which takes precedence. */
  lemma UpdateUnion(a: map<string, nat>, b: map<string, nat>, key: string, value: nat)
    ensures (a + b)[key := value] == a + b[key := value]
  {
    var lhs := (a + b)[key := value];
    var rhs := a + b[key := value];
    assert lhs.Keys == rhs.Keys;
    forall k | k in lhs
      ensures lhs[k] == rhs[k]
    {
    }
  }

  /** Iteration `n` stops the run with `why`: its file already existed, or a
      `write` to it failed with the code `why` carries. */
  predicate FailsAs(dirs0: set<string>, files0: map<string, nat>, size: int, write: Writer, n: nat, why: Abort)
    requires WellBehaved(write)
  {
    var name := MakeFilename(Working, n);
    match why
    case MkdirFailed => false
    case OpenFailed(m) => m == n && (name in dirs0 || name in files0)
    case WriteFailed(m, code) =>
      && m == n && name !in dirs0 && name !in files0
      && WriteSpec(size, write).Failed? && WriteSpec(size, write).code == code
  }

  /** One pass of the loop body: write file `n` between readings `2n` and
      `2n + 1` of the clock. `Completed` means the sample was taken. */
  method TakeSample(fs: FileSystem, ghost dirs0: set<string>, ghost files0: map<string, nat>,
                    n: nat, size: int, clock: nat -> TimePoint, write: Writer)
    returns (state: RunState, span: int)
    requires WellBehaved(write)
    requires fs.dirs == dirs0 + {Working} && fs.files == files0 + CreatedFiles(n, size)
    modifies fs
    ensures fs.dirs == old(fs.dirs)
    ensures state.Completed? <==> IterationSucceeds(dirs0, files0, size, write, n)
    ensures state.Completed? ==>
      && fs.files == files0 + CreatedFiles(n + 1, size)
      && span == Span(clock(2 * n), clock(2 * n + 1))
    ensures state.Aborted? ==> FailsAs(dirs0, files0, size, write, n, state.why)
    ensures state.Aborted? && state.why.OpenFailed? ==> fs.files == old(fs.files)
    ensures state.Aborted? && state.why.WriteFailed? ==>
      fs.files == old(fs.files)[MakeFilename(Working, n) := Accepted(WriteSpec(size, write).chunks)]
  {
    var name := MakeFilename(Working, n);
    ExistsDuringRun(dirs0, files0, n, size);
    var start := clock(2 * n);
    var r := WriteFile(fs, name, size, write);
    if r.CreateFailed? {
      return Aborted(OpenFailed(n)), 0;
    }
    if r.outcome.Failed? {
      return Aborted(WriteFailed(n, r.outcome.code)), 0;
    }
    var end := clock(2 * n + 1);
    UpdateUnion(files0, CreatedFiles(n, size), name, Max0(size));
    return Completed, Span(start, end);
  }

  /** The first `count` iterations all succeed. */
  predicate SucceedsUpTo(dirs0: set<string>, files0: map<string, nat>, size: int, device: nat -> Writer, count: nat)
    requires forall n: nat :: WellBehaved(device(n))
  {
    forall m: nat | m < count :: IterationSucceeds(dirs0, files0, size, device(m), m)
  }

  /** One more successful iteration extends the successful prefix. */
  lemma SucceedsStep(dirs0: set<string>, files0: map<string, nat>, size: int, device: nat -> Writer, n: nat)
    requires forall k: nat :: WellBehaved(device(k))
    requires SucceedsUpTo(dirs0, files0, size, device, n)
    requires IterationSucceeds(dirs0, files0, size, device(n), n)
    ensures SucceedsUpTo(dirs0, files0, size, device, n + 1)
  {
  }

  /** What `abort()` leaves on disk after iteration `why.n` failed: the
      earlier iterations' files, and for a failed `write` also the partly
      written file with the bytes accepted before the failure. */
  function LeftAfterAbort(files0: map<string, nat>, size: int, device: nat -> Writer, why: Abort): (files: map<string, nat>)
    requires forall n: nat :: WellBehaved(device(n))
    requires !why.MkdirFailed?
    ensures files0.Keys + FileNames(why.n) <= files.Keys
    ensures why.WriteFailed? ==>
      files.Keys == files0.Keys + FileNames(why.n) + {MakeFilename(Working, why.n)}
    ensures why.OpenFailed? ==> files.Keys == files0.Keys + FileNames(why.n)
  {
    var before := files0 + CreatedFiles(why.n, size);
    CreatedFilesContents(why.n, size);
    if why.OpenFailed? then before
    else before[MakeFilename(Working, why.n) := Accepted(WriteSpec(size, device(why.n)).chunks)]
  }

  /** `benchmark(opts)` on `fs`. `device(n)` is how `write` behaves on file
      `n`; `clock(k)` is what the `k`-th call of `now()` returns. The array
      has one slot per sample, zero until its sample is taken. */
  method Benchmark(opts: Options, fs: FileSystem, clock: nat -> TimePoint, device: nat -> Writer)
    returns (state: RunState, data: array<int>)
    requires forall n: nat :: WellBehaved(device(n))
    modifies fs
    ensures fresh(data) && data.Length == SampleCount(opts)
    ensures state == Aborted(MkdirFailed) <==> old(fs.Exists(Working))
    ensures state == Aborted(MkdirFailed) ==> fs.dirs == old(fs.dirs) && fs.files == old(fs.files)
    ensures state.Completed? <==>
      !old(fs.Exists(Working)) && SucceedsUpTo(old(fs.dirs), old(fs.files), opts.fileSize, device, SampleCount(opts))
    ensures state.Completed? ==>
      && data[..] == Spans(clock, SampleCount(opts))
      && fs.dirs == old(fs.dirs) + {Working}
      && fs.files == old(fs.files) + CreatedFiles(SampleCount(opts), opts.fileSize)
    ensures state.Aborted? && !state.why.MkdirFailed? ==>
      && state.why.n < SampleCount(opts)
      && SucceedsUpTo(old(fs.dirs), old(fs.files), opts.fileSize, device, state.why.n)
      && FailsAs(old(fs.dirs), old(fs.files), opts.fileSize, device(state.why.n), state.why.n, state.why)
      && data[..state.why.n] == Spans(clock, state.why.n)
    ensures state.Aborted? && !state.why.MkdirFailed? ==>
      && fs.dirs == old(fs.dirs) + {Working}
      && fs.files == LeftAfterAbort(old(fs.files), opts.fileSize, device, state.why)
  {
    var count := SampleCount(opts);
    data := new int[count](_ => 0);
    var made := fs.Mkdir(Working);
    if !made {
      return Aborted(MkdirFailed), data;
    }
    ghost var dirs0 := old(fs.dirs);
    ghost var files0 := old(fs.files);
    var n := 0;
    while n < count
      invariant 0 <= n <= count
      invariant data[..n] == Spans(clock, n)
      invariant SucceedsUpTo(dirs0, files0, opts.fileSize, device, n)
      invariant fs.dirs == dirs0 + {Working}
      invariant fs.files == files0 + CreatedFiles(n, opts.fileSize)
    {
      var sample, span := TakeSample(fs, dirs0, files0, n, opts.fileSize, clock, device(n));
      if sample.Aborted? {
        return sample, data;
      }
      SucceedsStep(dirs0, files0, opts.fileSize, device, n);
      data[n] := span;
      assert data[..n + 1] == data[..n] + [span];
      assert Spans(clock, n + 1) == Spans(clock, n) + [span];
      n := n + 1;
    }
    assert data[..] == data[..count];
    state := Completed;
  }
}
