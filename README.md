# filebench: a verified model of the write-latency benchmark

`benchmark.c` measures how long it takes to create and write a file. It does
four things:

- It reads `--file-size` (default 1024 bytes) and `--num-samples` (default
  1000) from the command line.
- It makes the directory `.testing`.
- For `n = 0 … num_samples - 1` it creates `.testing/test-file-%06d.bin`
  exclusively and writes `file_size` bytes to it, in requests of at most
  64 KiB. It reads the wall clock before and after each file.
- It sorts the spans ascending and reports the nearest-rank percentiles
  p00, p25, p50, p75 and p100, read at indices `0`, `n/4`, `n/2`, `3n/4` and
  `n-1`.

This project models that program in Dafny, one module per part:

| module | file | models |
|---|---|---|
| `Text` | `text.dfy` | `atoi` and the `%06d` conversion |
| `Args` | `args.dfy` | `parse_args`, as a specification (`Parse`) and as the loop itself (`ParseArgs`) |
| `Filenames` | `filenames.dfy` | `make_filename` |
| `Disk` | `disk.dfy` | the directories and files the benchmark touches, as a class changed in place by `mkdir`, `open(O_CREAT \| O_EXCL)` and `write` |
| `Writing` | `writing.dfy` | `write_file` and its chunking loop |
| `Sampling` | `sampling.dfy` | `benchmark`: the sampling loop, and the `uint64_t` to `int64_t` span |
| `Report` | `report.dfy` | `sample_less_than`, the sort and `show_benchmark` |
| `Program` | `program.dfy` | `main` |

The system calls and the clock become inputs:

- `write` is a `Writer`. It maps the call's number and the bytes requested to
  what `write` returns.
- `device(n)` is the `Writer` for file `n`.
- `clock(k)` is the `k`-th reading of `now()`, so sample `n` spans readings
  `2n` and `2n + 1`.
- `mkdir` and `open` act on a `Disk.FileSystem` object.

Each failed `ASSERT_ERRNO` aborts the run, and shows up as an explicit outcome
naming the call that failed.

The model follows the code:

- The chunking loop is specified by the function `WriteSpec`. It lists the
  calls the loop makes, and lemmas prove what those calls accept.
- The sampling loop is proved against `Spans`, `CreatedFiles` and
  `SucceedsUpTo`.
- `qsort` is represented by its result. `SortSamples` is a sorted
  permutation, and `SortedUnique` proves that every sorted permutation is
  that same sequence.

## Model

| member | source | states |
|---|---|---|
| `Text.SkipSpace` | benchmark.c:78-79 | the white space `atoi` skips: the result is a suffix of the input, everything dropped before it is white space, and it does not start with white space |
| `Text.LeadingDigits` | benchmark.c:78-79 | the digits `atoi` reads: a prefix of the input, all digits, and followed by a non-digit or nothing |
| `Text.Atoi` | benchmark.c:78-79 | `atoi` is negative only when a `-` follows the white space, and is 0 when no sign or digit follows it |
| `Text.AtoiOfDigits` | benchmark.c:78-79 | `atoi` of a non-empty digit string is its decimal value |
| `Text.AtoiOfNegative` | benchmark.c:78-79 | `atoi` of `-` followed by digits is the negated value |
| `Text.DecimalRoundTrip` | benchmark.c:90 | the digits `%d` writes for `n` have the value `n` |
| `Text.Format06` | benchmark.c:90 | `%06d` is at least six characters long, all digits for a non-negative number, and starts with `-` followed by digits exactly when the number is negative |
| `Text.AtoiFormat06` | benchmark.c:90 | `atoi` reads back what `%06d` wrote, for every integer, negative ones included |
| `Text.Format06Injective` | benchmark.c:90 | distinct integers give distinct `%06d` text |
| `Text.Format06SixDigits` | benchmark.c:90 | 0 through 999999 are written as exactly six digits |
| `Args.Parse` | benchmark.c:61-85 | with no argument the defaults are returned; a missing value is reported for the last argument, which is a recognised flag; an unknown argument is reported only for an argument that is not a recognised flag |
| `Args.Scan` | benchmark.c:75-84 | the same, for the scan from any position: past the end the options so far are returned unchanged |
| `Args.ParseArgs` | benchmark.c:61-85 | the loop over `argv` returns what `Parse` decides, and accepts exactly the command lines made of flag/value pairs with recognised flags |
| `Args.NoArguments` | benchmark.c:62-84 | with no argument, parsing succeeds with file size 1024 and 1000 samples |
| `Args.ParseAccepts` | benchmark.c:65-84 | parsing succeeds if and only if the arguments are pairs whose first halves are `--file-size` or `--num-samples` |
| `Args.PairsIndexed` | benchmark.c:65-84 | the accepted shape, position by position: an even number of arguments with `--file-size` or `--num-samples` at every even position |
| `Args.ScanAccepts` | benchmark.c:75-84 | the same if-and-only-if, for the scan from any position |
| `Args.ParseValues` | benchmark.c:62-79 | an accepted command line sets each field to `atoi` of the argument after that flag's last occurrence, and keeps the default where the flag does not occur |
| `Args.ScanValues` | benchmark.c:71-79 | the same, for the scan from any position and any options so far |
| `Args.LaterFlagOverrides` | benchmark.c:71-79 | appending one more flag and value to an accepted command line overrides that field and keeps the other |
| `Args.ScanExtend` | benchmark.c:75-82 | the same, for the scan from any position |
| `Args.ParseRejectsMissingValue` | benchmark.c:66-69 | a rejection for a missing value means the last argument is a recognised flag that follows accepted pairs |
| `Args.ScanRejectsMissingValue` | benchmark.c:66-69 | the same, for the scan from any position |
| `Args.ParseRejectsUnknown` | benchmark.c:78-81 | a rejection for an unknown argument means that argument stands in a flag's place after accepted pairs |
| `Args.ScanRejectsUnknown` | benchmark.c:78-81 | the same, for the scan from any position |
| `Filenames.MakeFilename` | benchmark.c:87-92 | the name starts with the directory and `/test-file-`, ends in `.bin`, and has a non-empty middle, which `NumberPart` identifies as `%06d` of the number |
| `Filenames.NumberPart` | benchmark.c:90 | the text between the stem and the extension is `%06d` of `n` |
| `Filenames.MakeFilenameInjective` | benchmark.c:87-92 | distinct numbers give distinct names in the same directory |
| `Filenames.MakeFilenameIsNotWorking` | benchmark.c:90 | a file name never equals the directory's own name |
| `Filenames.SixDigitNames` | benchmark.c:90 | for 0 through 999999 the name has a fixed length |
| `Filenames.FirstFilename` | benchmark.c:111-118 | the first file of a run is `.testing/test-file-000000.bin` |
| `Disk.FileSystem.Mkdir` | benchmark.c:112-113 | `mkdir` succeeds exactly when nothing of that name exists, and then adds the directory |
| `Disk.FileSystem.CreateExclusive` | benchmark.c:97-98 | `open` with `O_CREAT \| O_EXCL` succeeds exactly when nothing of that name exists, and then adds an empty file |
| `Disk.FileSystem.Append` | benchmark.c:102-104 | a `write` that accepted `count` bytes grows the file by `count` and changes nothing else |
| `Writing.WriteFile` | benchmark.c:94-108 | `open` fails exactly when the path exists; otherwise the calls are those of `WriteSpec`, and on success the file holds `max(size, 0)` bytes |
| `Writing.WriteFrom` | benchmark.c:100-105 | with nothing left to write no call is made; a failure comes only while bytes remain, from a request of 1 to 65536 bytes, with a negative return value |
| `Writing.WriteSpec` | benchmark.c:100-105 | the same for a whole file: `size <= 0` makes no call and cannot fail |
| `Writing.WriteChunks` | benchmark.c:100-105 | the loop makes the calls `WriteSpec` lists, the file holds the bytes they accepted, and after success that is exactly `max(size, 0)` |
| `Writing.LoopStep` | benchmark.c:101-104 | one successful call moves the loop one chunk along `WriteSpec` and adds its bytes to the total |
| `Writing.WriteSpecTrace` | benchmark.c:100-105 | every request is `min(65536, remaining)` and every call takes some bytes; on success exactly `max(size, 0)` bytes are accepted, with no call at all when `size <= 0`, and `remaining` never goes below zero; on failure the failing call was the next one due, with bytes still to go |
| `Writing.TraceFrom` | benchmark.c:100-105 | every successful call asked for `min(65536, remaining)` and took between 1 byte and the request, whether or not a later call failed |
| `Writing.WrittenAccepted` | benchmark.c:100-105 | when every call succeeds, together they accept exactly the bytes there were to write |
| `Writing.FailedCall` | benchmark.c:102-103 | a failing call is the one due after the successful ones, asking for `min(65536, remaining)` with bytes still to go |
| `Writing.PrefixAccepted` | benchmark.c:101-104 | along the calls, the bytes accepted so far never exceed the size |
| `Writing.WholeWrites` | benchmark.c:100-105 | against a `write` that takes whole requests, a file costs one call per started 64 KiB |
| `Sampling.Span` | benchmark.c:119-122 | `end - start` on `uint64_t` stored in `int64_t`: in the `int64_t` range, and equal to the true difference modulo 2^64 |
| `Sampling.SpanExact` | benchmark.c:119-122 | readings less than 2^63 ns apart give the true difference, and one that did not step back gives a span that is not negative |
| `Sampling.SpanBackwards` | benchmark.c:119-122 | a wall clock that stepped back between the two readings gives a negative span |
| `Sampling.Spans` | benchmark.c:117-123 | one span per sample, in order, sample `n` between readings `2n` and `2n + 1` |
| `Sampling.CreatedFilesContents` | benchmark.c:117-123 | the files a run leaves are exactly the names of its first `count` files, each holding `max(file_size, 0)` bytes |
| `Sampling.FileNamesCount` | benchmark.c:117-118 | `count` iterations use `count` distinct names |
| `Sampling.FreshName` | benchmark.c:117-118 | file `n` is not among the earlier iterations' files, and is not the working directory |
| `Sampling.ExistsDuringRun` | benchmark.c:117-120 | during a run, file `n` exists exactly when it existed before the run |
| `Sampling.TakeSample` | benchmark.c:118-122 | one iteration succeeds exactly when its file was new and every write succeeded; it then adds that file and returns the span between its two readings. Otherwise it names the call that failed: a failed `open` leaves the files as they were, and a failed `write` leaves the new file holding the bytes accepted before the failure |
| `Sampling.LeftAfterAbort` | benchmark.c:22-35 | what `abort()` leaves: the earlier iterations' files, all of them. A failed `write` adds exactly one more file, the failing one; a failed `open` adds nothing else |
| `Sampling.Benchmark` | benchmark.c:110-125 | `mkdir` fails exactly when `.testing` exists. The run completes exactly when every iteration succeeds; the array then holds `Spans` in slot order, exactly `num_samples` slots (none when it is not positive), and the files of `CreatedFiles`. An abort names the first failing iteration, with the earlier slots filled. Nothing is cleaned up: `.testing` stays, and so do the earlier files and any partly written file (`LeftAfterAbort`) |
| `Report.SampleLessThan` | benchmark.c:127-131 | the comparator returns -1 or 1, and -1 exactly when `a < b`, so never 0 |
| `Report.ComparatorOrientation` | benchmark.c:127-131 | equal samples each compare greater than the other; distinct samples compare in opposite directions |
| `Report.CompareSamples` | benchmark.c:127-131 | the consistent comparator: negative, zero or positive as `a` is less than, equal to or greater than `b` |
| `Report.CompareAntisymmetric` | benchmark.c:127-131 | swapping the arguments flips the sign of the consistent comparator |
| `Report.ComparatorsAgree` | benchmark.c:127-131 | both comparators put the smaller sample first, and they agree on distinct samples |
| `Report.Insert` | benchmark.c:136 | insertion keeps every sample, adding one |
| `Report.InsertSorted` | benchmark.c:136 | inserting into ascending samples keeps them ascending |
| `Report.SortSamples` | benchmark.c:136 | the sort leaves the samples ascending and a permutation of what they were |
| `Report.SortedUnique` | benchmark.c:136 | two ascending permutations of the same samples are equal, so any correct `qsort` gives the same array |
| `Report.SortIgnoresOrder` | benchmark.c:136 | the sorted array depends only on the multiset of samples |
| `Report.PermutationMembers` | benchmark.c:136 | a permutation has the same length and the same members |
| `Report.PercentileIndices` | benchmark.c:138-142 | for `n >= 1` the five indices are in bounds and non-decreasing |
| `Report.EmptySamplesReadOutOfBounds` | benchmark.c:138-142 | with no samples the first read is at index 0 and the last at index -1, both out of bounds |
| `Report.Summarize` | benchmark.c:135-143 | nothing is reported for no samples; otherwise p00 <= p25 <= p50 <= p75 <= p100, every value is one of the samples, and p00 and p100 are the minimum and the maximum |
| `Report.SummarizeSorted` | benchmark.c:138-142 | on ascending samples the report reads indices 0, n/4, n/2, 3n/4 and n-1 directly |
| `Report.SummarizeIgnoresOrder` | benchmark.c:136-142 | the report depends only on the multiset of samples |
| `Report.TenSamples` | benchmark.c:138-142 | samples 10, 20, …, 100 report 10, 30, 60, 80 and 100 |
| `Report.ShowBenchmark` | benchmark.c:135-143 | the array is sorted in place into an ascending permutation of itself, and the report is `Summarize` of the samples as taken |
| `Program.ExitStatus` | benchmark.c:147-161 | exit status 1 for refused arguments and 0 after a report |
| `Program.Run` | benchmark.c:147-161 | refused arguments change nothing and return the parse error. Otherwise the run reports exactly when every iteration succeeds, and then reports `Summarize` of the spans, leaving `.testing` and the run's files. A crash at `mkdir` happens exactly when `.testing` already exists, and changes nothing. A later crash names the first failing iteration and leaves `.testing` and the files of `LeftAfterAbort`. After every parsed run `.testing` exists, so the next run crashes at `mkdir` |
| `Program.ZeroSamplesReachReport` | benchmark.c:147-161 | `--num-samples 0` is accepted and reaches the report with no samples, where index 0 is out of bounds |

## Left out

- Disk.FileSystem.Mkdir: fails only when the name already exists. Other
  `mkdir` failures (`EACCES`, `ENOSPC`, `EROFS` and the like), on which
  `ASSERT_ERRNO` at benchmark.c:113 also aborts, are not modelled, because
  the file system's permissions and capacity are not part of the model.
- Disk.FileSystem.CreateExclusive: fails only when the name already exists.
  Other `open` failures (`EACCES`, `ENOSPC`, `EROFS`, `EMFILE` and the like),
  on which `ASSERT_ERRNO` at benchmark.c:98 also aborts, are not modelled,
  for the same reason. The if-and-only-if halves of `Writing.WriteFile`,
  `Sampling.Benchmark` and `Program.Run` ("fails exactly when the name
  exists", "completes exactly when") hold only under this restriction.
- Real I/O is left out: `mkdir`, `open`, `write` and `close` act only on the
  `Disk.FileSystem` object. The bytes written are not modelled, only how many.
- A failing `close` (benchmark.c:107) is not modelled. The model never fails
  there.
- `now()` and `clock_gettime` (benchmark.c:42-49) are replaced by the input
  `clock`. The conversion of seconds and nanoseconds into one `uint64_t` is
  not modelled.
- `usec`, the `%.3lf` conversion and all log output (benchmark.c:16-35,
  133, 137-142, 153) are left out. `Report.Summary` holds the five samples in
  nanoseconds, as read from the array.
- `free_samples` (benchmark.c:145) is left out, because memory is not
  modelled.
- The internals of `qsort` and `atoi` are libc and are not modelled:
  - `qsort` is represented by the sorted permutation it must produce.
  - `atoi` is modelled as a decimal reader (white space, sign, digits).
- `Writing.WellBehaved`: `write` is assumed never to return more than it was
  asked for, nor 0 for a non-empty request. A `write` returning 0 would make
  the C loop spin forever, and the model excludes it.
- `Text.Atoi` is unbounded. It does not model the undefined result of `atoi`
  on a value outside `int`. The fields of `Args.Options` are unbounded for the
  same reason.
- `Report.ShowBenchmark` and `Program.Run` require at most `INT_MAX / 3`
  samples. Beyond that, `3 * samples.n` overflows `int` at benchmark.c:141.
- `Sampling.Benchmark`: a negative `num_samples` runs no iteration, and the
  model allocates an empty array. The C program passes the negative count to
  `calloc` and `qsort`, where it becomes a huge `size_t`. That case is not
  modelled.
- `Filenames.MakeFilename` does not model three C details:
  - truncation by `snprintf` to 1023 bytes;
  - the static buffer every call returns, which the next call overwrites;
  - the zero-filling `memset`.
- `Program.Run` reports an `abort()` as the outcome `Crashed`. The signal and
  the process's end are not modelled.
- `src/bin/reading.rs` is not part of this model. It reads files back with
  raw `read` and `mmap` calls.

A latency sample is meant to be non-negative, but `now()` reads
`CLOCK_REALTIME` (benchmark.c:44), which can step back.
`Sampling.SpanBackwards` shows that a step back gives a negative span, and
`Sampling.SpanExact` shows that spans are non-negative only for a clock that
does not step back.

## Findings

| source | as written | input that shows it | evidently intended | confidence | as-written member | corrected member |
|---|---|---|---|---|---|---|
| benchmark.c:138-142 | `show_benchmark` reads `samples.data[0]` and `samples.data[samples.n - 1]` even when there are no samples | `--num-samples 0` | report nothing when there are no samples | high, not executed | `Report.EmptySamplesReadOutOfBounds` | `Report.Summarize` |
| benchmark.c:127-131 | `sample_less_than` returns 1 for equal samples, so each of two equal samples compares greater than the other. Section 7.22.5 of ISO C 11 requires a comparator whose answers are consistent | `--num-samples 2` with two equal spans | return 0 for equal samples | medium, not executed | `Report.ComparatorOrientation` | `Report.CompareSamples` |

For the first row, `Program.ZeroSamplesReachReport` shows that the command line
is accepted and reaches the report with no samples. `Report.Summarize` and
`Report.ShowBenchmark` return `NoSamples` there.

For the second row, the model sorts with `Report.CompareSamples`.
`Report.ComparatorsAgree` shows that it puts samples in the same order as
`sample_less_than`, and `Report.SortedUnique` shows that the sorted result is
the same whichever comparator produced it.
