/** `write_file`: create a file exclusively, then hand `size` bytes to `write`
    in requests of at most 64 KiB, counting `remaining` down by whatever each
    call accepts. */
module Writing {
  import opened Disk

  /** The size of the static zero-filled buffer, and so the largest request. */
  const ChunkSize := 64 * 1024

  /** What `write` returns on the `k`-th call for one file when asked to take
      `request` bytes: the number of bytes it accepted, or a negative error. */
  type Writer = (nat, nat) -> int

  /** `write` never reports more bytes than it was asked to take, and (for a
      regular file and a non-empty request) either fails or takes some. */
  ghost predicate WellBehaved(write: Writer) {
    forall k: nat, request: nat | 0 < request <= ChunkSize ::
      write(k, request) != 0 && write(k, request) <= request
  }

  /** One call of `write`: the bytes asked for and the bytes accepted. */
  datatype Chunk = Chunk(request: nat, accepted: nat)

  /** The calls made for one file: all succeeded, or the last one (not among
      `chunks`) asked for `request` bytes and failed with `code`, which
      aborts the run. */
  datatype WriteOutcome =
    | Written(chunks: seq<Chunk>)
    | Failed(chunks: seq<Chunk>, request: nat, code: int)

  function Min(a: int, b: int): (m: int) {
    if a < b then a else b
  }

  function Max0(x: int): (m: nat) {
    if x < 0 then 0 else x
  }

  /** The bytes accepted over a sequence of calls. */
  function Accepted(cs: seq<Chunk>): (total: nat) {
    if cs == [] then 0 else cs[0].accepted + Accepted(cs[1..])
  }

  function WithPrefix(log: seq<Chunk>, o: WriteOutcome): (r: WriteOutcome) {
    match o
    case Written(cs) => Written(log + cs)
    case Failed(cs, request, code) => Failed(log + cs, request, code)
  }

  /** The calls `write_file`'s loop makes with `remaining` bytes still to go,
      the next call being the `k`-th. */
  function WriteFrom(remaining: int, write: Writer, k: nat): (r: WriteOutcome)
    requires WellBehaved(write)
    ensures remaining <= 0 ==> r == Written([])
    ensures r.Failed? ==> remaining > 0 && r.code < 0 && 0 < r.request <= ChunkSize
    decreases remaining
  {
    if remaining <= 0 then Written([])
    else
      var request := Min(ChunkSize, remaining);
      var w := write(k, request);
      if w < 0 then Failed([], request, w)
      else WithPrefix([Chunk(request, w)], WriteFrom(remaining - w, write, k + 1))
  }

  /** The calls `write_file(path, size)` makes. */
  function WriteSpec(size: int, write: Writer): (r: WriteOutcome)
    requires WellBehaved(write)
    ensures size <= 0 ==> r == Written([])
    ensures r.Failed? ==> size > 0 && r.code < 0 && 0 < r.request <= ChunkSize
  {
    WriteFrom(size, write, 0)
  }

  /** `cs` are calls `k`, `k + 1`, ... of `write`, each asking for the smaller
      of 64 KiB and what `remaining` still lacks, each taking some of it. */
  predicate IsTrace(remaining: int, write: Writer, k: nat, cs: seq<Chunk>) {
    forall j | 0 <= j < |cs| ::
      && cs[j].request == Min(ChunkSize, remaining - Accepted(cs[..j]))
      && 0 < cs[j].accepted <= cs[j].request
      && cs[j].accepted == write(k + j, cs[j].request)
  }

  lemma {:induction false} AcceptedAppend(cs: seq<Chunk>, c: Chunk)
    ensures Accepted(cs + [c]) == Accepted(cs) + c.accepted
  {
    if cs != [] {
      assert (cs + [c])[1..] == cs[1..] + [c];
      AcceptedAppend(cs[1..], c);
    }
  }

  lemma TraceCons(remaining: int, write: Writer, k: nat, c: Chunk, rest: seq<Chunk>, cs: seq<Chunk>)
    requires c.request == Min(ChunkSize, remaining) && 0 < c.accepted <= c.request
    requires c.accepted == write(k, c.request)
    requires IsTrace(remaining - c.accepted, write, k + 1, rest)
    requires cs == [c] + rest
    ensures IsTrace(remaining, write, k, cs)
  {
    forall j | 0 <= j < |cs|
      ensures cs[j].request == Min(ChunkSize, remaining - Accepted(cs[..j]))
      ensures 0 < cs[j].accepted <= cs[j].request
      ensures cs[j].accepted == write(k + j, cs[j].request)
    {
      if j > 0 {
        assert cs[..j][1..] == rest[..j - 1];
        assert cs[j] == rest[j - 1];
      }
    }
  }

  lemma AcceptedCons(c: Chunk, cs: seq<Chunk>)
    ensures Accepted([c] + cs) == c.accepted + Accepted(cs)
  {
    assert ([c] + cs)[1..] == cs;
  }

  /** When every call succeeded, they accepted exactly the bytes there were
      to write (none when there were none). */
  lemma {:induction false} WrittenAccepted(remaining: int, write: Writer, k: nat)
    requires WellBehaved(write) && WriteFrom(remaining, write, k).Written?
    ensures Accepted(WriteFrom(remaining, write, k).chunks) == Max0(remaining)
    decreases remaining
  {
    if remaining > 0 {
      var request := Min(ChunkSize, remaining);
      var w := write(k, request);
      var c := Chunk(request, w);
      var rest := WriteFrom(remaining - w, write, k + 1);
      WriteFromStep(remaining, write, k, c);
      WrittenAccepted(remaining - w, write, k + 1);
      AcceptedCons(c, rest.chunks);
    } else {
      assert WriteFrom(remaining, write, k) == Written([]);
    }
  }

  /** After the successful calls `cs`, the next call, asking for `request`,
      failed with `code`: it was asked for `min(64 KiB, remaining)` with
      bytes still to go. */
  predicate FailsAfter(remaining: int, write: Writer, k: nat, cs: seq<Chunk>, request: int, code: int) {
    && Accepted(cs) < remaining
    && request == Min(ChunkSize, remaining - Accepted(cs))
    && code == write(k + |cs|, request) && code < 0
  }

  lemma FailsAfterCons(remaining: int, write: Writer, k: nat, c: Chunk, cs: seq<Chunk>, request: int, code: int)
    requires FailsAfter(remaining - c.accepted, write, k + 1, cs, request, code)
    ensures FailsAfter(remaining, write, k, [c] + cs, request, code)
  {
    AcceptedCons(c, cs);
    assert k + |[c] + cs| == (k + 1) + |cs|;
  }

  /** When a call failed, it was the call due after the successful ones. */
  lemma {:induction false} FailedCall(remaining: int, write: Writer, k: nat)
    requires WellBehaved(write) && WriteFrom(remaining, write, k).Failed?
    ensures var o := WriteFrom(remaining, write, k);
      FailsAfter(remaining, write, k, o.chunks, o.request, o.code)
    decreases remaining
  {
    var request := Min(ChunkSize, remaining);
    var w := write(k, request);
    if w >= 0 {
      var c := Chunk(request, w);
      var rest := WriteFrom(remaining - w, write, k + 1);
      WriteFromStep(remaining, write, k, c);
      FailedCall(remaining - w, write, k + 1);
      FailsAfterCons(remaining, write, k, c, rest.chunks, rest.request, rest.code);
    } else {
      assert WriteFrom(remaining, write, k) == Failed([], request, w);
    }
  }

  /** Every successful call on the way, whether or not a later one failed. */
  lemma {:induction false} TraceFrom(remaining: int, write: Writer, k: nat)
    requires WellBehaved(write)
    ensures IsTrace(remaining, write, k, WriteFrom(remaining, write, k).chunks)
    decreases remaining
  {
    var request := Min(ChunkSize, remaining);
    if remaining > 0 && write(k, request) >= 0 {
      var w := write(k, request);
      TraceFrom(remaining - w, write, k + 1);
      TraceStep(remaining, write, k);
    } else {
      NoChunks(remaining, write, k);
    }
  }

  lemma NoChunks(remaining: int, write: Writer, k: nat)
    requires WellBehaved(write)
    requires remaining <= 0 || write(k, Min(ChunkSize, remaining)) < 0
    ensures IsTrace(remaining, write, k, WriteFrom(remaining, write, k).chunks)
  {
    assert WriteFrom(remaining, write, k).chunks == [];
  }

  lemma TraceStep(remaining: int, write: Writer, k: nat)
    requires WellBehaved(write) && remaining > 0
    requires write(k, Min(ChunkSize, remaining)) >= 0
    requires var w := write(k, Min(ChunkSize, remaining));
      IsTrace(remaining - w, write, k + 1, WriteFrom(remaining - w, write, k + 1).chunks)
    ensures IsTrace(remaining, write, k, WriteFrom(remaining, write, k).chunks)
  {
    var request := Min(ChunkSize, remaining);
    var w := write(k, request);
    var c := Chunk(request, w);
    var rest := WriteFrom(remaining - w, write, k + 1);
    assert 0 < w <= request;
    WriteFromStep(remaining, write, k, c);
    TraceCons(remaining, write, k, c, rest.chunks, WriteFrom(remaining, write, k).chunks);
  }

  /** What the loop promises: on success exactly `size` bytes were accepted (none
      asked for when `size <= 0`), every request was `min(64 KiB, remaining)`
      and `remaining` never went below zero; on failure, the failing call was
      the next one due. */
  lemma WriteSpecTrace(size: int, write: Writer)
    requires WellBehaved(write)
    ensures match WriteSpec(size, write)
      case Written(cs) =>
        && IsTrace(size, write, 0, cs)
        && Accepted(cs) == Max0(size)
        && (size <= 0 ==> cs == [])
        && (forall j | 0 <= j <= |cs| :: 0 <= Accepted(cs[..j]) <= Max0(size))
      case Failed(cs, request, code) =>
        && IsTrace(size, write, 0, cs)
        && 0 <= Accepted(cs) < size
        && request == Min(ChunkSize, size - Accepted(cs))
        && code == write(|cs|, request) && code < 0
  {
    TraceFrom(size, write, 0);
    var o := WriteSpec(size, write);
    if o.Failed? {
      FailedCall(size, write, 0);
    } else {
      WrittenAccepted(size, write, 0);
      var cs := o.chunks;
      forall j | 0 <= j <= |cs|
        ensures 0 <= Accepted(cs[..j]) <= Max0(size)
      {
        PrefixAccepted(size, write, cs, j);
      }
    }
  }

  /** Along a trace the bytes still to go never drop below zero. */
  lemma {:induction false} PrefixAccepted(remaining: int, write: Writer, cs: seq<Chunk>, j: nat)
    requires IsTrace(remaining, write, 0, cs) && j <= |cs|
    ensures 0 <= Accepted(cs[..j])
    ensures j > 0 ==> Accepted(cs[..j]) <= remaining
  {
    if j > 0 {
      PrefixAccepted(remaining, write, cs, j - 1);
      assert cs[..j] == cs[..j - 1] + [cs[j - 1]];
      AcceptedAppend(cs[..j - 1], cs[j - 1]);
    }
  }

  /** Against a `write` that always takes the whole request, a file of `size`
      bytes costs one call per started 64 KiB. */
  lemma {:induction false} WholeWrites(remaining: int, write: Writer, k: nat)
    requires WellBehaved(write)
    requires forall j: nat, request: nat | 0 < request <= ChunkSize :: write(j, request) == request
    ensures WriteFrom(remaining, write, k).Written?
    ensures |WriteFrom(remaining, write, k).chunks| == (Max0(remaining) + ChunkSize - 1) / ChunkSize
    decreases remaining
  {
    if remaining > 0 {
      var request := Min(ChunkSize, remaining);
      assert write(k, request) == request;
      WholeWrites(remaining - request, write, k + 1);
    }
  }

  lemma PrefixStep(log: seq<Chunk>, c: Chunk, o: WriteOutcome)
    ensures WithPrefix(log, WithPrefix([c], o)) == WithPrefix(log + [c], o)
  {
    assert log + ([c] + o.chunks) == (log + [c]) + o.chunks;
  }

  /** A call that took `c.accepted` bytes is the first chunk of the rest. */
  lemma WriteFromStep(remaining: int, write: Writer, k: nat, c: Chunk)
    requires WellBehaved(write) && remaining > 0
    requires c.request == Min(ChunkSize, remaining) && c.accepted == write(k, c.request)
    ensures WriteFrom(remaining, write, k) == WithPrefix([c], WriteFrom(remaining - c.accepted, write, k + 1))
  {
  }

  /** One successful call moves the loop one chunk along `WriteSpec`. */
  lemma LoopStep(size: int, write: Writer, log: seq<Chunk>, remaining: int, c: Chunk)
    requires WellBehaved(write) && remaining > 0
    requires c.request == Min(ChunkSize, remaining) && c.accepted == write(|log|, c.request)
    requires WriteSpec(size, write) == WithPrefix(log, WriteFrom(remaining, write, |log|))
    ensures WriteSpec(size, write) == WithPrefix(log + [c], WriteFrom(remaining - c.accepted, write, |log| + 1))
    ensures Accepted(log + [c]) == Accepted(log) + c.accepted
  {
    WriteFromStep(remaining, write, |log|, c);
    AcceptedAppend(log, c);
    PrefixStep(log, c, WriteFrom(remaining - c.accepted, write, |log| + 1));
  }

  /** A `write` to `path` that accepted `count` more bytes after `total`. */
  method Record(fs: FileSystem, path: string, ghost files0: map<string, nat>, ghost total: nat, count: nat)
    requires fs.files == files0[path := total]
    modifies fs
    ensures fs.files == files0[path := total + count]
    ensures fs.dirs == old(fs.dirs)
  {
    fs.Append(path, count);
    assert fs.files == files0[path := total][path := total + count];
  }

  /** `write_file(path, size)` on `fs`: `CreateFailed` when something named `path`
      already exists, otherwise the calls of `WriteSpec`, the file holding the
      bytes they accepted. */
  datatype FileOutcome = CreateFailed | Opened(outcome: WriteOutcome)

  method WriteFile(fs: FileSystem, path: string, size: int, write: Writer) returns (r: FileOutcome)
    requires WellBehaved(write)
    modifies fs
    ensures r.CreateFailed? <==> old(fs.Exists(path))
    ensures r.CreateFailed? ==> fs.files == old(fs.files)
    ensures r.Opened? ==> r.outcome == WriteSpec(size, write)
    ensures r.Opened? ==> fs.files == old(fs.files)[path := Accepted(r.outcome.chunks)]
    ensures r.Opened? && r.outcome.Written? ==> fs.files == old(fs.files)[path := Max0(size)]
    ensures fs.dirs == old(fs.dirs)
  {
    var ok := fs.CreateExclusive(path);
    if !ok {
      return CreateFailed;
    }
    var outcome := WriteChunks(fs, path, size, write);
    r := Opened(outcome);
  }

  /** The loop of `write_file` on the freshly created, empty file `path`. */
  method WriteChunks(fs: FileSystem, path: string, size: int, write: Writer) returns (r: WriteOutcome)
    requires WellBehaved(write)
    requires path in fs.files && fs.files[path] == 0
    modifies fs
    ensures r == WriteSpec(size, write)
    ensures fs.files == old(fs.files)[path := Accepted(r.chunks)]
    ensures r.Written? ==> Accepted(r.chunks) == Max0(size)
    ensures fs.dirs == old(fs.dirs)
  {
    var remaining := size;
    var log: seq<Chunk> := [];
    ghost var files0: map<string, nat> := fs.files;
    ghost var total: nat := 0;
    while remaining > 0
      invariant total == Accepted(log) && remaining == size - total
      invariant WriteSpec(size, write) == WithPrefix(log, WriteFrom(remaining, write, |log|))
      invariant fs.files == files0[path := total]
      invariant fs.dirs == old(fs.dirs)
      decreases remaining
    {
      var request := Min(ChunkSize, remaining);
      var w := write(|log|, request);
      if w < 0 {
        return Failed(log, request, w);
      }
      Record(fs, path, files0, total, w);
      LoopStep(size, write, log, remaining, Chunk(request, w));
      remaining := remaining - w;
      log := log + [Chunk(request, w)];
      total := total + w;
    }
    assert log + [] == log;
    r := Written(log);
    WrittenAccepted(size, write, 0);
  }
}
