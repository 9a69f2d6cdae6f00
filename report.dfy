/** `show_benchmark`: sort the samples ascending with `qsort` and
    `sample_less_than`, then report the nearest-rank percentiles at indices
    0, n/4, n/2, 3n/4 and n-1. */
module Report {

  const IntMax := 0x7fff_ffff

  /** The largest sample count for which `3 * samples.n` fits in an `int`. */
  const MaxSamples := IntMax / 3

  /** `sample_less_than`: negative when `a` goes first, never zero, so equal
      samples compare as "greater" in both orders. */
  function SampleLessThan(a: int, b: int): (r: int)
    ensures r == -1 || r == 1
    ensures r < 0 <==> a < b
  {
    if a < b then -1 else 1
  }

  /** Equal samples are never reported as equal: each compares greater than
      the other, while distinct samples compare in opposite directions. */
  lemma ComparatorOrientation(a: int, b: int)
    ensures a == b ==> SampleLessThan(a, b) > 0 && SampleLessThan(b, a) > 0
    ensures a != b ==> (SampleLessThan(a, b) < 0 <==> SampleLessThan(b, a) > 0)
  {
  }

  /** A comparison function as `qsort` expects one: negative, zero or
      positive as `a` is less than, equal to or greater than `b`. */
  function CompareSamples(a: int, b: int): (r: int)
    ensures r == -1 || r == 0 || r == 1
    ensures r < 0 <==> a < b
    ensures r == 0 <==> a == b
    ensures r > 0 <==> b < a
  {
    if a < b then -1 else if a == b then 0 else 1
  }

  /** Swapping the arguments flips the sign: the ordering is consistent. */
  lemma CompareAntisymmetric(a: int, b: int)
    ensures CompareSamples(a, b) == -CompareSamples(b, a)
  {
  }

  /** Both comparators agree on which sample goes first, so they sort alike. */
  lemma ComparatorsAgree(a: int, b: int)
    ensures SampleLessThan(a, b) < 0 <==> CompareSamples(a, b) < 0
    ensures a != b ==> SampleLessThan(a, b) == CompareSamples(a, b)
  {
  }

  predicate IsSorted(s: seq<int>) {
    forall i, j | 0 <= i <= j < |s| :: s[i] <= s[j]
  }

  /** `x` placed before the first element it is less than. */
  function Insert(x: int, s: seq<int>): (r: seq<int>)
    ensures multiset(r) == multiset(s) + multiset{x}
  {
    if s == [] || CompareSamples(x, s[0]) < 0 then [x] + s
    else
      assert s == [s[0]] + s[1..];
      [s[0]] + Insert(x, s[1..])
  }

  /** Inserting into ascending samples keeps them ascending. */
  lemma {:induction false} InsertSorted(x: int, s: seq<int>)
    requires IsSorted(s)
    ensures IsSorted(Insert(x, s))
  {
    if s != [] && CompareSamples(x, s[0]) >= 0 {
      var tail := Insert(x, s[1..]);
      assert IsSorted(s[1..]);
      InsertSorted(x, s[1..]);
      assert s == [s[0]] + s[1..];
      forall y | y in tail
        ensures s[0] <= y
      {
        assert y in multiset(tail);
        assert y == x || y in multiset(s[1..]);
      }
      var r := [s[0]] + tail;
      forall i, j | 0 <= i <= j < |r|
        ensures r[i] <= r[j]
      {
        if i > 0 {
          assert r[i] == tail[i - 1] && r[j] == tail[j - 1];
        } else {
          assert r[j] == s[0] || r[j] in tail;
        }
      }
    }
  }

  /** The samples in ascending order: what `qsort` leaves in the array. By
      `SortedUnique` every ascending permutation is this one, whichever
      comparator put it in order. */
  function SortSamples(s: seq<int>): (r: seq<int>)
    ensures IsSorted(r) && multiset(r) == multiset(s)
  {
    if s == [] then []
    else
      var t := SortSamples(s[1..]);
      InsertSorted(s[0], t);
      assert s == [s[0]] + s[1..];
      Insert(s[0], t)
  }

  /** A permutation has the same length and the same members. */
  lemma PermutationMembers(a: seq<int>, b: seq<int>)
    requires multiset(a) == multiset(b)
    ensures |a| == |b|
    ensures forall i | 0 <= i < |a| :: a[i] in b
    ensures forall x | x in b :: x in a
  {
    assert |a| == |multiset(a)| == |multiset(b)| == |b|;
    forall i | 0 <= i < |a|
      ensures a[i] in b
    {
      assert a[i] in multiset(a);
    }
    forall x | x in b
      ensures x in a
    {
      assert x in multiset(b);
    }
  }

  lemma SortedTail(s: seq<int>)
    requires IsSorted(s) && s != []
    ensures IsSorted(s[1..]) && multiset(s) == multiset{s[0]} + multiset(s[1..])
  {
    assert s == [s[0]] + s[1..];
  }

  /** The first of ascending samples is the least of them. */
  lemma SortedHeadLeast(s: seq<int>, x: int)
    requires IsSorted(s) && x in multiset(s)
    ensures s[0] <= x
  {
    var i :| 0 <= i < |s| && s[i] == x;
  }

  /** Two ascending arrangements of the same samples start alike, and what
      follows is again two ascending arrangements of the same samples. */
  lemma SameHead(a: seq<int>, b: seq<int>)
    requires IsSorted(a) && IsSorted(b) && multiset(a) == multiset(b) && a != []
    ensures b != [] && a[0] == b[0]
    ensures IsSorted(a[1..]) && IsSorted(b[1..]) && multiset(a[1..]) == multiset(b[1..])
  {
    assert a[0] in multiset(a);
    assert b != [];
    assert b[0] in multiset(b);
    SortedHeadLeast(b, a[0]);
    SortedHeadLeast(a, b[0]);
    SortedTail(a);
    SortedTail(b);
    assert multiset(a[1..]) == multiset(a) - multiset{a[0]};
    assert multiset(b[1..]) == multiset(b) - multiset{b[0]};
  }

  /** Two ascending arrangements of the same samples are the same sequence, so
      any sorting routine that leaves the array ascending and a permutation of
      what it was gives the array `SortSamples` gives. */
  lemma {:induction false} SortedUnique(a: seq<int>, b: seq<int>)
    requires IsSorted(a) && IsSorted(b) && multiset(a) == multiset(b)
    ensures a == b
    decreases |a|
  {
    if a == [] {
      assert |b| == |multiset(b)| == 0;
    } else {
      SameHead(a, b);
      SortedUnique(a[1..], b[1..]);
      assert a == [a[0]] + a[1..] && b == [b[0]] + b[1..];
    }
  }

  /** Only the multiset of samples matters to the sorted order. */
  lemma SortIgnoresOrder(a: seq<int>, b: seq<int>)
    requires multiset(a) == multiset(b)
    ensures SortSamples(a) == SortSamples(b)
  {
    SortedUnique(SortSamples(a), SortSamples(b));
  }

  /** The indices read after the sort, as written, for `n` samples. */
  function PercentileIndices(n: int): (ix: seq<int>)
    ensures |ix| == 5
    ensures n >= 1 ==> forall i | 0 <= i < 5 :: 0 <= ix[i] < n
    ensures forall i, j | 0 <= i <= j < 5 :: n >= 1 ==> ix[i] <= ix[j]
  {
    [0, n / 4, n / 2, 3 * n / 4, n - 1]
  }

  /** With no samples the first read is at index 0 and the last at index -1,
      both outside an empty array. */
  lemma EmptySamplesReadOutOfBounds()
    ensures var ix := PercentileIndices(0); !(0 <= ix[0] < 0) && ix[4] == -1
  {
  }

  /** The five reported values, in the samples' own units (nanoseconds). */
  datatype Percentiles = Percentiles(p00: int, p25: int, p50: int, p75: int, p100: int)

  datatype Summary = NoSamples | Reported(p: Percentiles)

  /** The report for a set of samples: nothing when there are none, otherwise
      the sorted samples at `PercentileIndices`. */
  function Summarize(samples: seq<int>): (r: Summary)
    ensures r.NoSamples? <==> samples == []
    ensures r.Reported? ==> r.p.p00 <= r.p.p25 <= r.p.p50 <= r.p.p75 <= r.p.p100
    ensures r.Reported? ==>
      && r.p.p00 in samples && r.p.p25 in samples && r.p.p50 in samples
      && r.p.p75 in samples && r.p.p100 in samples
    ensures r.Reported? ==> forall x | x in samples :: r.p.p00 <= x <= r.p.p100
  {
    if samples == [] then NoSamples
    else
      var sorted := SortSamples(samples);
      var ix := PercentileIndices(|samples|);
      PermutationMembers(sorted, samples);
      Reported(Percentiles(sorted[ix[0]], sorted[ix[1]], sorted[ix[2]], sorted[ix[3]], sorted[ix[4]]))
  }

  /** On samples already in order the report reads them directly. */
  lemma SummarizeSorted(s: seq<int>)
    requires IsSorted(s) && s != []
    ensures var n := |s|;
      Summarize(s) == Reported(Percentiles(s[0], s[n / 4], s[n / 2], s[3 * n / 4], s[n - 1]))
  {
    SortedUnique(SortSamples(s), s);
  }

  /** The report does not depend on the order the samples were taken in. */
  lemma SummarizeIgnoresOrder(a: seq<int>, b: seq<int>)
    requires multiset(a) == multiset(b)
    ensures Summarize(a) == Summarize(b)
  {
    SortIgnoresOrder(a, b);
    assert |a| == |multiset(a)| == |b|;
  }

  predicate IsTens(s: seq<int>) {
    |s| == 10 && forall i | 0 <= i < |s| :: s[i] == 10 * (i + 1)
  }

  lemma TensSorted(s: seq<int>)
    requires IsTens(s)
    ensures IsSorted(s)
  {
  }

  /** Ten samples 10, 20, ..., 100 report 10, 30, 60, 80 and 100. */
  lemma TenSamples(s: seq<int>)
    requires IsTens(s)
    ensures Summarize(s) == Reported(Percentiles(10, 30, 60, 80, 100))
  {
    TensSorted(s);
    SummarizeSorted(s);
    var n := |s|;
    assert n == 10 && n / 4 == 2 && n / 2 == 5 && 3 * n / 4 == 7 && n - 1 == 9;
    assert Summarize(s) == Reported(Percentiles(s[0], s[2], s[5], s[7], s[9]));
    assert s[0] == 10 && s[2] == 30 && s[5] == 60 && s[7] == 80 && s[9] == 100;
  }

  /** `show_benchmark(samples)`: sort the array in place, then read the five
      percentiles (nothing when the array is empty). */
  method ShowBenchmark(data: array<int>) returns (r: Summary)
    requires data.Length <= MaxSamples
    modifies data
    ensures IsSorted(data[..]) && multiset(data[..]) == multiset(old(data[..]))
    ensures r == Summarize(old(data[..]))
  {
    ghost var samples := data[..];
    var sorted := SortSamples(data[..]);
    PermutationMembers(sorted, samples);
    forall i | 0 <= i < data.Length {
      data[i] := sorted[i];
    }
    assert data[..] == sorted;
    SummarizeIgnoresOrder(samples, sorted);
    var n := data.Length;
    if n == 0 {
      return NoSamples;
    }
    SummarizeSorted(sorted);
    r := Reported(Percentiles(data[0], data[n / 4], data[n / 2], data[3 * n / 4], data[n - 1]));
  }
}
