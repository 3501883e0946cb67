/** Skew of a clock against the reference clock, and the summary of its samples. */
module Skew {
  import opened Words
  import opened OrderStatistics

  /** One sample's four reads: reference, clock, then, after the sleep, clock, reference. */
  datatype Reads = Reads(refStart: u64, clockStart: u64, clockEnd: u64, refEnd: u64)

  datatype Sample = Sample(clockElapsed: u64, refElapsed: u64, skew: int)

  /** `ppmSample` is the sample whose ratio the report publishes as the median one. */
  datatype Summary = Summary(samples: seq<Sample>, median: int, min: int, max: int, ppmSample: Sample)

  /** `x as i64`. */
  function AsI64(x: u64): int {
    if x < TWO63 then x else x - TWO64
  }

  /** Two's-complement 64-bit subtraction. */
  function SubI64(a: int, b: int): int {
    AsI64((a - b) % TWO64)
  }

  function SampleOf(r: Reads): Sample {
    var clock, reference := SaturatingSub(r.clockEnd, r.clockStart), SaturatingSub(r.refEnd, r.refStart);
    Sample(clock, reference, SubI64(AsI64(clock), AsI64(reference)))
  }

  function SkewsOf(samples: seq<Sample>): (s: seq<int>)
    ensures |s| == |samples| && forall i | 0 <= i < |s| :: s[i] == samples[i].skew
  {
    if samples == [] then [] else SkewsOf(samples[..|samples| - 1]) + [samples[|samples| - 1].skew]
  }

  function SamplesOf(brackets: seq<Reads>): (s: seq<Sample>)
    ensures |s| == |brackets| && forall i | 0 <= i < |s| :: s[i] == SampleOf(brackets[i])
  {
    seq(|brackets|, i requires 0 <= i < |brackets| => SampleOf(brackets[i]))
  }

  /** The summary of a measurement: order statistics of the sorted skews, and the middle sample in the order taken. */
  function SummaryOf(brackets: seq<Reads>): Summary
    requires brackets != []
  {
    var samples, n := SamplesOf(brackets), |brackets|;
    var sorted := Sorted(SkewsOf(samples));
    Summary(samples, sorted[n / 2], sorted[0], sorted[n - 1], samples[n / 2])
  }

  method SortedCopy(skews: seq<int>) returns (sorted: array<int>)
    ensures fresh(sorted) && sorted[..] == Sorted(skews) && sorted.Length == |skews|
  {
    sorted := new int[|skews|](i requires 0 <= i < |skews| => skews[i]);
    assert sorted[..] == skews;
    SortInPlace(sorted);
  }

  /** `None` is the index panic of an empty sample list. */
  method MeasureSkew(brackets: seq<Reads>) returns (r: Option<Summary>)
    ensures r == if brackets == [] then None else Some(SummaryOf(brackets))
  {
    var all: seq<Sample> := [];
    for k := 0 to |brackets|
      invariant |all| == k && forall i | 0 <= i < k :: all[i] == SampleOf(brackets[i])
    {
      all := all + [SampleOf(brackets[k])];
    }
    assert all == SamplesOf(brackets);
    var sorted := SortedCopy(SkewsOf(all));
    if sorted.Length == 0 { return None; }
    var n := sorted.Length;
    r := Some(Summary(all, sorted[n / 2], sorted[0], sorted[n - 1], all[n / 2]));
  }

  /** What each clock advanced by: its own start plus its elapsed time is its end, or its start if it went back. */
  lemma ElapsedIsAdvance(r: Reads)
    ensures var s := SampleOf(r);
      && r.clockStart + s.clockElapsed == Max(r.clockStart, r.clockEnd)
      && r.refStart + s.refElapsed == Max(r.refStart, r.refEnd)
  {
  }

  /** The reported skew is the one signed 64-bit number that differs from the true difference by whole turns. */
  lemma SkewIsWrapped(r: Reads)
    ensures var s := SampleOf(r);
      && -TWO63 <= s.skew < TWO63
      && (s.skew - (s.clockElapsed - s.refElapsed)) % TWO64 == 0
  {
    var s := SampleOf(r);
    var a, b := AsI64(s.clockElapsed), AsI64(s.refElapsed);
    var turns := (a - b) / TWO64;
    assert a - b == turns * TWO64 + (a - b) % TWO64;
  }

  /** The reported skew is the true difference exactly when that difference fits 64 signed bits. */
  lemma SkewIsExactWhenItFits(r: Reads)
    ensures var s := SampleOf(r);
      && s.skew == s.clockElapsed - s.refElapsed <==> -TWO63 <= s.clockElapsed - s.refElapsed < TWO63
  {
    var s := SampleOf(r);
    var a, b := AsI64(s.clockElapsed), AsI64(s.refElapsed);
    var d := s.clockElapsed - s.refElapsed;
    var turns := (a - b - d) / TWO64;
    assert a - b == d + turns * TWO64;
    assert (a - b) % TWO64 == d % TWO64;
    assert d % TWO64 == if 0 <= d then d else d + TWO64;
  }

  /** Reference reads bracket the clock reads, so a clock showing reference time never runs ahead, short of a wrapped
      difference. */
  lemma ReferenceClockNeverAhead(r: Reads)
    requires r.refStart <= r.clockStart <= r.clockEnd <= r.refEnd
    ensures var s := SampleOf(r);
      && s.clockElapsed <= s.refElapsed
      && (s.skew <= 0 <==> s.refElapsed - s.clockElapsed <= TWO63)
  {
    var s := SampleOf(r);
    SkewIsExactWhenItFits(r);
    var a, b := AsI64(s.clockElapsed), AsI64(s.refElapsed);
    assert (a - b) % TWO64 == (s.clockElapsed - s.refElapsed) % TWO64;
  }

  lemma SortedBounds(skews: seq<int>)
    requires skews != []
    ensures var min, max := Sorted(skews)[0], Sorted(skews)[|skews| - 1];
      min in skews && max in skews && forall x | x in skews :: min <= x <= max
  {
    var s := Sorted(skews);
    SortedIsAscendingPermutation(skews);
    SortedMember(skews, 0);
    SortedMember(skews, |skews| - 1);
    forall x | x in skews
      ensures s[0] <= x <= s[|s| - 1]
    {
      assert x in multiset(s);
      var i :| 0 <= i < |s| && s[i] == x;
    }
  }

  /** The reported extremes are skews of samples and bound every sample's. */
  lemma ExtremesBound(brackets: seq<Reads>)
    requires brackets != []
    ensures var s := SummaryOf(brackets);
      && s.min in SkewsOf(s.samples) && s.max in SkewsOf(s.samples)
      && forall i | 0 <= i < |s.samples| :: s.min <= s.samples[i].skew <= s.max
  {
    var samples := SamplesOf(brackets);
    var skews := SkewsOf(samples);
    SortedBounds(skews);
    forall i | 0 <= i < |samples|
      ensures Sorted(skews)[0] <= samples[i].skew <= Sorted(skews)[|skews| - 1]
    {
      assert skews[i] in skews;
    }
  }

  predicate MedianOf(skews: seq<int>, x: int) {
    && x in skews
    && |skews| / 2 + 1 <= CountAtMost(skews, x)
    && CountAtMost(skews, x - 1) <= |skews| / 2
  }

  lemma MedianIsMedian(skews: seq<int>, median: int)
    requires skews != [] && median == Sorted(skews)[|skews| / 2]
    ensures MedianOf(skews, median)
  {
    SortedMember(skews, |skews| / 2);
    RankIsExact(skews, median, |skews| / 2);
  }

  /** More than half the samples are at most the reported median, and at most half are below it. */
  lemma MedianSplits(brackets: seq<Reads>)
    requires brackets != []
    ensures var s := SummaryOf(brackets);
      MedianOf(SkewsOf(s.samples), s.median)
  {
    var skews := SkewsOf(SamplesOf(brackets));
    MedianIsMedian(skews, Sorted(skews)[|skews| / 2]);
  }

  predicate EqualAdvance(r: Reads) {
    r.clockEnd - r.clockStart == r.refEnd as int - r.refStart && r.refStart <= r.refEnd
  }

  /** A clock that advances exactly as far as the reference in every sample has no skew at all, whatever the two
      anchors. */
  lemma EqualAdvanceHasNoSkew(brackets: seq<Reads>)
    requires brackets != []
    requires forall i | 0 <= i < |brackets| :: EqualAdvance(brackets[i])
    ensures var s := SummaryOf(brackets);
      && s.median == s.min == s.max == s.ppmSample.skew == 0
      && forall i | 0 <= i < |s.samples| :: s.samples[i].skew == 0
  {
    var samples := SamplesOf(brackets);
    forall i | 0 <= i < |samples|
      ensures samples[i].skew == 0
    {
      assert EqualAdvance(brackets[i]);
      ElapsedIsAdvance(brackets[i]);
      SkewIsExactWhenItFits(brackets[i]);
    }
    ExtremesBound(brackets);
    MedianSplits(brackets);
    assert SkewsOf(samples)[0] == 0;
  }

  /** The published ppm sample is the middle one in the order taken: half were taken before it, the upper middle if
      even. */
  lemma PpmSampleIsMiddle(brackets: seq<Reads>) returns (before: seq<Reads>, middle: Reads, after: seq<Reads>)
    requires brackets != []
    ensures brackets == before + [middle] + after && |before| - |after| == 1 - |brackets| % 2
    ensures SummaryOf(brackets).ppmSample == SampleOf(middle)
  {
    var n := |brackets| / 2;
    before, middle, after := brackets[..n], brackets[n], brackets[n + 1..];
  }

  lemma MedianExactly(skews: seq<int>, x: int, at: nat)
    requires at < |skews| && skews[at] == x
    ensures Sorted(skews)[|skews| / 2] == x <==> MedianOf(skews, x)
  {
    RankIsExact(skews, x, |skews| / 2);
  }

  /** The sample behind the reported ppm figure has the reported median skew exactly when its own skew is a median. */
  lemma PpmSampleIsMedianWhenRanked(brackets: seq<Reads>)
    requires brackets != []
    ensures var s := SummaryOf(brackets);
      s.ppmSample.skew == s.median <==> MedianOf(SkewsOf(s.samples), s.ppmSample.skew)
  {
    var samples, mid := SamplesOf(brackets), |brackets| / 2;
    MedianExactly(SkewsOf(samples), samples[mid].skew, mid);
  }

  lemma RanksOfThree(skews: seq<int>)
    requires |skews| == 3 && skews[0] == 0 && skews[1] == 5 && skews[2] == 1
    ensures Sorted(skews)[1] == 1 && Sorted(skews)[2] == 5
  {
    assert skews == [0, 5, 1];
    assert CountAtMost([0, 5, 1], 0) == 1 && CountAtMost([0, 5, 1], 1) == 2;
    assert CountAtMost([0, 5, 1], 4) == 2 && CountAtMost([0, 5, 1], 5) == 3;
    RankIsExact(skews, 1, 1);
    RankIsExact(skews, 5, 2);
  }

  /** Three samples of 10, 15 and 11 clock units against 10 of the reference: the published ppm figure belongs to the
      largest skew, not the median one. */
  lemma PpmSampleNeedNotBeMedian() returns (brackets: seq<Reads>)
    ensures brackets == [Reads(0, 0, 10, 10), Reads(0, 0, 15, 10), Reads(0, 0, 11, 10)]
    ensures var s := SummaryOf(brackets);
      s.median == 1 && s.ppmSample.skew == 5 == s.max
  {
    brackets := [Reads(0, 0, 10, 10), Reads(0, 0, 15, 10), Reads(0, 0, 11, 10)];
    var samples := SamplesOf(brackets);
    assert samples == [Sample(10, 10, 0), Sample(15, 10, 5), Sample(11, 10, 1)];
    RanksOfThree(SkewsOf(samples));
  }
}
