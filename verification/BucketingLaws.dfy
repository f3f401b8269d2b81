/** What any correct bucketing satisfies: the result is unique, coarse buckets are sums of fine
    ones, windows add up, and the accounting identity holds except within the tolerance. */
module BucketingLaws {
  import opened Basics
  import opened ObservedTime
  import opened Overlaps
  import opened TemporalBucketing

  // ----- The specification determines the result

  ghost predicate StrictlyIncreasing(buckets: seq<TemporalBucket>) {
    forall i, j :: 0 <= i < j < |buckets| ==> buckets[i].bucketStart < buckets[j].bucketStart
  }

  lemma {:induction false} StartsAgree(a: seq<TemporalBucket>, b: seq<TemporalBucket>, k: nat)
    requires StrictlyIncreasing(a) && StrictlyIncreasing(b)
    requires forall c :: HasBucket(a, c) <==> HasBucket(b, c)
    requires k <= |a|
    ensures k <= |b| && forall i :: 0 <= i < k ==> a[i].bucketStart == b[i].bucketStart
  {
    if k > 0 {
      var n := k - 1;
      StartsAgree(a, b, n);
      assert HasBucket(a, a[n].bucketStart) && HasBucket(b, a[n].bucketStart);
      var j :| 0 <= j < |b| && b[j].bucketStart == a[n].bucketStart;
      assert HasBucket(b, b[n].bucketStart) && HasBucket(a, b[n].bucketStart);
      var m :| 0 <= m < |a| && a[m].bucketStart == b[n].bucketStart;
    }
  }

  /** Two results meeting the specification for the same input are the same result. */
  lemma BucketingIsDetermined(spans: seq<ObservedSpan>, w: Window, bucketSeconds: int,
                              r: BucketingResult, s: BucketingResult)
    requires bucketSeconds > 0
    requires IsBucketing(spans, w, bucketSeconds, r) && IsBucketing(spans, w, bucketSeconds, s)
    ensures r == s
  {
    StartsAgree(r.buckets, s.buckets, |r.buckets|);
    StartsAgree(s.buckets, r.buckets, |s.buckets|);
    assert forall i :: 0 <= i < |r.buckets| ==> r.buckets[i] == s.buckets[i];
  }

  // ----- Reading a total out of a result

  /** Seconds reported for the bucket starting at c; zero when there is no such bucket. */
  function SecondsAt(buckets: seq<TemporalBucket>, c: int): real {
    if buckets == [] then 0.0
    else if buckets[0].bucketStart == c then buckets[0].observedSeconds
    else SecondsAt(buckets[1..], c)
  }

  lemma {:induction false} SecondsAtIndex(buckets: seq<TemporalBucket>, i: nat)
    requires i < |buckets|
    requires forall j, k :: 0 <= j < k < |buckets| ==> buckets[j].bucketStart < buckets[k].bucketStart
    ensures SecondsAt(buckets, buckets[i].bucketStart) == buckets[i].observedSeconds
  {
    if i > 0 {
      assert buckets[0].bucketStart < buckets[i].bucketStart;
      SecondsAtIndex(buckets[1..], i - 1);
    }
  }

  lemma {:induction false} SecondsAtNothing(buckets: seq<TemporalBucket>, c: int)
    requires !HasBucket(buckets, c)
    ensures SecondsAt(buckets, c) == 0.0
  {
    if buckets != [] {
      assert buckets[0].bucketStart != c;
      forall i | 0 <= i < |buckets[1..]| ensures buckets[1..][i].bucketStart != c {
        assert buckets[i + 1].bucketStart != c;
      }
      SecondsAtNothing(buckets[1..], c);
    }
  }

  lemma SecondsAtCell(spans: seq<ObservedSpan>, w: Window, size: int, buckets: seq<TemporalBucket>, c: int)
    requires size > 0 && IsDistribution(spans, w, size, buckets) && Aligned(c, size)
    ensures SecondsAt(buckets, c) == Seconds(ObservedMicros(spans, w, c, c + size))
  {
    if HasBucket(buckets, c) {
      var i :| 0 <= i < |buckets| && buckets[i].bucketStart == c;
      SecondsAtIndex(buckets, i);
    } else {
      SecondsAtNothing(buckets, c);
    }
  }

  // ----- Refining the bucket size

  /** Sum of k consecutive fine totals starting at c. */
  function FineSum(fine: seq<TemporalBucket>, c: int, size: int, k: nat): real {
    if k == 0 then 0.0 else FineSum(fine, c, size, k - 1) + SecondsAt(fine, c + (k - 1) * size)
  }

  lemma ShiftedCell(c: int, size: int, j: nat)
    requires size > 0 && Aligned(c, size)
    ensures Aligned(c + j * size, size)
  {
    assert c + j * size == (c / size + j) * size;
    MultipleIsAligned(c / size + j, size);
  }

  lemma {:induction false} FineSumIsStretch(spans: seq<ObservedSpan>, w: Window, size: int,
                                            fine: seq<TemporalBucket>, c: int, k: nat)
    requires size > 0 && Aligned(c, size) && IsDistribution(spans, w, size, fine)
    ensures k * size >= 0
    ensures FineSum(fine, c, size, k) == Seconds(ObservedMicros(spans, w, c, c + k * size))
  {
    if k > 0 {
      var mid := c + (k - 1) * size;
      FineSumIsStretch(spans, w, size, fine, c, k - 1);
      ShiftedCell(c, size, k - 1);
      SecondsAtCell(spans, w, size, fine, mid);
      assert k * size == (k - 1) * size + size;
      MicrosSplit(spans, w, c, mid, mid + size);
    }
  }

  lemma CoarseCellIsFineCell(c: int, size: int, k: int)
    requires size > 0 && k > 0 && k * size > 0 && Aligned(c, k * size)
    ensures Aligned(c, size)
  {
    var q := c / (k * size);
    assert c == (q * k) * size;
    MultipleIsAligned(q * k, size);
  }

  lemma CoarseDistribution(spans: seq<ObservedSpan>, w: Window, size: int, k: int,
                           fine: seq<TemporalBucket>, coarse: seq<TemporalBucket>, c: int)
    requires size > 0 && k > 0 && k * size > 0 && Aligned(c, k * size)
    requires IsDistribution(spans, w, size, fine) && IsDistribution(spans, w, k * size, coarse)
    ensures SecondsAt(coarse, c) == FineSum(fine, c, size, k)
  {
    CoarseCellIsFineCell(c, size, k);
    SecondsAtCell(spans, w, k * size, coarse, c);
    FineSumIsStretch(spans, w, size, fine, c, k);
  }

  lemma CoarseSize(k: int, bucketSeconds: int)
    ensures k * (bucketSeconds * 1_000_000) == k * bucketSeconds * 1_000_000
  {
  }

  /** Re-bucketing at k times the size: each coarse total is the sum of its k fine totals. */
  lemma CoarseIsSumOfFine(spans: seq<ObservedSpan>, w: Window, bucketSeconds: int, k: int,
                          fine: BucketingResult, coarse: BucketingResult, c: int)
    requires bucketSeconds > 0 && k > 0 && k * bucketSeconds > 0
    requires IsBucketing(spans, w, bucketSeconds, fine)
    requires IsBucketing(spans, w, k * bucketSeconds, coarse)
    requires Aligned(c, k * bucketSeconds * 1_000_000)
    ensures SecondsAt(coarse.buckets, c)
            == FineSum(fine.buckets, c, bucketSeconds * 1_000_000, k)
  {
    var size := bucketSeconds * 1_000_000;
    CoarseSize(k, bucketSeconds);
    CoarseDistribution(spans, w, size, k, fine.buckets, coarse.buckets, c);
  }

  // ----- Cutting the window

  lemma {:induction false} WindowsAdd(spans: seq<ObservedSpan>, a: int, m: int, b: int, lo: int, hi: int)
    requires a <= m <= b
    ensures ObservedMicros(spans, Window(a, b), lo, hi)
            == ObservedMicros(spans, Window(a, m), lo, hi) + ObservedMicros(spans, Window(m, b), lo, hi)
    decreases hi - lo
  {
    if lo < hi {
      WindowsAdd(spans, a, m, b, lo, hi - 1);
    }
  }

  /** Cutting the window at m splits every bucket total and loses nothing, even when m falls
      inside a bucket. */
  lemma WindowSplits(spans: seq<ObservedSpan>, a: int, m: int, b: int, bucketSeconds: int,
                     whole: BucketingResult, first: BucketingResult, second: BucketingResult, c: int)
    requires a < m < b && bucketSeconds > 0
    requires IsBucketing(spans, Window(a, b), bucketSeconds, whole)
    requires IsBucketing(spans, Window(a, m), bucketSeconds, first)
    requires IsBucketing(spans, Window(m, b), bucketSeconds, second)
    requires Aligned(c, bucketSeconds * 1_000_000)
    ensures SecondsAt(whole.buckets, c) == SecondsAt(first.buckets, c) + SecondsAt(second.buckets, c)
    ensures whole.metadata.bucketedSeconds == first.metadata.bucketedSeconds + second.metadata.bucketedSeconds
  {
    var size := bucketSeconds * 1_000_000;
    SecondsAtCell(spans, Window(a, b), size, whole.buckets, c);
    SecondsAtCell(spans, Window(a, m), size, first.buckets, c);
    SecondsAtCell(spans, Window(m, b), size, second.buckets, c);
    WindowsAdd(spans, a, m, b, c, c + size);
    WindowsAdd(spans, a, m, b, a, b);
    MicrosSplit(spans, Window(a, m), a, m, b);
    MicrosSplit(spans, Window(m, b), a, m, b);
    NothingOutsideWindow(spans, Window(a, m), m, b);
    NothingOutsideWindow(spans, Window(m, b), a, m);
  }

  // ----- Conservation

  /** Never more time in the buckets than the window is long, nor in a bucket than it is long. */
  lemma TotalsAreBounded(spans: seq<ObservedSpan>, w: Window, bucketSeconds: int, r: BucketingResult)
    requires bucketSeconds > 0 && w.start < w.end && IsBucketing(spans, w, bucketSeconds, r)
    ensures SumSeconds(r.buckets) == r.metadata.bucketedSeconds == r.metadata.inWindowSeconds
    ensures 0.0 <= r.metadata.bucketedSeconds <= Seconds(w.end - w.start)
    ensures forall i :: 0 <= i < |r.buckets| ==> 0.0 < r.buckets[i].observedSeconds <= bucketSeconds as real
  {
    BucketsHoldWindow(spans, w, bucketSeconds * 1_000_000, r.buckets);
    forall i | 0 <= i < |r.buckets|
      ensures 0.0 < r.buckets[i].observedSeconds <= bucketSeconds as real
    {
      assert HasBucket(r.buckets, r.buckets[i].bucketStart);
    }
  }

  /** Spans whose reported seconds are exactly their length. */
  predicate ExactSpans(spans: seq<ObservedSpan>) {
    forall i :: 0 <= i < |spans| ==>
                  spans[i].observedSeconds == Seconds(spans[i].endAt - spans[i].startAt)
  }

  /** Microseconds the spans spend outside the window. */
  function OutsideMicros(spans: seq<ObservedSpan>, w: Window): int {
    if spans == [] then 0
    else
      var s := spans[|spans| - 1];
      OutsideMicros(spans[..|spans| - 1], w) + (s.endAt - s.startAt - Overlap(s, w, w.start, w.end))
  }

  lemma {:induction false} InputSplits(spans: seq<ObservedSpan>, w: Window)
    requires w.start <= w.end && ExactSpans(spans)
    requires forall i :: 0 <= i < |spans| ==> spans[i].startAt < spans[i].endAt
    ensures SpanSeconds(spans) == Seconds(OverlapTotal(spans, w, w.start, w.end)) + Seconds(OutsideMicros(spans, w))
    ensures OutsideMicros(spans, w) >= 0
  {
    if spans != [] {
      InputSplits(spans[..|spans| - 1], w);
    }
  }

  /** What the spans report beyond the time they spend inside the window. */
  function OutsideSeconds(spans: seq<ObservedSpan>, w: Window): real {
    SpanSeconds(spans) - Seconds(OverlapTotal(spans, w, w.start, w.end))
  }

  /** Input time is bucketed plus outside time exactly when the reported time outside the window is
      nothing or more than the tolerance of one microsecond; anything between is reported as zero. */
  lemma ConservationExactly(spans: seq<ObservedSpan>, w: Window, bucketSeconds: int, r: BucketingResult)
    requires w.start < w.end && bucketSeconds > 0
    requires ValidSpans(spans) && IsBucketing(spans, w, bucketSeconds, r)
    ensures r.metadata.bucketedSeconds + r.metadata.outsideWindowSeconds == r.metadata.inputSeconds
            <==> OutsideSeconds(spans, w) == 0.0 || AbsReal(OutsideSeconds(spans, w)) > 0.000001
  {
    OrderedSpansAreDisjoint(spans);
    MeasuresAgree(spans, w, w.start, w.end);
  }

  /** For spans that report exactly their length: unless exactly one microsecond lies outside. */
  lemma ExactSpansAreConserved(spans: seq<ObservedSpan>, w: Window, bucketSeconds: int, r: BucketingResult)
    requires w.start < w.end && bucketSeconds > 0
    requires ValidSpans(spans) && ExactSpans(spans) && IsBucketing(spans, w, bucketSeconds, r)
    ensures r.metadata.bucketedSeconds + r.metadata.outsideWindowSeconds == r.metadata.inputSeconds
            <==> OutsideMicros(spans, w) != 1
  {
    forall i | 0 <= i < |spans| ensures spans[i].startAt < spans[i].endAt {
      assert SpanError(spans, i).None?;
    }
    InputSplits(spans, w);
    ConservationExactly(spans, w, bucketSeconds, r);
  }

  lemma SingleSpan(s: ObservedSpan, w: Window, lo: int, hi: int)
    ensures OverlapTotal([s], w, lo, hi) == Overlap(s, w, lo, hi) && SpanSeconds([s]) == s.observedSeconds
  {
    assert [s][..0] == [];
  }

  /** The exception occurs: every bucketing of one microsecond before the window reports it nowhere. */
  lemma OneMicrosecondIsLost(bucketSeconds: int, r: BucketingResult)
    requires bucketSeconds > 0
    requires IsBucketing([ObservedSpan(0, 1, Seconds(1))], Window(10, 20), bucketSeconds, r)
    ensures ValidSpans([ObservedSpan(0, 1, Seconds(1))]) && ExactSpans([ObservedSpan(0, 1, Seconds(1))])
    ensures r.metadata.inputSeconds == 0.000001
    ensures r.metadata.bucketedSeconds == r.metadata.outsideWindowSeconds == 0.0 && r.buckets == []
  {
    var spans, w := [ObservedSpan(0, 1, Seconds(1))], Window(10, 20);
    assert SpanError(spans, 0).None?;
    OrderedSpansAreDisjoint(spans);
    SingleSpan(spans[0], w, 10, 20);
    MeasuresAgree(spans, w, 10, 20);
    if r.buckets != [] {
      var c, size := r.buckets[0].bucketStart, bucketSeconds * 1_000_000;
      assert HasBucket(r.buckets, c);
      SingleSpan(spans[0], w, c, c + size);
      MeasuresAgree(spans, w, c, c + size);
    }
  }

  /** It occurs with all the time inside the window, too: a span accepted although it reports half a
      microsecond more than its length loses that half microsecond. */
  lemma RoundedSecondsAreLost(bucketSeconds: int, r: BucketingResult)
    requires bucketSeconds > 0
    requires IsBucketing([ObservedSpan(0, 1_000_000, 1.0000005)], Window(0, 1_000_000), bucketSeconds, r)
    ensures ValidSpans([ObservedSpan(0, 1_000_000, 1.0000005)])
    ensures r.metadata.inputSeconds == 1.0000005
    ensures r.metadata.bucketedSeconds == 1.0 && r.metadata.outsideWindowSeconds == 0.0
  {
    var spans, w := [ObservedSpan(0, 1_000_000, 1.0000005)], Window(0, 1_000_000);
    assert SpanError(spans, 0).None?;
    OrderedSpansAreDisjoint(spans);
    SingleSpan(spans[0], w, 0, 1_000_000);
    MeasuresAgree(spans, w, 0, 1_000_000);
  }

  // ----- The report

  /** What the result says about itself: window and bucket size as asked for, the spans given, those
      that reach into the window, the buckets delivered, and the time within and outside. */
  lemma ReportExactly(spans: seq<ObservedSpan>, w: Window, bucketSeconds: int, r: BucketingResult)
    requires w.start < w.end && bucketSeconds > 0
    requires ValidSpans(spans) && IsBucketing(spans, w, bucketSeconds, r)
    ensures r.metadata.windowStart == w.start && r.metadata.windowEnd == w.end
    ensures r.metadata.bucketSeconds == bucketSeconds
    ensures r.metadata.bucketCount == |r.buckets| && r.metadata.inputSpanCount == |spans|
    ensures r.metadata.contributingSpanCount
            == |set i | 0 <= i < |spans| && ReachesInto(spans[i], w)|
    ensures r.metadata.inputSeconds == SpanSeconds(spans)
    ensures r.metadata.inWindowSeconds == r.metadata.bucketedSeconds == SumSeconds(r.buckets)
    ensures forall k :: 0 <= k < |r.buckets| ==>
              r.buckets[k].bucketEnd == r.buckets[k].bucketStart + bucketSeconds * 1_000_000
  {
    forall i | 0 <= i < |spans| ensures spans[i].startAt < spans[i].endAt {
      assert SpanError(spans, i).None?;
    }
    MeetingSpans(spans, w);
    BucketsHoldWindow(spans, w, bucketSeconds * 1_000_000, r.buckets);
  }

  predicate ReachesInto(s: ObservedSpan, w: Window) { s.startAt < w.end && w.start < s.endAt }

  lemma {:induction false} MeetingSpans(spans: seq<ObservedSpan>, w: Window)
    requires w.start < w.end && forall i :: 0 <= i < |spans| ==> spans[i].startAt < spans[i].endAt
    ensures SpansMeeting(spans, w, w.start, w.end) == |set i | 0 <= i < |spans| && ReachesInto(spans[i], w)|
  {
    var all := set i | 0 <= i < |spans| && ReachesInto(spans[i], w);
    if spans != [] {
      var n := |spans| - 1;
      var init := set i | 0 <= i < n && ReachesInto(spans[..n][i], w);
      MeetingSpans(spans[..n], w);
      OverlapIfReaching(spans[n], w);
      assert all == if ReachesInto(spans[n], w) then init + {n} else init;
      assert n !in init;
    }
  }

  lemma OverlapIfReaching(s: ObservedSpan, w: Window)
    requires w.start < w.end && s.startAt < s.endAt
    ensures Overlap(s, w, w.start, w.end) > 0 <==> ReachesInto(s, w)
  {
  }
}
