/** The three analytics stages composed: timestamps are classified, the classification is
    accounted for, and the observed spans are bucketed. */
module AnalyticsPipeline {
  import opened Basics
  import opened TemporalContinuity
  import opened ContinuityLaws
  import opened ObservedTime
  import opened Overlaps
  import opened TemporalBucketing
  import opened BucketingLaws

  /** The accounting of a series of timestamps. */
  function Account(ts: seq<int>, cfg: Config): ObservedTimeResult
    requires ValidConfig(cfg)
  {
    Accounting(Analysis(ts, cfg))
  }

  lemma AssessFacts(startAt: int, endAt: int, left: Option<Estimate>, right: Option<Estimate>)
    requires startAt <= endAt
    ensures var delta := Seconds(endAt - startAt);
            var a := Assess(startAt, endAt, delta, left, right);
            && a.startAt == startAt && a.endAt == endAt && a.deltaSeconds == delta
            && AssessmentError(a).None?
            && (a.status != Indeterminate ==> startAt < endAt)
  {
  }

  /** What the classifier says about each interval besides its status. */
  lemma IntervalFacts(ts: seq<int>, cfg: Config, i: nat)
    requires ValidConfig(cfg) && Ordered(ts) && i + 1 < |ts|
    ensures var a := AssessmentAt(ts, cfg, i);
            && a.startAt == ts[i] && a.endAt == ts[i + 1]
            && a.deltaSeconds == Seconds(ts[i + 1] - ts[i])
            && AssessmentError(a).None?
            && (a.status != Indeterminate ==> a.startAt < a.endAt)
  {
    var deltas := Deltas(ts);
    assert ts[i] <= ts[i + 1] && deltas[i] == Seconds(ts[i + 1] - ts[i]);
    AssessFacts(ts[i], ts[i + 1], LeftEstimate(deltas, i, cfg), RightEstimate(deltas, i, cfg));
  }

  /** The assessments follow the timestamps one after the other. */
  predicate Chained(analysis: seq<Assessment>, ts: seq<int>) {
    && |ts| == |analysis| + 1
    && forall i :: 0 <= i < |analysis| ==>
         var a := analysis[i];
         && a.startAt == ts[i] <= ts[i + 1] == a.endAt && a.deltaSeconds == Seconds(ts[i + 1] - ts[i])
         && (a.status != Indeterminate ==> ts[i] < ts[i + 1])
  }

  lemma AnalysisIsChained(ts: seq<int>, cfg: Config)
    requires ValidConfig(cfg) && Ordered(ts) && |ts| > 0
    ensures Chained(Analysis(ts, cfg), ts) && AllAccepted(Analysis(ts, cfg))
  {
    var analysis := Analysis(ts, cfg);
    forall i | 0 <= i < |analysis|
      ensures var a := analysis[i];
              && a.startAt == ts[i] <= ts[i + 1] == a.endAt && a.deltaSeconds == Seconds(ts[i + 1] - ts[i])
              && AssessmentError(a).None? && (a.status != Indeterminate ==> ts[i] < ts[i + 1])
    {
      assert analysis[i] == AssessmentAt(ts, cfg, i);
      IntervalFacts(ts, cfg, i);
    }
  }

  predicate SpansEndBy(spans: seq<ObservedSpan>, t: int) {
    spans != [] ==> spans[|spans| - 1].endAt <= t
  }

  lemma {:induction false} PrefixSpansValid(analysis: seq<Assessment>, ts: seq<int>, k: nat)
    requires Chained(analysis, ts) && k <= |analysis|
    ensures var spans := SpansOf(analysis[..k]);
            ValidSpans(spans) && ExactSpans(spans) && SpansEndBy(spans, ts[k])
  {
    if k > 0 {
      PrefixSpansValid(analysis, ts, k - 1);
      assert analysis[..k] == analysis[..k - 1] + [analysis[k - 1]];
      ExtendSpans(analysis[..k - 1], analysis[k - 1], ts[k - 1], ts[k]);
    }
  }

  lemma ExtendSpans(done: seq<Assessment>, a: Assessment, from: int, to: int)
    requires ValidSpans(SpansOf(done)) && ExactSpans(SpansOf(done)) && SpansEndBy(SpansOf(done), from)
    requires a.startAt == from <= to == a.endAt && a.deltaSeconds == Seconds(to - from)
    requires a.status != Indeterminate ==> from < to
    ensures var spans := SpansOf(done + [a]); ValidSpans(spans) && ExactSpans(spans) && SpansEndBy(spans, to)
  {
    var before, after := SpansOf(done), SpansOf(done + [a]);
    assert (done + [a])[..|done|] == done;
    if |after| > |before| {
      assert after == before + [ObservedSpan(from, to, a.deltaSeconds)];
      ExtendValid(before, ObservedSpan(from, to, a.deltaSeconds), from);
    } else {
      assert after == before;
    }
  }

  lemma ExtendValid(spans: seq<ObservedSpan>, s: ObservedSpan, t: int)
    requires ValidSpans(spans) && ExactSpans(spans) && SpansEndBy(spans, t)
    requires t <= s.startAt < s.endAt && s.observedSeconds == Seconds(s.endAt - s.startAt)
    ensures ValidSpans(spans + [s]) && ExactSpans(spans + [s])
  {
    var all := spans + [s];
    forall i | 0 <= i < |all| ensures SpanError(all, i).None? {
      if i < |spans| {
        assert SpanError(spans, i).None?;
      }
    }
  }

  lemma {:induction false} PrefixTotalIsElapsed(analysis: seq<Assessment>, ts: seq<int>, k: nat)
    requires Chained(analysis, ts) && k <= |analysis|
    ensures TotalSeconds(analysis[..k]) == Seconds(ts[k] - ts[0])
  {
    if k > 0 {
      PrefixTotalIsElapsed(analysis, ts, k - 1);
      assert analysis[..k][..k - 1] == analysis[..k - 1];
    }
  }

  /** Classification feeds accounting and accounting feeds bucketing without a rejection, and the
      accounts balance: observed, gap and indeterminate time add up to the time elapsed. */
  lemma EndToEndAccounting(ts: seq<int>, cfg: Config)
    requires ValidConfig(cfg) && Ordered(ts) && |ts| > 0
    ensures AllAccepted(Analysis(ts, cfg))
    ensures ValidSpans(Account(ts, cfg).spans) && ExactSpans(Account(ts, cfg).spans)
    ensures var m := Account(ts, cfg).metadata;
            && m.observedSeconds + m.gapSeconds + m.indeterminateSeconds == m.assessedSeconds
            && m.assessedSeconds == Seconds(ts[|ts| - 1] - ts[0])
            && m.continuousCount + m.gapCount + m.indeterminateCount == m.assessmentCount == |ts| - 1
            && |Account(ts, cfg).spans| == m.continuousCount
            && SpanSeconds(Account(ts, cfg).spans) == m.observedSeconds
  {
    var analysis, n := Analysis(ts, cfg), |ts| - 1;
    assert analysis[..n] == analysis;
    AnalysisIsChained(ts, cfg);
    PrefixSpansValid(analysis, ts, n);
    PrefixTotalIsElapsed(analysis, ts, n);
    NothingIsLostOrBookedTwice(analysis);
    SpansCarryObservedTime(analysis);
  }

  /** Conservation through all three stages: the buckets and the time outside the window make up
      the observed time (unless exactly one microsecond is outside), and never exceed the window. */
  lemma EndToEndConservation(ts: seq<int>, cfg: Config, w: Window, bucketSeconds: int, r: BucketingResult)
    requires ValidConfig(cfg) && Ordered(ts) && |ts| > 0
    requires w.start < w.end && bucketSeconds > 0
    requires IsBucketing(Account(ts, cfg).spans, w, bucketSeconds, r)
    ensures r.metadata.bucketedSeconds + r.metadata.outsideWindowSeconds
            == Account(ts, cfg).metadata.observedSeconds
            <==> OutsideMicros(Account(ts, cfg).spans, w) != 1
    ensures SumSeconds(r.buckets) == r.metadata.bucketedSeconds <= Seconds(w.end - w.start)
  {
    EndToEndAccounting(ts, cfg);
    ExactSpansAreConserved(Account(ts, cfg).spans, w, bucketSeconds, r);
    TotalsAreBounded(Account(ts, cfg).spans, w, bucketSeconds, r);
  }

  // ----- Consequences for observed time

  lemma {:induction false} PointwiseSeconds(a: seq<Assessment>, b: seq<Assessment>, status: ContinuityStatus)
    requires |a| == |b|
    requires forall i :: 0 <= i < |a| ==> a[i].deltaSeconds == b[i].deltaSeconds
    requires forall i :: 0 <= i < |a| && a[i].status == status ==> b[i].status == status
    ensures SecondsWith(a, status) <= SecondsWith(b, status)
    ensures CountWith(a, status) <= CountWith(b, status)
  {
    if a != [] {
      PointwiseSeconds(a[..|a| - 1], b[..|b| - 1], status);
    }
  }

  /** A larger gap factor or jitter allowance never reports less observed time. */
  lemma ToleranceNeverLosesTime(ts: seq<int>, strict: Config, loose: Config)
    requires ValidConfig(strict) && ValidConfig(loose) && MoreTolerant(loose, strict)
    ensures Account(ts, loose).metadata.observedSeconds >= Account(ts, strict).metadata.observedSeconds
    ensures Account(ts, loose).metadata.continuousCount >= Account(ts, strict).metadata.continuousCount
  {
    var a, b := Analysis(ts, strict), Analysis(ts, loose);
    forall i | 0 <= i < |a|
      ensures a[i].deltaSeconds == b[i].deltaSeconds
      ensures a[i].status == Continuous ==> b[i].status == Continuous
    {
      assert a[i] == AssessmentAt(ts, strict, i) && b[i] == AssessmentAt(ts, loose, i);
      TolerancePreservesContinuity(ts, strict, loose, i);
    }
    PointwiseSeconds(a, b, Continuous);
  }

  /** Admitting more evidence can only turn unknown time into observed or gap time. */
  lemma AdmissionNeverAddsUnknown(ts: seq<int>, strict: Config, loose: Config)
    requires ValidConfig(strict) && ValidConfig(loose) && MoreAdmitting(loose, strict)
    ensures var before, after := Account(ts, strict).metadata, Account(ts, loose).metadata;
            && after.observedSeconds >= before.observedSeconds
            && after.gapSeconds >= before.gapSeconds
            && after.indeterminateSeconds <= before.indeterminateSeconds
  {
    var a, b := Analysis(ts, strict), Analysis(ts, loose);
    forall i | 0 <= i < |a|
      ensures a[i].deltaSeconds == b[i].deltaSeconds
      ensures a[i].status == Continuous ==> b[i].status == Continuous
      ensures a[i].status == Gap ==> b[i].status == Gap
      ensures b[i].status == Indeterminate ==> a[i].status == Indeterminate
    {
      assert a[i] == AssessmentAt(ts, strict, i) && b[i] == AssessmentAt(ts, loose, i);
      AdmissionOnlyShrinksIndeterminate(ts, strict, loose, i);
    }
    PointwiseSeconds(a, b, Continuous);
    PointwiseSeconds(a, b, Gap);
    PointwiseSeconds(b, a, Indeterminate);
  }

  lemma {:induction false} NoneWith(a: seq<Assessment>, status: ContinuityStatus)
    requires forall i :: 0 <= i < |a| ==> a[i].status != status
    ensures SecondsWith(a, status) == 0.0
  {
    if a != [] {
      NoneWith(a[..|a| - 1], status);
    }
  }

  /** A regular enough series is observed from its first to its last timestamp. */
  lemma RegularSeriesFullyObserved(ts: seq<int>, cfg: Config, lo: real, hi: real)
    requires ValidConfig(cfg) && Ordered(ts) && |Deltas(ts)| >= 2 * cfg.minSamples
    requires 0.0 < lo && InBand(Deltas(ts), lo, hi)
    requires hi - lo <= cfg.jitter && hi - lo <= cfg.maxVariability * lo
    ensures Account(ts, cfg).metadata.observedSeconds == Seconds(ts[|ts| - 1] - ts[0])
  {
    var a := Analysis(ts, cfg);
    forall i | 0 <= i < |a| ensures a[i].status == Continuous {
      RegularSeriesIsContinuous(ts, cfg, lo, hi, i);
    }
    NoneWith(a, Gap);
    NoneWith(a, Indeterminate);
    EndToEndAccounting(ts, cfg);
  }

  /** The bound of 2 * minSamples intervals is the least one: any shorter series, however regular,
      has an interval with too few neighbours on either side. */
  lemma ShortSeriesStaysUndecided(ts: seq<int>, cfg: Config)
    requires ValidConfig(cfg) && 0 < |Deltas(ts)| < 2 * cfg.minSamples
    ensures exists i :: 0 <= i < |ts| - 1 && AssessmentAt(ts, cfg, i).status == Indeterminate
  {
    var deltas := Deltas(ts);
    var i := Min(|deltas|, cfg.minSamples) - 1;
    assert |LeftWindow(deltas, i, cfg.windowSize)| < cfg.minSamples;
    assert |RightWindow(deltas, i, cfg.windowSize)| < cfg.minSamples;
    assert AssessmentAt(ts, cfg, i).status == Indeterminate;
  }
}
