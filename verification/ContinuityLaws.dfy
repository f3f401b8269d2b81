/** What the classifier promises over whole sequences: outliers cannot move the cadence far,
    a regular series is observed end to end, time has no preferred direction, and loosening a
    parameter never takes observed time away. */
module ContinuityLaws {
  import opened Basics
  import opened Medians
  import opened TemporalContinuity

  // ----- Robustness

  lemma {:induction false} DeviationsInBand(s: seq<real>, center: real, lo: real, hi: real)
    requires lo <= center <= hi
    ensures CountWithin(Deviations(s, center), 0.0, hi - lo) >= CountWithin(s, lo, hi)
  {
    if s != [] {
      assert Deviations(s, center)[1..] == Deviations(s[1..], center);
      DeviationsInBand(s[1..], center, lo, hi);
    }
  }

  /** Any minority of outliers: with a strict majority of the samples in [lo, hi] the expected
      interval stays in [lo, hi] and the median absolute deviation is at most hi - lo. */
  lemma OutlierRobustCadence(s: seq<real>, lo: real, hi: real)
    requires 2 * CountWithin(s, lo, hi) > |s|
    ensures |s| > 0 && lo <= Median(s) <= hi
    ensures 0.0 <= Mad(s) <= hi - lo
  {
    MajorityConfinesMedian(s, lo, hi);
    DeviationsStayClose(s, Median(s), lo, hi);
  }

  lemma DeviationsStayClose(s: seq<real>, center: real, lo: real, hi: real)
    requires 2 * CountWithin(s, lo, hi) > |s| && lo <= center <= hi
    ensures |s| > 0 && 0.0 <= Median(Deviations(s, center)) <= hi - lo
  {
    DeviationsInBand(s, center, lo, hi);
    MajorityConfinesMedian(Deviations(s, center), 0.0, hi - lo);
  }

  predicate InBand(deltas: seq<real>, lo: real, hi: real) {
    forall i :: 0 <= i < |deltas| ==> lo <= deltas[i] <= hi
  }

  lemma {:induction false} PositiveKeepsPositives(s: seq<real>)
    requires forall i :: 0 <= i < |s| ==> 0.0 < s[i]
    ensures Positive(s) == s
  {
    if s != [] {
      PositiveKeepsPositives(s[1..]);
      assert s == [s[0]] + s[1..];
    }
  }

  lemma RelativeSpread(spread: real, m: real, lo: real, limit: real)
    requires 0.0 < lo <= m && 0.0 <= limit && spread <= limit * lo
    ensures spread / m <= limit
  {
    assert limit * lo <= limit * m;
    assert spread / m * m == spread;
  }

  /** A window of enough samples inside a tight band yields an estimate that covers the band. */
  lemma RegularWindowSupports(window: seq<real>, cfg: Config, lo: real, hi: real, delta: real)
    requires ValidConfig(cfg) && |window| >= cfg.minSamples
    requires 0.0 < lo && InBand(window, lo, hi) && delta <= hi
    requires hi - lo <= cfg.jitter && hi - lo <= cfg.maxVariability * lo
    ensures Supports(EstimateCadence(window, cfg), delta)
  {
    PositiveKeepsPositives(window);
    CountAll(window, lo, hi);
    OutlierRobustCadence(window, lo, hi);
    CoveringEstimate(Median(window), Mad(window), cfg, lo, hi, delta);
  }

  lemma CoveringEstimate(expected: real, mad: real, cfg: Config, lo: real, hi: real, delta: real)
    requires ValidConfig(cfg) && 0.0 < lo <= expected && mad <= hi - lo && delta <= hi
    requires hi - lo <= cfg.jitter && hi - lo <= cfg.maxVariability * lo
    ensures Supports(Qualify(expected, mad, cfg), delta)
  {
    RelativeSpread(mad, expected, lo, cfg.maxVariability);
    assert delta <= expected + cfg.jitter;
  }

  /** In a series of at least 2 * minSamples intervals every interval has enough neighbours on
      one side, so a tight band makes every interval continuous. */
  lemma RegularSeriesIsContinuous(ts: seq<int>, cfg: Config, lo: real, hi: real, i: nat)
    requires ValidConfig(cfg) && i + 1 < |ts|
    requires |Deltas(ts)| >= 2 * cfg.minSamples
    requires 0.0 < lo && InBand(Deltas(ts), lo, hi)
    requires hi - lo <= cfg.jitter && hi - lo <= cfg.maxVariability * lo
    ensures AssessmentAt(ts, cfg, i).status == Continuous
  {
    var deltas := Deltas(ts);
    if i >= cfg.minSamples {
      RegularWindowSupports(LeftWindow(deltas, i, cfg.windowSize), cfg, lo, hi, deltas[i]);
    } else {
      RegularWindowSupports(RightWindow(deltas, i, cfg.windowSize), cfg, lo, hi, deltas[i]);
    }
  }

  // ----- Time reversal

  function Reverse<T>(s: seq<T>): (r: seq<T>)
    ensures |r| == |s|
  {
    seq(|s|, i requires 0 <= i < |s| => s[|s| - 1 - i])
  }

  lemma {:induction false} ReverseKeepsMultiset<T>(s: seq<T>)
    ensures multiset(Reverse(s)) == multiset(s)
  {
    if s != [] {
      ReverseKeepsMultiset(s[1..]);
      assert Reverse(s) == Reverse(s[1..]) + [s[0]];
      assert s == [s[0]] + s[1..];
    }
  }

  lemma {:induction false} PositiveConcat(a: seq<real>, b: seq<real>)
    ensures Positive(a + b) == Positive(a) + Positive(b)
  {
    if a == [] {
      assert a + b == b;
    } else {
      assert (a + b)[1..] == a[1..] + b;
      PositiveConcat(a[1..], b);
    }
  }

  lemma {:induction false} PositiveReverse(s: seq<real>)
    ensures Positive(Reverse(s)) == Reverse(Positive(s))
  {
    if s != [] {
      var head, tail := [s[0]], s[1..];
      assert Reverse(s) == Reverse(tail) + head;
      PositiveConcat(Reverse(tail), head);
      PositiveReverse(tail);
      PositiveConcat(head, tail);
      assert s == head + tail;
      SingletonReverse(Positive(tail), s[0]);
    }
  }

  lemma SingletonReverse(tail: seq<real>, x: real)
    ensures Reverse(Positive([x]) + tail) == Reverse(tail) + Positive([x])
  {
    assert [x][1..] == [];
    assert Positive([x]) == if x > 0.0 then [x] else [];
  }

  lemma MedianReverse(s: seq<real>)
    requires |s| > 0
    ensures Median(Reverse(s)) == Median(s)
  {
    ReverseKeepsMultiset(s);
    MedianIsPermutationInvariant(s, Reverse(s));
  }

  lemma MadReverse(s: seq<real>)
    requires |s| > 0
    ensures Mad(Reverse(s)) == Mad(s)
  {
    MedianReverse(s);
    assert Deviations(Reverse(s), Median(s)) == Reverse(Deviations(s, Median(s)));
    MedianReverse(Deviations(s, Median(s)));
  }

  lemma EstimateReverse(s: seq<real>, cfg: Config)
    requires ValidConfig(cfg)
    ensures EstimateCadence(Reverse(s), cfg) == EstimateCadence(s, cfg)
  {
    PositiveReverse(s);
    if |Positive(s)| > 0 {
      MedianReverse(Positive(s));
      MadReverse(Positive(s));
    }
  }

  /** Observations seen in a mirror placed anywhere on the time line: t becomes c - t. */
  function ReflectTimes(ts: seq<int>, c: int): (r: seq<int>)
    ensures |r| == |ts|
  {
    seq(|ts|, i requires 0 <= i < |ts| => c - ts[|ts| - 1 - i])
  }

  function SwapSides(s: CadenceSource): CadenceSource {
    match s
    case LeftSide => RightSide
    case RightSide => LeftSide
    case _ => s
  }

  function Reflect(a: Assessment, c: int): Assessment {
    Assessment(c - a.endAt, c - a.startAt, a.deltaSeconds, a.status, SwapSides(a.source),
               a.rightExpected, a.leftExpected, a.rightThreshold, a.leftThreshold)
  }

  lemma ReflectedDeltas(ts: seq<int>, c: int)
    ensures Deltas(ReflectTimes(ts, c)) == Reverse(Deltas(ts))
  {
    var times, n := ReflectTimes(ts, c), |ts|;
    forall i | 0 <= i < n - 1 ensures times[i + 1] - times[i] == ts[n - 1 - i] - ts[n - 2 - i] {
      assert times[i] == c - ts[n - 1 - i] && times[i + 1] == c - ts[n - 2 - i];
    }
    forall i | 0 <= i < n - 1 ensures Deltas(times)[i] == Reverse(Deltas(ts))[i] {
      assert Reverse(Deltas(ts))[i] == Deltas(ts)[n - 2 - i];
    }
  }

  lemma ReversedWindows(deltas: seq<real>, i: nat, w: int)
    requires i < |deltas| && 0 < w
    ensures LeftWindow(Reverse(deltas), i, w) == Reverse(RightWindow(deltas, |deltas| - 1 - i, w))
    ensures RightWindow(Reverse(deltas), i, w) == Reverse(LeftWindow(deltas, |deltas| - 1 - i, w))
  {
    var n, j := |deltas|, |deltas| - 1 - i;
    var right, left := RightWindow(Reverse(deltas), i, w), LeftWindow(deltas, j, w);
    assert |right| == Min(n, i + 1 + w) - (i + 1) == j - Max(0, j - w) == |left|;
    forall k | 0 <= k < |left| ensures right[k] == Reverse(left)[k] {
      assert right[k] == Reverse(deltas)[i + 1 + k] == deltas[j - 1 - k];
      assert left[|left| - 1 - k] == deltas[Max(0, j - w) + (|left| - 1 - k)];
    }
  }

  lemma ReflectedVerdict(startAt: int, endAt: int, delta: real,
                         left: Option<Estimate>, right: Option<Estimate>, c: int)
    ensures Assess(c - endAt, c - startAt, delta, right, left)
            == Reflect(Assess(startAt, endAt, delta, left, right), c)
  {
  }

  type Estimator = seq<real> -> Option<Estimate>

  /** The verdict on interval i with any way of estimating a cadence from a window. */
  function VerdictBy(ts: seq<int>, deltas: seq<real>, w: int, estimate: Estimator, i: nat): Assessment
    requires i + 1 < |ts| && |deltas| == |ts| - 1 && 0 < w
  {
    Assess(ts[i], ts[i + 1], deltas[i], estimate(LeftWindow(deltas, i, w)), estimate(RightWindow(deltas, i, w)))
  }

  /** An estimator that does not mind the order of its samples gives mirrored verdicts. */
  lemma MirroredVerdict(ts: seq<int>, deltas: seq<real>, w: int, estimate: Estimator, c: int, i: nat)
    requires i + 1 < |ts| && |deltas| == |ts| - 1 && 0 < w
    requires forall s :: estimate(Reverse(s)) == estimate(s)
    ensures VerdictBy(ReflectTimes(ts, c), Reverse(deltas), w, estimate, i)
            == Reflect(VerdictBy(ts, deltas, w, estimate, |ts| - 2 - i), c)
  {
    var times, j := ReflectTimes(ts, c), |ts| - 2 - i;
    assert times[i] == c - ts[j + 1] && times[i + 1] == c - ts[j] && Reverse(deltas)[i] == deltas[j];
    ReversedWindows(deltas, i, w);
    ReflectedVerdict(ts[j], ts[j + 1], deltas[j],
                     estimate(LeftWindow(deltas, j, w)), estimate(RightWindow(deltas, j, w)), c);
  }

  function EstimatorOf(cfg: Config): Estimator
    requires ValidConfig(cfg)
  {
    s => EstimateCadence(s, cfg)
  }

  function AnalysisBy(ts: seq<int>, deltas: seq<real>, w: int, estimate: Estimator): (r: seq<Assessment>)
    requires |deltas| == Max(0, |ts| - 1) && 0 < w
  {
    seq(|deltas|, i requires 0 <= i < |deltas| => VerdictBy(ts, deltas, w, estimate, i))
  }

  /** `after` is `before` read backwards, each assessment mirrored. */
  predicate AreMirrored(before: seq<Assessment>, after: seq<Assessment>, c: int) {
    && |after| == |before|
    && forall i :: 0 <= i < |before| ==> after[i] == Reflect(before[|before| - 1 - i], c)
  }

  lemma MirroredAnalysis(ts: seq<int>, deltas: seq<real>, w: int, estimate: Estimator, c: int)
    requires |deltas| == Max(0, |ts| - 1) && 0 < w
    requires forall s :: estimate(Reverse(s)) == estimate(s)
    ensures AreMirrored(AnalysisBy(ts, deltas, w, estimate),
                        AnalysisBy(ReflectTimes(ts, c), Reverse(deltas), w, estimate), c)
  {
    forall i | 0 <= i < |deltas|
      ensures VerdictBy(ReflectTimes(ts, c), Reverse(deltas), w, estimate, i)
              == Reflect(VerdictBy(ts, deltas, w, estimate, |deltas| - 1 - i), c)
    {
      MirroredVerdict(ts, deltas, w, estimate, c, i);
    }
  }

  lemma AnalysisIsByEstimator(ts: seq<int>, cfg: Config)
    requires ValidConfig(cfg)
    ensures Analysis(ts, cfg) == AnalysisBy(ts, Deltas(ts), cfg.windowSize, EstimatorOf(cfg))
  {
    forall i | 0 <= i < |ts| - 1
      ensures AssessmentAt(ts, cfg, i) == VerdictBy(ts, Deltas(ts), cfg.windowSize, EstimatorOf(cfg), i)
    {
    }
  }

  lemma EstimatorIgnoresOrder(cfg: Config, s: seq<real>)
    requires ValidConfig(cfg)
    ensures EstimatorOf(cfg)(Reverse(s)) == EstimatorOf(cfg)(s)
  {
    EstimateReverse(s, cfg);
  }

  /** Time-reversal symmetry: analysing the mirrored observations gives the mirrored analysis,
      with the left and right evidence exchanged, for every input and every configuration. */
  lemma TimeReversalSymmetry(ts: seq<int>, cfg: Config, c: int)
    requires ValidConfig(cfg)
    ensures AreMirrored(Analysis(ts, cfg), Analysis(ReflectTimes(ts, c), cfg), c)
  {
    forall s ensures EstimatorOf(cfg)(Reverse(s)) == EstimatorOf(cfg)(s) {
      EstimatorIgnoresOrder(cfg, s);
    }
    ReflectedDeltas(ts, c);
    AnalysisIsByEstimator(ts, cfg);
    AnalysisIsByEstimator(ReflectTimes(ts, c), cfg);
    MirroredAnalysis(ts, Deltas(ts), cfg.windowSize, EstimatorOf(cfg), c);
  }

  // ----- Monotonicity in the parameters

  /** The same evidence is admitted, and every threshold is at least as generous. */
  predicate MoreTolerant(loose: Config, strict: Config) {
    && loose.windowSize == strict.windowSize
    && loose.minSamples == strict.minSamples
    && loose.maxVariability == strict.maxVariability
    && loose.gapFactor >= strict.gapFactor
    && loose.jitter >= strict.jitter
  }

  /** The thresholds are the same, and at least as much evidence is admitted. */
  predicate MoreAdmitting(loose: Config, strict: Config) {
    && loose.windowSize == strict.windowSize
    && loose.minSamples <= strict.minSamples
    && loose.maxVariability >= strict.maxVariability
    && loose.gapFactor == strict.gapFactor
    && loose.jitter == strict.jitter
  }

  lemma ScaleUp(x: real, a: real, b: real, xa: real, xb: real)
    requires 0.0 < x && a <= b && xa == x * a && xb == x * b
    ensures xa <= xb
  {
    assert xb - xa == x * (b - a);
  }

  lemma MaxGrows(a: real, b: real, c: real, d: real)
    requires a <= c && b <= d
    ensures MaxReal(a, b) <= MaxReal(c, d)
  {
  }

  lemma TolerantQualify(expected: real, mad: real, strict: Config, loose: Config)
    requires 0.0 < expected && MoreTolerant(loose, strict)
    ensures Qualify(expected, mad, loose).Some? == Qualify(expected, mad, strict).Some?
    ensures Qualify(expected, mad, strict).Some? ==>
              Qualify(expected, mad, loose).value.threshold >= Qualify(expected, mad, strict).value.threshold
  {
    var a, b := expected * strict.gapFactor, expected * loose.gapFactor;
    ScaleUp(expected, strict.gapFactor, loose.gapFactor, a, b);
    MaxGrows(a, expected + strict.jitter, b, expected + loose.jitter);
  }

  lemma TolerantEstimate(s: seq<real>, strict: Config, loose: Config)
    requires ValidConfig(strict) && ValidConfig(loose) && MoreTolerant(loose, strict)
    ensures EstimateCadence(s, loose).Some? == EstimateCadence(s, strict).Some?
    ensures EstimateCadence(s, strict).Some? ==>
              EstimateCadence(s, loose).value.threshold >= EstimateCadence(s, strict).value.threshold
  {
    var valid := Positive(s);
    if |valid| >= strict.minSamples {
      MedianOfPositives(valid);
      TolerantQualify(Median(valid), Mad(valid), strict, loose);
    }
  }

  /** Raising the gap factor or the jitter allowance never loses a continuous interval, and the
      rest is split between gap and indeterminate as far as it stays discontinuous. */
  lemma TolerancePreservesContinuity(ts: seq<int>, strict: Config, loose: Config, i: nat)
    requires ValidConfig(strict) && ValidConfig(loose) && MoreTolerant(loose, strict)
    requires i + 1 < |ts|
    ensures var before, after := AssessmentAt(ts, strict, i), AssessmentAt(ts, loose, i);
            after.status == before.status || after.status == Continuous
  {
    var deltas := Deltas(ts);
    TolerantEstimate(LeftWindow(deltas, i, strict.windowSize), strict, loose);
    TolerantEstimate(RightWindow(deltas, i, strict.windowSize), strict, loose);
  }

  lemma AdmittedEstimate(s: seq<real>, strict: Config, loose: Config)
    requires ValidConfig(strict) && ValidConfig(loose) && MoreAdmitting(loose, strict)
    requires EstimateCadence(s, strict).Some?
    ensures EstimateCadence(s, loose) == EstimateCadence(s, strict)
  {
    var valid := Positive(s);
    MedianOfPositives(valid);
    AdmittedQualify(Median(valid), Mad(valid), strict, loose);
  }

  lemma AdmittedQualify(expected: real, mad: real, strict: Config, loose: Config)
    requires 0.0 < expected && MoreAdmitting(loose, strict) && Qualify(expected, mad, strict).Some?
    ensures Qualify(expected, mad, loose) == Qualify(expected, mad, strict)
  {
  }

  /** Raising the tolerated variability or lowering the sample minimum keeps every continuous
      and every gap verdict: only indeterminate intervals can change. */
  lemma AdmissionOnlyShrinksIndeterminate(ts: seq<int>, strict: Config, loose: Config, i: nat)
    requires ValidConfig(strict) && ValidConfig(loose) && MoreAdmitting(loose, strict)
    requires i + 1 < |ts|
    ensures var before, after := AssessmentAt(ts, strict, i), AssessmentAt(ts, loose, i);
            (before.status == Continuous ==> after.status == Continuous)
            && (before.status == Gap ==> after.status == Gap)
  {
    var deltas := Deltas(ts);
    if LeftEstimate(deltas, i, strict).Some? {
      AdmittedEstimate(LeftWindow(deltas, i, strict.windowSize), strict, loose);
    }
    if RightEstimate(deltas, i, strict).Some? {
      AdmittedEstimate(RightWindow(deltas, i, strict.windowSize), strict, loose);
    }
  }
}
