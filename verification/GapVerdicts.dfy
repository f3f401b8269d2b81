/** Which verdict the classifier gives, told from the deltas and the configuration alone: when an
    interval is continuous, when it is a gap, and which side the evidence comes from. */
module GapVerdicts {
  import opened Basics
  import opened Medians
  import opened TemporalContinuity
  import opened ContinuityLaws
  import opened ObservedTime
  import opened AnalyticsPipeline

  // ----- Evidence

  /** Deltas of the `w` intervals before and after interval i, as far as there are any. */
  function Before(ts: seq<int>, i: nat, w: nat): seq<real>
    requires i + 1 < |ts|
  {
    Deltas(ts)[if i < w then 0 else i - w..i]
  }

  function After(ts: seq<int>, i: nat, w: nat): seq<real>
    requires i + 1 < |ts|
  {
    Deltas(ts)[i + 1..if i + 1 + w < |ts| - 1 then i + 1 + w else |ts| - 1]
  }

  /** The side has samples enough and they deviate little: a cadence can be told from it. */
  predicate Trusted(window: seq<real>, cfg: Config) {
    var samples := Positive(window);
    0 < |samples| && IsSteadyEnough(|samples|, Median(samples), Mad(samples), cfg)
  }

  predicate IsSteadyEnough(n: int, m: real, mad: real, cfg: Config) {
    cfg.minSamples <= n && mad <= cfg.maxVariability * m
  }

  /** The delta is explained by the cadence of a trusted side, by the factor or by the allowance. */
  predicate Explains(window: seq<real>, cfg: Config, delta: real) {
    Trusted(window, cfg) && !Exceeds(delta, Median(Positive(window)), cfg)
  }

  /** The delta is longer than a cadence m allows. */
  predicate Exceeds(delta: real, m: real, cfg: Config) {
    delta > m * cfg.gapFactor && delta > m + cfg.jitter
  }

  lemma QuotientWithin(mad: real, expected: real, limit: real)
    requires 0.0 < expected
    ensures mad / expected <= limit <==> mad <= limit * expected
  {
    var v := mad / expected;
    assert v * expected == mad;
    if v <= limit {
      ScaleUp(expected, v, limit, expected * v, expected * limit);
    } else {
      ScaleUp(expected, limit, v, expected * limit, expected * v);
      assert expected * (v - limit) > 0.0;
    }
  }

  /** The estimator against this description. */
  lemma EstimateExactly(window: seq<real>, cfg: Config, delta: real)
    requires ValidConfig(cfg)
    ensures var estimate := EstimateCadence(window, cfg);
            && (estimate.Some? <==> Trusted(window, cfg))
            && (Supports(estimate, delta) <==> Explains(window, cfg, delta))
            && (estimate.Some? ==> estimate.value.expected == Median(Positive(window)))
  {
    var samples := Positive(window);
    if |samples| >= cfg.minSamples {
      MedianOfPositives(samples);
      QualifiesExactly(|samples|, Median(samples), Mad(samples), cfg, delta);
    }
  }

  lemma QualifiesExactly(n: int, m: real, mad: real, cfg: Config, delta: real)
    requires 0.0 < m && cfg.minSamples <= n
    ensures var estimate := Qualify(m, mad, cfg);
            && (estimate.Some? <==> IsSteadyEnough(n, m, mad, cfg))
            && (estimate.Some? ==> estimate.value.expected == m)
            && (Supports(estimate, delta) <==> estimate.Some? && !Exceeds(delta, m, cfg))
  {
    QuotientWithin(mad, m, cfg.maxVariability);
  }

  // ----- Verdicts

  /** The verdict on every interval, for every series and configuration: continuous exactly if it is
      positive and one side explains it; a gap exactly if both sides are trusted and neither does. */
  lemma VerdictExactly(ts: seq<int>, cfg: Config, i: nat)
    requires ValidConfig(cfg) && i + 1 < |ts|
    ensures var left, right := Before(ts, i, cfg.windowSize), After(ts, i, cfg.windowSize);
            var delta := Deltas(ts)[i];
            var a := Analysis(ts, cfg)[i];
            && (a.status == Continuous
                <==> delta > 0.0 && (Explains(left, cfg, delta) || Explains(right, cfg, delta)))
            && (a.status == Gap
                <==> delta > 0.0 && Trusted(left, cfg) && Trusted(right, cfg)
                     && !Explains(left, cfg, delta) && !Explains(right, cfg, delta))
  {
    EstimateExactly(Before(ts, i, cfg.windowSize), cfg, Deltas(ts)[i]);
    EstimateExactly(After(ts, i, cfg.windowSize), cfg, Deltas(ts)[i]);
    AssessedAt(ts, cfg, i);
  }

  lemma AssessedAt(ts: seq<int>, cfg: Config, i: nat)
    requires ValidConfig(cfg) && i + 1 < |ts|
    ensures Analysis(ts, cfg)[i]
            == Assess(ts[i], ts[i + 1], Deltas(ts)[i], EstimateCadence(Before(ts, i, cfg.windowSize), cfg),
                      EstimateCadence(After(ts, i, cfg.windowSize), cfg))
  {
    assert Before(ts, i, cfg.windowSize) == LeftWindow(Deltas(ts), i, cfg.windowSize);
    assert After(ts, i, cfg.windowSize) == RightWindow(Deltas(ts), i, cfg.windowSize);
    assert Analysis(ts, cfg)[i] == AssessmentAt(ts, cfg, i);
  }

  /** The sides named by the assessment: those that explain the interval, or if none does those that
      are trusted; and the expected interval reported for a side is the median of its samples. */
  lemma SourceExactly(ts: seq<int>, cfg: Config, i: nat)
    requires ValidConfig(cfg) && i + 1 < |ts| && Deltas(ts)[i] > 0.0
    ensures var left, right := Before(ts, i, cfg.windowSize), After(ts, i, cfg.windowSize);
            var delta := Deltas(ts)[i];
            var a := Analysis(ts, cfg)[i];
            var explained := Explains(left, cfg, delta) || Explains(right, cfg, delta);
            && (a.source == LeftSide || a.source == BothSides
                <==> if explained then Explains(left, cfg, delta) else Trusted(left, cfg))
            && (a.source == RightSide || a.source == BothSides
                <==> if explained then Explains(right, cfg, delta) else Trusted(right, cfg))
            && a.leftExpected == (if Trusted(left, cfg) then Some(Median(Positive(left))) else None)
            && a.rightExpected == (if Trusted(right, cfg) then Some(Median(Positive(right))) else None)
  {
    EstimateExactly(Before(ts, i, cfg.windowSize), cfg, Deltas(ts)[i]);
    EstimateExactly(After(ts, i, cfg.windowSize), cfg, Deltas(ts)[i]);
    AssessedAt(ts, cfg, i);
  }

  /** The threshold reported for a side is the longest interval that side explains. */
  lemma ThresholdExactly(ts: seq<int>, cfg: Config, i: nat, x: real)
    requires ValidConfig(cfg) && i + 1 < |ts| && Deltas(ts)[i] > 0.0
    ensures var left, right := Before(ts, i, cfg.windowSize), After(ts, i, cfg.windowSize);
            var a := Analysis(ts, cfg)[i];
            && (a.leftThreshold.Some? && x <= a.leftThreshold.value <==> Explains(left, cfg, x))
            && (a.rightThreshold.Some? && x <= a.rightThreshold.value <==> Explains(right, cfg, x))
  {
    EstimateExactly(Before(ts, i, cfg.windowSize), cfg, x);
    EstimateExactly(After(ts, i, cfg.windowSize), cfg, x);
    AssessedAt(ts, cfg, i);
  }

  /** Repeated timestamps are never judged, and a configuration is accepted exactly within these
      bounds. */
  lemma RepeatedTimestampIsUndecided(ts: seq<int>, cfg: Config, i: nat)
    requires i + 1 < |ts|
    ensures ValidConfig(cfg)
            <==> 1 <= cfg.minSamples <= cfg.windowSize && 0.0 < cfg.gapFactor
                 && 0.0 <= cfg.jitter && 0.0 <= cfg.maxVariability
    ensures ValidConfig(cfg) && ts[i] == ts[i + 1] ==>
              Analysis(ts, cfg)[i] == Assessment(ts[i], ts[i], 0.0, Indeterminate, NoSide, None, None, None, None)
  {
    if ValidConfig(cfg) {
      AssessedAt(ts, cfg, i);
    }
  }

  // ----- Gaps between steady stretches

  /** At least n deltas of the window lie in the band and all others are repeated timestamps. */
  predicate Steady(window: seq<real>, lo: real, hi: real, n: int) {
    n <= CountWithin(window, lo, hi)
    && forall k :: 0 <= k < |window| ==> window[k] <= 0.0 || lo <= window[k] <= hi
  }

  lemma {:induction false} SteadySamples(window: seq<real>, lo: real, hi: real)
    requires 0.0 < lo && forall k :: 0 <= k < |window| ==> window[k] <= 0.0 || lo <= window[k] <= hi
    ensures |Positive(window)| == CountWithin(window, lo, hi)
    ensures forall k :: 0 <= k < |Positive(window)| ==> lo <= Positive(window)[k] <= hi
  {
    if window != [] {
      SteadySamples(window[1..], lo, hi);
    }
  }

  lemma Grows(x: real, a: real, b: real, xa: real, xb: real)
    requires 0.0 <= x && a <= b && xa == x * a && xb == x * b
    ensures xa <= xb
  {
    assert xb - xa == x * (b - a);
  }

  lemma LongerThanBand(delta: real, m: real, hi: real, cfg: Config)
    requires ValidConfig(cfg) && m <= hi && Exceeds(delta, hi, cfg)
    ensures Exceeds(delta, m, cfg)
  {
    Grows(cfg.gapFactor, m, hi, cfg.gapFactor * m, cfg.gapFactor * hi);
  }

  lemma SteadySpread(mad: real, m: real, cfg: Config, lo: real, hi: real)
    requires ValidConfig(cfg) && mad <= hi - lo <= cfg.maxVariability * lo && lo <= m
    ensures mad <= cfg.maxVariability * m
  {
    Grows(cfg.maxVariability, lo, m, cfg.maxVariability * lo, cfg.maxVariability * m);
  }

  lemma SteadyMedian(window: seq<real>, lo: real, hi: real, n: int)
    requires 0.0 < lo && 0 < n && Steady(window, lo, hi, n)
    ensures |Positive(window)| >= n
    ensures lo <= Median(Positive(window)) <= hi && Mad(Positive(window)) <= hi - lo
  {
    SteadySamples(window, lo, hi);
    CountAll(Positive(window), lo, hi);
    OutlierRobustCadence(Positive(window), lo, hi);
  }

  lemma SteadySide(window: seq<real>, cfg: Config, lo: real, hi: real, delta: real)
    requires ValidConfig(cfg) && 0.0 < lo && Steady(window, lo, hi, cfg.minSamples)
    requires hi - lo <= cfg.maxVariability * lo && Exceeds(delta, hi, cfg)
    ensures Trusted(window, cfg) && !Explains(window, cfg, delta)
  {
    SteadyMedian(window, lo, hi, cfg.minSamples);
    SteadySamplesSuffice(Positive(window), cfg, lo, hi, delta);
  }

  lemma SteadySamplesSuffice(samples: seq<real>, cfg: Config, lo: real, hi: real, delta: real)
    requires ValidConfig(cfg) && cfg.minSamples <= |samples|
    requires lo <= Median(samples) <= hi && Mad(samples) <= hi - lo <= cfg.maxVariability * lo
    requires Exceeds(delta, hi, cfg)
    ensures IsSteadyEnough(|samples|, Median(samples), Mad(samples), cfg) && Exceeds(delta, Median(samples), cfg)
  {
    SteadySpread(Mad(samples), Median(samples), cfg, lo, hi);
    LongerThanBand(delta, Median(samples), hi, cfg);
  }

  /** A long interval between two steady stretches is a gap, and its length is in the gap time. */
  lemma GapBetweenSteadyStretches(ts: seq<int>, cfg: Config, i: nat, lo: real, hi: real)
    requires ValidConfig(cfg) && i + 1 < |ts| && 0.0 < lo <= hi && hi - lo <= cfg.maxVariability * lo
    requires Steady(Before(ts, i, cfg.windowSize), lo, hi, cfg.minSamples)
    requires Steady(After(ts, i, cfg.windowSize), lo, hi, cfg.minSamples)
    requires Deltas(ts)[i] > hi * cfg.gapFactor && Deltas(ts)[i] > hi + cfg.jitter
    ensures Analysis(ts, cfg)[i].status == Gap
    ensures Account(ts, cfg).metadata.gapSeconds >= Deltas(ts)[i]
  {
    LongIntervalIsGap(ts, cfg, i, lo, hi, Before(ts, i, cfg.windowSize), After(ts, i, cfg.windowSize), Deltas(ts)[i]);
    GapIsBooked(ts, cfg, i);
  }

  lemma LongIntervalIsGap(ts: seq<int>, cfg: Config, i: nat, lo: real, hi: real, left: seq<real>, right: seq<real>,
                          delta: real)
    requires ValidConfig(cfg) && i + 1 < |ts| && 0.0 < lo <= hi && hi - lo <= cfg.maxVariability * lo
    requires left == Before(ts, i, cfg.windowSize) && right == After(ts, i, cfg.windowSize) && delta == Deltas(ts)[i]
    requires Steady(left, lo, hi, cfg.minSamples) && Steady(right, lo, hi, cfg.minSamples)
    requires Exceeds(delta, hi, cfg)
    ensures Analysis(ts, cfg)[i].status == Gap
  {
    SteadySide(left, cfg, lo, hi, delta);
    SteadySide(right, cfg, lo, hi, delta);
    UnexplainedIsGap(ts, cfg, i);
  }

  lemma UnexplainedIsGap(ts: seq<int>, cfg: Config, i: nat)
    requires ValidConfig(cfg) && i + 1 < |ts| && Deltas(ts)[i] > 0.0
    requires Trusted(Before(ts, i, cfg.windowSize), cfg) && !Explains(Before(ts, i, cfg.windowSize), cfg, Deltas(ts)[i])
    requires Trusted(After(ts, i, cfg.windowSize), cfg) && !Explains(After(ts, i, cfg.windowSize), cfg, Deltas(ts)[i])
    ensures Analysis(ts, cfg)[i].status == Gap
  {
    VerdictExactly(ts, cfg, i);
  }

  lemma GapIsBooked(ts: seq<int>, cfg: Config, i: nat)
    requires ValidConfig(cfg) && i + 1 < |ts| && Analysis(ts, cfg)[i].status == Gap
    ensures Account(ts, cfg).metadata.gapSeconds >= Deltas(ts)[i]
  {
    DeltaAt(ts, cfg, i);
    BookedSeconds(Analysis(ts, cfg), i);
  }

  lemma AssessKeepsDelta(startAt: int, endAt: int, delta: real, left: Option<Estimate>, right: Option<Estimate>)
    ensures Assess(startAt, endAt, delta, left, right).deltaSeconds == delta
  {
  }

  lemma DeltaAt(ts: seq<int>, cfg: Config, i: nat)
    requires ValidConfig(cfg) && i + 1 < |ts|
    ensures Analysis(ts, cfg)[i].deltaSeconds == Deltas(ts)[i]
  {
    AssessedAt(ts, cfg, i);
    AssessKeepsDelta(ts[i], ts[i + 1], Deltas(ts)[i], EstimateCadence(Before(ts, i, cfg.windowSize), cfg),
                     EstimateCadence(After(ts, i, cfg.windowSize), cfg));
  }

  lemma {:induction false} NonNegativeSeconds(a: seq<Assessment>, status: ContinuityStatus)
    ensures SecondsWith(a, status) >= 0.0
  {
    if a != [] {
      NonNegativeSeconds(a[..|a| - 1], status);
    }
  }

  lemma {:induction false} BookedSeconds(a: seq<Assessment>, i: nat)
    requires i < |a|
    ensures SecondsWith(a, a[i].status) >= a[i].deltaSeconds
  {
    var n := |a| - 1;
    NonNegativeSeconds(a[..n], a[i].status);
    if i < n {
      BookedSeconds(a[..n], i);
    }
  }

  lemma TrustedButLonger(window: seq<real>, cfg: Config, delta: real)
    requires Trusted(window, cfg) && !Explains(window, cfg, delta)
    ensures |Positive(window)| > 0 && |Positive(window)| >= cfg.minSamples
    ensures Exceeds(delta, Median(Positive(window)), cfg)
  {
  }

  /** Conversely a gap has at least the minimum of positive deltas on both sides and is longer than
      both medians allow. */
  lemma GapNeedsBothSides(ts: seq<int>, cfg: Config, i: nat)
    requires ValidConfig(cfg) && i + 1 < |ts| && Analysis(ts, cfg)[i].status == Gap
    ensures var left, right := Positive(Before(ts, i, cfg.windowSize)), Positive(After(ts, i, cfg.windowSize));
            && |left| >= cfg.minSamples && |right| >= cfg.minSamples && |left| > 0 && |right| > 0
            && Exceeds(Deltas(ts)[i], Median(left), cfg) && Exceeds(Deltas(ts)[i], Median(right), cfg)
  {
    VerdictExactly(ts, cfg, i);
    TrustedButLonger(Before(ts, i, cfg.windowSize), cfg, Deltas(ts)[i]);
    TrustedButLonger(After(ts, i, cfg.windowSize), cfg, Deltas(ts)[i]);
  }

  // ----- Examples

  /** A point every minute, one hour of silence, a point every minute again. */
  const SILENT_HOUR: seq<int> := [
    0, 60_000_000, 120_000_000, 180_000_000, 240_000_000,
    3840_000_000, 3900_000_000, 3960_000_000, 4020_000_000, 4080_000_000]

  lemma AllWithin(s: seq<real>, lo: real, hi: real)
    requires forall k :: 0 <= k < |s| ==> lo <= s[k] <= hi
    ensures Steady(s, lo, hi, |s|)
  {
    CountAll(s, lo, hi);
  }

  lemma SilentHourDeltas()
    ensures |Deltas(SILENT_HOUR)| == 9
    ensures forall k :: 0 <= k < 9 ==> Deltas(SILENT_HOUR)[k] == if k == 4 then 3600.0 else 60.0
  {
    forall k | 0 <= k < 9 ensures SILENT_HOUR[k + 1] - SILENT_HOUR[k] == if k == 4 then 3600_000_000 else 60_000_000 {
    }
  }

  lemma SilentHourWindows()
    ensures Steady(Before(SILENT_HOUR, 4, 4), 60.0, 60.0, 4) && Steady(After(SILENT_HOUR, 4, 4), 60.0, 60.0, 4)
    ensures Deltas(SILENT_HOUR)[4] == 3600.0
  {
    SilentHourDeltas();
    AllWithin(Deltas(SILENT_HOUR)[0..4], 60.0, 60.0);
    AllWithin(Deltas(SILENT_HOUR)[5..9], 60.0, 60.0);
  }

  /** With the default configuration the hour is a gap of 3600 seconds. */
  lemma SilentHourIsAGap()
    ensures Analysis(SILENT_HOUR, DEFAULTS)[4].status == Gap
    ensures Account(SILENT_HOUR, DEFAULTS).metadata.gapSeconds >= 3600.0
  {
    SilentHourWindows();
    GapBetweenSteadyStretches(SILENT_HOUR, DEFAULTS, 4, 60.0, 60.0);
  }

  lemma SortOfTwo(x: real, y: real)
    ensures Sort([x, y]) == if x <= y then [x, y] else [y, x]
  {
    assert [x, y][1..] == [y] && [y][1..] == [];
    assert Insert(x, []) == [x] && Insert(y, []) == [y];
    assert Sort([y]) == [y];
    assert Insert(x, [y]) == if x <= y then [x] + [y] else [y] + [x];
  }

  /** The two middle elements are averaged, and so are the deviations from their mean. */
  lemma MedianAndDeviationOfTwo(x: real, y: real)
    requires x <= y
    ensures Median([x, y]) == (x + y) / 2.0 && Mad([x, y]) == (y - x) / 2.0
  {
    SortOfTwo(x, y);
    var m := (x + y) / 2.0;
    assert Deviations([x, y], m) == [(y - x) / 2.0, (y - x) / 2.0];
    SortOfTwo((y - x) / 2.0, (y - x) / 2.0);
  }
}
