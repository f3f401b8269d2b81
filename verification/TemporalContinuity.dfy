/** Classification of the intervals between consecutive observations by the cadence of their
    neighbourhood (src/application/analytics/temporal_continuity.py). */
module TemporalContinuity {
  import opened Basics
  import opened Medians

  datatype ContinuityStatus = Continuous | Gap | Indeterminate

  datatype CadenceSource = NoSide | LeftSide | RightSide | BothSides

  datatype Estimate = Estimate(expected: real, threshold: real)

  datatype Assessment = Assessment(
    startAt: int, endAt: int, deltaSeconds: real,
    status: ContinuityStatus, source: CadenceSource,
    leftExpected: Option<real>, rightExpected: Option<real>,
    leftThreshold: Option<real>, rightThreshold: Option<real>)

  datatype Config = Config(
    windowSize: int, minSamples: int,
    gapFactor: real, jitter: real, maxVariability: real)

  datatype ContinuityError =
    | WindowSizeNotPositive | MinSamplesNotPositive | MinSamplesExceedWindow
    | InvalidGapFactor | InvalidJitter | InvalidVariability
    | TimestampsOutOfOrder

  const DEFAULTS := Config(4, 3, 3.0, 5.0, 0.25)

  function ConfigError(cfg: Config): Option<ContinuityError> {
    if cfg.windowSize <= 0 then Some(WindowSizeNotPositive)
    else if cfg.minSamples <= 0 then Some(MinSamplesNotPositive)
    else if cfg.minSamples > cfg.windowSize then Some(MinSamplesExceedWindow)
    else if cfg.gapFactor <= 0.0 then Some(InvalidGapFactor)
    else if cfg.jitter < 0.0 then Some(InvalidJitter)
    else if cfg.maxVariability < 0.0 then Some(InvalidVariability)
    else None
  }

  predicate ValidConfig(cfg: Config) {
    ConfigError(cfg).None?
  }

  predicate Ordered(ts: seq<int>) {
    forall i :: 0 < i < |ts| ==> ts[i - 1] <= ts[i]
  }

  method ValidateTimestamps(ts: seq<int>) returns (ok: bool)
    ensures ok <==> Ordered(ts)
  {
    var previous: Option<int> := None;
    for i := 0 to |ts|
      invariant previous == if i == 0 then None else Some(ts[i - 1])
      invariant forall j :: 0 < j < i ==> ts[j - 1] <= ts[j]
    {
      if previous.Some? && ts[i] < previous.value {
        return false;
      }
      previous := Some(ts[i]);
    }
    return true;
  }

  // ----- Cadence estimation

  function Positive(deltas: seq<real>): (r: seq<real>)
    ensures |r| <= |deltas|
    ensures forall i :: 0 <= i < |r| ==> 0.0 < r[i]
  {
    if deltas == [] then []
    else (if deltas[0] > 0.0 then [deltas[0]] else []) + Positive(deltas[1..])
  }

  function Deviations(s: seq<real>, center: real): seq<real> {
    seq(|s|, i requires 0 <= i < |s| => AbsReal(s[i] - center))
  }

  /** Median absolute deviation from the median. */
  function Mad(s: seq<real>): real
    requires |s| > 0
  {
    Median(Deviations(s, Median(s)))
  }

  /** A cadence is trusted only when its spread is small relative to the expected interval. */
  function Qualify(expected: real, mad: real, cfg: Config): Option<Estimate>
    requires 0.0 < expected
  {
    if mad / expected > cfg.maxVariability then None
    else Some(Estimate(expected, MaxReal(expected * cfg.gapFactor, expected + cfg.jitter)))
  }

  function EstimateCadence(deltas: seq<real>, cfg: Config): Option<Estimate>
    requires ValidConfig(cfg)
  {
    var valid := Positive(deltas);
    if |valid| < cfg.minSamples then None
    else
      MedianOfPositives(valid);
      Qualify(Median(valid), Mad(valid), cfg)
  }

  // ----- Classification of one interval

  predicate Supports(e: Option<Estimate>, delta: real) {
    e.Some? && delta <= e.value.threshold
  }

  function ResolveSource(left: Option<Estimate>, right: Option<Estimate>,
                         leftSupports: bool, rightSupports: bool): CadenceSource {
    if leftSupports && rightSupports then BothSides
    else if leftSupports then LeftSide
    else if rightSupports then RightSide
    else if left.Some? && right.Some? then BothSides
    else if left.Some? then LeftSide
    else if right.Some? then RightSide
    else NoSide
  }

  function Expected(e: Option<Estimate>): Option<real> {
    if e.Some? then Some(e.value.expected) else None
  }

  function Threshold(e: Option<Estimate>): Option<real> {
    if e.Some? then Some(e.value.threshold) else None
  }

  function AssessInterval(startAt: int, endAt: int, delta: real,
                          left: Option<Estimate>, right: Option<Estimate>): Assessment {
    var leftSupports := Supports(left, delta);
    var rightSupports := Supports(right, delta);
    var status :=
      if leftSupports || rightSupports then Continuous
      else if left.Some? && right.Some? then Gap
      else Indeterminate;
    Assessment(startAt, endAt, delta, status,
               ResolveSource(left, right, leftSupports, rightSupports),
               Expected(left), Expected(right), Threshold(left), Threshold(right))
  }

  function IndeterminateAssessment(startAt: int, endAt: int, delta: real): Assessment {
    Assessment(startAt, endAt, delta, Indeterminate, NoSide, None, None, None, None)
  }

  /** Repeated timestamps are never classified by cadence. */
  function Assess(startAt: int, endAt: int, delta: real,
                  left: Option<Estimate>, right: Option<Estimate>): Assessment {
    if delta <= 0.0 then IndeterminateAssessment(startAt, endAt, delta)
    else AssessInterval(startAt, endAt, delta, left, right)
  }

  // ----- The whole sequence

  function Deltas(ts: seq<int>): seq<real> {
    if |ts| < 2 then []
    else seq(|ts| - 1, i requires 0 <= i < |ts| - 1 => Seconds(ts[i + 1] - ts[i]))
  }

  /** At most `w` deltas before interval `i`: `deltas[max(0, i - w):i]`. */
  function LeftWindow(deltas: seq<real>, i: nat, w: int): seq<real>
    requires i < |deltas| && 0 < w
  {
    deltas[Max(0, i - w)..i]
  }

  /** At most `w` deltas after interval `i`: `deltas[i + 1:i + 1 + w]`. */
  function RightWindow(deltas: seq<real>, i: nat, w: int): seq<real>
    requires i < |deltas| && 0 < w
  {
    deltas[i + 1..Min(|deltas|, i + 1 + w)]
  }

  function LeftEstimate(deltas: seq<real>, i: nat, cfg: Config): Option<Estimate>
    requires i < |deltas| && ValidConfig(cfg)
  {
    EstimateCadence(LeftWindow(deltas, i, cfg.windowSize), cfg)
  }

  function RightEstimate(deltas: seq<real>, i: nat, cfg: Config): Option<Estimate>
    requires i < |deltas| && ValidConfig(cfg)
  {
    EstimateCadence(RightWindow(deltas, i, cfg.windowSize), cfg)
  }

  function AssessmentAt(ts: seq<int>, cfg: Config, i: nat): Assessment
    requires i + 1 < |ts| && ValidConfig(cfg)
  {
    var deltas := Deltas(ts);
    Assess(ts[i], ts[i + 1], deltas[i], LeftEstimate(deltas, i, cfg), RightEstimate(deltas, i, cfg))
  }

  function Analysis(ts: seq<int>, cfg: Config): (r: seq<Assessment>)
    requires ValidConfig(cfg)
    ensures |r| == Max(0, |ts| - 1)
  {
    if |ts| < 2 then []
    else seq(|ts| - 1, i requires 0 <= i < |ts| - 1 => AssessmentAt(ts, cfg, i))
  }

  lemma PrefixGrows<T>(s: seq<T>, i: nat)
    requires i < |s|
    ensures s[..i + 1] == s[..i] + [s[i]]
  {
  }

  method AnalyzeTemporalContinuity(ts: seq<int>, cfg: Config)
    returns (r: Result<seq<Assessment>, ContinuityError>)
    ensures ConfigError(cfg).Some? ==> r == Err(ConfigError(cfg).value)
    ensures ValidConfig(cfg) && !Ordered(ts) ==> r == Err(TimestampsOutOfOrder)
    ensures ValidConfig(cfg) && Ordered(ts) ==> r == Ok(Analysis(ts, cfg))
  {
    var configError := ConfigError(cfg);
    if configError.Some? {
      return Err(configError.value);
    }
    var ordered := ValidateTimestamps(ts);
    if !ordered {
      return Err(TimestampsOutOfOrder);
    }
    if |ts| < 2 {
      return Ok([]);
    }
    var deltas := Deltas(ts);
    var assessments: seq<Assessment> := [];
    ghost var analysis := Analysis(ts, cfg);
    for index := 0 to |deltas|
      invariant assessments == analysis[..index]
    {
      PrefixGrows(analysis, index);
      assert analysis[index] == AssessmentAt(ts, cfg, index);
      if deltas[index] <= 0.0 {
        assessments := assessments + [IndeterminateAssessment(ts[index], ts[index + 1], deltas[index])];
        continue;
      }
      var left := LeftEstimate(deltas, index, cfg);
      var right := RightEstimate(deltas, index, cfg);
      assessments := assessments
                     + [AssessInterval(ts[index], ts[index + 1], deltas[index], left, right)];
    }
    assert assessments == analysis;
    return Ok(assessments);
  }
}
