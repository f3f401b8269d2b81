/** Choice of the bucket size for a historical query
    (src/application/analytics/temporal_sampling.py). */
module TemporalSampling {
  import opened Basics

  type Positive = x: int | 0 < x witness 1

  const ALLOWED_BUCKET_SECONDS: seq<Positive> :=
    [60, 120, 300, 600, 900, 1200, 1800, 2700, 3600, 5400, 7200, 10800, 14400, 21600, 43200, 86400]

  const DEFAULT_TARGET_POINTS := 15_000
  const DEFAULT_MAX_POINTS := 25_000

  datatype Query = Query(
    windowSeconds: real, deviceCount: int, targetPoints: int, maxPoints: int,
    minBucketSeconds: int, maxBucketSeconds: int)

  datatype Resolution = Resolution(
    bucketSeconds: Positive, estimatedPoints: int, requiredBucketSeconds: real,
    targetPoints: int, maxPoints: int, targetMet: bool)

  datatype SamplingError =
    | InvalidWindow | InvalidDeviceCount | InvalidTargetPoints | InvalidMaxPoints
    | InvalidMinBucket | InvalidMaxBucket | TargetExceedsMax | MinExceedsMax
    | NoAllowedBucket
    | LimitExceeded(estimatedPoints: int, maxPoints: int, maxBucketSeconds: int)

  function InputError(q: Query): Option<SamplingError> {
    if q.windowSeconds <= 0.0 then Some(InvalidWindow)
    else if q.deviceCount < 0 then Some(InvalidDeviceCount)
    else if q.targetPoints <= 0 then Some(InvalidTargetPoints)
    else if q.maxPoints <= 0 then Some(InvalidMaxPoints)
    else if q.minBucketSeconds <= 0 then Some(InvalidMinBucket)
    else if q.maxBucketSeconds <= 0 then Some(InvalidMaxBucket)
    else if q.targetPoints > q.maxPoints then Some(TargetExceedsMax)
    else if q.minBucketSeconds > q.maxBucketSeconds then Some(MinExceedsMax)
    else None
  }

  function Ceil(x: real): int {
    -((-x).Floor)
  }

  function EstimatePoints(windowSeconds: real, deviceCount: int, bucketSeconds: Positive): int {
    Ceil(windowSeconds / bucketSeconds as real) * deviceCount
  }

  function Estimate(q: Query, bucket: Positive): int {
    EstimatePoints(q.windowSeconds, q.deviceCount, bucket)
  }

  predicate Ascending(s: seq<Positive>) {
    forall i, j :: 0 <= i < j < |s| ==> s[i] < s[j]
  }

  /** The buckets b of s with lo <= b <= hi, in order. */
  function InRange(s: seq<Positive>, lo: real, hi: int): (r: seq<Positive>)
    requires Ascending(s)
    ensures Ascending(r)
    ensures forall b :: b in r <==> b in s && lo <= b as real && b <= hi
  {
    if s == [] then []
    else
      var rest := InRange(s[1..], lo, hi);
      assert s == [s[0]] + s[1..];
      assert forall i :: 0 <= i < |rest| ==> s[0] < rest[i] by {
        forall i | 0 <= i < |rest| ensures s[0] < rest[i] {
          assert rest[i] in s[1..];
        }
      }
      if lo <= s[0] as real && s[0] <= hi then [s[0]] + rest else rest
  }

  function AllowedBuckets(q: Query): (r: seq<Positive>)
    ensures Ascending(r)
  {
    InRange(ALLOWED_BUCKET_SECONDS, q.minBucketSeconds as real, q.maxBucketSeconds)
  }

  function RequiredBucketSeconds(q: Query): real
    requires q.targetPoints > 0
  {
    q.windowSeconds * q.deviceCount as real / q.targetPoints as real
  }

  /** The first bucket of s whose estimate is within the limit. */
  function FirstWithin(q: Query, s: seq<Positive>, limit: int): Option<Positive>
    requires Ascending(s)
  {
    if s == [] then None
    else if Estimate(q, s[0]) <= limit then Some(s[0])
    else FirstWithin(q, s[1..], limit)
  }

  function Chosen(q: Query, bucket: Positive, points: int, targetMet: bool): Resolution
    requires q.targetPoints > 0
  {
    Resolution(bucket, points, RequiredBucketSeconds(q), q.targetPoints, q.maxPoints, targetMet)
  }

  /** First pass: the candidates left by the pre-filter, against the target. */
  function OnTarget(q: Query, allowed: seq<Positive>): Option<Positive>
    requires q.targetPoints > 0 && Ascending(allowed) && allowed != []
  {
    FirstWithin(q, InRange(allowed, RequiredBucketSeconds(q), allowed[|allowed| - 1]), q.targetPoints)
  }

  /** Second pass: every allowed bucket, against the hard limit. */
  function WithinMax(q: Query, allowed: seq<Positive>): Result<Resolution, SamplingError>
    requires q.targetPoints > 0 && Ascending(allowed) && allowed != []
  {
    var found := FirstWithin(q, allowed, q.maxPoints);
    var largest := allowed[|allowed| - 1];
    if found.Some? then Ok(Chosen(q, found.value, Estimate(q, found.value), false))
    else Err(LimitExceeded(Estimate(q, largest), q.maxPoints, largest))
  }

  /** The choice among the allowed buckets, for at least one device. */
  function Choose(q: Query, allowed: seq<Positive>): Result<Resolution, SamplingError>
    requires q.targetPoints > 0 && Ascending(allowed) && allowed != []
  {
    var found := OnTarget(q, allowed);
    if found.Some? then Ok(Chosen(q, found.value, Estimate(q, found.value), true))
    else WithinMax(q, allowed)
  }

  function CalculateBucketResolution(q: Query): Result<Resolution, SamplingError> {
    var inputError := InputError(q);
    if inputError.Some? then Err(inputError.value)
    else
      var allowed := AllowedBuckets(q);
      if allowed == [] then Err(NoAllowedBucket)
      else if q.deviceCount == 0 then Ok(Chosen(q, allowed[0], 0, true))
      else Choose(q, allowed)
  }

  // ----- Estimates

  lemma CeilMonotone(x: real, y: real)
    requires x <= y
    ensures Ceil(x) <= Ceil(y)
  {
  }

  lemma QuotientMonotone(v: real, w: real, a: real, b: real)
    requires 0.0 < v <= w && 0.0 < a <= b
    ensures v / b <= w / a
  {
    var x, y := v / b, w / a;
    assert x * b == v && y * a == w && 0.0 < y;
    assert y * a <= y * b;
    Cancel(x, y, b);
  }

  lemma Cancel(x: real, y: real, b: real)
    requires 0.0 < b && x * b <= y * b
    ensures x <= y
  {
  }

  lemma ProductMonotone(m: int, n: int, c: int, d: int)
    requires 0 <= m <= n && 0 <= c <= d
    ensures m * c <= n * d
  {
    assert m * c <= n * c <= n * d;
  }

  /** Estimates grow with the window and the number of devices and shrink with the bucket. */
  lemma EstimateMonotone(v: real, w: real, c: int, d: int, b: Positive, a: Positive)
    requires 0.0 < v <= w && 0 <= c <= d && a <= b
    ensures EstimatePoints(v, c, b) <= EstimatePoints(w, d, a)
  {
    QuotientMonotone(v, w, a as real, b as real);
    CeilMonotone(v / b as real, w / a as real);
    assert v / b as real > 0.0;
    ProductMonotone(Ceil(v / b as real), Ceil(w / a as real), c, d);
  }

  /** The pre-filter loses nothing: a bucket below the required size cannot meet the target. */
  lemma PreFilterLosesNothing(q: Query, b: Positive)
    requires InputError(q).None? && Estimate(q, b) <= q.targetPoints
    ensures RequiredBucketSeconds(q) <= b as real
  {
    var w, d, t, size := q.windowSeconds, q.deviceCount as real, q.targetPoints as real, b as real;
    var x := w / size;
    CeilAbove(x);
    DivideBack(w, size, x);
    ProductAsReal(Ceil(x), q.deviceCount);
    RequiredWithin(w, d, t, size, x, Ceil(x) as real);
  }

  lemma RequiredWithin(w: real, d: real, t: real, size: real, x: real, points: real)
    requires x * size == w && x <= points && points * d <= t && 0.0 <= d && 0.0 < size && 0.0 < t
    ensures w * d / t <= size
  {
    RoomForPoints(x, points, d, size, t);
    QuotientBound(w * d, t, size);
  }

  lemma CeilAbove(x: real)
    ensures x <= Ceil(x) as real
  {
  }

  lemma DivideBack(w: real, size: real, x: real)
    requires 0.0 < size && x == w / size
    ensures x * size == w
  {
  }

  lemma ProductAsReal(m: int, n: int)
    ensures (m * n) as real == m as real * n as real
  {
  }

  lemma RoomForPoints(x: real, points: real, d: real, size: real, t: real)
    requires x <= points && 0.0 <= d && 0.0 < size && points * d <= t
    ensures x * size * d <= t * size
  {
    assert x * d <= points * d;
    assert x * d * size <= t * size;
    assert x * size * d == x * d * size;
  }

  lemma QuotientBound(n: real, t: real, size: real)
    requires 0.0 < t && n <= t * size
    ensures n / t <= size
  {
    var y := n / t;
    assert y * t == n;
    Cancel(y, size, t);
  }

  // ----- Optimality

  /** A well-formed query and the buckets it may choose from. */
  predicate Askable(q: Query, allowed: seq<Positive>) {
    InputError(q).None? && Ascending(allowed) && allowed != []
  }

  /** b is the smallest allowed bucket whose estimate is within the limit. */
  predicate IsSmallestWithin(q: Query, allowed: seq<Positive>, b: Positive, limit: int) {
    && b in allowed && Estimate(q, b) <= limit
    && forall i :: 0 <= i < |allowed| && Estimate(q, allowed[i]) <= limit ==> b <= allowed[i]
  }

  predicate NoneWithin(q: Query, allowed: seq<Positive>, limit: int) {
    forall i :: 0 <= i < |allowed| ==> Estimate(q, allowed[i]) > limit
  }

  lemma {:induction false} FirstIsSmallest(q: Query, s: seq<Positive>, limit: int)
    requires Ascending(s)
    ensures var found := FirstWithin(q, s, limit);
            if found.Some? then IsSmallestWithin(q, s, found.value, limit) else NoneWithin(q, s, limit)
  {
    if s != [] {
      FirstIsSmallest(q, s[1..], limit);
      assert forall i :: 0 < i < |s| ==> s[i] == s[1..][i - 1];
    }
  }

  lemma TargetSearchIsComplete(q: Query, allowed: seq<Positive>)
    requires Askable(q, allowed)
    ensures var found := OnTarget(q, allowed);
            if found.Some? then IsSmallestWithin(q, allowed, found.value, q.targetPoints)
            else NoneWithin(q, allowed, q.targetPoints)
  {
    var largest := allowed[|allowed| - 1];
    var candidates := InRange(allowed, RequiredBucketSeconds(q), largest);
    FirstIsSmallest(q, candidates, q.targetPoints);
    forall i | 0 <= i < |allowed| && Estimate(q, allowed[i]) <= q.targetPoints
      ensures exists j :: 0 <= j < |candidates| && candidates[j] == allowed[i]
    {
      PreFilterLosesNothing(q, allowed[i]);
      assert i == |allowed| - 1 || allowed[i] < largest;
      assert allowed[i] in candidates;
    }
  }

  lemma LargestIsCheapest(q: Query, allowed: seq<Positive>, i: nat)
    requires Askable(q, allowed) && i < |allowed|
    ensures Estimate(q, allowed[|allowed| - 1]) <= Estimate(q, allowed[i])
  {
    var last := |allowed| - 1;
    assert i == last || allowed[i] < allowed[last];
    EstimateMonotone(q.windowSeconds, q.windowSeconds, q.deviceCount, q.deviceCount, allowed[last], allowed[i]);
  }

  lemma FailsAtTheLargest(q: Query, allowed: seq<Positive>)
    requires Askable(q, allowed)
    ensures NoneWithin(q, allowed, q.maxPoints) <==> Estimate(q, allowed[|allowed| - 1]) > q.maxPoints
  {
    forall i | 0 <= i < |allowed| ensures Estimate(q, allowed[|allowed| - 1]) <= Estimate(q, allowed[i]) {
      LargestIsCheapest(q, allowed, i);
    }
  }

  /** r uses the smallest allowed bucket on target; failing that, the smallest within the limit. It
      reports the points estimated for it, the size that would be required, and the query's limits. */
  predicate IsOptimal(q: Query, allowed: seq<Positive>, r: Resolution) {
    && r.estimatedPoints == Estimate(q, r.bucketSeconds)
    && q.targetPoints > 0 && r.requiredBucketSeconds == RequiredBucketSeconds(q)
    && r.targetPoints == q.targetPoints && r.maxPoints == q.maxPoints
    && (r.targetMet ==> IsSmallestWithin(q, allowed, r.bucketSeconds, q.targetPoints))
    && (!r.targetMet ==> NoneWithin(q, allowed, q.targetPoints)
                         && IsSmallestWithin(q, allowed, r.bucketSeconds, q.maxPoints))
  }

  /** The required size spreads the points of all devices over the window as thinly as the target. */
  lemma RequiredTimesTarget(q: Query)
    requires q.targetPoints > 0
    ensures RequiredBucketSeconds(q) * q.targetPoints as real == q.windowSeconds * q.deviceCount as real
  {
    DivideBack(q.windowSeconds * q.deviceCount as real, q.targetPoints as real, RequiredBucketSeconds(q));
  }

  /** The choice is optimal: the smallest allowed bucket on target; failing that, the smallest
      within the hard limit; and an error exactly when even the largest bucket exceeds it. */
  lemma ChoiceIsOptimal(q: Query, allowed: seq<Positive>)
    requires Askable(q, allowed)
    ensures match Choose(q, allowed)
            case Ok(r) => IsOptimal(q, allowed, r)
            case Err(e) =>
              e == LimitExceeded(Estimate(q, allowed[|allowed| - 1]), q.maxPoints, allowed[|allowed| - 1])
    ensures Choose(q, allowed).Err? <==> Estimate(q, allowed[|allowed| - 1]) > q.maxPoints
  {
    TargetSearchIsComplete(q, allowed);
    var found := OnTarget(q, allowed);
    if found.Some? {
      var i :| 0 <= i < |allowed| && allowed[i] == found.value;
      LargestIsCheapest(q, allowed, i);
    } else {
      LimitSearchIsOptimal(q, allowed);
    }
  }

  lemma LimitSearchIsOptimal(q: Query, allowed: seq<Positive>)
    requires Askable(q, allowed) && NoneWithin(q, allowed, q.targetPoints)
    ensures match WithinMax(q, allowed)
            case Ok(r) => !r.targetMet && IsOptimal(q, allowed, r)
            case Err(e) =>
              e == LimitExceeded(Estimate(q, allowed[|allowed| - 1]), q.maxPoints, allowed[|allowed| - 1])
    ensures WithinMax(q, allowed).Err? <==> Estimate(q, allowed[|allowed| - 1]) > q.maxPoints
  {
    FirstIsSmallest(q, allowed, q.maxPoints);
    FailsAtTheLargest(q, allowed);
  }

  lemma NothingToEstimate(q: Query, b: Positive)
    requires q.deviceCount == 0
    ensures Estimate(q, b) == 0
  {
  }

  function Largest(allowed: seq<Positive>): Positive
    requires allowed != []
  {
    allowed[|allowed| - 1]
  }

  /** The whole calculation, zero devices included: for every accepted query with an allowed bucket
      the result is the optimal choice among the allowed ones, and the limit error is raised exactly
      when even the largest of them exceeds it. */
  lemma ResolutionIsOptimal(q: Query)
    requires InputError(q).None? && AllowedBuckets(q) != []
    ensures var allowed := AllowedBuckets(q);
            match CalculateBucketResolution(q)
            case Ok(r) => IsOptimal(q, allowed, r) && Estimate(q, Largest(allowed)) <= q.maxPoints
            case Err(e) => e == LimitExceeded(Estimate(q, Largest(allowed)), q.maxPoints, Largest(allowed))
                           && Estimate(q, Largest(allowed)) > q.maxPoints
  {
    var allowed := AllowedBuckets(q);
    if q.deviceCount == 0 {
      NothingToEstimate(q, allowed[0]);
      NothingToEstimate(q, Largest(allowed));
    } else {
      ChoiceIsOptimal(q, allowed);
    }
  }

  /** Which queries are calculated at all: all numbers positive but the devices, which may be none,
      the limits in order, and a listed bucket between the bounds; any other is refused. */
  lemma CalculatedExactly(q: Query)
    ensures InputError(q).None?
            <==> 0.0 < q.windowSeconds && 0 <= q.deviceCount && 0 < q.targetPoints <= q.maxPoints
                 && 0 < q.minBucketSeconds <= q.maxBucketSeconds
    ensures forall b: Positive ::
              b in AllowedBuckets(q) <==> b in ALLOWED_BUCKET_SECONDS && q.minBucketSeconds <= b <= q.maxBucketSeconds
    ensures InputError(q).Some? ==> CalculateBucketResolution(q) == Err(InputError(q).value)
    ensures InputError(q).None? && AllowedBuckets(q) == [] ==> CalculateBucketResolution(q) == Err(NoAllowedBucket)
  {
  }

  /** One point per device and started bucket length. */
  lemma EstimateExactly(windowSeconds: real, devices: int, bucket: Positive) returns (n: int)
    ensures EstimatePoints(windowSeconds, devices, bucket) == n * devices
    ensures (n - 1) as real * bucket as real < windowSeconds <= n as real * bucket as real
  {
    var x := windowSeconds / bucket as real;
    n := Ceil(x);
    var size := bucket as real;
    DivideBack(windowSeconds, size, x);
    assert (n - 1) as real < x <= n as real;
    Stretched((n - 1) as real, x, size, (n - 1) as real * size, windowSeconds);
    Stretched(x, n as real, size, windowSeconds, n as real * size);
  }

  lemma Stretched(x: real, y: real, size: real, xs: real, ys: real)
    requires 0.0 < size && x <= y && xs == x * size && ys == y * size
    ensures xs <= ys && (x < y ==> xs < ys)
  {
    assert ys - xs == (y - x) * size;
  }

  // ----- Larger queries

  /** The same limits, asked for at least as long a window and at least as many devices. */
  predicate LargerQuery(small: Query, large: Query) {
    large == small.(windowSeconds := large.windowSeconds, deviceCount := large.deviceCount)
    && small.windowSeconds <= large.windowSeconds && small.deviceCount <= large.deviceCount
  }

  lemma LargerEstimates(small: Query, large: Query, b: Positive)
    requires InputError(small).None? && LargerQuery(small, large)
    ensures Estimate(small, b) <= Estimate(large, b)
  {
    EstimateMonotone(small.windowSeconds, large.windowSeconds, small.deviceCount, large.deviceCount, b, b);
  }

  lemma CoarserIsCheaper(q: Query, b: Positive, c: Positive)
    requires InputError(q).None? && b <= c
    ensures Estimate(q, c) <= Estimate(q, b)
  {
    EstimateMonotone(q.windowSeconds, q.windowSeconds, q.deviceCount, q.deviceCount, c, b);
  }

  /** The largest bucket can meet the target. */
  predicate TargetInReach(q: Query, allowed: seq<Positive>)
    requires allowed != []
  {
    Estimate(q, Largest(allowed)) <= q.targetPoints
  }

  lemma RegimeIsDecidedByTheLargest(q: Query, allowed: seq<Positive>, r: Resolution)
    requires Askable(q, allowed) && IsOptimal(q, allowed, r)
    ensures r.targetMet <==> TargetInReach(q, allowed)
  {
    if r.targetMet {
      var i :| 0 <= i < |allowed| && allowed[i] == r.bucketSeconds;
      LargestIsCheapest(q, allowed, i);
    }
  }

  /** Within one limit the larger query's smallest bucket is at least as coarse. */
  lemma SmallestGrows(small: Query, large: Query, allowed: seq<Positive>, b: Positive, c: Positive, limit: int)
    requires InputError(small).None? && LargerQuery(small, large)
    requires IsSmallestWithin(small, allowed, b, limit) && IsSmallestWithin(large, allowed, c, limit)
    ensures b <= c
  {
    LargerEstimates(small, large, c);
    var i :| 0 <= i < |allowed| && allowed[i] == c;
  }

  /** Every bucket too fine for the smaller query's target is too fine for the larger one's limit. */
  predicate LimitCoversTarget(small: Query, large: Query, allowed: seq<Positive>) {
    forall i :: 0 <= i < |allowed| && Estimate(small, allowed[i]) > small.targetPoints ==>
                  Estimate(large, allowed[i]) > large.maxPoints
  }

  lemma AcrossRegimes(small: Query, large: Query, allowed: seq<Positive>, b: Positive, c: Positive)
    requires InputError(small).None?
    requires IsSmallestWithin(small, allowed, b, small.targetPoints)
    requires IsSmallestWithin(large, allowed, c, large.maxPoints)
    ensures b <= c <==> LimitCoversTarget(small, large, allowed)
  {
    var k :| 0 <= k < |allowed| && allowed[k] == c;
    if b <= c {
      forall i | 0 <= i < |allowed| && Estimate(small, allowed[i]) > small.targetPoints
        ensures Estimate(large, allowed[i]) > large.maxPoints
      {
        if c <= allowed[i] {
          CoarserIsCheaper(small, b, allowed[i]);
        }
      }
    }
  }

  lemma LargerChoice(small: Query, large: Query, allowed: seq<Positive>, r: Resolution, s: Resolution)
    requires Askable(small, allowed) && Askable(large, allowed) && LargerQuery(small, large)
    requires IsOptimal(small, allowed, r) && IsOptimal(large, allowed, s)
    ensures r.bucketSeconds <= s.bucketSeconds
            <==> TargetInReach(small, allowed) == TargetInReach(large, allowed)
                 || LimitCoversTarget(small, large, allowed)
  {
    RegimeIsDecidedByTheLargest(small, allowed, r);
    RegimeIsDecidedByTheLargest(large, allowed, s);
    if r.targetMet == s.targetMet {
      SmallestGrows(small, large, allowed, r.bucketSeconds, s.bucketSeconds,
                    if r.targetMet then small.targetPoints else small.maxPoints);
    } else {
      LargerEstimates(small, large, Largest(allowed));
      AcrossRegimes(small, large, allowed, r.bucketSeconds, s.bucketSeconds);
    }
  }

  /** When a larger query gets at least as coarse a bucket, told from the two queries alone: exactly
      when the largest bucket meets the target for both or for neither, or every bucket too fine for
      the smaller query's target is too fine for the larger query's limit. */
  lemma LargerQueryCoarserExactly(small: Query, large: Query)
    requires InputError(small).None? && LargerQuery(small, large) && AllowedBuckets(small) != []
    requires Estimate(large, Largest(AllowedBuckets(small))) <= large.maxPoints
    ensures var r, s := CalculateBucketResolution(small), CalculateBucketResolution(large);
            var allowed := AllowedBuckets(small);
            && r.Ok? && s.Ok?
            && (r.value.bucketSeconds <= s.value.bucketSeconds
                <==> TargetInReach(small, allowed) == TargetInReach(large, allowed)
                     || LimitCoversTarget(small, large, allowed))
  {
    var allowed := AllowedBuckets(small);
    assert AllowedBuckets(large) == allowed;
    LargerEstimates(small, large, Largest(allowed));
    ResolutionIsOptimal(small);
    ResolutionIsOptimal(large);
    LargerChoice(small, large, allowed, CalculateBucketResolution(small).value, CalculateBucketResolution(large).value);
  }

  lemma ConcreteEstimates()
    ensures EstimatePoints(86400.0, 8000, 86400) == 8000 && EstimatePoints(86400.0, 8000, 43200) == 16000
    ensures EstimatePoints(86401.0, 8000, 86400) == 16000 && EstimatePoints(86401.0, 8000, 43200) == 24000
    ensures EstimatePoints(86401.0, 8000, 21600) == 40000
  {
  }

  /** With the estimate crossing the limit at index k, the smallest bucket within it is number k. */
  lemma SmallestIs(q: Query, allowed: seq<Positive>, b: Positive, limit: int, k: nat)
    requires Askable(q, allowed) && 0 < k < |allowed| && IsSmallestWithin(q, allowed, b, limit)
    requires Estimate(q, allowed[k]) <= limit < Estimate(q, allowed[k - 1])
    ensures b == allowed[k]
  {
    var i :| 0 <= i < |allowed| && allowed[i] == b;
    if i < k {
      assert i == k - 1 || allowed[i] < allowed[k - 1];
      CoarserIsCheaper(q, allowed[i], allowed[k - 1]);
    }
  }

  const BUSY_DAY := Query(86400.0, 8000, DEFAULT_TARGET_POINTS, DEFAULT_MAX_POINTS, 60, 86400)

  const ONE_SECOND_MORE := BUSY_DAY.(windowSeconds := 86401.0)

  /** Any list of buckets ending in 6, 12 and 24 hours, such as the full list. */
  predicate EndsInDays(allowed: seq<Positive>) {
    var n := |allowed|;
    Ascending(allowed) && n >= 3 && allowed[n - 3] == 21600 && allowed[n - 2] == 43200 && allowed[n - 1] == 86400
  }

  lemma OneDayTakesTheLargest(allowed: seq<Positive>, r: Resolution)
    requires EndsInDays(allowed) && IsOptimal(BUSY_DAY, allowed, r)
    ensures r.bucketSeconds == 86400
  {
    var n := |allowed|;
    ConcreteEstimates();
    assert Estimate(BUSY_DAY, allowed[n - 1]) == 8000;
    RegimeIsDecidedByTheLargest(BUSY_DAY, allowed, r);
    SmallestIs(BUSY_DAY, allowed, r.bucketSeconds, 15_000, n - 1);
  }

  lemma OneSecondMoreTakesHalf(allowed: seq<Positive>, r: Resolution)
    requires EndsInDays(allowed) && IsOptimal(ONE_SECOND_MORE, allowed, r)
    ensures r.bucketSeconds == 43200
  {
    var n := |allowed|;
    ConcreteEstimates();
    assert Estimate(ONE_SECOND_MORE, allowed[n - 1]) == 16000 && Estimate(ONE_SECOND_MORE, allowed[n - 2]) == 24000;
    RegimeIsDecidedByTheLargest(ONE_SECOND_MORE, allowed, r);
    SmallestIs(ONE_SECOND_MORE, allowed, r.bucketSeconds, 25_000, n - 2);
  }

  lemma FullListEndsInDays()
    ensures EndsInDays(ALLOWED_BUCKET_SECONDS)
  {
  }

  /** Larger windows are expected never to choose a smaller bucket; across the regimes they do: with
      the default limits 8000 devices over one day get the 24-hour bucket, over one second more the
      12-hour one. */
  lemma OneMoreSecondHalvesTheBucket()
    ensures LargerQuery(BUSY_DAY, ONE_SECOND_MORE)
    ensures var r, s := CalculateBucketResolution(BUSY_DAY), CalculateBucketResolution(ONE_SECOND_MORE);
            r.Ok? && s.Ok? && r.value.bucketSeconds == 86400 && s.value.bucketSeconds == 43200
  {
    FullListEndsInDays();
    DefaultBuckets(BUSY_DAY);
    DefaultBuckets(ONE_SECOND_MORE);
    ConcreteEstimates();
    ResolutionIsOptimal(BUSY_DAY);
    ResolutionIsOptimal(ONE_SECOND_MORE);
    OneDayTakesTheLargest(ALLOWED_BUCKET_SECONDS, CalculateBucketResolution(BUSY_DAY).value);
    OneSecondMoreTakesHalf(ALLOWED_BUCKET_SECONDS, CalculateBucketResolution(ONE_SECOND_MORE).value);
  }

  /** With the default limits every listed bucket is allowed. */
  lemma DefaultBuckets(q: Query)
    requires q.minBucketSeconds == 60 && q.maxBucketSeconds == 86400
    ensures AllowedBuckets(q) == ALLOWED_BUCKET_SECONDS
  {
    KeepsAll(ALLOWED_BUCKET_SECONDS, 60.0, 86400);
  }

  lemma {:induction false} KeepsAll(s: seq<Positive>, lo: real, hi: int)
    requires Ascending(s) && forall i :: 0 <= i < |s| ==> lo <= s[i] as real && s[i] <= hi
    ensures InRange(s, lo, hi) == s
  {
    if s != [] {
      KeepsAll(s[1..], lo, hi);
    }
  }
}
