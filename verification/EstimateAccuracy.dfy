/** How good the estimate behind the choice of the bucket size is: the number of points estimated
    (src/application/analytics/temporal_sampling.py) against the number of buckets the bucketing of
    the same window produces (src/application/analytics/temporal_bucketing.py). */
module EstimateAccuracy {
  import opened Basics
  import opened ObservedTime
  import opened Overlaps
  import opened TemporalBucketing
  import opened BucketingLaws
  import opened TemporalSampling

  // ----- Cells

  /** Epoch-aligned cells of `size` microseconds that the window meets: those numbered from the one
      holding its first microsecond to the one holding its last. */
  function CellCount(w: Window, size: int): int
    requires size > 0
  {
    (w.end - 1) / size - w.start / size + 1
  }

  /** Cell number m begins no later than t exactly if t lies in it or in a later one. */
  lemma CellNumber(m: int, t: int, size: int)
    requires size > 0
    ensures m * size <= t <==> m <= t / size
  {
    var q := t / size;
    assert q * size <= t < q * size + size;
    Multiples(q - m, size);
    assert (q - m) * size == q * size - m * size;
  }

  lemma AlignedNumber(m: int, size: int)
    requires size > 0
    ensures m * size / size == m && Aligned(m * size, size)
  {
    MultipleIsAligned(m, size);
    CellNumber(m, m * size, size);
    CellNumber(m + 1, m * size, size);
    assert (m + 1) * size == m * size + size;
  }

  /** Of two different aligned cells the later one has the larger number. */
  lemma NumbersGrow(a: int, b: int, size: int)
    requires size > 0 && Aligned(a, size) && Aligned(b, size) && a < b
    ensures a / size + 1 <= b / size
  {
    CellNumber(b / size, a, size);
  }

  // ----- Buckets against cells

  lemma BucketInWindow(spans: seq<ObservedSpan>, w: Window, size: int, buckets: seq<TemporalBucket>, i: nat)
    requires size > 0 && IsDistribution(spans, w, size, buckets) && i < |buckets|
    ensures var c := buckets[i].bucketStart;
            Aligned(c, size) && w.start / size <= c / size <= (w.end - 1) / size
  {
    var c := buckets[i].bucketStart;
    assert HasBucket(buckets, c);
    if c >= w.end || c + size <= w.start {
      NothingOutsideWindow(spans, w, c, c + size);
    }
    CellNumber(c / size, w.end - 1, size);
    CellNumber(c / size + 1, w.start, size);
    assert (c / size + 1) * size == c + size;
  }

  /** The number of a bucket's cell. */
  function Number(buckets: seq<TemporalBucket>, k: nat, size: int): int
    requires k < |buckets| && size > 0
  {
    buckets[k].bucketStart / size
  }

  /** Bucket number k is not before the k-th cell of the window. */
  lemma {:induction false} BucketsSpreadOut(spans: seq<ObservedSpan>, w: Window, size: int,
                                            buckets: seq<TemporalBucket>, k: nat)
    requires size > 0 && IsDistribution(spans, w, size, buckets) && k < |buckets|
    ensures w.start / size + k <= Number(buckets, k, size)
  {
    BucketInWindow(spans, w, size, buckets, k);
    if k > 0 {
      BucketsSpreadOut(spans, w, size, buckets, k - 1);
      BucketInWindow(spans, w, size, buckets, k - 1);
      NumbersGrow(buckets[k - 1].bucketStart, buckets[k].bucketStart, size);
    }
  }

  lemma AtMostTheCells(spans: seq<ObservedSpan>, w: Window, size: int, buckets: seq<TemporalBucket>)
    requires size > 0 && w.start < w.end && IsDistribution(spans, w, size, buckets)
    ensures |buckets| <= CellCount(w, size)
  {
    CellNumber(w.start / size, w.end - 1, size);
    assert w.start / size * size <= w.start;
    if buckets != [] {
      BucketsSpreadOut(spans, w, size, buckets, |buckets| - 1);
      BucketInWindow(spans, w, size, buckets, |buckets| - 1);
    }
  }

  /** Some span covers the whole window. */
  predicate Fills(spans: seq<ObservedSpan>, w: Window) {
    exists i :: 0 <= i < |spans| && spans[i].startAt <= w.start && w.end <= spans[i].endAt
  }

  lemma FilledCell(spans: seq<ObservedSpan>, w: Window, size: int, c: int)
    requires size > 0 && Fills(spans, w) && c < w.end && w.start < c + size && w.start < w.end
    ensures ObservedMicros(spans, w, c, c + size) > 0
  {
    var t := Max(c, w.start);
    MicrosSplit(spans, w, c, t, c + size);
    MicrosSplit(spans, w, t, t + 1, c + size);
    ObservedInstant(spans, w, t);
  }

  lemma ObservedInstant(spans: seq<ObservedSpan>, w: Window, t: int)
    requires Fills(spans, w) && w.start <= t < w.end
    ensures ObservedMicros(spans, w, t, t + 1) == 1
  {
    var i :| 0 <= i < |spans| && spans[i].startAt <= w.start && w.end <= spans[i].endAt;
    assert ObservedMicros(spans, w, t, t) == 0;
    assert Observed(spans, w, t);
  }

  lemma CellMeetsWindow(w: Window, size: int, m: int)
    requires size > 0 && w.start / size <= m <= (w.end - 1) / size
    ensures m * size < w.end && w.start < m * size + size
    ensures Aligned(m * size, size) && m * size / size == m
  {
    AlignedNumber(m, size);
    CellNumber(m, w.end - 1, size);
    CellNumber(m + 1, w.start, size);
    OneCellMore(0, m, size);
  }

  lemma FilledCellHasBucket(spans: seq<ObservedSpan>, w: Window, size: int, buckets: seq<TemporalBucket>, m: int)
    returns (j: nat)
    requires size > 0 && w.start < w.end && IsDistribution(spans, w, size, buckets)
    requires Fills(spans, w) && w.start / size <= m <= (w.end - 1) / size
    ensures j < |buckets| && Number(buckets, j, size) == m
  {
    var c := m * size;
    CellMeetsWindow(w, size, m);
    FilledCell(spans, w, size, c);
    assert HasBucket(buckets, c);
    j :| 0 <= j < |buckets| && buckets[j].bucketStart == c;
  }

  /** In a filled window no cell is skipped: the k-th bucket is the k-th cell. */
  lemma {:induction false} BucketsAreCells(spans: seq<ObservedSpan>, w: Window, size: int,
                                           buckets: seq<TemporalBucket>, k: nat)
    requires size > 0 && w.start < w.end && IsDistribution(spans, w, size, buckets)
    requires Fills(spans, w) && k < CellCount(w, size)
    ensures k < |buckets| && Number(buckets, k, size) == w.start / size + k
  {
    var j := FilledCellHasBucket(spans, w, size, buckets, w.start / size + k);
    BucketsSpreadOut(spans, w, size, buckets, j);
    if j < k {
      BucketsAreCells(spans, w, size, buckets, j);
    }
  }

  lemma FilledCells(spans: seq<ObservedSpan>, w: Window, size: int, buckets: seq<TemporalBucket>)
    requires size > 0 && w.start < w.end && IsDistribution(spans, w, size, buckets) && Fills(spans, w)
    ensures |buckets| == CellCount(w, size)
  {
    AtMostTheCells(spans, w, size, buckets);
    if CellCount(w, size) > 0 {
      BucketsAreCells(spans, w, size, buckets, CellCount(w, size) - 1);
    }
  }

  // ----- The estimate

  /** Points estimated for one device. */
  function EstimateFor(w: Window, bucketSeconds: Positive): int {
    EstimatePoints(Seconds(w.end - w.start), 1, bucketSeconds)
  }

  /** The estimate is the number of buckets needed for a window that starts with one. */
  lemma EstimateCovers(w: Window, bucketSeconds: Positive)
    ensures var n, size := EstimateFor(w, bucketSeconds), bucketSeconds * 1_000_000;
            (n - 1) * size < w.end - w.start <= n * size
  {
    var x := Seconds(w.end - w.start) / bucketSeconds as real;
    var n := Ceil(x);
    DivideBack(Seconds(w.end - w.start), bucketSeconds as real, x);
    assert n as real - 1.0 < x <= n as real;
    ScaledBounds(x, n, bucketSeconds);
    assert EstimateFor(w, bucketSeconds) == n;
  }

  lemma ScaledBounds(x: real, n: int, b: Positive)
    requires n as real - 1.0 < x <= n as real
    ensures ((n - 1) * b) as real < x * b as real <= (n * b) as real
  {
    var size, below := b as real, (n - 1) as real;
    assert below == n as real - 1.0;
    ProductAsReal(n - 1, b);
    ProductAsReal(n, b);
    ScaleUp(below, x, size, below * size, x * size);
    ScaleUp(x, n as real, size, x * size, n as real * size);
  }

  lemma ScaleUp(x: real, y: real, b: real, xb: real, yb: real)
    requires 0.0 < b && x <= y && xb == x * b && yb == y * b
    ensures xb <= yb && (x < y ==> xb < yb)
  {
    assert yb - xb == (y - x) * b;
  }

  /** The window reaches beyond as many cells as estimated, counted from the cell it starts in. */
  predicate Overruns(w: Window, bucketSeconds: Positive) {
    var size := bucketSeconds * 1_000_000;
    Floor(w.start, size) + EstimateFor(w, bucketSeconds) * size < w.end
  }

  lemma EstimateAgainstCells(w: Window, bucketSeconds: Positive)
    requires w.start < w.end
    ensures var n, size := EstimateFor(w, bucketSeconds), bucketSeconds * 1_000_000;
            && CellCount(w, size) <= n + 1
            && (CellCount(w, size) > n <==> Overruns(w, bucketSeconds))
            && (Aligned(w.start, size) ==> !Overruns(w, bucketSeconds))
  {
    EstimateCovers(w, bucketSeconds);
    CellsAgainstLength(w, bucketSeconds * 1_000_000, EstimateFor(w, bucketSeconds));
  }

  /** A window as long as n cells meets n of them or, if it runs over, one more. */
  lemma CellsAgainstLength(w: Window, size: int, n: int)
    requires size > 0 && (n - 1) * size < w.end - w.start <= n * size
    ensures CellCount(w, size) <= n + 1
    ensures CellCount(w, size) > n <==> Floor(w.start, size) + n * size < w.end
    ensures Aligned(w.start, size) ==> Floor(w.start, size) + n * size >= w.end
  {
    var p := w.start / size;
    FloorIsAligned(w.start, size);
    OneCellMore(p, n, size);
    CellNumber(p + n, w.end - 1, size);
    CellNumber(p + n + 1, w.end - 1, size);
  }

  lemma OneCellMore(p: int, n: int, size: int)
    ensures (p + n) * size == p * size + n * size
    ensures (p + n + 1) * size == p * size + n * size + size
  {
  }

  /** A bucketing never has more than one bucket beyond the estimate, and none beyond it unless the
      window overruns the estimated cells, which it never does when it starts with a bucket. */
  lemma EstimateIsClose(spans: seq<ObservedSpan>, w: Window, bucketSeconds: Positive, r: BucketingResult)
    requires w.start < w.end && IsBucketing(spans, w, bucketSeconds, r)
    ensures |r.buckets| <= EstimateFor(w, bucketSeconds) + 1
    ensures !Overruns(w, bucketSeconds) ==> |r.buckets| <= EstimateFor(w, bucketSeconds)
    ensures Aligned(w.start, bucketSeconds * 1_000_000) ==> !Overruns(w, bucketSeconds)
  {
    AtMostTheCells(spans, w, bucketSeconds * 1_000_000, r.buckets);
    EstimateAgainstCells(w, bucketSeconds);
  }

  /** The estimate can be exceeded for a window exactly if the window overruns: then a device
      observed throughout has one bucket more. */
  lemma FilledWindowExceedsExactly(spans: seq<ObservedSpan>, w: Window, bucketSeconds: Positive, r: BucketingResult)
    requires w.start < w.end && IsBucketing(spans, w, bucketSeconds, r) && Fills(spans, w)
    ensures |r.buckets| > EstimateFor(w, bucketSeconds) <==> Overruns(w, bucketSeconds)
  {
    FilledCells(spans, w, bucketSeconds * 1_000_000, r.buckets);
    EstimateAgainstCells(w, bucketSeconds);
  }

  // ----- Several devices

  function TotalPoints(rs: seq<BucketingResult>): nat {
    if rs == [] then 0 else TotalPoints(rs[..|rs| - 1]) + |rs[|rs| - 1].buckets|
  }

  /** One bucketing of the same window for each device. */
  ghost predicate AreBucketings(fleet: seq<seq<ObservedSpan>>, w: Window, bucketSeconds: Positive,
                                rs: seq<BucketingResult>)
  {
    |rs| == |fleet| && forall d :: 0 <= d < |fleet| ==> IsBucketing(fleet[d], w, bucketSeconds, rs[d])
  }

  lemma PointsPerDevice(w: Window, bucketSeconds: Positive, n: nat)
    ensures EstimatePoints(Seconds(w.end - w.start), n, bucketSeconds) == EstimateFor(w, bucketSeconds) * n
  {
  }

  /** The points delivered for all devices exceed the estimate the choice was based on by at most one
      per device, and not at all unless the window overruns. */
  lemma {:induction false} FleetEstimateIsClose(fleet: seq<seq<ObservedSpan>>, w: Window, bucketSeconds: Positive,
                                                rs: seq<BucketingResult>)
    requires w.start < w.end && AreBucketings(fleet, w, bucketSeconds, rs)
    ensures var estimate := EstimatePoints(Seconds(w.end - w.start), |fleet|, bucketSeconds);
            && TotalPoints(rs) <= estimate + |fleet|
            && (!Overruns(w, bucketSeconds) ==> TotalPoints(rs) <= estimate)
  {
    var n := |fleet|;
    PointsPerDevice(w, bucketSeconds, n);
    if n > 0 {
      PointsPerDevice(w, bucketSeconds, n - 1);
      FleetEstimateIsClose(fleet[..n - 1], w, bucketSeconds, rs[..n - 1]);
      EstimateIsClose(fleet[n - 1], w, bucketSeconds, rs[n - 1]);
      OneDeviceMore(EstimateFor(w, bucketSeconds), n);
    }
  }

  lemma OneDeviceMore(points: int, n: int)
    ensures points * n == points * (n - 1) + points
  {
  }

  /** The estimate is exceeded in practice: one minute from half a minute past is one point by the
      estimate and two buckets of a minute. */
  lemma MinuteAcrossTwoBuckets(r: BucketingResult)
    requires IsBucketing([ObservedSpan(30_000_000, 90_000_000, 60.0)], Window(30_000_000, 90_000_000), 60, r)
    ensures EstimateFor(Window(30_000_000, 90_000_000), 60) == 1 && |r.buckets| == 2
  {
    var spans, w := [ObservedSpan(30_000_000, 90_000_000, 60.0)], Window(30_000_000, 90_000_000);
    assert spans[0].startAt <= w.start && w.end <= spans[0].endAt;
    assert Seconds(60_000_000) / 60.0 == 1.0;
    FilledCells(spans, w, 60_000_000, r.buckets);
  }
}
