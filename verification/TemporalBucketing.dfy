/** Clipping of observed spans to a window and distribution of their time over epoch-aligned
    buckets (src/application/analytics/temporal_bucketing.py). */
module TemporalBucketing {
  import opened Basics
  import opened ObservedTime
  import opened Overlaps

  datatype TemporalBucket = TemporalBucket(
    bucketStart: int, bucketEnd: int, observedSeconds: real, spanCount: nat)

  datatype BucketingMetadata = BucketingMetadata(
    windowStart: int, windowEnd: int, bucketSeconds: int,
    inputSeconds: real, inWindowSeconds: real, outsideWindowSeconds: real, bucketedSeconds: real,
    inputSpanCount: nat, contributingSpanCount: nat, bucketCount: nat)

  datatype BucketingResult = BucketingResult(
    buckets: seq<TemporalBucket>, metadata: BucketingMetadata)

  datatype BucketingError =
    | EmptyWindow | BucketSecondsNotPositive
    | SpanNotPositive | SpanSecondsNotPositive | SpanSecondsMismatch | SpansOutOfOrder
    | InvalidBucketTotal | TotalsMismatch

  /** One dictionary entry: seconds accumulated and number of contributing segments. */
  datatype Total = Total(seconds: real, count: nat)

  // ----- Input validation

  function SpanError(spans: seq<ObservedSpan>, i: nat): Option<BucketingError>
    requires i < |spans|
  {
    var span := spans[i];
    if span.endAt <= span.startAt then Some(SpanNotPositive)
    else if span.observedSeconds <= 0.0 then Some(SpanSecondsNotPositive)
    else if !IsClose(span.observedSeconds, Seconds(span.endAt - span.startAt)) then Some(SpanSecondsMismatch)
    else if i > 0 && span.startAt < spans[i - 1].endAt then Some(SpansOutOfOrder)
    else None
  }

  predicate ValidSpans(spans: seq<ObservedSpan>) {
    forall i :: 0 <= i < |spans| ==> SpanError(spans, i).None?
  }

  method ValidateSpans(spans: seq<ObservedSpan>) returns (error: Option<BucketingError>)
    ensures error.None? <==> ValidSpans(spans)
    ensures error.Some? ==>
              exists i :: 0 <= i < |spans| && SpanError(spans, i) == error
                          && forall j :: 0 <= j < i ==> SpanError(spans, j).None?
  {
    var previousEnd: Option<int> := None;
    for i := 0 to |spans|
      invariant previousEnd == if i == 0 then None else Some(spans[i - 1].endAt)
      invariant forall j :: 0 <= j < i ==> SpanError(spans, j).None?
    {
      var span := spans[i];
      if span.endAt <= span.startAt {
        error := Some(SpanNotPositive);
      } else if span.observedSeconds <= 0.0 {
        error := Some(SpanSecondsNotPositive);
      } else if !IsClose(span.observedSeconds, Seconds(span.endAt - span.startAt)) {
        error := Some(SpanSecondsMismatch);
      } else if previousEnd.Some? && span.startAt < previousEnd.value {
        error := Some(SpansOutOfOrder);
      } else {
        error := None;
      }
      assert error == SpanError(spans, i);
      if error.Some? {
        return;
      }
      previousEnd := Some(span.endAt);
    }
    error := None;
  }

  lemma {:induction false} OrderedSpansAreDisjoint(spans: seq<ObservedSpan>)
    requires ValidSpans(spans)
    ensures Disjoint(spans)
  {
    if spans != [] {
      var n := |spans| - 1;
      var init := spans[..n];
      assert forall i :: 0 <= i < n ==> SpanError(init, i) == SpanError(spans, i);
      OrderedSpansAreDisjoint(init);
      assert SpanError(spans, n).None?;
      forall i | 0 <= i < n ensures spans[i].endAt <= spans[n].startAt {
        assert SpanError(spans, n - 1).None?;
        assert i < n - 1 ==> init[i].endAt <= init[n - 1].startAt;
      }
      assert forall i, j :: 0 <= i < j < n ==> init[i].endAt <= init[j].startAt;
    }
  }

  /** A span sequence is accepted exactly if every span has positive length and seconds, reports its
      length within the tolerance, and starts no earlier than its predecessor ends. */
  lemma ValidSpansExactly(spans: seq<ObservedSpan>)
    ensures ValidSpans(spans)
            <==> (forall i :: 0 <= i < |spans| ==> IsAccepted(spans[i]))
                 && forall i :: 0 < i < |spans| ==> spans[i - 1].endAt <= spans[i].startAt
  {
    if ValidSpans(spans) {
      forall i | 0 <= i < |spans|
        ensures IsAccepted(spans[i]) && (i > 0 ==> spans[i - 1].endAt <= spans[i].startAt)
      {
        SpanErrorExactly(spans, i);
        assert SpanError(spans, i).None?;
      }
    } else {
      var i :| 0 <= i < |spans| && SpanError(spans, i).Some?;
      SpanErrorExactly(spans, i);
    }
  }

  lemma SpanErrorExactly(spans: seq<ObservedSpan>, i: nat)
    requires i < |spans|
    ensures SpanError(spans, i).None?
            <==> IsAccepted(spans[i]) && (i > 0 ==> spans[i - 1].endAt <= spans[i].startAt)
  {
    if spans[i].startAt < spans[i].endAt {
      CloseExactly(spans[i].observedSeconds, Seconds(spans[i].endAt - spans[i].startAt));
    }
  }

  lemma CloseExactly(x: real, y: real)
    requires 0.0 < y
    ensures 0.0 < x ==>
              var off := if x < y then y - x else x - y;
              IsClose(x, y) <==> off <= 0.000001 || off * 1000000000.0 <= x || off * 1000000000.0 <= y
  {
  }

  predicate IsAccepted(s: ObservedSpan) {
    && s.startAt < s.endAt && 0.0 < s.observedSeconds
    && var length := (s.endAt - s.startAt) as real / 1000000.0;
       var off := if s.observedSeconds < length then length - s.observedSeconds else s.observedSeconds - length;
       off <= 0.000001 || off * 1000000000.0 <= s.observedSeconds || off * 1000000000.0 <= length
  }

  // ----- What the result must be

  function SumSeconds(buckets: seq<TemporalBucket>): real {
    if buckets == [] then 0.0
    else SumSeconds(buckets[..|buckets| - 1]) + buckets[|buckets| - 1].observedSeconds
  }

  /** A difference within the tolerance of zero is reported as zero. */
  function SnapToZero(x: real): real {
    if IsClose(x, 0.0) then 0.0 else x
  }

  ghost predicate HasBucket(buckets: seq<TemporalBucket>, c: int) {
    exists i :: 0 <= i < |buckets| && buckets[i].bucketStart == c
  }

  /** The specification, microsecond by microsecond: a bucket exists exactly for every
      epoch-aligned cell of `size` microseconds holding an observed microsecond of the window,
      in increasing order, and reports how many it holds and how many spans put them there. */
  ghost predicate IsDistribution(spans: seq<ObservedSpan>, w: Window, size: int,
                                 buckets: seq<TemporalBucket>)
    requires size > 0
  {
    && (forall i, j :: 0 <= i < j < |buckets| ==> buckets[i].bucketStart < buckets[j].bucketStart)
    && (forall c :: HasBucket(buckets, c) <==>
                    Aligned(c, size) && ObservedMicros(spans, w, c, c + size) > 0)
    && (forall i :: 0 <= i < |buckets| ==>
          var c := buckets[i].bucketStart;
          buckets[i] == TemporalBucket(c, c + size,
                                       Seconds(ObservedMicros(spans, w, c, c + size)),
                                       SpansMeeting(spans, w, c, c + size)))
  }

  ghost predicate IsBucketing(spans: seq<ObservedSpan>, w: Window, bucketSeconds: int,
                              r: BucketingResult)
    requires bucketSeconds > 0
  {
    var inWindow := Seconds(ObservedMicros(spans, w, w.start, w.end));
    && IsDistribution(spans, w, bucketSeconds * 1_000_000, r.buckets)
    && r.metadata == BucketingMetadata(
         w.start, w.end, bucketSeconds, SpanSeconds(spans), inWindow,
         SnapToZero(SpanSeconds(spans) - inWindow), inWindow,
         |spans|, SpansMeeting(spans, w, w.start, w.end), |r.buckets|)
  }

  // ----- The dictionary of totals, between two statements of the loop

  /** The entry of one cell: absent when nothing is booked there. */
  ghost predicate EntryIs(totals: map<int, Total>, c: int, micros: nat, count: nat) {
    if micros > 0 then c in totals && totals[c] == Total(Seconds(micros), count) else c !in totals
  }

  /** The totals describe the clipped time of `spans`, which need not be ordered. */
  ghost predicate Describes(totals: map<int, Total>, spans: seq<ObservedSpan>, w: Window, size: int)
    requires size > 0
  {
    && (forall c :: c in totals ==> Aligned(c, size))
    && (forall c :: Aligned(c, size) ==>
          EntryIs(totals, c, OverlapTotal(spans, w, c, c + size), SpansMeeting(spans, w, c, c + size)))
  }

  function AddSegment(totals: map<int, Total>, c: int, seconds: real): map<int, Total> {
    var entry := if c in totals then totals[c] else Total(0.0, 0);
    totals[c := Total(entry.seconds + seconds, entry.count + 1)]
  }

  function Part(a: int, b: int): ObservedSpan { ObservedSpan(a, b, 0.0) }

  lemma PartGrows(w: Window, size: int, a: int, from: int, to: int, c: int)
    requires size > 0 && w.start <= a <= from < to <= w.end
    requires from == a || Aligned(from, size)
    requires to <= Floor(from, size) + size
    requires Aligned(c, size)
    ensures c == Floor(from, size) ==>
              Overlap(Part(a, from), w, c, c + size) == 0
              && Overlap(Part(a, to), w, c, c + size) == to - from
    ensures c != Floor(from, size) ==>
              Overlap(Part(a, to), w, c, c + size) == Overlap(Part(a, from), w, c, c + size)
  {
    FloorIsAligned(from, size);
    AlignedCells(Floor(from, size), c, size);
  }

  /** Booking the segment [from, to) extends the part of the current span already booked. */
  lemma SegmentBooked(totals: map<int, Total>, spans: seq<ObservedSpan>, w: Window, size: int,
                      a: int, from: int, to: int)
    requires size > 0 && w.start <= a <= from < to <= w.end
    requires from == a || Aligned(from, size)
    requires to <= Floor(from, size) + size
    requires Describes(totals, spans + [Part(a, from)], w, size)
    ensures Describes(AddSegment(totals, Floor(from, size), Seconds(to - from)),
                      spans + [Part(a, to)], w, size)
  {
    var b := Floor(from, size);
    FloorIsAligned(from, size);
    var before, after := spans + [Part(a, from)], spans + [Part(a, to)];
    var booked := AddSegment(totals, b, Seconds(to - from));
    forall c | Aligned(c, size)
      ensures EntryIs(booked, c, OverlapTotal(after, w, c, c + size), SpansMeeting(after, w, c, c + size))
    {
      assert EntryIs(totals, c, OverlapTotal(before, w, c, c + size), SpansMeeting(before, w, c, c + size));
      CellGrows(spans, w, size, a, from, to, c);
      if c == b {
        EntryGrows(totals, b, OverlapTotal(before, w, b, b + size), SpansMeeting(before, w, b, b + size),
                   to - from, SpansMeeting(after, w, b, b + size));
      }
    }
  }

  /** What booking [from, to) means for the measures of one cell. */
  lemma CellGrows(spans: seq<ObservedSpan>, w: Window, size: int, a: int, from: int, to: int, c: int)
    requires size > 0 && w.start <= a <= from < to <= w.end
    requires from == a || Aligned(from, size)
    requires to <= Floor(from, size) + size && Aligned(c, size)
    ensures var before, after := spans + [Part(a, from)], spans + [Part(a, to)];
            var grown := if c == Floor(from, size) then 1 else 0;
            && OverlapTotal(after, w, c, c + size) == OverlapTotal(before, w, c, c + size) + grown * (to - from)
            && SpansMeeting(after, w, c, c + size) == SpansMeeting(before, w, c, c + size) + grown
            && (OverlapTotal(before, w, c, c + size) == 0 ==> SpansMeeting(before, w, c, c + size) == 0)
  {
    OneMore(spans, Part(a, from), w, c, c + size);
    OneMore(spans, Part(a, to), w, c, c + size);
    PartGrows(w, size, a, from, to, c);
    if OverlapTotal(spans + [Part(a, from)], w, c, c + size) == 0 {
      NothingBooked(spans + [Part(a, from)], w, c, c + size);
    }
  }

  lemma EntryGrows(totals: map<int, Total>, c: int, micros: nat, count: nat, more: nat, newCount: nat)
    requires EntryIs(totals, c, micros, count) && more > 0 && newCount == count + 1
    requires micros == 0 ==> count == 0
    ensures EntryIs(AddSegment(totals, c, Seconds(more)), c, micros + more, newCount)
  {
  }

  lemma {:induction false} NothingBooked(spans: seq<ObservedSpan>, w: Window, lo: int, hi: int)
    requires OverlapTotal(spans, w, lo, hi) == 0
    ensures SpansMeeting(spans, w, lo, hi) == 0
  {
    if spans != [] {
      NothingBooked(spans[..|spans| - 1], w, lo, hi);
    }
  }

  function BuildBucket(start: int, total: Total, bucketSeconds: int): Result<TemporalBucket, BucketingError> {
    if total.seconds <= 0.0 || total.seconds > bucketSeconds as real + 0.000001
    then Err(InvalidBucketTotal)
    else Ok(TemporalBucket(start, start + bucketSeconds * 1_000_000, total.seconds, total.count))
  }

  function BuildBuckets(keys: seq<int>, totals: map<int, Total>, bucketSeconds: int)
    : Result<seq<TemporalBucket>, BucketingError>
    requires forall k :: k in keys ==> k in totals
  {
    if keys == [] then Ok([])
    else
      var init := BuildBuckets(keys[..|keys| - 1], totals, bucketSeconds);
      if init.Err? then init
      else
        var key := keys[|keys| - 1];
        var last := BuildBucket(key, totals[key], bucketSeconds);
        if last.Err? then Err(last.error) else Ok(init.value + [last.value])
  }

  /** The guard on bucket totals cannot fire: a bucket never holds more than its own length. */
  lemma {:induction false} BucketsBuilt(keys: seq<int>, totals: map<int, Total>,
                                        spans: seq<ObservedSpan>, w: Window, bucketSeconds: int)
    requires bucketSeconds > 0 && ValidSpans(spans)
    requires Describes(totals, spans, w, bucketSeconds * 1_000_000)
    requires forall k :: k in keys ==> k in totals
    ensures var r := BuildBuckets(keys, totals, bucketSeconds);
            && r.Ok? && |r.value| == |keys|
            && forall i :: 0 <= i < |keys| ==>
                 r.value[i] == TemporalBucket(keys[i], keys[i] + bucketSeconds * 1_000_000,
                                              totals[keys[i]].seconds, totals[keys[i]].count)
  {
    if keys != [] {
      var n, size := |keys| - 1, bucketSeconds * 1_000_000;
      BucketsBuilt(keys[..n], totals, spans, w, bucketSeconds);
      var c := keys[n];
      assert c in keys;
      OrderedSpansAreDisjoint(spans);
      MeasuresAgree(spans, w, c, c + size);
      assert totals[c].seconds == Seconds(OverlapTotal(spans, w, c, c + size));
      assert BuildBucket(c, totals[c], bucketSeconds).Ok?;
    }
  }

  lemma KeepsDescription(totals: map<int, Total>, spans: seq<ObservedSpan>, after: seq<ObservedSpan>,
                         w: Window, size: int)
    requires size > 0 && Describes(totals, spans, w, size)
    requires forall lo, hi :: OverlapTotal(after, w, lo, hi) == OverlapTotal(spans, w, lo, hi)
                              && SpansMeeting(after, w, lo, hi) == SpansMeeting(spans, w, lo, hi)
    ensures Describes(totals, after, w, size)
  {
    forall c | Aligned(c, size)
      ensures EntryIs(totals, c, OverlapTotal(after, w, c, c + size), SpansMeeting(after, w, c, c + size))
    {
      assert EntryIs(totals, c, OverlapTotal(spans, w, c, c + size), SpansMeeting(spans, w, c, c + size));
    }
  }

  /** A span that misses the window leaves every measure as it was. */
  lemma SpanOutside(spans: seq<ObservedSpan>, s: ObservedSpan, w: Window)
    requires Max(s.startAt, w.start) >= Min(s.endAt, w.end)
    ensures forall lo, hi :: OverlapTotal(spans + [s], w, lo, hi) == OverlapTotal(spans, w, lo, hi)
                             && SpansMeeting(spans + [s], w, lo, hi) == SpansMeeting(spans, w, lo, hi)
  {
    forall lo, hi
      ensures OverlapTotal(spans + [s], w, lo, hi) == OverlapTotal(spans, w, lo, hi)
              && SpansMeeting(spans + [s], w, lo, hi) == SpansMeeting(spans, w, lo, hi)
    {
      OneMore(spans, s, w, lo, hi);
    }
  }

  /** A span measures like its part inside the window. */
  lemma SpanClipped(spans: seq<ObservedSpan>, s: ObservedSpan, w: Window)
    requires Max(s.startAt, w.start) < Min(s.endAt, w.end)
    ensures var clipped := Part(Max(s.startAt, w.start), Min(s.endAt, w.end));
            forall lo, hi ::
              OverlapTotal(spans + [s], w, lo, hi) == OverlapTotal(spans + [clipped], w, lo, hi)
              && SpansMeeting(spans + [s], w, lo, hi) == SpansMeeting(spans + [clipped], w, lo, hi)
  {
    var clipped := Part(Max(s.startAt, w.start), Min(s.endAt, w.end));
    forall lo, hi
      ensures OverlapTotal(spans + [s], w, lo, hi) == OverlapTotal(spans + [clipped], w, lo, hi)
              && SpansMeeting(spans + [s], w, lo, hi) == SpansMeeting(spans + [clipped], w, lo, hi)
    {
      OneMore(spans, s, w, lo, hi);
      OneMore(spans, clipped, w, lo, hi);
      assert Overlap(s, w, lo, hi) == Overlap(clipped, w, lo, hi);
    }
  }

  // ----- The buckets together hold the observed time of the window

  lemma {:induction false} EmptyStretch(spans: seq<ObservedSpan>, w: Window, size: int, lo: int, hi: int)
    requires size > 0 && Aligned(lo, size) && Aligned(hi, size) && lo <= hi
    requires forall c :: lo <= c < hi && Aligned(c, size) ==> ObservedMicros(spans, w, c, c + size) == 0
    ensures ObservedMicros(spans, w, lo, hi) == 0
    decreases hi - lo
  {
    if lo < hi {
      NextCell(lo, size);
      AlignedCells(lo, hi, size);
      EmptyStretch(spans, w, size, lo + size, hi);
      MicrosSplit(spans, w, lo, lo + size, hi);
    }
  }

  lemma {:induction false} NothingOutsideWindow(spans: seq<ObservedSpan>, w: Window, lo: int, hi: int)
    requires hi <= w.start || w.end <= lo
    ensures ObservedMicros(spans, w, lo, hi) == 0
    decreases hi - lo
  {
    if lo < hi {
      NothingOutsideWindow(spans, w, lo, hi - 1);
    }
  }

  /** Where the first k buckets end; before the first one, the cell of the window's start. */
  function Reach(buckets: seq<TemporalBucket>, k: nat, w: Window, size: int): int
    requires size > 0 && k <= |buckets|
  {
    if k == 0 then Floor(w.start, size) else buckets[k - 1].bucketStart + size
  }

  lemma BucketsAdvance(spans: seq<ObservedSpan>, w: Window, size: int,
                       buckets: seq<TemporalBucket>, k: nat)
    requires size > 0 && IsDistribution(spans, w, size, buckets) && k <= |buckets|
    ensures Aligned(Reach(buckets, k, w, size), size)
    ensures k < |buckets| ==> Reach(buckets, k, w, size) <= buckets[k].bucketStart
    ensures k < |buckets| ==> Aligned(buckets[k].bucketStart, size)
  {
    FloorIsAligned(w.start, size);
    if k > 0 {
      assert HasBucket(buckets, buckets[k - 1].bucketStart);
      NextCell(buckets[k - 1].bucketStart, size);
    }
    if k < |buckets| {
      var c := buckets[k].bucketStart;
      assert HasBucket(buckets, c);
      if k > 0 {
        AlignedCells(buckets[k - 1].bucketStart, c, size);
      } else {
        AlignedCells(Floor(w.start, size), c, size);
        if c + size <= w.start {
          NothingOutsideWindow(spans, w, c, c + size);
        }
      }
    }
  }

  lemma NoBucketBetween(spans: seq<ObservedSpan>, w: Window, size: int,
                        buckets: seq<TemporalBucket>, k: nat, d: int)
    requires size > 0 && IsDistribution(spans, w, size, buckets) && k <= |buckets|
    requires Reach(buckets, k, w, size) <= d && (k < |buckets| ==> d < buckets[k].bucketStart)
    ensures !HasBucket(buckets, d)
  {
    forall j | 0 <= j < |buckets| ensures buckets[j].bucketStart != d {
      if j < k {
        assert j == k - 1 || buckets[j].bucketStart < buckets[k - 1].bucketStart;
      } else {
        assert j == k || buckets[k].bucketStart < buckets[j].bucketStart;
      }
    }
  }

  lemma {:induction false} PrefixTotal(spans: seq<ObservedSpan>, w: Window, size: int,
                                       buckets: seq<TemporalBucket>, k: nat)
    requires size > 0 && IsDistribution(spans, w, size, buckets) && k <= |buckets|
    ensures Reach(buckets, 0, w, size) <= Reach(buckets, k, w, size)
    ensures SumSeconds(buckets[..k])
            == Seconds(ObservedMicros(spans, w, Reach(buckets, 0, w, size), Reach(buckets, k, w, size)))
  {
    if k > 0 {
      var base, from, c := Reach(buckets, 0, w, size), Reach(buckets, k - 1, w, size), buckets[k - 1].bucketStart;
      PrefixTotal(spans, w, size, buckets, k - 1);
      GapBeforeBucket(spans, w, size, buckets, k - 1);
      StretchGrows(spans, w, base, from, c, c + size);
      assert buckets[..k][..k - 1] == buckets[..k - 1];
    }
  }

  /** Nothing is observed between the end of one bucket and the start of the next. */
  lemma GapBeforeBucket(spans: seq<ObservedSpan>, w: Window, size: int, buckets: seq<TemporalBucket>, k: nat)
    requires size > 0 && IsDistribution(spans, w, size, buckets) && k < |buckets|
    ensures var from, c := Reach(buckets, k, w, size), buckets[k].bucketStart;
            from <= c && ObservedMicros(spans, w, from, c) == 0
            && buckets[k].observedSeconds == Seconds(ObservedMicros(spans, w, c, c + size))
  {
    var from, c := Reach(buckets, k, w, size), buckets[k].bucketStart;
    BucketsAdvance(spans, w, size, buckets, k);
    forall d | from <= d < c && Aligned(d, size) ensures ObservedMicros(spans, w, d, d + size) == 0 {
      NoBucketBetween(spans, w, size, buckets, k, d);
    }
    EmptyStretch(spans, w, size, from, c);
  }

  lemma StretchGrows(spans: seq<ObservedSpan>, w: Window, base: int, from: int, c: int, to: int)
    requires base <= from <= c <= to && ObservedMicros(spans, w, from, c) == 0
    ensures ObservedMicros(spans, w, base, to)
            == ObservedMicros(spans, w, base, from) + ObservedMicros(spans, w, c, to)
  {
    MicrosSplit(spans, w, base, from, c);
    MicrosSplit(spans, w, base, c, to);
  }

  /** No observed microsecond of the window is missed or counted twice. */
  lemma BucketsHoldWindow(spans: seq<ObservedSpan>, w: Window, size: int, buckets: seq<TemporalBucket>)
    requires size > 0 && w.start < w.end && IsDistribution(spans, w, size, buckets)
    ensures SumSeconds(buckets) == Seconds(ObservedMicros(spans, w, w.start, w.end))
  {
    var n, base, last := |buckets|, Reach(buckets, 0, w, size), Floor(w.end, size);
    var reach := Reach(buckets, n, w, size);
    FloorIsAligned(w.start, size);
    FloorIsAligned(w.end, size);
    NextCell(last, size);
    PrefixTotal(spans, w, size, buckets, n);
    BucketsAdvance(spans, w, size, buckets, n);
    assert buckets[..n] == buckets;
    var end := Max(reach, last + size);
    forall d | reach <= d < end && Aligned(d, size) ensures ObservedMicros(spans, w, d, d + size) == 0 {
      NoBucketBetween(spans, w, size, buckets, n, d);
    }
    EmptyStretch(spans, w, size, reach, end);
    MicrosSplit(spans, w, base, reach, end);
    MicrosSplit(spans, w, base, w.start, end);
    MicrosSplit(spans, w, w.start, w.end, end);
    NothingOutsideWindow(spans, w, base, w.start);
    NothingOutsideWindow(spans, w, w.end, end);
  }

  lemma BuiltCells(totals: map<int, Total>, spans: seq<ObservedSpan>, w: Window, size: int, c: int)
    requires size > 0 && ValidSpans(spans) && Describes(totals, spans, w, size)
    ensures c in totals <==> Aligned(c, size) && ObservedMicros(spans, w, c, c + size) > 0
    ensures c in totals ==> totals[c] == Total(Seconds(ObservedMicros(spans, w, c, c + size)),
                                               SpansMeeting(spans, w, c, c + size))
  {
    OrderedSpansAreDisjoint(spans);
    MeasuresAgree(spans, w, c, c + size);
    if Aligned(c, size) {
      assert EntryIs(totals, c, OverlapTotal(spans, w, c, c + size), SpansMeeting(spans, w, c, c + size));
    }
  }

  lemma AssembledDistribution(totals: map<int, Total>, keys: seq<int>, buckets: seq<TemporalBucket>,
                              spans: seq<ObservedSpan>, w: Window, size: int)
    requires size > 0 && ValidSpans(spans) && Describes(totals, spans, w, size)
    requires forall i, j :: 0 <= i < j < |keys| ==> keys[i] < keys[j]
    requires forall c :: c in keys <==> c in totals
    requires |buckets| == |keys|
    requires forall i :: 0 <= i < |keys| ==>
               keys[i] in totals
               && buckets[i] == TemporalBucket(keys[i], keys[i] + size,
                                               totals[keys[i]].seconds, totals[keys[i]].count)
    ensures IsDistribution(spans, w, size, buckets)
  {
    forall c ensures HasBucket(buckets, c) <==>
                     Aligned(c, size) && ObservedMicros(spans, w, c, c + size) > 0
    {
      BuiltCells(totals, spans, w, size, c);
      HasBucketIffKey(buckets, keys, c);
    }
    forall i | 0 <= i < |buckets|
      ensures var c := buckets[i].bucketStart;
              buckets[i] == TemporalBucket(c, c + size, Seconds(ObservedMicros(spans, w, c, c + size)),
                                           SpansMeeting(spans, w, c, c + size))
    {
      BuiltCells(totals, spans, w, size, keys[i]);
    }
  }

  /** Sorted keys and faithful totals make the distribution the specification asks for. */
  lemma BuiltDistribution(totals: map<int, Total>, spans: seq<ObservedSpan>, w: Window, bucketSeconds: int)
    requires bucketSeconds > 0 && ValidSpans(spans)
    requires Describes(totals, spans, w, bucketSeconds * 1_000_000)
    ensures var built := BuildBuckets(SortedKeys(totals.Keys), totals, bucketSeconds);
            built.Ok? && IsDistribution(spans, w, bucketSeconds * 1_000_000, built.value)
  {
    var keys, size := SortedKeys(totals.Keys), bucketSeconds * 1_000_000;
    BucketsBuilt(keys, totals, spans, w, bucketSeconds);
    forall i | 0 <= i < |keys| ensures keys[i] in totals {
      assert keys[i] in keys;
    }
    AssembledDistribution(totals, keys, BuildBuckets(keys, totals, bucketSeconds).value, spans, w, size);
  }

  lemma HasBucketIffKey(buckets: seq<TemporalBucket>, keys: seq<int>, c: int)
    requires |buckets| == |keys| && forall i :: 0 <= i < |keys| ==> buckets[i].bucketStart == keys[i]
    ensures HasBucket(buckets, c) <==> c in keys
  {
    if c in keys {
      var i :| 0 <= i < |keys| && keys[i] == c;
      assert buckets[i].bucketStart == c;
    }
  }

  /** The closing consistency check and the metadata. */
  function Summarize(spans: seq<ObservedSpan>, w: Window, bucketSeconds: int,
                     built: Result<seq<TemporalBucket>, BucketingError>,
                     inputSeconds: real, inWindowSeconds: real, contributing: nat)
    : Result<BucketingResult, BucketingError>
  {
    if built.Err? then Err(built.error)
    else
      var bucketed := SumSeconds(built.value);
      if !IsClose(bucketed, inWindowSeconds) then Err(TotalsMismatch)
      else Ok(BucketingResult(
                built.value,
                BucketingMetadata(w.start, w.end, bucketSeconds, inputSeconds, inWindowSeconds,
                                  SnapToZero(inputSeconds - inWindowSeconds), bucketed,
                                  |spans|, contributing, |built.value|)))
  }

  // ----- Steps of the loop over spans

  lemma SkippedSpan(totals: map<int, Total>, done: seq<ObservedSpan>, s: ObservedSpan, w: Window, size: int)
    requires size > 0 && Describes(totals, done, w, size)
    requires Max(s.startAt, w.start) >= Min(s.endAt, w.end)
    ensures Describes(totals, done + [s], w, size)
    ensures OverlapTotal(done + [s], w, w.start, w.end) == OverlapTotal(done, w, w.start, w.end)
    ensures SpansMeeting(done + [s], w, w.start, w.end) == SpansMeeting(done, w, w.start, w.end)
  {
    SpanOutside(done, s, w);
    KeepsDescription(totals, done, done + [s], w, size);
  }

  lemma FinishedSpan(totals: map<int, Total>, done: seq<ObservedSpan>, s: ObservedSpan, w: Window, size: int)
    requires size > 0 && Max(s.startAt, w.start) < Min(s.endAt, w.end)
    requires Describes(totals, done + [Part(Max(s.startAt, w.start), Min(s.endAt, w.end))], w, size)
    ensures Describes(totals, done + [s], w, size)
    ensures OverlapTotal(done + [s], w, w.start, w.end)
            == OverlapTotal(done, w, w.start, w.end) + (Min(s.endAt, w.end) - Max(s.startAt, w.start))
    ensures SpansMeeting(done + [s], w, w.start, w.end) == SpansMeeting(done, w, w.start, w.end) + 1
  {
    var clipped := Part(Max(s.startAt, w.start), Min(s.endAt, w.end));
    SpanClipped(done, s, w);
    KeepsDescription(totals, done + [clipped], done + [s], w, size);
    OneMore(done, s, w, w.start, w.end);
  }

  lemma SummaryIsBucketing(spans: seq<ObservedSpan>, w: Window, bucketSeconds: int, totals: map<int, Total>,
                           inWindowSeconds: real, contributing: nat)
    requires w.start < w.end && bucketSeconds > 0 && ValidSpans(spans)
    requires Describes(totals, spans, w, bucketSeconds * 1_000_000)
    requires inWindowSeconds == Seconds(OverlapTotal(spans, w, w.start, w.end))
    requires contributing == SpansMeeting(spans, w, w.start, w.end)
    ensures var r := Summarize(spans, w, bucketSeconds,
                               BuildBuckets(SortedKeys(totals.Keys), totals, bucketSeconds),
                               SpanSeconds(spans), inWindowSeconds, contributing);
            r.Ok? && IsBucketing(spans, w, bucketSeconds, r.value)
  {
    BuiltDistribution(totals, spans, w, bucketSeconds);
    var built := BuildBuckets(SortedKeys(totals.Keys), totals, bucketSeconds);
    BucketsHoldWindow(spans, w, bucketSeconds * 1_000_000, built.value);
    OrderedSpansAreDisjoint(spans);
    MeasuresAgree(spans, w, w.start, w.end);
  }

  // ----- The algorithm

  /** The segment starting at `from` ends inside its cell, and where it ends the next cell begins
      unless the clipped span is finished. */
  lemma SegmentFits(from: int, end: int, size: int)
    requires size > 0 && from < end
    ensures var to := Min(Floor(from, size) + size, end);
            from < to <= end && (to == end || Aligned(to, size))
  {
    FloorIsAligned(from, size);
    NextCell(Floor(from, size), size);
  }

  /** The loop over the spans: clip each one and book it cell by cell. */
  method DistributeSpans(spans: seq<ObservedSpan>, windowStart: int, windowEnd: int, size: int)
    returns (totals: map<int, Total>, inWindowSeconds: real, contributing: nat)
    requires windowStart < windowEnd && size > 0
    ensures var w := Window(windowStart, windowEnd);
            && Describes(totals, spans, w, size)
            && inWindowSeconds == Seconds(OverlapTotal(spans, w, windowStart, windowEnd))
            && contributing == SpansMeeting(spans, w, windowStart, windowEnd)
  {
    totals, inWindowSeconds, contributing := map[], 0.0, 0;
    ghost var w := Window(windowStart, windowEnd);
    for i := 0 to |spans|
      invariant Describes(totals, spans[..i], w, size)
      invariant inWindowSeconds == Seconds(OverlapTotal(spans[..i], w, windowStart, windowEnd))
      invariant contributing == SpansMeeting(spans[..i], w, windowStart, windowEnd)
    {
      ghost var done := spans[..i];
      assert spans[..i + 1] == done + [spans[i]];
      var clippedStart := Max(spans[i].startAt, windowStart);
      var clippedEnd := Min(spans[i].endAt, windowEnd);
      if clippedStart >= clippedEnd {
        SkippedSpan(totals, done, spans[i], w, size);
        continue;
      }
      contributing := contributing + 1;
      inWindowSeconds := inWindowSeconds + Seconds(clippedEnd - clippedStart);
      var currentStart := clippedStart;
      SkippedSpan(totals, done, Part(clippedStart, currentStart), w, size);
      while currentStart < clippedEnd
        invariant clippedStart <= currentStart <= clippedEnd
        invariant currentStart == clippedStart || currentStart == clippedEnd || Aligned(currentStart, size)
        invariant Describes(totals, done + [Part(clippedStart, currentStart)], w, size)
        decreases clippedEnd - currentStart
      {
        var bucketStart := Floor(currentStart, size);
        var bucketEnd := bucketStart + size;
        var segmentEnd := Min(bucketEnd, clippedEnd);
        SegmentFits(currentStart, clippedEnd, size);
        SegmentBooked(totals, done, w, size, clippedStart, currentStart, segmentEnd);
        totals := AddSegment(totals, bucketStart, Seconds(segmentEnd - currentStart));
        currentStart := segmentEnd;
      }
      FinishedSpan(totals, done, spans[i], w, size);
    }
    assert spans[..|spans|] == spans;
  }

  method BucketObservedTime(spans: seq<ObservedSpan>, windowStart: int, windowEnd: int, bucketSeconds: int)
    returns (r: Result<BucketingResult, BucketingError>)
    ensures windowEnd <= windowStart ==> r == Err(EmptyWindow)
    ensures windowStart < windowEnd && bucketSeconds <= 0 ==> r == Err(BucketSecondsNotPositive)
    ensures windowStart < windowEnd && 0 < bucketSeconds && !ValidSpans(spans) ==>
              exists i :: 0 <= i < |spans| && SpanError(spans, i).Some? && r == Err(SpanError(spans, i).value)
                          && forall j :: 0 <= j < i ==> SpanError(spans, j).None?
    ensures windowStart < windowEnd && 0 < bucketSeconds && ValidSpans(spans) ==>
              r.Ok? && IsBucketing(spans, Window(windowStart, windowEnd), bucketSeconds, r.value)
  {
    if windowEnd <= windowStart {
      return Err(EmptyWindow);
    }
    if bucketSeconds <= 0 {
      return Err(BucketSecondsNotPositive);
    }
    var spanError := ValidateSpans(spans);
    if spanError.Some? {
      return Err(spanError.value);
    }
    var w := Window(windowStart, windowEnd);
    var totals, inWindowSeconds, contributing :=
      DistributeSpans(spans, windowStart, windowEnd, bucketSeconds * 1_000_000);
    var built := BuildBuckets(SortedKeys(totals.Keys), totals, bucketSeconds);
    r := Summarize(spans, w, bucketSeconds, built, SpanSeconds(spans), inWindowSeconds, contributing);
    SummaryIsBucketing(spans, w, bucketSeconds, totals, inWindowSeconds, contributing);
  }
}
