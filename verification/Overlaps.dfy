/** Two ways to measure how much of a cell is observed: arithmetic on interval ends, and counting
    microseconds one by one. For ordered spans they agree. */
module Overlaps {
  import opened Basics
  import opened ObservedTime

  datatype Window = Window(start: int, end: int)

  // ----- Epoch-aligned cells

  /** Start of the cell of `size` microseconds holding t; the division rounds towards minus
      infinity, so instants before 1970 are treated alike. */
  function Floor(t: int, size: int): int
    requires size > 0
  {
    t / size * size
  }

  predicate Aligned(c: int, size: int)
    requires size > 0
  {
    Floor(c, size) == c
  }

  lemma Multiples(m: int, size: int)
    requires size > 0
    ensures m >= 1 ==> m * size >= size
    ensures m <= -1 ==> m * size <= -size
  {
  }

  lemma MultipleIsAligned(k: int, size: int)
    requires size > 0
    ensures Aligned(k * size, size)
  {
    var q := k * size / size;
    assert k * size == q * size + k * size % size;
    assert (k - q) * size == k * size - q * size;
    Multiples(k - q, size);
  }

  lemma FloorIsAligned(t: int, size: int)
    requires size > 0
    ensures Aligned(Floor(t, size), size) && Floor(t, size) <= t < Floor(t, size) + size
  {
    MultipleIsAligned(t / size, size);
  }

  /** Two aligned cells are the same or do not overlap. */
  lemma AlignedCells(a: int, b: int, size: int)
    requires size > 0 && Aligned(a, size) && Aligned(b, size)
    ensures a == b || a + size <= b || b + size <= a
  {
    CellIndices(a / size, b / size, size);
  }

  lemma CellIndices(p: int, q: int, size: int)
    requires size > 0
    ensures p * size == q * size || p * size + size <= q * size || q * size + size <= p * size
  {
    Multiples(p - q, size);
    assert (p - q) * size == p * size - q * size;
  }

  lemma NextCell(c: int, size: int)
    requires size > 0 && Aligned(c, size)
    ensures Aligned(c + size, size)
  {
    assert (c / size + 1) * size == c + size;
    MultipleIsAligned(c / size + 1, size);
  }

  // ----- Arithmetic measure

  /** Microseconds of [lo, hi) lying in the window and in the span. */
  function Overlap(s: ObservedSpan, w: Window, lo: int, hi: int): nat {
    Max(0, Min(Min(s.endAt, w.end), hi) - Max(Max(s.startAt, w.start), lo))
  }

  function OverlapTotal(spans: seq<ObservedSpan>, w: Window, lo: int, hi: int): nat {
    if spans == [] then 0
    else OverlapTotal(spans[..|spans| - 1], w, lo, hi) + Overlap(spans[|spans| - 1], w, lo, hi)
  }

  /** Number of spans meeting [lo, hi) inside the window with positive length. */
  function SpansMeeting(spans: seq<ObservedSpan>, w: Window, lo: int, hi: int): nat {
    if spans == [] then 0
    else
      SpansMeeting(spans[..|spans| - 1], w, lo, hi)
      + if Overlap(spans[|spans| - 1], w, lo, hi) > 0 then 1 else 0
  }

  lemma OneMore(spans: seq<ObservedSpan>, s: ObservedSpan, w: Window, lo: int, hi: int)
    ensures OverlapTotal(spans + [s], w, lo, hi)
            == OverlapTotal(spans, w, lo, hi) + Overlap(s, w, lo, hi)
    ensures SpansMeeting(spans + [s], w, lo, hi)
            == SpansMeeting(spans, w, lo, hi) + if Overlap(s, w, lo, hi) > 0 then 1 else 0
  {
    assert (spans + [s])[..|spans|] == spans;
  }

  lemma {:induction false} OverlapSplits(spans: seq<ObservedSpan>, w: Window, lo: int, mid: int, hi: int)
    requires lo <= mid <= hi
    ensures OverlapTotal(spans, w, lo, hi)
            == OverlapTotal(spans, w, lo, mid) + OverlapTotal(spans, w, mid, hi)
  {
    if spans != [] {
      OverlapSplits(spans[..|spans| - 1], w, lo, mid, hi);
    }
  }

  // ----- Pointwise measure

  predicate Holds(s: ObservedSpan, t: int) {
    s.startAt <= t < s.endAt
  }

  /** Microsecond t lies in the window and in some span. */
  ghost predicate Observed(spans: seq<ObservedSpan>, w: Window, t: int) {
    w.start <= t < w.end && exists i :: 0 <= i < |spans| && Holds(spans[i], t)
  }

  /** How many microseconds of [lo, hi) are observed. */
  ghost function ObservedMicros(spans: seq<ObservedSpan>, w: Window, lo: int, hi: int): (n: nat)
    ensures n <= Max(0, hi - lo)
    decreases hi - lo
  {
    if hi <= lo then 0
    else ObservedMicros(spans, w, lo, hi - 1) + if Observed(spans, w, hi - 1) then 1 else 0
  }

  lemma {:induction false} MicrosSplit(spans: seq<ObservedSpan>, w: Window, lo: int, mid: int, hi: int)
    requires lo <= mid <= hi
    ensures ObservedMicros(spans, w, lo, hi)
            == ObservedMicros(spans, w, lo, mid) + ObservedMicros(spans, w, mid, hi)
    decreases hi - mid
  {
    if mid < hi {
      MicrosSplit(spans, w, lo, mid, hi - 1);
    }
  }

  /** Spans in order, each starting no earlier than the previous one ends. */
  predicate Disjoint(spans: seq<ObservedSpan>) {
    forall i, j :: 0 <= i < j < |spans| ==> spans[i].endAt <= spans[j].startAt
  }

  lemma {:induction false} OneMicro(spans: seq<ObservedSpan>, w: Window, t: int)
    requires Disjoint(spans)
    ensures OverlapTotal(spans, w, t, t + 1) == if Observed(spans, w, t) then 1 else 0
  {
    if spans != [] {
      var n := |spans| - 1;
      OneMicro(spans[..n], w, t);
      assert Holds(spans[n], t) ==> forall i :: 0 <= i < n ==> !Holds(spans[i], t);
      if w.start <= t < w.end && Observed(spans[..n], w, t) {
        var i :| 0 <= i < n && Holds(spans[..n][i], t);
        assert Holds(spans[i], t);
      }
      if Observed(spans, w, t) && !Holds(spans[n], t) {
        var i :| 0 <= i < |spans| && Holds(spans[i], t);
        assert Holds(spans[..n][i], t);
      }
    }
  }

  lemma {:induction false} MeasuresAgree(spans: seq<ObservedSpan>, w: Window, lo: int, hi: int)
    requires Disjoint(spans) && lo <= hi
    ensures OverlapTotal(spans, w, lo, hi) == ObservedMicros(spans, w, lo, hi)
    decreases hi - lo
  {
    if lo < hi {
      MeasuresAgree(spans, w, lo, hi - 1);
      OneMicro(spans, w, hi - 1);
      OverlapSplits(spans, w, lo, hi - 1, hi);
    } else {
      NoWidth(spans, w, lo);
    }
  }

  lemma {:induction false} NoWidth(spans: seq<ObservedSpan>, w: Window, lo: int)
    ensures OverlapTotal(spans, w, lo, lo) == 0
  {
    if spans != [] {
      NoWidth(spans[..|spans| - 1], w, lo);
    }
  }
}
