/** `statistics.median` over exact reals, and the two facts the cadence estimator rests on:
    a median depends only on the multiset of its data, and a strict majority of the data
    confines it. */
module Medians {

  predicate Sorted(s: seq<real>) {
    forall i, j :: 0 <= i < j < |s| ==> s[i] <= s[j]
  }

  function Insert(x: real, s: seq<real>): (r: seq<real>)
    ensures |r| == |s| + 1
  {
    if s == [] then [x]
    else if x <= s[0] then [x] + s
    else [s[0]] + Insert(x, s[1..])
  }

  function Sort(s: seq<real>): (r: seq<real>)
    ensures |r| == |s|
  {
    if s == [] then [] else Insert(s[0], Sort(s[1..]))
  }

  /** Rearranging data above a floor, with one more element above it, stays above it. */
  lemma FloorCarries(r: seq<real>, s: seq<real>, x: real, floor: real)
    requires multiset(r) == multiset(s) + multiset{x}
    requires floor <= x && forall i :: 0 <= i < |s| ==> floor <= s[i]
    ensures forall i :: 0 <= i < |r| ==> floor <= r[i]
  {
    forall i | 0 <= i < |r| ensures floor <= r[i] {
      assert r[i] in multiset(r);
      if r[i] != x {
        assert r[i] in multiset(s);
      }
    }
  }

  lemma {:induction false} InsertKeepsData(x: real, s: seq<real>)
    ensures multiset(Insert(x, s)) == multiset(s) + multiset{x}
  {
    if s != [] && s[0] < x {
      var rest := Insert(x, s[1..]);
      InsertKeepsData(x, s[1..]);
      assert Insert(x, s) == [s[0]] + rest;
      assert s == [s[0]] + s[1..];
    }
  }

  lemma {:induction false} InsertSorts(x: real, s: seq<real>)
    requires Sorted(s)
    ensures Sorted(Insert(x, s))
  {
    if s != [] && s[0] < x {
      var rest := Insert(x, s[1..]);
      InsertSorts(x, s[1..]);
      InsertKeepsData(x, s[1..]);
      FloorCarries(rest, s[1..], x, s[0]);
      ConsSorts(s[0], rest);
    } else if s != [] {
      ConsSorts(x, s);
    }
  }

  lemma ConsSorts(x: real, s: seq<real>)
    requires Sorted(s) && forall i :: 0 <= i < |s| ==> x <= s[i]
    ensures Sorted([x] + s)
  {
  }

  lemma {:induction false} SortSorts(s: seq<real>)
    ensures Sorted(Sort(s)) && multiset(Sort(s)) == multiset(s)
  {
    if s != [] {
      SortSorts(s[1..]);
      InsertSorts(s[0], Sort(s[1..]));
      InsertKeepsData(s[0], Sort(s[1..]));
      assert s == [s[0]] + s[1..];
    }
  }

  /** The middle element of the sorted data, or the mean of the two middle ones. */
  function Median(s: seq<real>): real
    requires |s| > 0
  {
    var sorted := Sort(s);
    var n := |s|;
    if n % 2 == 1 then sorted[n / 2] else (sorted[n / 2 - 1] + sorted[n / 2]) / 2.0
  }

  lemma HeadIsLeast(a: seq<real>, b: seq<real>)
    requires Sorted(a) && multiset(a) == multiset(b) && |a| > 0 && |b| > 0
    ensures a[0] <= b[0]
  {
    assert b[0] in multiset(a);
    var i :| 0 <= i < |a| && a[i] == b[0];
  }

  lemma TailData(a: seq<real>)
    requires |a| > 0
    ensures multiset(a[1..]) == multiset(a) - multiset{a[0]}
  {
    assert a == [a[0]] + a[1..];
  }

  lemma {:induction false} SortedPermutationsAgree(a: seq<real>, b: seq<real>)
    requires Sorted(a) && Sorted(b) && multiset(a) == multiset(b)
    ensures a == b
  {
    assert |a| == |multiset(a)| == |multiset(b)| == |b|;
    if a != [] {
      HeadIsLeast(a, b);
      HeadIsLeast(b, a);
      TailData(a);
      TailData(b);
      SortedPermutationsAgree(a[1..], b[1..]);
      assert a == [a[0]] + a[1..] && b == [b[0]] + b[1..];
    }
  }

  /** The median sees its data as a multiset: rearranging them changes nothing. */
  lemma MedianIsPermutationInvariant(a: seq<real>, b: seq<real>)
    requires |a| > 0 && multiset(a) == multiset(b)
    ensures |b| == |a| && Median(a) == Median(b)
  {
    assert |multiset(a)| == |multiset(b)|;
    SortSorts(a);
    SortSorts(b);
    SortedPermutationsAgree(Sort(a), Sort(b));
  }

  // ----- Counting the data inside a band

  function Within(x: real, lo: real, hi: real): nat {
    if lo <= x <= hi then 1 else 0
  }

  function CountWithin(s: seq<real>, lo: real, hi: real): (n: nat)
    ensures n <= |s|
  {
    if s == [] then 0 else Within(s[0], lo, hi) + CountWithin(s[1..], lo, hi)
  }

  lemma {:induction false} CountSplits(a: seq<real>, b: seq<real>, lo: real, hi: real)
    ensures CountWithin(a + b, lo, hi) == CountWithin(a, lo, hi) + CountWithin(b, lo, hi)
  {
    if a == [] {
      assert a + b == b;
    } else {
      assert (a + b)[1..] == a[1..] + b;
      CountSplits(a[1..], b, lo, hi);
    }
  }

  lemma {:induction false} CountNone(s: seq<real>, lo: real, hi: real)
    requires forall i :: 0 <= i < |s| ==> s[i] < lo || hi < s[i]
    ensures CountWithin(s, lo, hi) == 0
  {
    if s != [] {
      CountNone(s[1..], lo, hi);
    }
  }

  lemma {:induction false} CountAll(s: seq<real>, lo: real, hi: real)
    requires forall i :: 0 <= i < |s| ==> lo <= s[i] <= hi
    ensures CountWithin(s, lo, hi) == |s|
  {
    if s != [] {
      CountAll(s[1..], lo, hi);
    }
  }

  lemma {:induction false} InsertCounts(x: real, s: seq<real>, lo: real, hi: real)
    requires Sorted(s)
    ensures CountWithin(Insert(x, s), lo, hi) == Within(x, lo, hi) + CountWithin(s, lo, hi)
  {
    if s == [] {
      assert [x][1..] == [];
    } else if x <= s[0] {
      assert ([x] + s)[1..] == s;
    } else {
      var rest := Insert(x, s[1..]);
      assert ([s[0]] + rest)[1..] == rest;
      InsertCounts(x, s[1..], lo, hi);
    }
  }

  lemma {:induction false} SortCounts(s: seq<real>, lo: real, hi: real)
    ensures CountWithin(Sort(s), lo, hi) == CountWithin(s, lo, hi)
  {
    if s != [] {
      SortCounts(s[1..], lo, hi);
      SortSorts(s[1..]);
      InsertCounts(s[0], Sort(s[1..]), lo, hi);
    }
  }

  /** In sorted data, an element left of the band puts everything before it outside too. */
  lemma BelowBand(s: seq<real>, k: nat, lo: real, hi: real)
    requires Sorted(s) && k < |s| && s[k] < lo
    ensures CountWithin(s, lo, hi) <= |s| - k - 1
  {
    var low := s[..k + 1];
    assert s == low + s[k + 1..];
    CountSplits(low, s[k + 1..], lo, hi);
    forall i | 0 <= i < |low| ensures low[i] < lo {
      assert i == k || s[i] <= s[k];
    }
    CountNone(low, lo, hi);
  }

  lemma AboveBand(s: seq<real>, k: nat, lo: real, hi: real)
    requires Sorted(s) && k < |s| && hi < s[k]
    ensures CountWithin(s, lo, hi) <= k
  {
    var high := s[k..];
    assert s == s[..k] + high;
    CountSplits(s[..k], high, lo, hi);
    forall i | 0 <= i < |high| ensures hi < high[i] {
      assert i == 0 || s[k] <= s[k + i];
    }
    CountNone(high, lo, hi);
  }

  /** Breakdown point: a strict majority of the data inside [lo, hi] forces the median inside,
      wherever the minority lies. */
  lemma MajorityConfinesMedian(s: seq<real>, lo: real, hi: real)
    requires 2 * CountWithin(s, lo, hi) > |s|
    ensures |s| > 0 && lo <= Median(s) <= hi
  {
    var sorted, n := Sort(s), |s|;
    SortCounts(s, lo, hi);
    SortSorts(s);
    var left := if n % 2 == 1 then n / 2 else n / 2 - 1;
    if sorted[left] < lo {
      BelowBand(sorted, left, lo, hi);
    }
    if hi < sorted[n / 2] {
      AboveBand(sorted, n / 2, lo, hi);
    }
    assert left == n / 2 || sorted[left] <= sorted[n / 2];
  }

  /** The majority bound is tight: with exactly half the data in the band the median can leave it. */
  lemma HalfIsNotEnough()
    ensures 2 * CountWithin([1.0, 9.0], 1.0, 2.0) == 2 && Median([1.0, 9.0]) > 2.0
  {
    assert Insert(9.0, []) == [9.0];
    assert [1.0, 9.0][1..] == [9.0] && [9.0][1..] == [];
    assert Sort([9.0]) == [9.0];
    assert Sort([1.0, 9.0]) == [1.0, 9.0];
    assert CountWithin([9.0], 1.0, 2.0) == 0;
  }

  lemma MedianOfPositives(s: seq<real>)
    requires |s| > 0 && forall i :: 0 <= i < |s| ==> 0.0 < s[i]
    ensures 0.0 < Median(s)
  {
    var sorted := Sort(s);
    SortSorts(s);
    forall i | 0 <= i < |sorted| ensures 0.0 < sorted[i] {
      assert sorted[i] in multiset(sorted);
      assert sorted[i] in multiset(s);
    }
  }
}
