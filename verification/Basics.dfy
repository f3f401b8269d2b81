/** Vocabulary shared by every module: optional values, fallible results, timestamps and seconds.

    A naive UTC datetime is the number of whole microseconds since 1970-01-01, possibly negative.
    A duration in seconds is an exact real, so floating-point rounding is not modelled; the
    tolerances of `isclose` are. */
module Basics {

  datatype Option<+T> = None | Some(value: T)

  datatype Result<+T, +E> = Ok(value: T) | Err(error: E)

  /** Length in seconds of a whole number of microseconds (`timedelta.total_seconds`). */
  function Seconds(micros: int): real {
    micros as real / 1000000.0
  }

  function Max(a: int, b: int): int { if a < b then b else a }

  function Min(a: int, b: int): int { if b < a then b else a }

  function MaxReal(a: real, b: real): real { if a < b then b else a }

  function AbsReal(a: real): real { if a < 0.0 then -a else a }

  /** `math.isclose` with the tolerances used throughout: rel_tol=1e-9, abs_tol=1e-6. */
  predicate IsClose(a: real, b: real) {
    AbsReal(a - b) <= MaxReal(0.000000001 * MaxReal(AbsReal(a), AbsReal(b)), 0.000001)
  }

  /** The keys of a dictionary in increasing order (`sorted`). */
  function SortedKeys(keys: set<int>): (r: seq<int>)
    ensures forall i, j :: 0 <= i < j < |r| ==> r[i] < r[j]
    ensures forall k :: k in r <==> k in keys
  {
    if |keys| == 0 then []
    else
      LeastExists(keys);
      var k :| k in keys && forall x :: x in keys ==> k <= x;
      [k] + SortedKeys(keys - {k})
  }

  lemma Pick<T>(s: set<T>) returns (x: T)
    requires |s| > 0
    ensures x in s
  {
    x :| x in s;
  }

  lemma {:induction false} LeastExists(keys: set<int>)
    requires |keys| > 0
    ensures exists k :: k in keys && forall x :: x in keys ==> k <= x
  {
    var k := Pick(keys);
    var smaller := keys - {k};
    if |smaller| > 0 {
      LeastExists(smaller);
      var m :| m in smaller && forall x :: x in smaller ==> m <= x;
      forall x | x in keys ensures Min(k, m) <= x {
        assert x == k || x in smaller;
      }
      assert Min(k, m) in keys;
    } else {
      assert forall x :: x in keys ==> x == k || x in smaller;
    }
  }
}
