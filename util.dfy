// Median and inter-quartile range of sorted data, in the two forms the
// repository carries: the original one, whose inter-quartile range copies each
// half into a scratch vector before taking its median, and the rewritten one
// that indexes the sorted data directly and halves with a right shift.
// Doubles are modelled as reals; halving and scaling by 0.5 are exact in both.

module Util {

  /** Largest value of the 32-bit `int` the sizes are held in. */
  const IntMax: int := 0x7fff_ffff

  ghost predicate Sorted(s: seq<real>) {
    forall i, j :: 0 <= i <= j < |s| ==> s[i] <= s[j]
  }

  // ---------------------------------------------------------------------------
  // The original form.
  // ---------------------------------------------------------------------------

  /**
   * Median of the first `n` entries of sorted data: 0 for no entries,
   * otherwise the mean of the two middle entries, which coincide when `n` is
   * odd.
   */
  function Median(sortedData: seq<real>, n: int): (r: real)
    requires 0 <= n <= |sortedData|
    ensures n == 0 ==> r == 0.0
    ensures n > 0 ==> r == (sortedData[(n - 1) / 2] + sortedData[n / 2]) / 2.0
    ensures n % 2 == 1 ==> r == sortedData[(n - 1) / 2]
  {
    if n == 0 then 0.0
    else
      var lhs := (n - 1) / 2;
      var rhs := n / 2;
      if lhs == rhs then sortedData[lhs]
      else (sortedData[lhs] + sortedData[rhs]) / 2.0
  }

  /** The entries the lower quartile is taken over. */
  function LowerHalf(s: seq<real>): (r: seq<real>)
    ensures |r| == |s| / 2 && r == s[..|s| / 2]
  {
    s[..(|s| + 2) / 2 - 1]
  }

  /** The entries the upper quartile is taken over. */
  function UpperHalf(s: seq<real>): (r: seq<real>)
    ensures |r| == |s| / 2 && r == s[|s| - |s| / 2..]
  {
    s[(|s| + 1) / 2..]
  }

  /** Upper quartile minus lower quartile, each the median of its half. */
  function Iqr(s: seq<real>): real {
    Median(UpperHalf(s), |UpperHalf(s)|) - Median(LowerHalf(s), |LowerHalf(s)|)
  }

  /**
   * The original inter-quartile range: copies the first `(size+2)/2 - 1`
   * entries into a scratch vector and takes its median, then does the same
   * for the entries from `(size+1)/2` on.
   */
  method InterQuartileRange(sortedData: array<real>, size: int) returns (r: real)
    requires 0 <= size <= sortedData.Length && size <= IntMax - 2
    ensures r == Iqr(sortedData[..size])
  {
    var medianIndex := (size + 2) / 2;
    assert medianIndex - 1 == size / 2;
    var subset: seq<real> := [];
    for i := 0 to medianIndex - 1
      invariant subset == sortedData[..i]
    {
      subset := subset + [sortedData[i]];
    }
    assert subset == LowerHalf(sortedData[..size]);
    var q1 := Median(subset, |subset|);

    medianIndex := (size + 1) / 2;
    assert medianIndex == size - size / 2;
    subset := [];
    for i := medianIndex to size
      invariant subset == sortedData[medianIndex..i]
    {
      subset := subset + [sortedData[i]];
    }
    assert subset == UpperHalf(sortedData[..size]);
    var q3 := Median(subset, |subset|);
    return q3 - q1;
  }

  /** The median of sorted data lies between its smallest and largest entry. */
  lemma MedianBounds(s: seq<real>, n: int)
    requires Sorted(s) && 0 < n <= |s|
    ensures s[0] <= Median(s, n) <= s[n - 1]
  {
  }

  /** With fewer than two entries both halves are empty and the range is 0. */
  lemma IqrOfTiny(s: seq<real>)
    requires |s| <= 1
    ensures Iqr(s) == 0.0
  {
    assert |LowerHalf(s)| == 0 && |UpperHalf(s)| == 0;
  }

  /** On sorted data the inter-quartile range is never negative. */
  lemma IqrNonNegative(s: seq<real>)
    requires Sorted(s)
    ensures Iqr(s) >= 0.0
  {
    if |s| <= 1 {
      IqrOfTiny(s);
    } else {
      var lo, hi := LowerHalf(s), UpperHalf(s);
      var k := |s| / 2;
      assert k - 1 < |s| - k;
      MedianBounds(lo, |lo|);
      MedianBounds(hi, |hi|);
      assert lo[|lo| - 1] == s[k - 1] && hi[0] == s[|s| - k];
      assert s[k - 1] <= s[|s| - k];
    }
  }

  // ---------------------------------------------------------------------------
  // The rewritten form.
  // ---------------------------------------------------------------------------

  /**
   * `x >> k` on a non-negative `int`: `k` times the integer part of half,
   * which is how C++ defines a right shift of a non-negative value.
   */
  function ShiftRight(x: nat, k: nat): (r: nat)
    ensures r <= x
    ensures k > 0 ==> r <= x / 2
  {
    if k == 0 then x else ShiftRight(x / 2, k - 1)
  }

  lemma ShiftRightOnce(x: nat)
    ensures ShiftRight(x, 1) == x / 2
  {
    assert ShiftRight(x / 2, 0) == x / 2;
  }

  /** The rewritten median: halves by shifting and scales by 0.5. */
  function FastMedian(sortedData: seq<real>, n: int): real
    requires 0 <= n <= |sortedData| && n <= IntMax
  {
    if n == 0 then 0.0
    else
      var lhs := ShiftRight(n - 1, 1);
      var rhs := ShiftRight(n, 1);
      if lhs == rhs then sortedData[lhs]
      else (sortedData[lhs] + sortedData[rhs]) * 0.5
  }

  /** Both medians agree for every count. */
  lemma FastMedianAgrees(s: seq<real>, n: int)
    requires 0 <= n <= |s| && n <= IntMax
    ensures FastMedian(s, n) == Median(s, n)
  {
    if n > 0 {
      ShiftRightOnce(n - 1);
      ShiftRightOnce(n);
    }
  }

  /**
   * The block both rewritten quartiles share: the median of the `n >= 2`
   * entries from `start` on, read in place.
   */
  function InPlaceMedian(sortedData: seq<real>, start: nat, n: nat): real
    requires start + n <= |sortedData| && 2 <= n
  {
    var lhs := ShiftRight(n - 1, 1);
    var rhs := ShiftRight(n, 1);
    if lhs == rhs then sortedData[start + lhs]
    else (sortedData[start + lhs] + sortedData[start + rhs]) * 0.5
  }

  /** The rewritten lower quartile, taken over the first `(size+2)/2 - 1` entries. */
  function FastQ1(sortedData: seq<real>, size: int): real
    requires 0 < size <= |sortedData| && size <= IntMax - 2
  {
    var q1Size := (size + 2) / 2 - 1;
    if q1Size <= 0 then sortedData[0]
    else if q1Size == 1 then sortedData[0]
    else InPlaceMedian(sortedData, 0, q1Size)
  }

  /** The rewritten upper quartile, taken over the entries from `(size+1)/2` on. */
  function FastQ3(sortedData: seq<real>, size: int): real
    requires 0 < size <= |sortedData| && size <= IntMax - 2
  {
    var q3Start := (size + 1) / 2;
    var q3Size := size - q3Start;
    if q3Size <= 0 then sortedData[size - 1]
    else if q3Size == 1 then sortedData[q3Start]
    else InPlaceMedian(sortedData, q3Start, q3Size)
  }

  /**
   * The rewritten inter-quartile range: takes both medians in place, with
   * separate cases for halves of at most one entry.
   */
  function FastIqr(sortedData: seq<real>, size: int): real
    requires 0 <= size <= |sortedData| && size <= IntMax - 2
  {
    if size == 0 then 0.0
    else FastQ3(sortedData, size) - FastQ1(sortedData, size)
  }

  /** The rewritten range reads nothing at or beyond index `size`. */
  lemma FastIqrReadsPrefix(s: seq<real>, size: int)
    requires 0 <= size <= |s| && size <= IntMax - 2
    ensures FastIqr(s, size) == FastIqr(s[..size], size)
  {
    var t := s[..size];
    assert forall i :: 0 <= i < size ==> t[i] == s[i];
  }

  /**
   * Read in place, the median of the `n` entries from `start` on is the
   * original median of those entries copied out.
   */
  lemma InPlaceMedianAgrees(s: seq<real>, start: nat, n: nat)
    requires start + n <= |s| && 2 <= n
    ensures InPlaceMedian(s, start, n) == Median(s[start..start + n], n)
  {
    ShiftRightOnce(n - 1);
    ShiftRightOnce(n);
    var w := s[start..start + n];
    assert w[(n - 1) / 2] == s[start + (n - 1) / 2] && w[n / 2] == s[start + n / 2];
  }

  /** For two or more entries the rewritten lower quartile is the original one. */
  lemma FastQ1Agrees(s: seq<real>, size: int)
    requires 2 <= size <= |s| && size <= IntMax - 2
    ensures FastQ1(s, size) == Median(LowerHalf(s[..size]), size / 2)
  {
    var k := size / 2;
    assert (size + 2) / 2 - 1 == k;
    assert LowerHalf(s[..size]) == s[0..0 + k];
    if k == 1 {
      assert FastQ1(s, size) == s[0] == Median(s[0..0 + k], k);
    } else {
      InPlaceMedianAgrees(s, 0, k);
    }
  }

  /** For two or more entries the rewritten upper quartile is the original one. */
  lemma FastQ3Agrees(s: seq<real>, size: int)
    requires 2 <= size <= |s| && size <= IntMax - 2
    ensures FastQ3(s, size) == Median(UpperHalf(s[..size]), size / 2)
  {
    var k := size / 2;
    var start := (size + 1) / 2;
    assert size == 2 * k || size == 2 * k + 1;
    assert start + k == size;
    assert UpperHalf(s[..size]) == s[start..start + k];
    if k == 1 {
      assert FastQ3(s, size) == s[start] == Median(s[start..start + k], k);
    } else {
      InPlaceMedianAgrees(s, start, k);
    }
  }

  /** Both ranges agree for every size, including the empty and single-entry cases. */
  lemma FastIqrAgrees(s: seq<real>, size: int)
    requires 0 <= size <= |s| && size <= IntMax - 2
    ensures FastIqr(s, size) == Iqr(s[..size])
  {
    if size == 0 {
      IqrOfTiny(s[..size]);
    } else if size == 1 {
      assert FastQ1(s, size) == s[0] == FastQ3(s, size);
      IqrOfTiny(s[..size]);
    } else {
      FastQ1Agrees(s, size);
      FastQ3Agrees(s, size);
    }
  }

  /** Sizes 0 and 1 give a range of 0 in the rewritten form too. */
  lemma FastIqrOfTiny(s: seq<real>, size: int)
    requires 0 <= size <= |s| && size <= 1
    ensures FastIqr(s, size) == 0.0
  {
  }
}
