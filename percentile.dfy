/** The percentile walk of `calc_distribution_get_tenpercentile` (nsi_grids.py): a target
    count is taken as a percentage of the land cells, and the cumulative histogram, started
    at the second bin, is walked until it exceeds the target. The histogram itself is an
    input. */
module Percentile {
  import opened Wrappers

  /** Python's `int()` on a float: truncation toward zero. */
  function Trunc(x: real): (n: int)
    ensures x >= 0.0 ==> 0 <= n && n as real <= x < n as real + 1.0
    ensures x < 0.0 ==> n <= 0 && n as real - 1.0 < x <= n as real
  {
    if x >= 0.0 then x.Floor else -((-x).Floor)
  }

  /** Truncation toward zero is monotone. */
  lemma TruncMonotone(x: real, y: real)
    requires x <= y
    ensures Trunc(x) <= Trunc(y)
  {
    if x < 0.0 && y >= 0.0 {
    } else if x < 0.0 {
      assert Trunc(x) as real - 1.0 < x <= y <= Trunc(y) as real;
    } else {
      assert Trunc(x) as real <= x <= y < Trunc(y) as real + 1.0;
    }
  }

  /** `int(count_land*percentile/100)`: for a non-negative percentile, the whole part of that
      share of the land cells. */
  function Target(countLand: nat, percentile: real): (n: int)
    ensures percentile >= 0.0 ==> 0 <= n && n as real <= countLand as real * percentile / 100.0 < n as real + 1.0
  {
    var x := countLand as real * percentile / 100.0;
    assert percentile >= 0.0 ==> countLand as real * percentile >= 0.0;
    Trunc(x)
  }

  /** With a non-negative count, a larger percentile never gives a smaller target. */
  lemma TargetMonotone(countLand: nat, p1: real, p2: real)
    requires p1 <= p2
    ensures Target(countLand, p1) <= Target(countLand, p2)
  {
    assert countLand as real * p1 <= countLand as real * p2;
    TruncMonotone(countLand as real * p1 / 100.0, countLand as real * p2 / 100.0);
  }

  /** `frequency[1] + ... + frequency[j-1]`: the accumulator after the pair ending at `bins[j]`. */
  function PrefixSum(freq: seq<int>, j: nat): int
    requires j <= |freq|
  {
    if j <= 1 then 0 else PrefixSum(freq, j - 1) + freq[j - 1]
  }

  /** One past the last index `j` the walk reaches: `zip(bins[2:], frequency[1:])` stops at the
      shorter of the two. */
  function Limit(freq: seq<int>, bins: seq<real>): (n: nat)
    ensures n <= |bins| && n <= |freq| + 1
    ensures n == |bins| || n == |freq| + 1
  {
    if |bins| < |freq| + 1 then |bins| else |freq| + 1
  }

  /** The index `j` (2 <= j < Limit) at which the walk stops: the least one whose prefix sum
      exceeds `target`, searched from `from` upward. */
  function SearchFrom(freq: seq<int>, bins: seq<real>, target: int, from: nat): (r: Option<nat>)
    requires 2 <= from
    ensures r.Some? ==> from <= r.value < Limit(freq, bins) && PrefixSum(freq, r.value) > target &&
                        forall j :: from <= j < r.value ==> PrefixSum(freq, j) <= target
    ensures r.None? ==> forall j :: from <= j < Limit(freq, bins) ==> PrefixSum(freq, j) <= target
    decreases Limit(freq, bins) - from
  {
    if from >= Limit(freq, bins) then None
    else if PrefixSum(freq, from) > target then Some(from)
    else SearchFrom(freq, bins, target, from + 1)
  }

  /** The index whose bin edge the walk returns, or None when the running sum never exceeds
      the target. */
  function WalkIndex(freq: seq<int>, bins: seq<real>, target: int): (r: Option<nat>)
    ensures r.Some? ==> 2 <= r.value < Limit(freq, bins) && PrefixSum(freq, r.value) > target &&
                        forall j :: 2 <= j < r.value ==> PrefixSum(freq, j) <= target
    ensures r.None? ==> forall j :: 2 <= j < Limit(freq, bins) ==> PrefixSum(freq, j) <= target
  {
    SearchFrom(freq, bins, target, 2)
  }

  /** The bin edge the walk returns. */
  function WalkResult(freq: seq<int>, bins: seq<real>, target: int): Option<real>
  {
    var i := WalkIndex(freq, bins, target);
    if i.Some? then Some(bins[i.value]) else None
  }

  /** The accumulator loop: `acc += f` for each pair of `zip(bins[2:], frequency[1:])`,
      returning the first bin edge at which `acc > target` and None when the pairs run out. */
  method Walk(freq: seq<int>, bins: seq<real>, target: int) returns (r: Option<real>)
    ensures r == WalkResult(freq, bins, target)
    ensures r.Some? <==> exists j :: 2 <= j < Limit(freq, bins) && PrefixSum(freq, j) > target
  {
    WalkStopsIffSomeSumExceeds(freq, bins, target);
    var acc := 0;
    var k := 0;
    while k + 2 < |bins| && k + 1 < |freq|
      invariant 0 <= k && (k == 0 || k + 2 <= Limit(freq, bins))
      invariant k + 1 <= |freq| ==> acc == PrefixSum(freq, k + 1)
      invariant forall j :: 2 <= j < k + 2 ==> PrefixSum(freq, j) <= target
    {
      acc := acc + freq[k + 1];
      if acc > target {
        assert 2 <= k + 2 < Limit(freq, bins) && PrefixSum(freq, k + 2) > target;
        assert WalkIndex(freq, bins, target) == Some(k + 2);
        return Some(bins[k + 2]);
      }
      k := k + 1;
    }
    assert Limit(freq, bins) <= k + 2;
    assert WalkIndex(freq, bins, target).None?;
    return None;
  }

  /** The walk stops exactly when some walked prefix sum exceeds the target. */
  lemma WalkStopsIffSomeSumExceeds(freq: seq<int>, bins: seq<real>, target: int)
    ensures WalkIndex(freq, bins, target).Some? <==>
              exists j :: 2 <= j < Limit(freq, bins) && PrefixSum(freq, j) > target
  {
    var i := WalkIndex(freq, bins, target);
    if i.Some? {
      assert 2 <= i.value < Limit(freq, bins) && PrefixSum(freq, i.value) > target;
    }
  }

  /** A larger target never makes the walk stop earlier; when it stops for the larger target it
      also stops for the smaller one. */
  lemma WalkMonotone(freq: seq<int>, bins: seq<real>, t1: int, t2: int)
    requires t1 <= t2
    ensures WalkIndex(freq, bins, t2).Some? ==>
              WalkIndex(freq, bins, t1).Some? && WalkIndex(freq, bins, t1).value <= WalkIndex(freq, bins, t2).value
  {
    var i1, i2 := WalkIndex(freq, bins, t1), WalkIndex(freq, bins, t2);
    if i2.Some? {
      assert PrefixSum(freq, i2.value) > t1;
    }
  }

  /** For a fixed land count, a larger percentile never selects an earlier bin. */
  lemma PercentileMonotone(freq: seq<int>, bins: seq<real>, countLand: nat, p1: real, p2: real)
    requires p1 <= p2
    ensures var i1, i2 := WalkIndex(freq, bins, Target(countLand, p1)), WalkIndex(freq, bins, Target(countLand, p2));
            i2.Some? ==> i1.Some? && i1.value <= i2.value
  {
    TargetMonotone(countLand, p1, p2);
    WalkMonotone(freq, bins, Target(countLand, p1), Target(countLand, p2));
  }

  /** With ascending bin edges (as a histogram's are), the returned edge is non-decreasing in
      the percentile. */
  lemma PercentileValueMonotone(freq: seq<int>, bins: seq<real>, countLand: nat, p1: real, p2: real)
    requires p1 <= p2
    requires forall i, j :: 0 <= i <= j < |bins| ==> bins[i] <= bins[j]
    ensures var v1, v2 := WalkResult(freq, bins, Target(countLand, p1)), WalkResult(freq, bins, Target(countLand, p2));
            v2.Some? ==> v1.Some? && v1.value <= v2.value
  {
    PercentileMonotone(freq, bins, countLand, p1, p2);
  }

  /** With non-negative frequencies the prefix sums never decrease. */
  lemma {:induction false} PrefixSumMonotone(freq: seq<int>, i: nat, j: nat)
    requires i <= j <= |freq|
    requires forall k :: 0 <= k < |freq| ==> freq[k] >= 0
    ensures PrefixSum(freq, i) <= PrefixSum(freq, j)
    decreases j - i
  {
    if i < j {
      PrefixSumMonotone(freq, i, j - 1);
    }
  }

  /** With non-negative frequencies the walk finds a bin exactly when there is at least one
      pair to walk and the whole walked sum exceeds the target. */
  lemma WalkFindsIffTotalExceeds(freq: seq<int>, bins: seq<real>, target: int)
    requires forall k :: 0 <= k < |freq| ==> freq[k] >= 0
    ensures WalkIndex(freq, bins, target).Some? <==>
              3 <= Limit(freq, bins) && PrefixSum(freq, Limit(freq, bins) - 1) > target
  {
    var last := Limit(freq, bins) - 1;
    var i := WalkIndex(freq, bins, target);
    if i.Some? {
      PrefixSumMonotone(freq, i.value, last);
    }
  }
}
