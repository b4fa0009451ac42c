/** Sums of consecutive frequencies, and the prefix-sum table that answers
    them in constant time. Keys are numbered 1..n; key k has frequency p[k-1]. */
module RangeSums {

  /** Every frequency is non-negative. */
  predicate NonNegative(p: seq<real>) {
    forall k | 0 <= k < |p| :: 0.0 <= p[k]
  }

  /** The total frequency of keys i..j; 0 for the empty range j == i - 1. */
  function RangeSum(p: seq<real>, i: int, j: int): real
    requires 1 <= i <= j + 1 <= |p| + 1
    decreases j - i
  {
    if i > j then 0.0 else RangeSum(p, i, j - 1) + p[j - 1]
  }

  /** A range splits into two adjacent sub-ranges at any point m. */
  lemma {:induction false} RangeSumSplit(p: seq<real>, i: int, m: int, j: int)
    requires 1 <= i <= m + 1 <= j + 1 <= |p| + 1
    ensures RangeSum(p, i, j) == RangeSum(p, i, m) + RangeSum(p, m + 1, j)
    decreases j - m
  {
    if m < j {
      RangeSumSplit(p, i, m, j - 1);
    }
  }

  /** Removing the root key k from i..j leaves the left and right ranges. */
  lemma RangeSumAroundKey(p: seq<real>, i: int, k: int, j: int)
    requires 1 <= i <= k <= j <= |p|
    ensures RangeSum(p, i, j) == RangeSum(p, i, k - 1) + p[k - 1] + RangeSum(p, k + 1, j)
  {
    RangeSumSplit(p, i, k - 1, j);
    RangeSumSplit(p, k, k, j);
  }

  /** With non-negative frequencies a range sum is non-negative. */
  lemma {:induction false} RangeSumNonNegative(p: seq<real>, i: int, j: int)
    requires NonNegative(p)
    requires 1 <= i <= j + 1 <= |p| + 1
    ensures 0.0 <= RangeSum(p, i, j)
    decreases j - i
  {
    if i <= j {
      RangeSumNonNegative(p, i, j - 1);
    }
  }

  /** With non-negative frequencies, a range weighs at least as much as any
      range it contains. */
  lemma RangeSumGrows(p: seq<real>, i: int, i': int, j': int, j: int)
    requires NonNegative(p)
    requires 1 <= i <= i' <= j' + 1 <= j + 1 <= |p| + 1
    ensures RangeSum(p, i', j') <= RangeSum(p, i, j)
  {
    RangeSumSplit(p, i, i' - 1, j);
    RangeSumSplit(p, i', j', j);
    RangeSumNonNegative(p, i, i' - 1);
    RangeSumNonNegative(p, j' + 1, j);
  }

  /** `prefix` holds the cumulative sums of `p`: entry k is the total
      frequency of keys 1..k. */
  predicate PrefixSumsOf(p: seq<real>, prefix: seq<real>) {
    |prefix| == |p| + 1 && forall k | 0 <= k <= |p| :: prefix[k] == RangeSum(p, 1, k)
  }

  /** A range sum is the difference of two cumulative sums. */
  lemma PrefixDifference(p: seq<real>, prefix: seq<real>, i: int, j: int)
    requires PrefixSumsOf(p, prefix)
    requires 1 <= i <= j + 1 <= |p| + 1
    ensures prefix[j] - prefix[i - 1] == RangeSum(p, i, j)
  {
    RangeSumSplit(p, 1, i - 1, j);
  }

  /** Builds the cumulative sums of `p`: entry k is the total frequency of
      keys 1..k, so any range sum is the difference of two entries. */
  method FindPrefixes(p: seq<real>) returns (prefix: seq<real>)
    ensures |prefix| == |p| + 1
    ensures prefix[0] == 0.0
    ensures forall k | 1 <= k <= |p| :: prefix[k] == prefix[k - 1] + p[k - 1]
    ensures PrefixSumsOf(p, prefix)
    ensures forall i, j {:trigger RangeSum(p, i, j)} | 1 <= i <= j + 1 <= |p| + 1 ::
      prefix[j] - prefix[i - 1] == RangeSum(p, i, j)
  {
    prefix := [0.0];
    var k := 1;
    while k <= |p|
      invariant 1 <= k <= |p| + 1
      invariant |prefix| == k
      invariant forall m | 0 <= m < k :: prefix[m] == RangeSum(p, 1, m)
    {
      prefix := prefix + [prefix[k - 1] + p[k - 1]];
      k := k + 1;
    }
    forall i, j | 1 <= i <= j + 1 <= |p| + 1
      ensures prefix[j] - prefix[i - 1] == RangeSum(p, i, j)
    {
      PrefixDifference(p, prefix, i, j);
    }
  }
}
