/** Knuth's monotonicity of optimal roots: for non-negative frequencies the
    first optimal root of i..j lies between the first optimal roots of
    i..j-1 and i+1..j. The proof follows F. F. Yao's quadrangle inequality,
    stated over boundary positions: Gap(a, b) is the optimal cost of the keys
    strictly after boundary a and up to b, that is keys a+1..b. */
module Knuth {
  import opened RangeSums
  import opened OptimalCost

  /** The optimal cost of keys a+1..b. */
  function Gap(p: seq<real>, a: int, b: int): real
    requires 0 <= a <= b <= |p|
  {
    OptCost(p, a + 1, b)
  }

  /** The weight of keys a+1..b. */
  function GapWeight(p: seq<real>, a: int, b: int): real
    requires 0 <= a <= b <= |p|
  {
    RangeSum(p, a + 1, b)
  }

  /** Splitting a+1..b at any key k costs at least the optimum. */
  lemma GapAtMost(p: seq<real>, a: int, k: int, b: int)
    requires 0 <= a < k <= b <= |p|
    ensures Gap(p, a, b) <= GapWeight(p, a, b) + Gap(p, a, k - 1) + Gap(p, k, b)
  {
    OptCostAtMostAnySplit(p, a + 1, k, b);
  }

  /** Splitting a+1..b at its first optimal root attains the optimum. */
  lemma GapAtBestRoot(p: seq<real>, a: int, b: int)
    requires 0 <= a < b <= |p|
    ensures var y := BestRoot(p, a + 1, b);
      Gap(p, a, b) == GapWeight(p, a, b) + Gap(p, a, y - 1) + Gap(p, y, b)
  {
    var y := BestRoot(p, a + 1, b);
    assert OptCost(p, a + 1, b) == RangeSum(p, a + 1, b) + SplitCost(p, a + 1, y, b);
  }

  /** Range weights are modular: they satisfy the quadrangle inequality with
      equality. */
  lemma GapWeightQuadrangle(p: seq<real>, a: int, b: int, c: int, d: int)
    requires 0 <= a <= b <= c <= d <= |p|
    ensures GapWeight(p, a, c) + GapWeight(p, b, d) == GapWeight(p, b, c) + GapWeight(p, a, d)
  {
    RangeSumSplit(p, a + 1, b, c);
    RangeSumSplit(p, a + 1, b, d);
  }

  /** The quadrangle inequality of optimal costs: for boundaries
      a <= b <= c <= d, Gap(a, c) + Gap(b, d) <= Gap(b, c) + Gap(a, d). */
  lemma {:induction false} QuadrangleInequality(p: seq<real>, a: int, b: int, c: int, d: int)
    requires NonNegative(p)
    requires 0 <= a <= b <= c <= d <= |p|
    ensures Gap(p, a, c) + Gap(p, b, d) <= Gap(p, b, c) + Gap(p, a, d)
    decreases d - a
  {
    if a == b || c == d {
    } else if b == c {
      // Gap(a, c) + Gap(c, d) <= Gap(a, d): split at the optimal root y of a+1..d.
      var y := BestRoot(p, a + 1, d);
      GapAtBestRoot(p, a, d);
      if y <= c {
        GapAtMost(p, a, y, c);
        QuadrangleInequality(p, y, c, c, d);
        RangeSumGrows(p, a + 1, a + 1, c, d);
      } else {
        GapAtMost(p, c, y, d);
        QuadrangleInequality(p, a, c, c, y - 1);
        RangeSumGrows(p, a + 1, c + 1, d, d);
      }
    } else {
      var y := BestRoot(p, a + 1, d);
      var z := BestRoot(p, b + 1, c);
      GapAtBestRoot(p, a, d);
      GapAtBestRoot(p, b, c);
      GapWeightQuadrangle(p, a, b, c, d);
      if z <= y {
        GapAtMost(p, a, z, c);
        GapAtMost(p, b, y, d);
        QuadrangleInequality(p, a, b, z - 1, y - 1);
      } else {
        GapAtMost(p, a, y, c);
        GapAtMost(p, b, z, d);
        QuadrangleInequality(p, y, z, c, d);
      }
    }
  }

  /** The exchange step for extending a range on the right: for roots
      m <= k of i..j-1, moving from i..j-1 to i..j favours k at least as much. */
  lemma RightExchange(p: seq<real>, i: int, m: int, k: int, j: int)
    requires NonNegative(p)
    requires 1 <= i <= m <= k < j <= |p|
    ensures SplitCost(p, i, m, j - 1) + SplitCost(p, i, k, j)
         <= SplitCost(p, i, k, j - 1) + SplitCost(p, i, m, j)
  {
    QuadrangleInequality(p, m, k, j - 1, j);
  }

  /** The exchange step for extending a range on the left: for roots k <= m
      of i+1..j, moving from i+1..j to i..j favours k at least as much. */
  lemma LeftExchange(p: seq<real>, i: int, k: int, m: int, j: int)
    requires NonNegative(p)
    requires 1 <= i < k <= m <= j <= |p|
    ensures SplitCost(p, i, k, j) + SplitCost(p, i + 1, m, j)
         <= SplitCost(p, i + 1, k, j) + SplitCost(p, i, m, j)
  {
    QuadrangleInequality(p, i - 1, i, k - 1, m - 1);
  }

  /** Dropping the last key never moves the first optimal root right:
      BestRoot(i, j-1) <= BestRoot(i, j). */
  lemma RootGrowsWithRight(p: seq<real>, i: int, j: int)
    requires NonNegative(p)
    requires 1 <= i < j <= |p|
    ensures BestRoot(p, i, j - 1) <= BestRoot(p, i, j)
  {
    var k := BestRoot(p, i, j - 1);
    var m := BestRoot(p, i, j);
    BestRootInIsFirstMinimal(p, i, j - 1, i, j - 1);
    BestRootInIsFirstMinimal(p, i, j, i, j);
    if m < k {
      RightExchange(p, i, m, k, j);
      assert false;
    }
  }

  /** Adding a key on the left never moves the first optimal root right of
      the root without it: BestRoot(i, j) <= BestRoot(i+1, j). */
  lemma RootShrinksWithLeft(p: seq<real>, i: int, j: int)
    requires NonNegative(p)
    requires 1 <= i < j <= |p|
    ensures BestRoot(p, i, j) <= BestRoot(p, i + 1, j)
  {
    var k := BestRoot(p, i + 1, j);
    var m := BestRoot(p, i, j);
    BestRootInIsFirstMinimal(p, i + 1, j, i + 1, j);
    BestRootInIsFirstMinimal(p, i, j, i, j);
    if k < m {
      LeftExchange(p, i, k, m, j);
      assert false;
    }
  }

  /** Knuth's window: the first optimal root of i..j lies in
      [BestRoot(i, j-1), BestRoot(i+1, j)]. */
  lemma KnuthWindow(p: seq<real>, i: int, j: int)
    requires NonNegative(p)
    requires 1 <= i < j <= |p|
    ensures BestRoot(p, i, j - 1) <= BestRoot(p, i, j) <= BestRoot(p, i + 1, j)
  {
    RootGrowsWithRight(p, i, j);
    RootShrinksWithLeft(p, i, j);
  }

  /** Frequencies with a negative entry: [-1, 1, 1]. */
  function SignedP(): seq<real> {
    [-1.0, 1.0, 1.0]
  }

  /** The signed single keys and ranges of two keys. */
  lemma SignedShortRanges(p: seq<real>)
    requires p == SignedP()
    ensures OptCost(p, 1, 1) == -1.0 && OptCost(p, 2, 2) == 1.0 && OptCost(p, 3, 3) == 1.0
    ensures BestRoot(p, 1, 2) == 2 && OptCost(p, 1, 2) == -1.0
    ensures BestRoot(p, 2, 3) == 2 && OptCost(p, 2, 3) == 3.0
  {
    forall k | 1 <= k <= 3
      ensures OptCost(p, k, k) == p[k - 1]
    {
      assert SplitCost(p, k, k, k) == 0.0;
      assert BestRoot(p, k, k) == k;
      assert RangeSum(p, k, k) == RangeSum(p, k, k - 1) + p[k - 1];
    }
    assert SplitCost(p, 1, 1, 2) == 1.0 && SplitCost(p, 1, 2, 2) == -1.0;
    assert RangeSum(p, 1, 2) == 0.0;
    assert SplitCost(p, 2, 2, 3) == 1.0 && SplitCost(p, 2, 3, 3) == 1.0;
    assert RangeSum(p, 2, 3) == 2.0;
  }

  /** Without non-negative frequencies Knuth's bound fails: the first
      optimal root of 1..3 is 3, above the root 2 of 2..3, so the window
      [R[1][2], R[2][3]] = [2, 2] misses it. */
  lemma SignedRootsNotMonotone(p: seq<real>)
    requires p == SignedP()
    ensures !NonNegative(p)
    ensures BestRoot(p, 1, 2) == 2 && BestRoot(p, 2, 3) == 2
    ensures BestRoot(p, 1, 3) == 3
  {
    assert p[0] < 0.0;
    SignedShortRanges(p);
    assert SplitCost(p, 1, 1, 3) == 3.0 && SplitCost(p, 1, 2, 3) == 0.0 && SplitCost(p, 1, 3, 3) == -1.0;
    assert BestRootIn(p, 1, 3, 1, 2) == 2;
  }

  /** The cost of that miss: scanning only root 2 for 1..3 gives 1, while
      the optimum, at root 3, is 0. */
  lemma SignedPrunedWindowMissesOptimum(p: seq<real>)
    requires p == SignedP()
    ensures OptCost(p, 1, 3) == 0.0
    ensures RangeSum(p, 1, 3) + SplitCost(p, 1, 2, 3) == 1.0
  {
    SignedShortRanges(p);
    SignedRootsNotMonotone(p);
    assert SplitCost(p, 1, 2, 3) == 0.0 && SplitCost(p, 1, 3, 3) == -1.0;
    assert RangeSum(p, 1, 2) == 0.0;
    assert RangeSum(p, 1, 3) == RangeSum(p, 1, 2) + p[2] == 1.0;
  }
}
