/** The recurrence behind both table fills, stated over key ranges rather
    than tables, and its meaning: it is the least search cost of any tree
    over the range. */
module OptimalCost {
  import opened RangeSums
  import opened SearchTrees

  /** The least search cost of a tree over keys i..j: the range weight plus
      the cheapest split, taking the first root of the ascending scan that
      attains it. The empty range costs nothing. */
  function OptCost(p: seq<real>, i: int, j: int): real
    requires 1 <= i <= j + 1 <= |p| + 1
    decreases j - i + 1, 1, 0
  {
    if i > j then 0.0 else RangeSum(p, i, j) + SplitCost(p, i, BestRoot(p, i, j), j)
  }

  /** The cost of the two subtrees left when key r is the root of i..j. */
  function SplitCost(p: seq<real>, i: int, r: int, j: int): real
    requires 1 <= i <= r <= j <= |p|
    decreases j - i + 1, 0, 0
  {
    OptCost(p, i, r - 1) + OptCost(p, r + 1, j)
  }

  /** The root the scan over all of i..j keeps. */
  function BestRoot(p: seq<real>, i: int, j: int): (r: int)
    requires 1 <= i <= j <= |p|
    ensures i <= r <= j
    decreases j - i + 1, 0, j - i + 2
  {
    BestRootIn(p, i, j, i, j)
  }

  /** The root kept by an ascending scan of the candidates lo..hi for range
      i..j that replaces its choice only on a strictly cheaper split. */
  function BestRootIn(p: seq<real>, i: int, j: int, lo: int, hi: int): (r: int)
    requires 1 <= i <= lo <= hi <= j <= |p|
    ensures lo <= r <= hi
    decreases j - i + 1, 0, hi - lo + 1
  {
    if lo == hi then lo
    else
      var b := BestRootIn(p, i, j, lo, hi - 1);
      if SplitCost(p, i, hi, j) < SplitCost(p, i, b, j) then hi else b
  }

  /** `b` attains the cheapest split among lo..hi and every candidate before
      it is strictly dearer. */
  predicate IsFirstMinimalRoot(p: seq<real>, i: int, j: int, lo: int, hi: int, b: int)
    requires 1 <= i <= lo <= hi <= j <= |p|
  {
    && lo <= b <= hi
    && (forall r | lo <= r <= hi :: SplitCost(p, i, b, j) <= SplitCost(p, i, r, j))
    && (forall r | lo <= r < b :: SplitCost(p, i, b, j) < SplitCost(p, i, r, j))
  }

  /** The strict-comparison scan finds the first minimal root of its window. */
  lemma {:induction false} BestRootInIsFirstMinimal(p: seq<real>, i: int, j: int, lo: int, hi: int)
    requires 1 <= i <= lo <= hi <= j <= |p|
    ensures IsFirstMinimalRoot(p, i, j, lo, hi, BestRootIn(p, i, j, lo, hi))
    decreases hi - lo
  {
    if lo < hi {
      BestRootInIsFirstMinimal(p, i, j, lo, hi - 1);
    }
  }

  /** A window has exactly one first minimal root. */
  lemma FirstMinimalRootUnique(p: seq<real>, i: int, j: int, lo: int, hi: int, b: int, b': int)
    requires 1 <= i <= lo <= hi <= j <= |p|
    requires IsFirstMinimalRoot(p, i, j, lo, hi, b) && IsFirstMinimalRoot(p, i, j, lo, hi, b')
    ensures b == b'
  {
    assert SplitCost(p, i, b, j) == SplitCost(p, i, b', j);
  }

  /** Scanning only a window lo..hi that contains the first minimal root of
      the whole range i..j yields that same root. */
  lemma WindowScanFindsBestRoot(p: seq<real>, i: int, j: int, lo: int, hi: int)
    requires 1 <= i <= lo <= hi <= j <= |p|
    requires lo <= BestRoot(p, i, j) <= hi
    ensures BestRootIn(p, i, j, lo, hi) == BestRoot(p, i, j)
  {
    var b := BestRoot(p, i, j);
    BestRootInIsFirstMinimal(p, i, j, i, j);
    BestRootInIsFirstMinimal(p, i, j, lo, hi);
    assert IsFirstMinimalRoot(p, i, j, lo, hi, b);
    FirstMinimalRootUnique(p, i, j, lo, hi, b, BestRootIn(p, i, j, lo, hi));
  }

  /** No root of i..j gives a cheaper tree than the recurrence's choice. */
  lemma OptCostAtMostAnySplit(p: seq<real>, i: int, k: int, j: int)
    requires 1 <= i <= k <= j <= |p|
    ensures OptCost(p, i, j) <= RangeSum(p, i, j) + SplitCost(p, i, k, j)
  {
    BestRootInIsFirstMinimal(p, i, j, i, j);
  }

  /** Every search tree over keys i..j costs at least OptCost(p, i, j). */
  lemma {:induction false} OptCostIsLowerBound(p: seq<real>, t: Tree, i: int, j: int)
    requires 1 <= i <= j + 1 <= |p| + 1
    requires Spans(t, i, j) && KeysWithin(t, |p|)
    ensures OptCost(p, i, j) <= SearchCost(t, p)
  {
    match t
    case Leaf =>
    case Node(l, k, r) =>
      OptCostIsLowerBound(p, l, i, k - 1);
      OptCostIsLowerBound(p, r, k + 1, j);
      SearchCostSplits(t, p);
      SpansWeight(t, p, i, j);
      OptCostAtMostAnySplit(p, i, k, j);
  }

  /** The tree the recurrence describes, built from its chosen roots. */
  function OptTree(p: seq<real>, i: int, j: int): (t: Tree)
    requires 1 <= i <= j + 1 <= |p| + 1
    ensures Spans(t, i, j) && KeysWithin(t, |p|)
    decreases j - i + 1
  {
    if i > j then Leaf
    else
      var r := BestRoot(p, i, j);
      Node(OptTree(p, i, r - 1), r, OptTree(p, r + 1, j))
  }

  /** One level of the recurrence's tree: its chosen root over the trees
      of the two remaining ranges. */
  lemma OptTreeRoot(p: seq<real>, i: int, r: int, j: int)
    requires 1 <= i <= j <= |p| && r == BestRoot(p, i, j)
    ensures OptTree(p, i, j) == Node(OptTree(p, i, r - 1), r, OptTree(p, r + 1, j))
  {
  }

  /** The recurrence's tree attains OptCost, so OptCost is the least search
      cost over all trees on keys i..j. */
  lemma {:induction false} OptTreeAttainsOptCost(p: seq<real>, i: int, j: int)
    requires 1 <= i <= j + 1 <= |p| + 1
    ensures SearchCost(OptTree(p, i, j), p) == OptCost(p, i, j)
    decreases j - i + 1
  {
    if i <= j {
      var t := OptTree(p, i, j);
      var r := BestRoot(p, i, j);
      OptTreeAttainsOptCost(p, i, r - 1);
      OptTreeAttainsOptCost(p, r + 1, j);
      SearchCostSplits(t, p);
      SpansWeight(t, p, i, j);
    }
  }
}
