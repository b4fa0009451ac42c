/** The two table fills: the reference fill that scans every root of every
    range, and the pruned fill that scans only Knuth's window and takes range
    weights from the prefix sums. Both visit ranges by increasing size, and
    left to right within a size. */
module TableFill {
  import opened Outcomes
  import opened RangeSums
  import opened OptimalCost
  import opened Knuth
  import opened Tables

  /** Range a..b is finished once every range of size `size` starting
      before `i`, and every smaller range, has been filled. */
  predicate Done(n: int, size: int, i: int, a: int, b: int) {
    1 <= a <= b <= n && (b - a + 1 < size || (b - a + 1 == size && a < i))
  }

  /** The fill invariant: finished cells hold the optimum and its first
      optimal root, all other cells still hold their initial 0. */
  ghost predicate FilledUpTo(p: seq<real>, W: seq<seq<real>>, R: seq<seq<int>>, size: int, i: int) {
    && Square(W, |p|) && Square(R, |p|)
    && forall a, b | 0 <= a < |p| + 2 && 0 <= b < |p| + 2 ::
         if Done(|p|, size, i, a, b) then W[a][b] == OptCost(p, a, b) && R[a][b] == BestRoot(p, a, b)
         else W[a][b] == 0.0 && R[a][b] == 0
  }

  lemma FilledStart(p: seq<real>)
    ensures FilledUpTo(p, seq(|p| + 2, _ => seq(|p| + 2, _ => 0.0)), seq(|p| + 2, _ => seq(|p| + 2, _ => 0)), 1, 1)
  {
  }

  /** Writing the optimum of i..j, the next range of the current size. */
  lemma FilledStep(p: seq<real>, W: seq<seq<real>>, R: seq<seq<int>>, size: int, i: int)
    requires FilledUpTo(p, W, R, size, i)
    requires 1 <= size && 1 <= i && i + size - 1 <= |p|
    ensures FilledUpTo(p, W[i := W[i][i + size - 1 := OptCost(p, i, i + size - 1)]],
                          R[i := R[i][i + size - 1 := BestRoot(p, i, i + size - 1)]], size, i + 1)
  {
  }

  /** Once every range of a size is written, the next size begins. */
  lemma FilledNextSize(p: seq<real>, W: seq<seq<real>>, R: seq<seq<int>>, size: int)
    requires FilledUpTo(p, W, R, size, |p| - size + 2)
    ensures FilledUpTo(p, W, R, size + 1, 1)
  {
  }

  /** After the last size every cell is final. */
  lemma FilledEnd(p: seq<real>, W: seq<seq<real>>, R: seq<seq<int>>)
    requires FilledUpTo(p, W, R, |p| + 1, 1)
    ensures W == CostTable(p) && R == RootTable(p)
  {
    var n := |p|;
    forall a | 0 <= a < n + 2
      ensures W[a] == CostTable(p)[a] && R[a] == RootTable(p)[a]
    {
      assert forall b | 0 <= b < n + 2 :: W[a][b] == CostTable(p)[a][b] && R[a][b] == RootTable(p)[a][b];
    }
  }

  /** While filling i..j, a split read from the table is the recurrence's
      split: both sub-ranges are smaller, or empty and still 0. */
  lemma FilledSplit(p: seq<real>, W: seq<seq<real>>, R: seq<seq<int>>, size: int, i: int, r: int)
    requires FilledUpTo(p, W, R, size, i)
    requires 1 <= i <= r <= i + size - 1 <= |p|
    ensures W[i][r - 1] + W[r + 1][i + size - 1] == SplitCost(p, i, r, i + size - 1)
  {
    var j := i + size - 1;
    assert W[i][r - 1] == OptCost(p, i, r - 1);
    assert W[r + 1][j] == OptCost(p, r + 1, j);
  }

  /** For non-negative frequencies, the pruned window of range i..j read
      from the table lies inside the range and contains its first optimal
      root. */
  lemma FilledWindow(p: seq<real>, W: seq<seq<real>>, R: seq<seq<int>>, size: int, i: int)
    requires NonNegative(p)
    requires FilledUpTo(p, W, R, size, i)
    requires 1 <= size && 1 <= i && i + size - 1 <= |p|
    ensures var j := i + size - 1;
      var lo := if i < j then R[i][j - 1] else i;
      var hi := if i < j then R[i + 1][j] else j;
      i <= lo <= BestRoot(p, i, j) <= hi <= j
  {
    var j := i + size - 1;
    if i < j {
      assert Done(|p|, size, i, i, j - 1) && Done(|p|, size, i, i + 1, j);
      KnuthWindow(p, i, j);
    }
  }

  /** The reference search for range i..j of the current size: scan every
      root, keep the first strictly cheapest split, and add the range weight
      summed along the way. */
  method ReferenceCell(p: seq<real>, W: seq<seq<real>>, R: seq<seq<int>>, size: int, i: int)
    returns (cost: real, root: int)
    requires FilledUpTo(p, W, R, size, i)
    requires 1 <= size && 1 <= i && i + size - 1 <= |p|
    ensures cost == OptCost(p, i, i + size - 1)
    ensures root == BestRoot(p, i, i + size - 1)
  {
    var j := i + size - 1;
    var min: Option<real> := None;
    var sum := 0.0;
    root := -1;
    var r := i;
    while r <= j
      invariant i <= r <= j + 1
      invariant sum == RangeSum(p, i, r - 1)
      invariant r == i ==> min.None?
      invariant r > i ==> root == BestRootIn(p, i, j, i, r - 1) && min == Some(SplitCost(p, i, root, j))
    {
      FilledSplit(p, W, R, size, i, r);
      var split := W[i][r - 1] + W[r + 1][j];
      if min.None? || split < min.value {
        min := Some(split);
        root := r;
      }
      sum := sum + p[r - 1];
      r := r + 1;
    }
    cost := sum + min.value;
  }

  /** While filling i..j, every split of the range read from the table is
      the recurrence's split. */
  lemma FilledSplits(p: seq<real>, W: seq<seq<real>>, R: seq<seq<int>>, size: int, i: int, j: int)
    requires FilledUpTo(p, W, R, size, i)
    requires 1 <= size && 1 <= i && j == i + size - 1 <= |p|
    ensures forall r | i <= r <= j :: TableSplit(W, |p|, i, r, j) == SplitCost(p, i, r, j)
  {
    forall r | i <= r <= j
      ensures TableSplit(W, |p|, i, r, j) == SplitCost(p, i, r, j)
    {
      FilledSplit(p, W, R, size, i, r);
    }
  }

  /** The root scan of the pruned fill over the window lo..hi of range i..j:
      it keeps the first root whose table split is strictly the cheapest. */
  method ScanWindow(p: seq<real>, W: seq<seq<real>>, i: int, j: int, lo: int, hi: int)
    returns (min: real, root: int)
    requires Square(W, |p|) && 1 <= i <= lo <= hi <= j <= |p|
    requires forall r | lo <= r <= hi :: TableSplit(W, |p|, i, r, j) == SplitCost(p, i, r, j)
    ensures root == BestRootIn(p, i, j, lo, hi)
    ensures IsFirstMinimalRoot(p, i, j, lo, hi, root)
    ensures min == SplitCost(p, i, root, j)
  {
    var best: Option<real> := None;
    root := -1;
    var r := lo;
    while r <= hi
      invariant lo <= r <= hi + 1
      invariant r == lo ==> best.None?
      invariant r > lo ==> root == BestRootIn(p, i, j, lo, r - 1) && best == Some(SplitCost(p, i, root, j))
    {
      var split := W[i][r - 1] + W[r + 1][j];
      assert split == TableSplit(W, |p|, i, r, j);
      if best.None? || split < best.value {
        best := Some(split);
        root := r;
      }
      r := r + 1;
    }
    BestRootInIsFirstMinimal(p, i, j, lo, hi);
    min := best.value;
  }

  /** The pruned search for range i..j of the current size: scan only the
      roots between those already chosen for i..j-1 and i+1..j (just i for a
      single key), and take the range weight from the prefix sums. */
  method PrunedCell(p: seq<real>, prefix: seq<real>, W: seq<seq<real>>, R: seq<seq<int>>, size: int, i: int)
    returns (cost: real, root: int)
    requires NonNegative(p)
    requires PrefixSumsOf(p, prefix)
    requires FilledUpTo(p, W, R, size, i)
    requires 1 <= size && 1 <= i && i + size - 1 <= |p|
    ensures cost == OptCost(p, i, i + size - 1)
    ensures root == BestRoot(p, i, i + size - 1)
  {
    var j := i + size - 1;
    var lo := if i < j then R[i][j - 1] else i;
    var hi := if i < j then R[i + 1][j] else j;
    FilledWindow(p, W, R, size, i);
    FilledSplits(p, W, R, size, i, j);
    var min;
    min, root := ScanWindow(p, W, i, j, lo, hi);
    WindowScanFindsBestRoot(p, i, j, lo, hi);
    PrefixDifference(p, prefix, i, j);
    cost := prefix[j] - prefix[i - 1] + min;
  }

  /** The O(n^3) fill: every range, by increasing size, gets its optimum and
      its first optimal root from a scan of all its roots. */
  method ReferenceFill(p: seq<real>) returns (W: seq<seq<real>>, R: seq<seq<int>>)
    ensures W == CostTable(p)
    ensures R == RootTable(p)
  {
    var n := |p|;
    W := seq(n + 2, _ => seq(n + 2, _ => 0.0));
    R := seq(n + 2, _ => seq(n + 2, _ => 0));
    FilledStart(p);
    var size := 1;
    while size <= n
      invariant 1 <= size <= n + 1
      invariant FilledUpTo(p, W, R, size, 1)
    {
      var i := 1;
      while i <= n - size + 1
        invariant 1 <= i <= n - size + 2
        invariant FilledUpTo(p, W, R, size, i)
      {
        var j := i + size - 1;
        var cost, root := ReferenceCell(p, W, R, size, i);
        FilledStep(p, W, R, size, i);
        W := W[i := W[i][j := cost]];
        R := R[i := R[i][j := root]];
        i := i + 1;
      }
      FilledNextSize(p, W, R, size);
      size := size + 1;
    }
    FilledEnd(p, W, R);
  }

  /** The O(n^2) fill: the same table, with each root searched only in
      Knuth's window. */
  method PrunedFill(p: seq<real>) returns (W: seq<seq<real>>, R: seq<seq<int>>)
    requires NonNegative(p)
    ensures W == CostTable(p)
    ensures R == RootTable(p)
  {
    var n := |p|;
    var prefix := FindPrefixes(p);
    W := seq(n + 2, _ => seq(n + 2, _ => 0.0));
    R := seq(n + 2, _ => seq(n + 2, _ => 0));
    FilledStart(p);
    var size := 1;
    while size <= n
      invariant 1 <= size <= n + 1
      invariant FilledUpTo(p, W, R, size, 1)
    {
      var i := 1;
      while i <= n - size + 1
        invariant 1 <= i <= n - size + 2
        invariant FilledUpTo(p, W, R, size, i)
      {
        var j := i + size - 1;
        var cost, root := PrunedCell(p, prefix, W, R, size, i);
        FilledStep(p, W, R, size, i);
        W := W[i := W[i][j := cost]];
        R := R[i := R[i][j := root]];
        i := i + 1;
      }
      FilledNextSize(p, W, R, size);
      size := size + 1;
    }
    FilledEnd(p, W, R);
  }
}
