/** The cost table W and root table R the fills produce: (n+2) x (n+2)
    tables indexed by key ranges i..j, holding the optimum for every
    non-empty range 1 <= i <= j <= n and 0 everywhere else (the empty ranges
    j == i - 1 included). */
module Tables {
  import opened RangeSums
  import opened OptimalCost
  import opened Knuth
  import opened Reconstruction

  /** The expected cost table. */
  function CostTable(p: seq<real>): seq<seq<real>> {
    seq(|p| + 2, a => seq(|p| + 2, b => if 1 <= a <= b <= |p| then OptCost(p, a, b) else 0.0))
  }

  /** The expected root table. */
  function RootTable(p: seq<real>): seq<seq<int>> {
    seq(|p| + 2, a => seq(|p| + 2, b => if 1 <= a <= b <= |p| then BestRoot(p, a, b) else 0))
  }

  /** A table with n + 2 rows of n + 2 cells. */
  predicate Square<T>(W: seq<seq<T>>, n: int) {
    |W| == n + 2 && forall a | 0 <= a < |W| :: |W[a]| == n + 2
  }

  /** The split cost of root r for range i..j, read from a cost table. */
  function TableSplit(W: seq<seq<real>>, n: int, i: int, r: int, j: int): real
    requires Square(W, n) && 1 <= i <= r <= j <= n
  {
    W[i][r - 1] + W[r + 1][j]
  }

  /** What the filled tables say cell by cell: every non-empty range has a
      root inside it; its cost is its weight plus the costs of the two
      sub-ranges that root leaves; no root of the range splits more cheaply
      and every earlier root splits strictly dearer; a single key is its own
      root at the cost of its frequency; every other cell holds 0. */
  predicate SatisfiesRecurrence(p: seq<real>, W: seq<seq<real>>, R: seq<seq<int>>) {
    && Square(W, |p|) && Square(R, |p|)
    && (forall i, j | 1 <= i <= j <= |p| :: i <= R[i][j] <= j)
    && (forall i, j | 1 <= i <= j <= |p| ::
          W[i][j] == RangeSum(p, i, j) + TableSplit(W, |p|, i, R[i][j], j))
    && (forall i, r, j {:trigger TableSplit(W, |p|, i, r, j)} | 1 <= i <= r <= j <= |p| ::
          && TableSplit(W, |p|, i, R[i][j], j) <= TableSplit(W, |p|, i, r, j)
          && (r < R[i][j] ==> TableSplit(W, |p|, i, R[i][j], j) < TableSplit(W, |p|, i, r, j)))
    && (forall i | 1 <= i <= |p| :: R[i][i] == i && W[i][i] == p[i - 1])
    && (forall a, b | 0 <= a < |p| + 2 && 0 <= b < |p| + 2 && !(1 <= a <= b <= |p|) ::
          W[a][b] == 0.0 && R[a][b] == 0)
  }

  /** The expected root table names the first optimal root of every range. */
  lemma RootTableIsBest(p: seq<real>)
    ensures RootsAreBest(p, RootTable(p))
  {
    var R := RootTable(p);
    forall a | 0 <= a < |R|
      ensures |R[a]| == |p| + 2
    {
    }
    forall a, b | 1 <= a <= b <= |p|
      ensures R[a][b] == BestRoot(p, a, b)
    {
    }
  }

  /** Reading a split from the expected table gives the recurrence's split. */
  lemma TableSplitIsSplitCost(p: seq<real>, W: seq<seq<real>>, i: int, r: int, j: int)
    requires W == CostTable(p)
    requires 1 <= i <= r <= j <= |p|
    ensures Square(W, |p|)
    ensures TableSplit(W, |p|, i, r, j) == SplitCost(p, i, r, j)
  {
  }

  /** Each expected cost cell is its range's weight plus the split of the
      expected root. */
  lemma CostCellsFollowRoots(p: seq<real>)
    ensures Square(CostTable(p), |p|) && Square(RootTable(p), |p|)
    ensures forall i, j | 1 <= i <= j <= |p| :: i <= RootTable(p)[i][j] <= j
    ensures forall i, j | 1 <= i <= j <= |p| ::
      CostTable(p)[i][j] == RangeSum(p, i, j) + TableSplit(CostTable(p), |p|, i, RootTable(p)[i][j], j)
  {
    var W, R, n := CostTable(p), RootTable(p), |p|;
    RootTableIsBest(p);
    assert Square(W, n);
    forall i, j | 1 <= i <= j <= n
      ensures W[i][j] == RangeSum(p, i, j) + TableSplit(W, n, i, R[i][j], j)
    {
      assert W[i][j] == OptCost(p, i, j) == RangeSum(p, i, j) + SplitCost(p, i, BestRoot(p, i, j), j);
      TableSplitIsSplitCost(p, W, i, R[i][j], j);
    }
  }

  /** Each expected root splits no dearer than any root of its range, and
      strictly cheaper than every earlier one. */
  lemma RootCellsFirstMinimal(p: seq<real>)
    ensures Square(CostTable(p), |p|) && Square(RootTable(p), |p|)
    ensures forall i, j | 1 <= i <= j <= |p| :: i <= RootTable(p)[i][j] <= j
    ensures forall i, r, j {:trigger TableSplit(CostTable(p), |p|, i, r, j)} | 1 <= i <= r <= j <= |p| ::
      && TableSplit(CostTable(p), |p|, i, RootTable(p)[i][j], j) <= TableSplit(CostTable(p), |p|, i, r, j)
      && (r < RootTable(p)[i][j] ==> TableSplit(CostTable(p), |p|, i, RootTable(p)[i][j], j) < TableSplit(CostTable(p), |p|, i, r, j))
  {
    var W, R, n := CostTable(p), RootTable(p), |p|;
    RootTableIsBest(p);
    assert Square(W, n);
    forall i, r, j {:trigger TableSplit(W, n, i, r, j)} | 1 <= i <= r <= j <= n
      ensures TableSplit(W, n, i, R[i][j], j) <= TableSplit(W, n, i, r, j)
      ensures r < R[i][j] ==> TableSplit(W, n, i, R[i][j], j) < TableSplit(W, n, i, r, j)
    {
      BestRootInIsFirstMinimal(p, i, j, i, j);
      TableSplitIsSplitCost(p, W, i, R[i][j], j);
      TableSplitIsSplitCost(p, W, i, r, j);
    }
  }

  /** A single key is its own expected root at the cost of its frequency. */
  lemma SingleKeyCells(p: seq<real>)
    ensures forall i | 1 <= i <= |p| :: RootTable(p)[i][i] == i && CostTable(p)[i][i] == p[i - 1]
  {
    var W, R, n := CostTable(p), RootTable(p), |p|;
    forall i | 1 <= i <= n
      ensures R[i][i] == i && W[i][i] == p[i - 1]
    {
      assert BestRoot(p, i, i) == i;
      assert SplitCost(p, i, i, i) == 0.0;
      assert RangeSum(p, i, i) == RangeSum(p, i, i - 1) + p[i - 1] == p[i - 1];
      assert OptCost(p, i, i) == RangeSum(p, i, i) + SplitCost(p, i, i, i);
    }
  }

  /** The expected tables satisfy the recurrence the source's fills rely on. */
  lemma TablesSatisfyRecurrence(p: seq<real>)
    ensures SatisfiesRecurrence(p, CostTable(p), RootTable(p))
  {
    RootTableIsBest(p);
    CostCellsFollowRoots(p);
    RootCellsFirstMinimal(p);
    SingleKeyCells(p);
  }

  /** By induction on the range size: tables that satisfy the recurrence
      hold the optimum and the first optimal root for every range of at most
      d keys. */
  lemma {:induction false} RecurrenceDeterminesCells(p: seq<real>, W: seq<seq<real>>, R: seq<seq<int>>, d: int)
    requires SatisfiesRecurrence(p, W, R)
    requires 0 <= d <= |p|
    ensures forall i, j | 1 <= i <= j <= |p| && j - i + 1 <= d ::
      W[i][j] == OptCost(p, i, j) && R[i][j] == BestRoot(p, i, j)
    decreases d
  {
    var n := |p|;
    if d > 0 {
      RecurrenceDeterminesCells(p, W, R, d - 1);
      forall i, j | 1 <= i <= j <= n && j - i + 1 == d
        ensures W[i][j] == OptCost(p, i, j) && R[i][j] == BestRoot(p, i, j)
      {
        forall r | i <= r <= j
          ensures TableSplit(W, n, i, r, j) == SplitCost(p, i, r, j)
        {
          assert W[i][r - 1] == OptCost(p, i, r - 1);
          assert W[r + 1][j] == OptCost(p, r + 1, j);
        }
        assert IsFirstMinimalRoot(p, i, j, i, j, R[i][j]);
        BestRootInIsFirstMinimal(p, i, j, i, j);
        FirstMinimalRootUnique(p, i, j, i, j, R[i][j], BestRoot(p, i, j));
      }
    }
  }

  /** The recurrence, with its strict tie-break and its zero cells, has
      exactly one solution: the expected tables. */
  lemma RecurrenceCharacterisesTables(p: seq<real>, W: seq<seq<real>>, R: seq<seq<int>>)
    ensures SatisfiesRecurrence(p, W, R) <==> (W == CostTable(p) && R == RootTable(p))
  {
    TablesSatisfyRecurrence(p);
    if SatisfiesRecurrence(p, W, R) {
      var n := |p|;
      RecurrenceDeterminesCells(p, W, R, n);
      forall a | 0 <= a < n + 2
        ensures W[a] == CostTable(p)[a] && R[a] == RootTable(p)[a]
      {
        assert forall b | 0 <= b < n + 2 :: W[a][b] == CostTable(p)[a][b] && R[a][b] == RootTable(p)[a][b];
      }
    }
  }

  /** Knuth's window in table form: for non-negative frequencies the root of
      i..j lies between the roots of i..j-1 and i+1..j, so the pruned scan
      over that window loses no candidate. */
  lemma RootTableMonotone(p: seq<real>)
    requires NonNegative(p)
    ensures Square(RootTable(p), |p|)
    ensures forall i, j {:trigger RootTable(p)[i][j]} | 1 <= i < j <= |p| ::
      RootTable(p)[i][j - 1] <= RootTable(p)[i][j] <= RootTable(p)[i + 1][j]
  {
    RootTableIsBest(p);
    forall i, j {:trigger RootTable(p)[i][j]} | 1 <= i < j <= |p|
      ensures RootTable(p)[i][j - 1] <= RootTable(p)[i][j] <= RootTable(p)[i + 1][j]
    {
      KnuthWindow(p, i, j);
    }
  }
}
