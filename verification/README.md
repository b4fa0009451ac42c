# Optimal binary search tree construction, modelled in Dafny

This project models `OptimalBstConstructor`. It builds a binary search tree over
keys 1..n with access frequencies p[1..n] that minimises the weighted search
cost: each key costs its frequency times its depth, and the root has depth 1.
The source fills two (n+2) x (n+2) tables by dynamic programming, one range
size at a time. `searchTime` (W) holds the least cost of each key range i..j.
`roots` (R) holds the root that achieves it. The source then rebuilds the tree
top-down from R.

The model has these modules:

- `RangeSums`: the total frequency of a key range, and `FindPrefixes`, the
  prefix-sum table the pruned fill reads range totals from.
- `SearchTrees`: the tree datatype over key positions. It also defines the
  in-order key sequence, the search-tree shape over a range (`Spans`), and
  the search cost Σ p[k]·depth(k) (`SearchCost`).
- `OptimalCost`: the recurrence W[i][j] = sum p[i..j] + min over r of
  (W[i][r-1] + W[r+1][j]), stated over ranges. Ties go to the first root of
  the ascending scan, as the strict `<` in the source decides them. The
  module also proves that this value is the least search cost of any tree
  over the range.
- `Knuth`: Knuth's monotonicity of optimal roots, R[i][j-1] <= R[i][j] <=
  R[i+1][j], for non-negative frequencies. It is proved through F. F. Yao's
  quadrangle inequality for the optimal costs.
- `Reconstruction`: `reconstruct`, building the tree from a root table.
- `Tables`: the tables both fills must produce, the cell-by-cell recurrence
  they satisfy, and the proof that the recurrence has no other solution.
- `TableFill`: the O(n³) reference fill (`construct__`) and the O(n²)
  Knuth-pruned fill (`construct_improved__`). Both are loops over
  functionally updated tables, and for non-negative frequencies both are
  proved to produce the same tables.
- `OptimalBstConstructor`: `construct` with its length check, the two
  complete constructions, and the demo input.

Frequencies are exact `real`s. The source's `Double.MAX_VALUE` start value of
the minimum search means "no candidate seen yet". It is modelled as `None`, so
the first scanned root is always taken, as it is in the source for every split
cost below `Double.MAX_VALUE`.

The source's demo input is frequencies 0.8, 0.1, 0.6, 0.5 for keys a..d.
`DemoFrequencies` and `DemoTree` prove that the optimum is 3.5 with root c
(key 3).

## Model

| member | source | states |
|---|---|---|
| `SearchTrees.SearchCostSplits` | src/main/java/trees/OptimalBstConstructor.java:22-34 | the Σ frequency·depth cost of a tree equals the cost of its two subtrees plus the weight of all its keys (the doc-comment derivation of W[i][j] = W[i][r-1] + W[r+1][j] + sum p[i..j]) |
| `SearchTrees.DepthCostShift` | src/main/java/trees/OptimalBstConstructor.java:25-31 | hanging a subtree one level deeper raises its cost by exactly its weight |
| `SearchTrees.SpansWeight` | src/main/java/trees/OptimalBstConstructor.java:31-34 | a search tree over keys i..j weighs sum p[i..j] |
| `SearchTrees.SpansIffInOrder` | src/main/java/trees/OptimalBstConstructor.java:39-40 | a tree has search-tree shape over keys i..j exactly when its in-order sequence is i, i+1, ..., j (both directions) |
| `RangeSums.FindPrefixes` | src/main/java/trees/OptimalBstConstructor.java:123-131 | the prefix table has n+1 entries, starts at 0, each entry adds the next frequency, and prefix[j] - prefix[i-1] is the frequency total of keys i..j |
| `RangeSums.RangeSumSplit` | src/main/java/trees/OptimalBstConstructor.java:62-69 | the total of a key range is the sum of the totals of its two parts at any split point, so the per-root running sum of the reference loop and the prefix difference agree |
| `RangeSums.PrefixDifference` | src/main/java/trees/OptimalBstConstructor.java:116-116 | for a table of prefix sums, prefix[j] - prefix[i-1] is the frequency total of keys i..j |
| `OptimalCost.BestRootInIsFirstMinimal` | src/main/java/trees/OptimalBstConstructor.java:64-68 | the ascending scan that replaces its choice only on a strictly smaller split keeps a root of the window with the least split, and every earlier root of the window splits strictly dearer |
| `OptimalCost.FirstMinimalRootUnique` | src/main/java/trees/OptimalBstConstructor.java:65-68 | the strict tie-break makes the chosen root unique: two first minimal roots of a window are equal |
| `OptimalCost.WindowScanFindsBestRoot` | src/main/java/trees/OptimalBstConstructor.java:105-113 | scanning only a window that contains the first optimal root of i..j finds that same root |
| `OptimalCost.OptCostAtMostAnySplit` | src/main/java/trees/OptimalBstConstructor.java:64-66 | the recurrence value of i..j is at most the range weight plus the split cost of any root r in i..j |
| `OptimalCost.OptCostIsLowerBound` | src/main/java/trees/OptimalBstConstructor.java:22-34 | every search tree over keys i..j has search cost at least the recurrence value |
| `OptimalCost.OptTreeAttainsOptCost` | src/main/java/trees/OptimalBstConstructor.java:22-34 | the tree built from the recurrence's chosen roots has search cost exactly the recurrence value |
| `OptimalCost.OptTree` | src/main/java/trees/OptimalBstConstructor.java:7-14 | the tree of the recurrence's roots has search-tree shape over i..j and only keys that have frequencies |
| `Knuth.QuadrangleInequality` | src/main/java/trees/OptimalBstConstructor.java:81-84 | for non-negative frequencies and boundaries a <= b <= c <= d, the optimal costs satisfy C(a,c) + C(b,d) <= C(b,c) + C(a,d) |
| `Knuth.RootGrowsWithRight` | src/main/java/trees/OptimalBstConstructor.java:83-83 | the first optimal root of i..j-1 is at most that of i..j |
| `Knuth.RootShrinksWithLeft` | src/main/java/trees/OptimalBstConstructor.java:83-84 | the first optimal root of i..j is at most that of i+1..j |
| `Knuth.KnuthWindow` | src/main/java/trees/OptimalBstConstructor.java:81-84 | the first optimal root of i..j lies in [root of i..j-1, root of i+1..j] |
| `Knuth.SignedRootsNotMonotone` | src/main/java/trees/OptimalBstConstructor.java:81-84 | for frequencies -1, 1, 1 the first optimal root of 1..3 is 3 while those of 1..2 and 2..3 are 2, so Knuth's bound fails without non-negative frequencies |
| `Knuth.SignedPrunedWindowMissesOptimum` | src/main/java/trees/OptimalBstConstructor.java:105-116 | for frequencies -1, 1, 1 the only root the pruned window offers for 1..3 costs 1, while the optimum is 0 |
| `Reconstruction.Reconstruct` | src/main/java/trees/OptimalBstConstructor.java:7-14 | an empty range gives no tree; otherwise the root is R[i][j], the tree has search-tree shape over i..j, and all keys lie in 1..n |
| `Reconstruction.ReconstructInOrder` | src/main/java/trees/OptimalBstConstructor.java:7-14 | read left to right, the rebuilt tree lists exactly the keys i, i+1, ..., j |
| `Reconstruction.ReconstructIsOptTree` | src/main/java/trees/OptimalBstConstructor.java:7-14 | when every cell of the table names the first optimal root, reconstruction gives the recurrence's tree for i..j |
| `Reconstruction.ReconstructBuildsOptTree` | src/main/java/trees/OptimalBstConstructor.java:7-14 | from a table of first optimal roots, reconstruction gives the recurrence's tree, whose cost is the optimum |
| `Tables.CostCellsFollowRoots` | src/main/java/trees/OptimalBstConstructor.java:73-73 | each expected cost cell of a non-empty range is its weight plus the split cost of the expected root |
| `Tables.RootCellsFirstMinimal` | src/main/java/trees/OptimalBstConstructor.java:64-72 | each expected root splits no dearer than any root of its range and strictly cheaper than every earlier root |
| `Tables.SingleKeyCells` | src/main/java/trees/OptimalBstConstructor.java:58-73 | a single key i is its own root and costs exactly its frequency p[i] |
| `Tables.TablesSatisfyRecurrence` | src/main/java/trees/OptimalBstConstructor.java:55-75 | in the filled tables, every non-empty range has i <= R[i][j] <= j and W[i][j] = sum p[i..j] + W[i][r-1] + W[r+1][j] for r = R[i][j]; R[i][j] is the first root with the least table split; R[i][i] = i and W[i][i] = p[i]; every other cell, the empty ranges included, stays 0 |
| `Tables.RecurrenceDeterminesCells` | src/main/java/trees/OptimalBstConstructor.java:58-60 | by induction on range size, tables satisfying the recurrence hold the optimum and its first optimal root in every cell |
| `Tables.RecurrenceCharacterisesTables` | src/main/java/trees/OptimalBstConstructor.java:55-75 | a pair of tables satisfies the recurrence with its tie-break and zero cells exactly when it equals the expected pair (both directions) |
| `Tables.RootTableIsBest` | src/main/java/trees/OptimalBstConstructor.java:72-72 | the expected root table is well formed and names the first optimal root of every range |
| `Tables.RootTableMonotone` | src/main/java/trees/OptimalBstConstructor.java:105-106 | for non-negative frequencies R[i][j-1] <= R[i][j] <= R[i+1][j], so the pruned window always contains the root |
| `TableFill.ReferenceCell` | src/main/java/trees/OptimalBstConstructor.java:60-73 | scanning every root of i..j, with the running sum, yields the optimum and the first optimal root of i..j |
| `TableFill.FilledSplits` | src/main/java/trees/OptimalBstConstructor.java:65-66 | once every smaller range is filled, the table split of each root of i..j equals the recurrence's split cost |
| `TableFill.ScanWindow` | src/main/java/trees/OptimalBstConstructor.java:102-113 | scanning roots lo..hi with the strict comparison returns the window's first minimal root and its split cost |
| `TableFill.PrunedCell` | src/main/java/trees/OptimalBstConstructor.java:101-116 | scanning only R[i][j-1]..R[i+1][j] (just i for a single key) and taking the weight from prefix sums yields the same optimum and root |
| `TableFill.ReferenceFill` | src/main/java/trees/OptimalBstConstructor.java:53-75 | the unpruned fill produces exactly the expected cost and root tables |
| `TableFill.PrunedFill` | src/main/java/trees/OptimalBstConstructor.java:91-118 | the pruned fill produces exactly the expected cost and root tables, hence the same tables as the unpruned fill |
| `OptimalBstConstructor.RootTableTreeIsOptimal` | src/main/java/trees/OptimalBstConstructor.java:120-120 | rebuilding from the expected root table gives a tree with keys 1..n in order and the least search cost of all such trees |
| `OptimalBstConstructor.ReferenceConstruct` | src/main/java/trees/OptimalBstConstructor.java:53-78 | the unpruned construction returns the tree of the recurrence's first optimal roots over keys 1..n, and its search cost is W[1][n]; by `RootTableTreeIsOptimal` no search tree over 1..n costs less |
| `OptimalBstConstructor.PrunedConstruct` | src/main/java/trees/OptimalBstConstructor.java:91-121 | the pruned construction returns the same tree as the unpruned one, with search cost W[1][n] |
| `OptimalBstConstructor.Construct` | src/main/java/trees/OptimalBstConstructor.java:43-50 | it fails with a length mismatch exactly when the frequency and key counts differ; otherwise it returns the tree of the first optimal roots (the strict-`<` tie-break), a least-cost tree whose in-order sequence is keys 1..n, which is empty when n = 0 |
| `OptimalBstConstructor.DemoSingleKeys` | src/main/java/trees/OptimalBstConstructor.java:136-136 | each demo key alone costs its own frequency 0.8, 0.1, 0.6 and 0.5 |
| `OptimalBstConstructor.DemoPairs` | src/main/java/trees/OptimalBstConstructor.java:136-136 | for the demo frequencies the ranges a..b, b..c and c..d have roots a, c and c and costs 1.0, 0.8 and 1.6 |
| `OptimalBstConstructor.DemoTriples` | src/main/java/trees/OptimalBstConstructor.java:136-136 | for the demo frequencies the ranges a..c and b..d have roots a and c and costs 2.3 and 1.8 |
| `OptimalBstConstructor.DemoFrequencies` | src/main/java/trees/OptimalBstConstructor.java:136-136 | for frequencies 0.8, 0.1, 0.6, 0.5 the optimum W[1][4] is 3.5 and the root R[1][4] is key 3 (c) |
| `OptimalBstConstructor.DemoTree` | src/main/java/trees/OptimalBstConstructor.java:136-136 | the optimal demo tree has root c, left subtree a with b to its right, and right subtree d |

## Left out

- Floating point: frequencies and costs are exact reals. IEEE rounding, overflow and the `Double.MAX_VALUE` sentinel are not modelled. The sentinel is replaced by "no candidate yet", which the first scanned root always beats.
- The `Node` class and its payload: the tree is an immutable datatype over key positions 1..n. The source instead links the caller's `Node[]` array in place. Only the length of the key sequence is used, for the mismatch check.
- `main` and `TreePrinter.print`: demo code and stream output. The demo input is covered by the `Demo` lemmas; the printed tree drawing is not.
- Running-time claims (O(n³) against O(n²)) are not functional behaviour and are not stated.
- TableFill.PrunedFill: requires non-negative frequencies, which the source assumes but never checks. Knuth's bound on the roots needs them: with frequencies -1, 1, 1 the first optimal root of keys 1..3 is 3, but the window R[1][2]..R[2][3] is 2..2, so the pruned fill keeps root 2 at cost 1 where the optimum is 0 (`Knuth.SignedRootsNotMonotone`, `Knuth.SignedPrunedWindowMissesOptimum`). For such inputs the model does not describe the non-optimal tables the source then builds.
- TableFill.PrunedCell: requires non-negative frequencies, because its window contains the optimal root only under Knuth's bound (see `PrunedFill`).
- OptimalBstConstructor.PrunedConstruct: requires non-negative frequencies, because the pruned fill is optimal only for them (see `PrunedFill`).
- OptimalBstConstructor.Construct: when the lengths agree, requires non-negative frequencies, because it uses the pruned fill (see `PrunedFill`). The length-mismatch failure is stated for all frequencies. The unpruned `ReferenceConstruct` has no sign requirement.
- Reconstruction from a malformed or partially filled root table is not modelled: `Reconstruct` requires every non-empty range to name a root inside it.
