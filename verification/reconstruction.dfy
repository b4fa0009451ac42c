/** Building the tree top-down from a root table. */
module Reconstruction {
  import opened SearchTrees
  import opened OptimalCost

  /** An (n+2) x (n+2) root table in which every non-empty range i..j names
      a root inside the range. */
  predicate RootsWellFormed(R: seq<seq<int>>, n: int) {
    && |R| == n + 2
    && (forall a | 0 <= a < |R| :: |R[a]| == n + 2)
    && (forall a, b | 1 <= a <= b <= n :: a <= R[a][b] <= b)
  }

  /** The tree for keys i..j: absent for an empty range, otherwise rooted at
      the table's root for i..j with the left and right ranges below it. */
  function Reconstruct(R: seq<seq<int>>, n: int, i: int, j: int): (t: Tree)
    requires RootsWellFormed(R, n)
    requires 1 <= i && j <= n
    ensures i > j ==> t == Leaf
    ensures i <= j ==> t.Node? && t.key == R[i][j]
    ensures i <= j + 1 ==> Spans(t, i, j)
    ensures KeysWithin(t, n)
    decreases j - i + 1
  {
    if i > j then Leaf
    else
      var r := R[i][j];
      Node(Reconstruct(R, n, i, r - 1), r, Reconstruct(R, n, r + 1, j))
  }

  /** Read left to right, the reconstructed tree lists exactly keys i..j. */
  lemma ReconstructInOrder(R: seq<seq<int>>, n: int, i: int, j: int)
    requires RootsWellFormed(R, n)
    requires 1 <= i <= j + 1 && j <= n
    ensures InOrder(Reconstruct(R, n, i, j)) == Keys(i, j)
  {
    SpansIffInOrder(Reconstruct(R, n, i, j), i, j);
  }

  /** One level of reconstruction: the table's root over the trees of the
      two remaining ranges. */
  lemma ReconstructRoot(R: seq<seq<int>>, n: int, i: int, r: int, j: int)
    requires RootsWellFormed(R, n)
    requires 1 <= i <= j <= n && r == R[i][j]
    ensures Reconstruct(R, n, i, j) == Node(Reconstruct(R, n, i, r - 1), r, Reconstruct(R, n, r + 1, j))
  {
  }

  /** The table names the recurrence's first optimal root for every range. */
  predicate RootsAreBest(p: seq<real>, R: seq<seq<int>>) {
    && RootsWellFormed(R, |p|)
    && (forall a, b {:trigger R[a][b]} | 1 <= a <= b <= |p| :: R[a][b] == BestRoot(p, a, b))
  }

  /** From a table of first optimal roots, reconstruction yields the
      recurrence's tree. */
  lemma {:induction false} ReconstructIsOptTree(p: seq<real>, R: seq<seq<int>>, i: int, j: int)
    requires RootsAreBest(p, R)
    requires 1 <= i <= j + 1 <= |p| + 1
    ensures Reconstruct(R, |p|, i, j) == OptTree(p, i, j)
    decreases j - i + 1
  {
    if i <= j {
      var r := R[i][j];
      assert r == BestRoot(p, i, j);
      ReconstructIsOptTree(p, R, i, r - 1);
      ReconstructIsOptTree(p, R, r + 1, j);
      ReconstructRoot(R, |p|, i, r, j);
      OptTreeRoot(p, i, r, j);
    }
  }

  /** From a table of first optimal roots, reconstruction yields a tree
      whose cost is the optimum of keys i..j. */
  lemma ReconstructBuildsOptTree(p: seq<real>, R: seq<seq<int>>, i: int, j: int)
    requires RootsAreBest(p, R)
    requires 1 <= i <= j + 1 <= |p| + 1
    ensures Reconstruct(R, |p|, i, j) == OptTree(p, i, j)
    ensures SearchCost(Reconstruct(R, |p|, i, j), p) == OptCost(p, i, j)
  {
    ReconstructIsOptTree(p, R, i, j);
    OptTreeAttainsOptCost(p, i, j);
  }
}
