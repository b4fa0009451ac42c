/** The entry point: check the input lengths, fill the tables, rebuild the
    tree from the root table. */
module OptimalBstConstructor {
  import opened Outcomes
  import opened RangeSums
  import opened SearchTrees
  import opened OptimalCost
  import opened Reconstruction
  import opened Tables
  import opened TableFill

  /** `t` holds exactly the keys 1..|p| in order and no such tree has a
      smaller weighted search cost. */
  ghost predicate IsOptimalTree(t: Tree, p: seq<real>) {
    && Spans(t, 1, |p|) && KeysWithin(t, |p|)
    && forall t' | Spans(t', 1, |p|) && KeysWithin(t', |p|) :: SearchCost(t, p) <= SearchCost(t', p)
  }

  /** Rebuilding from the expected root table gives a least-cost tree. */
  lemma RootTableTreeIsOptimal(p: seq<real>)
    ensures RootsWellFormed(RootTable(p), |p|)
    ensures Reconstruct(RootTable(p), |p|, 1, |p|) == OptTree(p, 1, |p|)
    ensures SearchCost(OptTree(p, 1, |p|), p) == OptCost(p, 1, |p|)
    ensures IsOptimalTree(OptTree(p, 1, |p|), p)
  {
    RootTableIsBest(p);
    ReconstructBuildsOptTree(p, RootTable(p), 1, |p|);
    forall t' | Spans(t', 1, |p|) && KeysWithin(t', |p|)
      ensures SearchCost(OptTree(p, 1, |p|), p) <= SearchCost(t', p)
    {
      OptCostIsLowerBound(p, t', 1, |p|);
    }
  }

  /** The unpruned construction: any real frequencies, O(n^3) fill. */
  method ReferenceConstruct(p: seq<real>) returns (t: Tree)
    ensures t == OptTree(p, 1, |p|)
    ensures SearchCost(t, p) == OptCost(p, 1, |p|)
  {
    var W, R := ReferenceFill(p);
    RootTableIsBest(p);
    ReconstructBuildsOptTree(p, R, 1, |p|);
    t := Reconstruct(R, |p|, 1, |p|);
  }

  /** The pruned construction: non-negative frequencies, O(n^2) fill. It
      returns the same tree as the unpruned one. */
  method PrunedConstruct(p: seq<real>) returns (t: Tree)
    requires NonNegative(p)
    ensures t == OptTree(p, 1, |p|)
    ensures SearchCost(t, p) == OptCost(p, 1, |p|)
  {
    var W, R := PrunedFill(p);
    RootTableIsBest(p);
    ReconstructBuildsOptTree(p, R, 1, |p|);
    t := Reconstruct(R, |p|, 1, |p|);
  }

  /** Builds an optimal search tree over `keys` (given in ascending order)
      with frequencies `p`; the tree's nodes are key positions 1..n. A length
      mismatch is rejected before anything is built. */
  method Construct<K>(p: seq<real>, keys: seq<K>) returns (res: Result<Tree, ConstructError>)
    requires |p| == |keys| ==> NonNegative(p)
    ensures res.Failure? <==> |p| != |keys|
    ensures res.Failure? ==> res.error == LengthMismatch
    ensures res.Success? ==> IsOptimalTree(res.value, p) && InOrder(res.value) == Keys(1, |keys|)
    ensures res.Success? ==> SearchCost(res.value, p) == OptCost(p, 1, |p|)
    ensures res.Success? ==> res.value == OptTree(p, 1, |p|)
    ensures res.Success? && |keys| == 0 ==> res.value == Leaf
  {
    if |p| != |keys| {
      return Failure(LengthMismatch);
    }
    var t := PrunedConstruct(p);
    RootTableTreeIsOptimal(p);
    SpansIffInOrder(t, 1, |p|);
    return Success(t);
  }

  /** The demo frequencies 0.8, 0.1, 0.6, 0.5 of keys a, b, c, d. */
  function DemoP(): seq<real> {
    [0.8, 0.1, 0.6, 0.5]
  }

  /** The single demo keys cost their own frequencies. */
  lemma DemoSingleKeys()
    ensures OptCost(DemoP(), 1, 1) == 0.8 && OptCost(DemoP(), 2, 2) == 0.1
    ensures OptCost(DemoP(), 3, 3) == 0.6 && OptCost(DemoP(), 4, 4) == 0.5
  {
  }

  /** The demo ranges of two keys. */
  lemma DemoPairs()
    ensures BestRoot(DemoP(), 1, 2) == 1 && OptCost(DemoP(), 1, 2) == 1.0
    ensures BestRoot(DemoP(), 2, 3) == 3 && OptCost(DemoP(), 2, 3) == 0.8
    ensures BestRoot(DemoP(), 3, 4) == 3 && OptCost(DemoP(), 3, 4) == 1.6
  {
    DemoSingleKeys();
  }

  /** The demo ranges of three keys. */
  lemma DemoTriples()
    ensures BestRoot(DemoP(), 1, 3) == 1 && OptCost(DemoP(), 1, 3) == 2.3
    ensures BestRoot(DemoP(), 2, 4) == 3 && OptCost(DemoP(), 2, 4) == 1.8
  {
    var p := DemoP();
    DemoSingleKeys();
    DemoPairs();
    assert SplitCost(p, 1, 1, 3) == 0.8 && SplitCost(p, 1, 2, 3) == 1.4 && SplitCost(p, 1, 3, 3) == 1.0;
    assert SplitCost(p, 2, 2, 4) == 1.6 && SplitCost(p, 2, 3, 4) == 0.6 && SplitCost(p, 2, 4, 4) == 0.8;
  }

  /** For the demo frequencies the optimum is 3.5 with root c (key 3). */
  lemma DemoFrequencies()
    ensures OptCost(DemoP(), 1, 4) == 3.5
    ensures BestRoot(DemoP(), 1, 4) == 3
  {
    var p := DemoP();
    DemoSingleKeys();
    DemoPairs();
    DemoTriples();
    assert SplitCost(p, 1, 1, 4) == 1.8 && SplitCost(p, 1, 2, 4) == 2.4;
    assert SplitCost(p, 1, 3, 4) == 1.5 && SplitCost(p, 1, 4, 4) == 2.3;
    assert BestRootIn(p, 1, 4, 1, 2) == 1;
    assert BestRootIn(p, 1, 4, 1, 3) == 3;
    assert RangeSum(p, 1, 4) == 2.0;
  }

  /** The optimal demo tree: root c (key 3), left subtree a with b below it
      on the right, right subtree d. */
  lemma DemoTree()
    ensures OptTree(DemoP(), 1, 4) == Node(Node(Leaf, 1, Node(Leaf, 2, Leaf)), 3, Node(Leaf, 4, Leaf))
  {
    var p := DemoP();
    DemoPairs();
    DemoFrequencies();
    OptTreeRoot(p, 1, 3, 4);
    OptTreeRoot(p, 1, 1, 2);
    OptTreeRoot(p, 2, 2, 2);
    OptTreeRoot(p, 4, 4, 4);
  }
}
