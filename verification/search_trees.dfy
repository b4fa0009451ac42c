/** Binary search trees over key indices 1..n, their in-order key sequence,
    and their weighted search cost. */
module SearchTrees {
  import opened RangeSums

  /** A binary tree whose nodes carry key indices; `Leaf` is the absent subtree. */
  datatype Tree = Leaf | Node(left: Tree, key: int, right: Tree)

  /** The keys of `t` read left to right. */
  function InOrder(t: Tree): seq<int> {
    match t
    case Leaf => []
    case Node(l, k, r) => InOrder(l) + [k] + InOrder(r)
  }

  /** The consecutive keys i..j, empty when j == i - 1. */
  function Keys(i: int, j: int): seq<int>
    requires i <= j + 1
  {
    seq(j - i + 1, x => i + x)
  }

  /** `t` is a search tree holding exactly the keys i..j: the root key lies in
      the range and splits it into the ranges of the two subtrees. */
  predicate Spans(t: Tree, i: int, j: int) {
    match t
    case Leaf => i == j + 1
    case Node(l, k, r) => i <= k <= j && Spans(l, i, k - 1) && Spans(r, k + 1, j)
  }

  /** Every key of `t` has a frequency among n of them. */
  predicate KeysWithin(t: Tree, n: int) {
    match t
    case Leaf => true
    case Node(l, k, r) => 1 <= k <= n && KeysWithin(l, n) && KeysWithin(r, n)
  }

  /** The total frequency of the keys of `t`. */
  function Weight(t: Tree, p: seq<real>): real
    requires KeysWithin(t, |p|)
  {
    match t
    case Leaf => 0.0
    case Node(l, k, r) => Weight(l, p) + p[k - 1] + Weight(r, p)
  }

  /** The sum over the keys of `t` of frequency times depth, where the root of
      `t` sits at depth d. */
  function DepthCost(t: Tree, p: seq<real>, d: int): real
    requires KeysWithin(t, |p|)
  {
    match t
    case Leaf => 0.0
    case Node(l, k, r) => p[k - 1] * (d as real) + DepthCost(l, p, d + 1) + DepthCost(r, p, d + 1)
  }

  /** The weighted search cost of `t`: every key costs its frequency once per
      node visited on the way to it, the root counting as one visit. */
  function SearchCost(t: Tree, p: seq<real>): real
    requires KeysWithin(t, |p|)
  {
    DepthCost(t, p, 1)
  }

  /** Pushing a tree one level deeper adds its weight to its cost. */
  lemma {:induction false} DepthCostShift(t: Tree, p: seq<real>, d: int)
    requires KeysWithin(t, |p|)
    ensures DepthCost(t, p, d + 1) == DepthCost(t, p, d) + Weight(t, p)
  {
    match t
    case Leaf =>
    case Node(l, k, r) =>
      DepthCostShift(l, p, d + 1);
      DepthCostShift(r, p, d + 1);
      assert p[k - 1] * ((d + 1) as real) == p[k - 1] * (d as real) + p[k - 1];
  }

  /** The cost of a tree is the cost of its two subtrees plus the weight of
      every key in it, each of which is found one level further down. */
  lemma SearchCostSplits(t: Tree, p: seq<real>)
    requires KeysWithin(t, |p|) && t.Node?
    ensures SearchCost(t, p) == SearchCost(t.left, p) + SearchCost(t.right, p) + Weight(t, p)
  {
    DepthCostShift(t.left, p, 1);
    DepthCostShift(t.right, p, 1);
  }

  /** A tree over keys i..j only holds keys with a frequency. */
  lemma {:induction false} SpansKeysWithin(t: Tree, i: int, j: int, n: int)
    requires Spans(t, i, j) && 1 <= i && j <= n
    ensures KeysWithin(t, n)
  {
    match t
    case Leaf =>
    case Node(l, k, r) =>
      SpansKeysWithin(l, i, k - 1, n);
      SpansKeysWithin(r, k + 1, j, n);
  }

  /** A tree over keys i..j weighs the range sum of i..j. */
  lemma {:induction false} SpansWeight(t: Tree, p: seq<real>, i: int, j: int)
    requires Spans(t, i, j) && KeysWithin(t, |p|) && 1 <= i <= j + 1 <= |p| + 1
    ensures Weight(t, p) == RangeSum(p, i, j)
  {
    match t
    case Leaf =>
    case Node(l, k, r) =>
      SpansWeight(l, p, i, k - 1);
      SpansWeight(r, p, k + 1, j);
      RangeSumAroundKey(p, i, k, j);
  }

  lemma KeysConcat(i: int, k: int, j: int)
    requires i <= k <= j
    ensures Keys(i, k - 1) + [k] + Keys(k + 1, j) == Keys(i, j)
  {
    var s := Keys(i, k - 1) + [k] + Keys(k + 1, j);
    assert |s| == |Keys(i, j)|;
    forall x | 0 <= x < |s|
      ensures s[x] == Keys(i, j)[x]
    {
      if x < k - i {
      } else if x == k - i {
      } else {
        assert s[x] == Keys(k + 1, j)[x - (k - i) - 1];
      }
    }
  }

  /** A tree spans keys i..j exactly when its in-order sequence is i..j: the
      search-tree shape and the sorted key order say the same thing. */
  lemma {:induction false} SpansIffInOrder(t: Tree, i: int, j: int)
    requires i <= j + 1
    ensures Spans(t, i, j) <==> InOrder(t) == Keys(i, j)
  {
    match t
    case Leaf =>
    case Node(l, k, r) =>
      if Spans(t, i, j) {
        SpansIffInOrder(l, i, k - 1);
        SpansIffInOrder(r, k + 1, j);
        KeysConcat(i, k, j);
      }
      if InOrder(t) == Keys(i, j) {
        var m := |InOrder(l)|;
        var s := Keys(i, j);
        assert |s| == m + 1 + |InOrder(r)|;
        assert k == s[m] == i + m;
        assert InOrder(l) == s[..m];
        assert InOrder(r) == s[m + 1..];
        assert s[..m] == Keys(i, k - 1);
        assert s[m + 1..] == Keys(k + 1, j);
        SpansIffInOrder(l, i, k - 1);
        SpansIffInOrder(r, k + 1, j);
      }
  }
}
