/**
 * Reachability in the node table of crates/gpui/src/bounds_tree.rs, following child lists
 * only, and whole runs of the tree.
 */
module TreeReach {
  import opened Wrappers
  import opened Geometry
  import opened Arithmetic
  import opened TreeShape
  import opened TreeGrowth
  import opened TreeAttach
  import opened BoundsTrees
  import PaintOrder

  /** The number of ways to get from node `i` to node `l` along child lists. */
  ghost function Ways(t: Tree, i: nat, l: nat): nat
    requires TreeOk(t) && i < |t.nodes|
    decreases |t.leaves[i]|, MAX_CHILDREN + 1
  {
    if IsLeaf(t.nodes, i) then (if i == l then 1 else 0)
    else
      assert Shape(t, i);
      WaysBelow(t, i, |Children(t.nodes, i)|, l)
  }

  /** The ways that go through one of the first `n` children of `i`. */
  ghost function WaysBelow(t: Tree, i: nat, n: nat, l: nat): nat
    requires TreeOk(t) && IsInternal(t.nodes, i) && n <= |Children(t.nodes, i)| <= MAX_CHILDREN
    decreases |t.leaves[i]|, n
  {
    if n == 0 then 0
    else
      NoneEmpty(t);
      ChildLeavesSmaller(t, i, n - 1);
      SmallerSet(t.leaves[Children(t.nodes, i)[n - 1]], t.leaves[i]);
      Ways(t, Children(t.nodes, i)[n - 1], l) + WaysBelow(t, i, n - 1, l)
  }

  lemma {:induction false} WaysToLeaf(t: Tree, i: nat, l: nat)
    requires TreeOk(t) && i < |t.nodes| && IsLeaf(t.nodes, l)
    ensures Ways(t, i, l) == if l in t.leaves[i] then 1 else 0
    decreases |t.leaves[i]|, MAX_CHILDREN + 1
  {
    assert Shape(t, i);
    if IsInternal(t.nodes, i) {
      WaysBelowToLeaf(t, i, |Children(t.nodes, i)|, l);
    }
  }

  lemma {:induction false} WaysBelowToLeaf(t: Tree, i: nat, n: nat, l: nat)
    requires TreeOk(t) && IsInternal(t.nodes, i) && IsLeaf(t.nodes, l)
    requires n <= |Children(t.nodes, i)| <= MAX_CHILDREN
    ensures forall k :: 0 <= k < n ==> Children(t.nodes, i)[k] < |t.leaves|
    ensures WaysBelow(t, i, n, l)
            == if exists k :: 0 <= k < n && l in t.leaves[Children(t.nodes, i)[k]] then 1 else 0
    decreases |t.leaves[i]|, n
  {
    assert Shape(t, i);
    if n > 0 {
      NoneEmpty(t);
      ChildLeavesSmaller(t, i, n - 1);
      SmallerSet(t.leaves[Children(t.nodes, i)[n - 1]], t.leaves[i]);
      WaysToLeaf(t, Children(t.nodes, i)[n - 1], l);
      WaysBelowToLeaf(t, i, n - 1, l);
    }
  }

  /** Every leaf in the table is reachable from the root along exactly one path. */
  lemma EveryLeafReachedOnce(t: Tree, l: nat)
    requires TreeOk(t) && IsLeaf(t.nodes, l)
    ensures Ways(t, t.root, l) == 1
  {
    WaysToLeaf(t, t.root, l);
  }

  /**
   * Inserting a list of bounds into a cleared tree, in whatever state the tree was, hands
   * out the orders of the linear scan: the property `test_random_iterations` samples.
   */
  method InsertAll(tree: BoundsTree, bs: seq<Bounds>) returns (orders: seq<nat>)
    modifies tree
    ensures tree.Valid() && tree.log == PaintOrder.Scan(bs)
    ensures |orders| == |bs|
    ensures forall k :: 0 <= k < |bs| ==> orders[k] == PaintOrder.Scan(bs)[k].order && 1 <= orders[k] <= k + 1
  {
    hide TreeOk;
    hide Stores;
    hide PaintOrder.Assigned;
    hide PaintOrder.MaxIntersecting;
    tree.Clear();
    orders := [];
    for i := 0 to |bs|
      invariant tree.Valid() && |tree.log| == |orders| == i && PaintOrder.Assigned(tree.log)
      invariant forall k :: 0 <= k < i ==> tree.log[k].bounds == bs[k] && tree.log[k].order == orders[k]
    {
      var order := tree.Insert(bs[i]);
      orders := orders + [order];
    }
    PaintOrder.AssignedIsScan(tree.log, bs);
    forall k | 0 <= k < |bs| ensures 1 <= orders[k] <= k + 1 {
      PaintOrder.OrderAtMostPosition(tree.log, k);
    }
  }
}
