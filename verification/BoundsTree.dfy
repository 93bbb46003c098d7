/**
 * The bounds tree of crates/gpui/src/bounds_tree.rs: an R-tree over a node table that
 * gives every inserted bounds an order above all earlier bounds it intersects.
 *
 * The ghost fields are the specification state: `log` holds the inserted bounds with
 * their orders in insertion order, `leafIdx` the table index of each of them, and
 * `leaves` and `parent` describe the tree (see TreeShape).
 */
module BoundsTrees {
  import opened Wrappers
  import opened Geometry
  import opened Arithmetic
  import opened TreeShape
  import opened TreeGrowth
  import opened TreeAttach
  import PaintOrder

  type Entry = PaintOrder.Entry

  /** The table rows `leafIdx` are exactly the leaves, and hold the logged bounds and orders. */
  ghost predicate Stores(nodes: seq<Node>, log: seq<Entry>, leafIdx: seq<nat>) {
    && |leafIdx| == |log|
    && (forall k :: 0 <= k < |log| ==>
         && leafIdx[k] < |nodes|
         && nodes[leafIdx[k]] == Node(log[k].bounds, log[k].order, Leaf(log[k].order)))
    && (forall j, k :: 0 <= j < k < |log| ==> leafIdx[j] < leafIdx[k])
    && (forall i :: IsLeaf(nodes, i) ==> i in leafIdx)
  }

  /** A leaf whose order no leaf exceeds. */
  ghost predicate IsMaxLeaf(nodes: seq<Node>, m: nat) {
    && IsLeaf(nodes, m)
    && forall l :: IsLeaf(nodes, l) ==> nodes[l].maxOrder <= nodes[m].maxOrder
  }


  // ----- Search ---------------------------------------------------------------------

  /** The indices in `ch` whose node can still improve on `bound`, in their order. */
  function Above(nodes: seq<Node>, ch: seq<nat>, bound: nat): (r: seq<nat>)
    requires InTable(nodes, ch)
    ensures InTable(nodes, r)
    ensures forall c :: c in r <==> c in ch && nodes[c].maxOrder > bound
  {
    if ch == [] then []
    else
      var c := ch[|ch| - 1];
      var front := Above(nodes, ch[..|ch| - 1], bound);
      assert forall d :: d in ch <==> d in ch[..|ch| - 1] || d == c;
      if nodes[c].maxOrder > bound then front + [c] else front
  }

  lemma {:induction false} AboveWeighsNoMore(t: Tree, ch: seq<nat>, bound: nat)
    requires InTable(t.nodes, ch)
    ensures Weight(t.leaves, Above(t.nodes, ch, bound)) <= Weight(t.leaves, ch)
  {
    if ch != [] {
      AboveWeighsNoMore(t, ch[..|ch| - 1], bound);
    }
  }

  /** Leaf `l` is an answer candidate better than `found`. */
  predicate Better(nodes: seq<Node>, query: Bounds, found: nat, l: int) {
    IsLeaf(nodes, l) && query.Intersects(nodes[l].bounds) && nodes[l].maxOrder > found
  }

  /** `found` is 0 or the order of an intersecting leaf. */
  ghost predicate Attained(nodes: seq<Node>, query: Bounds, found: nat) {
    found > 0 ==> exists l :: IsLeaf(nodes, l) && query.Intersects(nodes[l].bounds) && nodes[l].maxOrder == found
  }

  /** `found` is attained, and only leaves below the stack can exceed it. */
  ghost predicate SearchState(t: Tree, query: Bounds, stack: seq<nat>, found: nat) {
    && InTable(t.nodes, stack)
    && Attained(t.nodes, query, found)
    && forall l :: Better(t.nodes, query, found, l) ==> l in Covered(t.leaves, stack)
  }

  /** The stack and the best order after the top node is popped and looked at. */
  function SearchStep(nodes: seq<Node>, query: Bounds, stack: seq<nat>, found: nat): (seq<nat>, nat)
    requires stack != [] && InTable(nodes, stack)
    requires var i := stack[|stack| - 1]; nodes[i].kind.Internal? ==> InTable(nodes, Children(nodes, i))
  {
    var i := stack[|stack| - 1];
    var rest := stack[..|stack| - 1];
    if nodes[i].maxOrder <= found || !query.Intersects(nodes[i].bounds) then (rest, found)
    else match nodes[i].kind
      case Leaf(order) => (rest, MaxNat(found, order))
      case Internal(children) => (rest + Above(nodes, children, found), found)
  }

  /** A pruned subtree holds nothing better. */
  lemma PrunedHoldsNothing(nodes: seq<Node>, ls: set<nat>, b: Bounds, m: nat, query: Bounds, found: nat)
    requires Hull(nodes, ls, b) && TopOrder(nodes, ls, m)
    requires m <= found || !query.Intersects(b)
    ensures forall l :: l in ls ==> !Better(nodes, query, found, l)
  {}

  /** The children that pass the filter hold everything better that the node holds. */
  lemma FilteredChildrenSuffice(t: Tree, query: Bounds, i: nat, found: nat)
    requires TreeOk(t) && IsInternal(t.nodes, i)
    ensures InTable(t.nodes, Children(t.nodes, i))
    ensures forall l :: l in t.leaves[i] && Better(t.nodes, query, found, l)
                        ==> l in Covered(t.leaves, Above(t.nodes, Children(t.nodes, i), found))
    ensures Weight(t.leaves, Above(t.nodes, Children(t.nodes, i), found)) + 1 < 2 * |t.leaves[i]|
  {
    assert Shape(t, i);
    var ch := Children(t.nodes, i);
    var more := Above(t.nodes, ch, found);
    forall l | l in t.leaves[i] && Better(t.nodes, query, found, l) ensures l in Covered(t.leaves, more) {
      var k :| 0 <= k < |ch| && l in t.leaves[ch[k]];
      assert Values(t, ch[k]);
      assert ch[k] in more;
      CoveredHas(t.leaves, more, ch[k]);
    }
    AboveWeighsNoMore(t, ch, found);
    forall k | 0 <= k < |ch| ensures t.leaves[ch[k]] != {} { assert Values(t, ch[k]); }
    PartsWeigh(t.leaves, ch, t.leaves[i]);
  }

  /** Dealing with the top node is enough: the rest of the stack stays covered. */
  lemma StepKeepsState(t: Tree, query: Bounds, stack: seq<nat>, found: nat, more: seq<nat>, found': nat)
    requires SearchState(t, query, stack, found) && stack != [] && |t.leaves| == |t.nodes|
    requires found <= found' && Attained(t.nodes, query, found') && InTable(t.nodes, more)
    requires forall l :: l in t.leaves[stack[|stack| - 1]] && Better(t.nodes, query, found', l) ==> l in Covered(t.leaves, more)
    ensures SearchState(t, query, stack[..|stack| - 1] + more, found')
    ensures Weight(t.leaves, stack[..|stack| - 1] + more) == Weight(t.leaves, stack[..|stack| - 1]) + Weight(t.leaves, more)
  {
    var rest := stack[..|stack| - 1];
    CoveredConcat(t.leaves, rest, more);
    forall l | Better(t.nodes, query, found', l) ensures l in Covered(t.leaves, rest + more) {
      assert Better(t.nodes, query, found, l);
    }
  }

  lemma SearchStepCorrect(t: Tree, query: Bounds, stack: seq<nat>, found: nat)
    requires TreeOk(t)
    requires SearchState(t, query, stack, found) && stack != []
    ensures InTable(t.nodes, stack)
    ensures var i := stack[|stack| - 1]; t.nodes[i].kind.Internal? ==> InTable(t.nodes, Children(t.nodes, i))
    ensures var (stack', found') := SearchStep(t.nodes, query, stack, found);
            && SearchState(t, query, stack', found')
            && Weight(t.leaves, stack') < Weight(t.leaves, stack)
  {
    var i, rest := stack[|stack| - 1], stack[..|stack| - 1];
    assert Values(t, i) && Shape(t, i);
    assert rest + [] == rest;
    assert t.leaves[i] != {};
    if t.nodes[i].maxOrder <= found || !query.Intersects(t.nodes[i].bounds) {
      PrunedHoldsNothing(t.nodes, t.leaves[i], t.nodes[i].bounds, t.nodes[i].maxOrder, query, found);
      StepKeepsState(t, query, stack, found, [], found);
    } else if t.nodes[i].kind.Leaf? {
      StepKeepsState(t, query, stack, found, [], t.nodes[i].maxOrder);
    } else {
      FilteredChildrenSuffice(t, query, i, found);
      StepKeepsState(t, query, stack, found, Above(t.nodes, Children(t.nodes, i), found), found);
    }
  }

  lemma SearchStart(t: Tree, query: Bounds)
    requires TreeOk(t)
    ensures SearchState(t, query, [t.root], 0)
  {
    assert Covered(t.leaves, [t.root]) == Covered(t.leaves, []) + t.leaves[t.root];
  }

  /** What the leaves say is what the linear scan over the log says. */
  lemma LeavesAnswerTheScan(nodes: seq<Node>, log: seq<Entry>, leafIdx: seq<nat>, query: Bounds, found: nat)
    requires Stores(nodes, log, leafIdx)
    requires Attained(nodes, query, found) && forall l :: !Better(nodes, query, found, l)
    ensures found == PaintOrder.MaxIntersecting(log, query)
  {
    if found > 0 {
      var l :| IsLeaf(nodes, l) && query.Intersects(nodes[l].bounds) && nodes[l].maxOrder == found;
      var k :| 0 <= k < |leafIdx| && leafIdx[k] == l;
      assert log[k].bounds.Intersects(query) && log[k].order == found;
    }
    forall k | 0 <= k < |log| && log[k].bounds.Intersects(query) ensures log[k].order <= found {
      assert !Better(nodes, query, found, leafIdx[k]);
    }
    PaintOrder.MaxIntersectingUnique(log, query, found);
  }

  lemma NothingStored(log: seq<Entry>, leafIdx: seq<nat>, query: Bounds)
    requires Stores([], log, leafIdx)
    ensures PaintOrder.MaxIntersecting(log, query) == 0
  {}

  /** With nothing left to look at, the best order found is the answer. */
  lemma SearchEnd(t: Tree, log: seq<Entry>, leafIdx: seq<nat>, query: Bounds, found: nat)
    requires Stores(t.nodes, log, leafIdx) && SearchState(t, query, [], found)
    ensures found == PaintOrder.MaxIntersecting(log, query)
  {
    LeavesAnswerTheScan(t.nodes, log, leafIdx, query, found);
  }

  /** The fast path: no leaf exceeds the highest one. */
  lemma MaxLeafAnswersTheScan(nodes: seq<Node>, log: seq<Entry>, leafIdx: seq<nat>, m: nat, query: Bounds)
    requires Stores(nodes, log, leafIdx) && IsMaxLeaf(nodes, m) && query.Intersects(nodes[m].bounds)
    ensures nodes[m].maxOrder == PaintOrder.MaxIntersecting(log, query)
  {
    LeavesAnswerTheScan(nodes, log, leafIdx, query, nodes[m].maxOrder);
  }

  ghost predicate MaxLeafOk(nodes: seq<Node>, maxLeaf: Option<nat>) {
    if maxLeaf.None? then nodes == [] else IsMaxLeaf(nodes, maxLeaf.value)
  }

  // ----- Insertion ------------------------------------------------------------------

  lemma StoresOneMore(nodes: seq<Node>, nodes': seq<Node>, x: nat, log: seq<Entry>, leafIdx: seq<nat>, e: Entry)
    requires Stores(nodes, log, leafIdx) && OneMoreLeaf(nodes, nodes', x, e.bounds, e.order)
    ensures Stores(nodes', log + [e], leafIdx + [x])
  {}

  lemma MaxLeafAfterInsert(nodes: seq<Node>, nodes': seq<Node>, maxLeaf: Option<nat>, x: nat, e: Entry)
    requires MaxLeafOk(nodes, maxLeaf) && OneMoreLeaf(nodes, nodes', x, e.bounds, e.order)
    ensures MaxLeafOk(nodes', if maxLeaf.None? || nodes[maxLeaf.value].maxOrder < e.order then Some(x) else maxLeaf)
  {}

  /** Child `pos` needs the least half perimeter to take in `bounds`, and is the first such child. */
  ghost predicate IsBest(nodes: seq<Node>, ch: seq<nat>, bounds: Bounds, pos: nat) {
    && InTable(nodes, ch) && pos < |ch|
    && (forall k :: 0 <= k < |ch| ==> Cost(nodes, ch[pos], bounds) <= Cost(nodes, ch[k], bounds))
    && (forall k :: 0 <= k < pos ==> Cost(nodes, ch[pos], bounds) < Cost(nodes, ch[k], bounds))
  }

  function Cost(nodes: seq<Node>, i: nat, bounds: Bounds): real
    requires i < |nodes|
  {
    bounds.Union(nodes[i].bounds).HalfPerimeter()
  }

  /** There is only one first best child. */
  lemma BestIsUnique(nodes: seq<Node>, ch: seq<nat>, bounds: Bounds, p: nat, q: nat)
    requires IsBest(nodes, ch, bounds, p) && IsBest(nodes, ch, bounds, q)
    ensures p == q
  {
    hide Cost;
    assert Cost(nodes, ch[p], bounds) <= Cost(nodes, ch[q], bounds) <= Cost(nodes, ch[p], bounds);
  }

  /** The new leaf at the end of the table does not matter to the choice. */
  lemma BestBefore(before: seq<Node>, nodes: seq<Node>, ch: seq<nat>, bounds: Bounds, pos: nat)
    requires before <= nodes && InTable(before, ch) && IsBest(nodes, ch, bounds, pos)
    ensures pos < |ch| && IsBest(before, ch, bounds, pos)
  {}

  /** Every step of the path goes to the best child. */
  ghost predicate IsGreedy(nodes: seq<Node>, path: seq<nat>, bounds: Bounds) {
    forall i, j :: 0 <= i < |path| && j == i + 1 < |path| ==> GreedyStep(nodes, path[i], path[j], bounds)
  }

  ghost predicate GreedyStep(nodes: seq<Node>, i: nat, c: nat, bounds: Bounds) {
    IsInternal(nodes, i) && exists pos: nat :: IsBest(nodes, Children(nodes, i), bounds, pos) && Children(nodes, i)[pos] == c
  }

  lemma NoneEmpty(t: Tree)
    requires TreeOk(t)
    ensures forall j :: 0 <= j < |t.nodes| ==> t.leaves[j] != {}
  {
    forall j | 0 <= j < |t.nodes| ensures t.leaves[j] != {} { assert Values(t, j); }
  }

  lemma PathExtend(t: Tree, path: seq<nat>, k: nat)
    requires TreeOk(t) && IsPath(t, path)
    requires k < |Children(t.nodes, Last(path))| && IsInternal(t.nodes, Children(t.nodes, Last(path))[k])
    ensures var c := Children(t.nodes, Last(path))[k];
            IsPath(t, path + [c]) && t.leaves[c] < t.leaves[Last(path)]
  {
    var b := Last(path);
    assert Shape(t, b);
    NoneEmpty(t);
    ChildLeavesSmaller(t, b, k);
  }

  lemma RootInTable(t: Tree)
    requires TreeOk(t)
    ensures t.root < |t.nodes| == |t.leaves| == |t.parent|
  {}

  lemma FirstLeaf(leaf: Node)
    requires leaf.kind == Leaf(leaf.maxOrder)
    ensures TreeOk(Tree([leaf], [{0}], [None], 0)) && OneMoreLeaf([], [leaf], 0, leaf.bounds, leaf.maxOrder)
  {}

  lemma LeafInTable(nodes: seq<Node>, nodes': seq<Node>, x: nat, bounds: Bounds, order: nat)
    requires OneMoreLeaf(nodes, nodes', x, bounds, order)
    ensures IsLeaf(nodes', x) && nodes'[x].bounds == bounds && nodes'[x].maxOrder == order
  {}

  /** Updates that keep the leaves do not matter to what was added. */
  lemma OneMoreLeafKept(nodes: seq<Node>, attached: seq<Node>, nodes': seq<Node>, x: nat, bounds: Bounds, order: nat)
    requires OneMoreLeaf(nodes, attached, x, bounds, order) && |nodes'| == |attached|
    requires forall i :: IsLeaf(nodes', i) <==> IsLeaf(attached, i)
    requires forall i :: IsLeaf(nodes', i) ==> nodes'[i] == attached[i]
    ensures OneMoreLeaf(nodes, nodes', x, bounds, order)
  {}

  /** A tree of one leaf becomes an internal node over two. */
  function RootPair(a: Node, b: Node): Tree {
    Tree([a, b, Pair(0, a, 1, b.bounds, b.maxOrder)], [{0}, {1}, {0, 1}], [Some(2), Some(2), None], 2)
  }

  lemma RootPairShape(a: Node, b: Node)
    requires a.kind == Leaf(a.maxOrder) && b.kind == Leaf(b.maxOrder)
    ensures AllShape(RootPair(a, b)) && AllLinked(RootPair(a, b))
  {
    var t := RootPair(a, b);
    PairShape(t, 0, 1, 2);
    hide Partition;
  }

  lemma RootPairOk(a: Node, b: Node)
    requires a.kind == Leaf(a.maxOrder) && b.kind == Leaf(b.maxOrder)
    ensures TreeOk(RootPair(a, b)) && OneMoreLeaf([a], RootPair(a, b).nodes, 1, b.bounds, b.maxOrder)
  {
    var t := RootPair(a, b);
    RootPairShape(a, b);
    hide AllShape;
    hide AllLinked;
    PairValues(t, 0, 1, 2);
    LeafValues(t, 0);
    LeafValues(t, 1);
  }

  lemma SingleTables(t: Tree)
    requires TreeOk(t) && IsLeaf(t.nodes, t.root)
    ensures t.root == 0 && |t.nodes| == 1 && t.leaves == [{0}] && t.parent == [None]
    ensures t.nodes[0].kind == Leaf(t.nodes[0].maxOrder)
  {
    OnlyLeafIsRoot(t, 0);
    if |t.nodes| > 1 { OnlyLeafIsRoot(t, 1); }
    assert Values(t, 0) && Shape(t, 0) && Linked(t, 0);
  }

  /** When the root is a leaf there is no other node. */
  lemma OnlyLeafIsRoot(t: Tree, y: nat)
    requires TreeOk(t) && IsLeaf(t.nodes, t.root) && y < |t.nodes|
    ensures y == t.root
  {
    assert Shape(t, t.root);
    if IsInternal(t.nodes, y) {
      assert Shape(t, y) && Values(t, y);
      NoneEmpty(t);
      ChildLeavesSmaller(t, y, 0);
    }
  }

  /** The nodes of the insert path are internal nodes, each of them there once. */
  lemma PathNodes(t: Tree, path: seq<nat>, x: nat)
    requires AtBottom(t, path, x)
    ensures forall k :: 0 <= k < |path| ==> IsInternal(t.nodes, path[k])
    ensures forall j, k :: 0 <= j < k < |path| ==> path[j] != path[k]
  {}

  /** The path node below the one at position `k`. */
  function Below(path: seq<nat>, k: nat): Option<nat> {
    if k + 1 < |path| then Some(path[k + 1]) else None
  }

  /** From position `j` of the path on every node is updated, and no other node has changed. */
  ghost predicate PassedUp(before: seq<Node>, nodes: seq<Node>, path: seq<nat>, j: nat, bounds: Bounds, order: nat) {
    && |nodes| == |before| && j <= |path|
    && (forall i :: 0 <= i < |nodes| && i !in path[j..] ==> nodes[i] == before[i])
    && forall k :: j <= k < |path| ==>
         IsInternal(before, path[k]) && nodes[path[k]] == Updated(before[path[k]], Below(path, k), bounds, order)
  }

  lemma NotPassed(nodes: seq<Node>, path: seq<nat>, bounds: Bounds, order: nat)
    ensures PassedUp(nodes, nodes, path, |path|, bounds, order)
  {}

  lemma PassedUpNext(before: seq<Node>, nodes: seq<Node>, path: seq<nat>, j: nat, bounds: Bounds, order: nat)
    requires PassedUp(before, nodes, path, j, bounds, order) && 0 < j && IsInternal(before, path[j - 1])
    requires forall i, k :: 0 <= i < k < |path| ==> path[i] != path[k]
    ensures nodes[path[j - 1]] == before[path[j - 1]]
    ensures PassedUp(before, nodes[path[j - 1] := Updated(before[path[j - 1]], Below(path, j - 1), bounds, order)], path, j - 1, bounds, order)
  {
    hide Updated;
    assert path[j - 1..] == [path[j - 1]] + path[j..];
  }

  class BoundsTree {
    var nodes: seq<Node>
    var root: Option<nat>
    var maxLeaf: Option<nat>
    var insertPath: seq<nat>
    var searchStack: seq<nat>

    ghost var log: seq<Entry>
    ghost var leafIdx: seq<nat>
    ghost var leaves: seq<set<nat>>
    ghost var parent: seq<Option<nat>>

    ghost predicate Valid()
      reads this
    {
      && Stores(nodes, log, leafIdx) && PaintOrder.Assigned(log)
      && (root == None <==> nodes == []) && (root.Some? ==> TreeOk(Tree(nodes, leaves, parent, root.value)))
      && MaxLeafOk(nodes, maxLeaf)
    }

    method FindMaxOrdering(query: Bounds) returns (r: nat)
      requires Valid()
      modifies this`searchStack
      ensures Valid()
      ensures r == PaintOrder.MaxIntersecting(log, query)
    {
      hide TreeOk;
      hide Stores;
      hide SearchState;
      hide PaintOrder.Assigned;
      if root.None? {
        hide PaintOrder.MaxIntersecting;
        NothingStored(log, leafIdx, query);
        return 0;
      }
      hide PaintOrder.MaxIntersecting;
      var rootIdx := root.value;

      // Fast path: the leaf with the highest order.
      if maxLeaf.Some? {
        var maxNode := nodes[maxLeaf.value];
        if query.Intersects(maxNode.bounds) {
          MaxLeafAnswersTheScan(nodes, log, leafIdx, maxLeaf.value, query);
          return maxNode.maxOrder;
        }
      }

      ghost var t := Tree(nodes, leaves, parent, rootIdx);
      searchStack := [rootIdx];
      SearchStart(t, query);
      r := 0;
      while searchStack != []
        invariant SearchState(t, query, searchStack, r)
        decreases Weight(t.leaves, searchStack)
      {
        var i := searchStack[|searchStack| - 1];
        SearchStepCorrect(t, query, searchStack, r);
        searchStack := searchStack[..|searchStack| - 1];
        var node := nodes[i];
        if node.maxOrder <= r || !query.Intersects(node.bounds) {
          // Pruned: the subtree cannot improve the result, or does not intersect.
        } else {
          match node.kind
          case Leaf(order) =>
            r := MaxNat(r, order);
          case Internal(children) =>
            searchStack := searchStack + Above(nodes, children, r);
        }
      }
      SearchEnd(t, log, leafIdx, query, r);
    }

    constructor ()
      ensures Valid() && log == []
    {
      nodes, root, maxLeaf, insertPath, searchStack := [], None, None, [], [];
      log, leafIdx, leaves, parent := [], [], [], [];
    }

    method Clear()
      modifies this
      ensures Valid() && log == []
      ensures nodes == [] && root == None && maxLeaf == None && insertPath == [] && searchStack == []
    {
      nodes := [];
      root := None;
      maxLeaf := None;
      insertPath := [];
      searchStack := [];
      log, leafIdx, leaves, parent := [], [], [], [];
    }

    method Insert(newBounds: Bounds) returns (ordering: nat)
      requires Valid()
      modifies this
      ensures Valid()
      ensures ordering == 1 + PaintOrder.MaxIntersecting(old(log), newBounds)
      ensures log == old(log) + [PaintOrder.Entry(newBounds, ordering)] && |leafIdx| == |log|
      // The highest leaf changes only when the new one is higher.
      ensures if old(maxLeaf) == None || old(nodes)[old(maxLeaf).value].maxOrder < ordering then maxLeaf == Some(leafIdx[|log| - 1])
              else maxLeaf == old(maxLeaf)
    {
      hide TreeOk;
      hide Stores;
      hide PaintOrder.Assigned;
      hide PaintOrder.MaxIntersecting;
      var maxIntersecting := FindMaxOrdering(newBounds);
      ordering := maxIntersecting + 1;
      ghost var before := nodes;
      ghost var e := PaintOrder.Entry(newBounds, ordering);
      var newLeafIdx := InsertLeaf(newBounds, ordering);
      MaxLeafAfterInsert(before, nodes, maxLeaf, newLeafIdx, e);
      StoresOneMore(before, nodes, newLeafIdx, log, leafIdx, e);
      PaintOrder.AssignedOneMore(log, e);
      if maxLeaf.None? {
        maxLeaf := Some(newLeafIdx);
      } else if nodes[maxLeaf.value].maxOrder < ordering {
        maxLeaf := Some(newLeafIdx);
      }
      log, leafIdx := log + [e], leafIdx + [newLeafIdx];
    }

    method InsertLeaf(bounds: Bounds, order: nat) returns (newLeafIdx: nat)
      requires Valid()
      modifies this`nodes, this`root, this`insertPath, this`leaves, this`parent
      ensures OneMoreLeaf(old(nodes), nodes, newLeafIdx, bounds, order)
      ensures root.Some? && TreeOk(Tree(nodes, leaves, parent, root.value))
      // A second leaf gets a root over both; later ones go along the best children, and a node takes up to 12.
      ensures old(root) == None ==> |nodes| == 1
      ensures old(root).Some? && IsLeaf(old(nodes), old(root).value) ==> |nodes| == 3 && root.value == 2
      ensures old(root).Some? && IsInternal(old(nodes), old(root).value) ==>
                && root == old(root) && insertPath != [] && insertPath[0] == old(root).value
                && IsInternal(old(nodes), Last(insertPath)) && IsGreedy(old(nodes), insertPath, bounds)
                && |nodes| == |old(nodes)| + (if |Children(old(nodes), Last(insertPath))| < 12 then 1 else 2)
    {
      hide TreeOk;
      hide AtBottom;
      hide OneMoreLeaf;
      hide PaintOrder.Assigned;
      hide Stores;
      hide IsMaxLeaf;
      hide IsGreedy;
      ghost var before := nodes;
      ghost var leaf := Node(bounds, order, Leaf(order));
      newLeafIdx := |nodes|;
      nodes := nodes + [Node(bounds, order, Leaf(order))];

      if root.None? {
        root := Some(newLeafIdx);
        leaves, parent := [{newLeafIdx}], [None];
        assert before == [] && nodes == [leaf];
        FirstLeaf(leaf);
        return;
      }
      var rootIdx := root.value;
      ghost var t := Tree(before, leaves, parent, rootIdx);
      RootInTable(t);

      if nodes[rootIdx].kind.Leaf? {
        var rootBounds, rootOrder := nodes[rootIdx].bounds, nodes[rootIdx].maxOrder;
        var children := if order > rootOrder then [rootIdx, newLeafIdx] else [newLeafIdx, rootIdx];
        var newRootIdx := |nodes|;
        nodes := nodes + [Node(rootBounds.Union(bounds), MaxNat(rootOrder, order), Internal(children))];
        root := Some(newRootIdx);
        leaves := leaves + [{newLeafIdx}, {rootIdx, newLeafIdx}];
        parent := parent[rootIdx := Some(newRootIdx)] + [Some(newRootIdx), None];
        SingleTables(t);
        assert before == [before[0]];
        RootPairOk(before[0], leaf);
        assert Tree(nodes, leaves, parent, newRootIdx) == RootPair(before[0], leaf);
        return;
      }

      var bestPos := Descend(t, bounds, rootIdx);
      if |nodes[insertPath[|insertPath| - 1]].kind.children| < MAX_CHILDREN {
        AddToNode(t, bounds, order, newLeafIdx);
      } else {
        PairWithSibling(t, bounds, order, newLeafIdx, bestPos);
      }
      ghost var attached := nodes;
      LeafInTable(before, attached, newLeafIdx, bounds, order);
      PropagateUp(rootIdx, newLeafIdx, bounds, order);
      OneMoreLeafKept(before, attached, nodes, newLeafIdx, bounds, order);
    }

    /** The child that needs the least half perimeter to take in the bounds. */
    method BestChild(children: seq<nat>, bounds: Bounds) returns (bestPos: nat)
      requires children != [] && InTable(nodes, children)
      ensures IsBest(nodes, children, bounds, bestPos)
      ensures forall k :: 0 <= k < |children| ==>
                var best, other := bounds.Union(nodes[children[bestPos]].bounds), bounds.Union(nodes[children[k]].bounds);
                best.HalfPerimeter() <= other.HalfPerimeter() && (k < bestPos ==> best.HalfPerimeter() < other.HalfPerimeter())
    {
      bestPos := 0;
      var bestCost := bounds.Union(nodes[children[0]].bounds).HalfPerimeter();
      for pos := 1 to |children|
        invariant bestPos < pos && bestCost == Cost(nodes, children[bestPos], bounds)
        invariant forall k :: 0 <= k < pos ==> bestCost <= Cost(nodes, children[k], bounds)
        invariant forall k :: 0 <= k < bestPos ==> bestCost < Cost(nodes, children[k], bounds)
      {
        var cost := bounds.Union(nodes[children[pos]].bounds).HalfPerimeter();
        if cost < bestCost {
          bestCost := cost;
          bestPos := pos;
        }
      }
    }

    /** Goes down to the node whose best child is a leaf. The new leaf is already in the table. */
    method Descend(ghost t: Tree, bounds: Bounds, rootIdx: nat) returns (bestPos: nat)
      requires TreeOk(t) && IsInternal(t.nodes, rootIdx) && t.root == rootIdx
      requires t.nodes < nodes
      modifies this`insertPath
      ensures IsPath(t, insertPath) && IsGreedy(t.nodes, insertPath, bounds)
      ensures IsBest(t.nodes, Children(t.nodes, Last(insertPath)), bounds, bestPos)
      ensures IsLeaf(t.nodes, Children(t.nodes, Last(insertPath))[bestPos])
    {
      hide AllLinked;
      hide Values;
      hide IsBest;
      insertPath := [];
      var current: nat := rootIdx;
      assert IsPath(t, [rootIdx]);
      while true
        invariant IsPath(t, insertPath + [current])
        invariant IsGreedy(t.nodes, insertPath + [current], bounds)
        invariant current < |t.nodes|
        decreases |t.leaves[current]|
      {
        ghost var path := insertPath + [current];
        assert Last(path) == current && Shape(t, current);
        var children := nodes[current].kind.children;
        insertPath := insertPath + [current];
        bestPos := BestChild(children, bounds);
        BestBefore(t.nodes, nodes, children, bounds, bestPos);
        var bestChildIdx := children[bestPos];
        if nodes[bestChildIdx].kind.Leaf? {
          return;
        }
        PathExtend(t, path, bestPos);
        assert GreedyStep(t.nodes, current, bestChildIdx, bounds);
        assert forall j :: 0 <= j < |path| ==> (path + [bestChildIdx])[j] == path[j];
        SmallerSet(t.leaves[bestChildIdx], t.leaves[current]);
        current := bestChildIdx;
      }
    }

    /** The last node of the insert path has room: the new leaf becomes its child. */
    method AddToNode(ghost t: Tree, bounds: Bounds, order: nat, newLeafIdx: nat)
      requires TreeOk(t) && IsPath(t, insertPath) && leaves == t.leaves && parent == t.parent
      requires newLeafIdx == |t.nodes| && nodes == t.nodes + [Node(bounds, order, Leaf(order))]
      requires 0 < |Children(t.nodes, Last(insertPath))| < MAX_CHILDREN
      modifies this`nodes, this`leaves, this`parent
      ensures AtBottom(Tree(nodes, leaves, parent, t.root), insertPath, newLeafIdx)
      ensures OneMoreLeaf(t.nodes, nodes, newLeafIdx, bounds, order)
      ensures AddedChild(t, insertPath, newLeafIdx, Node(bounds, order, Leaf(order)), Tree(nodes, leaves, parent, t.root))
    {
      hide TreeOk;
      hide AtBottom;
      hide AddedChild;
      hide OneMoreLeaf;
      ghost var leaf := nodes[newLeafIdx];
      var currentIdx := insertPath[|insertPath| - 1];
      var node := nodes[currentIdx];
      var children := node.kind.children + [newLeafIdx];
      // The new leaf goes last, unless the old last child has at least its order.
      if order <= node.maxOrder {
        var last := |children| - 1;
        children := Swap(children, last - 1, last);
      }
      nodes := nodes[currentIdx := Node(node.bounds.Union(bounds), MaxNat(node.maxOrder, order), Internal(children))];
      leaves := Grow(leaves, insertPath, newLeafIdx) + [{newLeafIdx}];
      parent := parent + [Some(currentIdx)];
      ghost var t' := Tree(nodes, leaves, parent, t.root);
      AddedChildTables(t, insertPath, newLeafIdx, leaf, t');
      AddedChildIsOneMore(t, insertPath, newLeafIdx, leaf, t');
      AddedChildReady(t, insertPath, newLeafIdx, leaf, t');
    }

    /** The node is full: its best child and the new leaf move under a new internal node. */
    method PairWithSibling(ghost t: Tree, bounds: Bounds, order: nat, newLeafIdx: nat, bestPos: nat)
      requires TreeOk(t) && IsPath(t, insertPath) && leaves == t.leaves && parent == t.parent
      requires newLeafIdx == |t.nodes| && nodes == t.nodes + [Node(bounds, order, Leaf(order))]
      requires bestPos < |Children(t.nodes, Last(insertPath))| && IsLeaf(t.nodes, Children(t.nodes, Last(insertPath))[bestPos])
      modifies this`nodes, this`leaves, this`parent
      ensures AtBottom(Tree(nodes, leaves, parent, t.root), insertPath, newLeafIdx)
      ensures OneMoreLeaf(t.nodes, nodes, newLeafIdx, bounds, order)
      ensures PairedUp(t, insertPath, bestPos, Children(t.nodes, Last(insertPath))[bestPos], newLeafIdx,
                       Node(bounds, order, Leaf(order)), Tree(nodes, leaves, parent, t.root))
    {
      assert |leaves| == |parent| == |t.nodes|;
      hide TreeOk;
      hide AtBottom;
      hide PairedUp;
      hide OneMoreLeaf;
      ghost var leaf := nodes[newLeafIdx];
      var currentIdx := insertPath[|insertPath| - 1];
      var siblingIdx := nodes[currentIdx].kind.children[bestPos];
      var siblingBounds, siblingOrder := nodes[siblingIdx].bounds, nodes[siblingIdx].maxOrder;
      var newChildren := if order > siblingOrder then [siblingIdx, newLeafIdx] else [newLeafIdx, siblingIdx];
      var newInternalIdx := |nodes|;
      var newInternalMax := MaxNat(siblingOrder, order);
      nodes := nodes + [Node(siblingBounds.Union(bounds), newInternalMax, Internal(newChildren))];
      // Replace the leaf with the new internal node; it goes last if it has the highest order.
      var node := nodes[currentIdx];
      var children := node.kind.children[bestPos := newInternalIdx];
      if newInternalMax > node.maxOrder {
        children := Swap(children, bestPos, |children| - 1);
      }
      nodes := nodes[currentIdx := node.(kind := Internal(children))];
      leaves := Grow(leaves, insertPath, newLeafIdx) + [{newLeafIdx}, {siblingIdx, newLeafIdx}];
      parent := parent[siblingIdx := Some(newInternalIdx)] + [Some(newInternalIdx), Some(currentIdx)];
      ghost var t' := Tree(nodes, leaves, parent, t.root);
      PairedUpTables(t, insertPath, bestPos, siblingIdx, newLeafIdx, leaf, t');
      PairedUpIsOneMore(t, insertPath, bestPos, siblingIdx, newLeafIdx, leaf, t');
      PairedUpReady(t, insertPath, bestPos, siblingIdx, newLeafIdx, leaf, t');
    }

    /** Carries the bounds and the order of the new leaf up the insert path. */
    method PropagateUp(rootIdx: nat, ghost newLeafIdx: nat, bounds: Bounds, order: nat)
      requires AtBottom(Tree(nodes, leaves, parent, rootIdx), insertPath, newLeafIdx)
      requires insertPath != [] && IsLeaf(nodes, newLeafIdx)
      requires nodes[newLeafIdx].bounds == bounds && nodes[newLeafIdx].maxOrder == order
      modifies this`nodes
      ensures TreeOk(Tree(nodes, leaves, parent, rootIdx))
      ensures |nodes| == |old(nodes)|
      ensures forall i :: IsLeaf(nodes, i) <==> IsLeaf(old(nodes), i)
      ensures forall i :: IsLeaf(nodes, i) ==> nodes[i] == old(nodes)[i]
      ensures PassedUp(old(nodes), nodes, insertPath, 0, bounds, order)
    {
      hide AtBottom;
      hide Climb;
      hide TreeOk;
      hide PassedUp;
      NotPassed(nodes, insertPath, bounds, order);
      PathNodes(Tree(nodes, leaves, parent, rootIdx), insertPath, newLeafIdx);
      var updatedChildIdx: Option<nat> := None;
      var j: nat := |insertPath|;
      while j > 0
        invariant j <= |insertPath| && |nodes| == |old(nodes)|
        invariant forall i :: IsLeaf(nodes, i) <==> IsLeaf(old(nodes), i)
        invariant forall i :: IsLeaf(nodes, i) ==> nodes[i] == old(nodes)[i]
        invariant PassedUp(old(nodes), nodes, insertPath, j, bounds, order)
        invariant updatedChildIdx == if j == |insertPath| then None else Some(insertPath[j])
        invariant if j == |insertPath| then AtBottom(Tree(nodes, leaves, parent, rootIdx), insertPath, newLeafIdx)
                  else Climb(Tree(nodes, leaves, parent, rootIdx), insertPath, j, newLeafIdx)
      {
        if j == |insertPath| {
          ClimbFirst(Tree(nodes, leaves, parent, rootIdx), insertPath, newLeafIdx);
        } else {
          ClimbNext(Tree(nodes, leaves, parent, rootIdx), insertPath, j, newLeafIdx);
        }
        PassedUpNext(old(nodes), nodes, insertPath, j, bounds, order);
        j := j - 1;
        var nodeIdx := insertPath[j];
        var node := nodes[nodeIdx];
        ghost var updated := Updated(node, updatedChildIdx, bounds, order);
        var children := node.kind.children;
        var wider := node.bounds.Union(bounds);
        var top := node.maxOrder;
        if node.maxOrder < order {
          top := order;
          if updatedChildIdx.Some? && updatedChildIdx.value in children {
            children := Swap(children, Position(children, updatedChildIdx.value), |children| - 1);
          }
        }
        nodes := nodes[nodeIdx := Node(wider, top, Internal(children))];
        assert nodes[nodeIdx] == updated;
        updatedChildIdx := Some(nodeIdx);
      }
      ClimbDone(Tree(nodes, leaves, parent, rootIdx), insertPath, newLeafIdx);
    }
  }
}
