/**
 * Attaching a new leaf below the last node of the insert path
 * (crates/gpui/src/bounds_tree.rs:264-322): directly while the node has room, and
 * otherwise together with the chosen sibling under a new internal node.
 */
module TreeAttach {
  import opened Wrappers
  import opened Geometry
  import opened Arithmetic
  import opened TreeShape
  import opened TreeGrowth

  function Last<T>(s: seq<T>): T
    requires s != []
  {
    s[|s| - 1]
  }

  /** The node with the new leaf `x` as a further child, the highest order still at the end. */
  function WithChild(node: Node, x: nat, bounds: Bounds, order: nat): Node
    requires node.kind.Internal? && node.kind.children != []
  {
    var ch := node.kind.children + [x];
    Node(node.bounds.Union(bounds), MaxNat(node.maxOrder, order),
         Internal(if order <= node.maxOrder then Swap(ch, |ch| - 2, |ch| - 1) else ch))
  }

  /** The new leaf goes last, or just before the old last child if that one has at least its order. */
  lemma WithChildIs(node: Node, x: nat, bounds: Bounds, order: nat)
    requires node.kind.Internal? && node.kind.children != []
    ensures var ch := node.kind.children;
            WithChild(node, x, bounds, order)
            == Node(node.bounds.Union(bounds), if node.maxOrder < order then order else node.maxOrder,
                    Internal(if order <= node.maxOrder then ch[..|ch| - 1] + [x, ch[|ch| - 1]] else ch + [x]))
  {
    var ch := node.kind.children;
    assert Swap(ch + [x], |ch| - 1, |ch|) == ch[..|ch| - 1] + [x, ch[|ch| - 1]];
  }

  lemma WithChildSwapped(node: Node, x: nat, bounds: Bounds, order: nat)
    requires node.kind.Internal? && node.kind.children != []
    ensures var node' := WithChild(node, x, bounds, order);
            node'.kind.Internal? && SwappedOnce(node.kind.children + [x], node'.kind.children)
  {}

  /** The internal node over two leaves, the higher order at the end. */
  function Pair(a: nat, aNode: Node, x: nat, bounds: Bounds, order: nat): Node {
    Node(aNode.bounds.Union(bounds), MaxNat(aNode.maxOrder, order),
         Internal(if order > aNode.maxOrder then [a, x] else [x, a]))
  }

  /** The pair is as wide and as high as its leaves, and the new leaf is last only if its order is higher. */
  lemma PairIs(a: nat, aNode: Node, x: nat, bounds: Bounds, order: nat)
    ensures Pair(a, aNode, x, bounds, order)
            == if order > aNode.maxOrder then Node(aNode.bounds.Union(bounds), order, Internal([a, x]))
               else Node(aNode.bounds.Union(bounds), aNode.maxOrder, Internal([x, a]))
  {}

  /** The full node with child `pos` replaced by the new internal node `m`. */
  function WithReplaced(node: Node, pos: nat, m: nat, mOrder: nat): Node
    requires node.kind.Internal? && pos < |node.kind.children|
  {
    var ch := node.kind.children[pos := m];
    node.(kind := Internal(if mOrder > node.maxOrder then Swap(ch, pos, |ch| - 1) else ch))
  }

  /** The new node goes where the child was, or changes places with the last child if it has the highest order. */
  lemma WithReplacedIs(node: Node, pos: nat, m: nat, mOrder: nat)
    requires node.kind.Internal? && pos < |node.kind.children|
    ensures var ch := node.kind.children;
            var n := |ch|;
            WithReplaced(node, pos, m, mOrder)
            == Node(node.bounds, node.maxOrder,
                    Internal(if mOrder > node.maxOrder && pos < n - 1 then ch[pos := ch[n - 1]][n - 1 := m] else ch[pos := m]))
  {
    var ch := node.kind.children;
    assert Swap(ch[pos := m], pos, |ch| - 1) == if pos < |ch| - 1 then ch[pos := ch[|ch| - 1]][|ch| - 1 := m] else ch[pos := m];
  }

  lemma WithReplacedSwapped(node: Node, pos: nat, m: nat, mOrder: nat)
    requires node.kind.Internal? && pos < |node.kind.children|
    ensures var node' := WithReplaced(node, pos, m, mOrder);
            node'.kind.Internal? && SwappedOnce(node.kind.children[pos := m], node'.kind.children)
  {}

  /** The table grew by leaf `x` and maybe one more node; of the old nodes only the last of the path changed. */
  ghost predicate Extends(t: Tree, path: seq<nat>, x: nat, t': Tree)
  {
    && TreeOk(t) && IsPath(t, path)
    && x == |t.nodes| < |t'.nodes| == |t'.leaves| == |t'.parent| && t'.root == t.root
    && IsLeaf(t'.nodes, x) && t'.leaves[x] == {x} && IsInternal(t'.nodes, Last(path))
    && (forall y :: 0 <= y < |t.nodes| && y != Last(path) ==> t'.nodes[y] == t.nodes[y])
    && (forall y :: 0 <= y < |t.nodes| ==> t'.leaves[y] == if y in path then t.leaves[y] + {x} else t.leaves[y])
    && (forall y :: 0 <= y < |t.nodes| && t.parent[y] != Some(Last(path)) ==> t'.parent[y] == t.parent[y])
  }

  /** The table gained one leaf `x` and changed no other leaf. */
  ghost predicate OneMoreLeaf(nodes: seq<Node>, nodes': seq<Node>, x: nat, bounds: Bounds, order: nat) {
    && |nodes| == x < |nodes'|
    && nodes'[x] == Node(bounds, order, Leaf(order))
    && (forall i :: IsLeaf(nodes, i) ==> nodes'[i] == nodes[i])
    && (forall i :: IsLeaf(nodes', i) ==> i == x || IsLeaf(nodes, i))
  }

  lemma LeavesAreOld(t: Tree, y: nat)
    requires TreeOk(t) && y < |t.nodes|
    ensures |t.nodes| !in t.leaves[y]
  {
    assert Values(t, y);
  }

  /** A child of a node is on the path only right below it. */
  lemma ChildOnPath(t: Tree, path: seq<nat>, i: nat, c: nat)
    requires TreeOk(t) && IsPath(t, path)
    requires c < |t.nodes| && t.parent[c] == Some(i) && c in path
    ensures exists m :: 0 < m < |path| && path[m] == c && path[m - 1] == i
  {
    var m :| 0 <= m < |path| && path[m] == c;
    assert Linked(t, t.root);
    assert 0 < m && path[m - 1] == i;
  }

  /** No node is listed twice by its parent. */
  lemma NoRepeats(t: Tree, i: nat, j: nat, k: nat)
    requires TreeOk(t) && IsInternal(t.nodes, i)
    requires j < |Children(t.nodes, i)| && k < |Children(t.nodes, i)| && j != k
    ensures Children(t.nodes, i)[j] != Children(t.nodes, i)[k]
  {
    assert Shape(t, i);
    var c := Children(t.nodes, i)[j];
    assert Values(t, c);
    var l :| l in t.leaves[c];
    assert l in t.leaves[Children(t.nodes, i)[j]];
  }

  /** Next to the path, a child of a path node keeps its leaves. */
  lemma OffPathSibling(t: Tree, path: seq<nat>, m: nat, p: nat, k: nat)
    requires TreeOk(t) && IsPath(t, path) && m + 1 < |path|
    requires p < |Children(t.nodes, path[m])| && Children(t.nodes, path[m])[p] == path[m + 1]
    requires k < |Children(t.nodes, path[m])| && k != p
    ensures Children(t.nodes, path[m])[k] < |t.nodes| && Children(t.nodes, path[m])[k] !in path
  {
    hide Hull;
    hide TopOrder;
    assert Shape(t, path[m]);
    var c := Children(t.nodes, path[m])[k];
    if c in path {
      ChildOnPath(t, path, path[m], c);
      NoRepeats(t, path[m], k, p);
    }
  }

  lemma OldPartsOnPath(t: Tree, path: seq<nat>, x: nat, t': Tree, m: nat)
    requires Extends(t, path, x, t') && m + 1 < |path|
    ensures Partition(t'.leaves, Children(t.nodes, path[m]), t.leaves[path[m]] + {x})
  {
    hide Values;
    var y := path[m];
    var ch := Children(t.nodes, y);
    assert Shape(t, y) && Linked(t, path[m + 1]);
    LeavesAreOld(t, y);
    var p :| 0 <= p < |ch| && ch[p] == path[m + 1];
    forall k | 0 <= k < |ch| && k != p ensures t'.leaves[ch[k]] == t.leaves[ch[k]] {
      OffPathSibling(t, path, m, p, k);
    }
    hide TreeOk;
    PartitionGrow(t.leaves, t'.leaves, ch, ch, t.leaves[y], p, x);
  }

  lemma OldShapeOnPath(t: Tree, path: seq<nat>, x: nat, t': Tree, m: nat)
    requires Extends(t, path, x, t') && m + 1 < |path|
    ensures path[m] != Last(path) && Shape(t', path[m])
  {
    hide Values;
    hide Linked;
    OldPartsOnPath(t, path, x, t', m);
    assert Shape(t, path[m]);
    assert t.leaves[Last(path)] < t.leaves[path[m]];
    assert path[m] in path;
  }

  lemma OldShapeOffPath(t: Tree, path: seq<nat>, x: nat, t': Tree, y: nat)
    requires Extends(t, path, x, t') && y < |t.nodes| && y !in path
    ensures Shape(t', y)
  {
    hide Hull;
    hide TopOrder;
    assert Shape(t, y);
    if IsInternal(t.nodes, y) {
      var ch := Children(t.nodes, y);
      forall k | 0 <= k < |ch| ensures t'.leaves[ch[k]] == t.leaves[ch[k]] {
        if ch[k] in path { ChildOnPath(t, path, y, ch[k]); }
      }
      PartitionSame(t.leaves, t'.leaves, ch, t.leaves[y]);
    }
  }

  lemma OldShape(t: Tree, path: seq<nat>, x: nat, t': Tree, y: nat)
    requires Extends(t, path, x, t') && y < |t.nodes| && y != Last(path)
    ensures Shape(t', y)
  {
    hide TreeOk;
    hide Shape;
    if y in path {
      var m :| 0 <= m < |path| && path[m] == y;
      OldShapeOnPath(t, path, x, t', m);
    } else {
      OldShapeOffPath(t, path, x, t', y);
    }
  }

  lemma PartitionSame(leaves: seq<set<nat>>, leaves': seq<set<nat>>, ch: seq<nat>, ls: set<nat>)
    requires Partition(leaves, ch, ls) && |leaves| <= |leaves'|
    requires forall k :: 0 <= k < |ch| ==> leaves'[ch[k]] == leaves[ch[k]]
    ensures Partition(leaves', ch, ls)
  {}

  /** Off the path, and apart from the children of the changed node, nothing happens. */
  lemma OldValues(t: Tree, path: seq<nat>, x: nat, t': Tree, y: nat)
    requires Extends(t, path, x, t')
    requires y < |t.nodes| && y !in path
    ensures Values(t', y)
  {
    hide Shape;
    hide Linked;
    hide Hull;
    hide TopOrder;
    assert Values(t, y);
    if IsInternal(t.nodes, y) {
      LastChildsParent(t, y);
      if LastChild(t.nodes, y) == Last(path) { ChildOnPath(t, path, y, LastChild(t.nodes, y)); }
    }
    LeafValuesFrame(t.nodes, t'.nodes, t.leaves[y], t.nodes[y].bounds, t.nodes[y].maxOrder);
  }

  lemma PathNodeFacts(t: Tree, path: seq<nat>, m: nat)
    requires TreeOk(t) && IsPath(t, path) && m < |path|
    ensures var i := path[m];
            && Children(t.nodes, i) != [] && LastChild(t.nodes, i) < |t.nodes|
            && Hull(t.nodes, t.leaves[i], t.nodes[i].bounds) && TopOrder(t.nodes, t.leaves[i], t.nodes[i].maxOrder)
            && TopOrder(t.nodes, t.leaves[LastChild(t.nodes, i)], t.nodes[i].maxOrder)
  {
    LastChildsParent(t, path[m]);
    assert Values(t, path[m]) && Values(t, LastChild(t.nodes, path[m]));
  }

  lemma OldPending(t: Tree, path: seq<nat>, x: nat, t': Tree, m: nat)
    requires Extends(t, path, x, t')
    requires m < |path| - 1
    ensures Pending(t', path[m], x)
  {
    hide TreeOk;
    hide Hull;
    hide TopOrder;
    var i := path[m];
    assert t.leaves[Last(path)] < t.leaves[i];
    PathNodeFacts(t, path, m);
    var last := LastChild(t.nodes, i);
    LeavesAreOld(t, i);
    LeavesAreOld(t, last);
    assert t'.leaves[i] - {x} == t.leaves[i] && t'.leaves[last] - {x} == t.leaves[last];
    LeafValuesFrame(t.nodes, t'.nodes, t.leaves[i], t.nodes[i].bounds, t.nodes[i].maxOrder);
    LeafValuesFrame(t.nodes, t'.nodes, t.leaves[last], t.nodes[i].bounds, t.nodes[i].maxOrder);
  }

  lemma OldLinked(t: Tree, path: seq<nat>, x: nat, t': Tree, y: nat)
    requires Extends(t, path, x, t')
    requires y < |t.nodes| && t.parent[y] != Some(Last(path))
    ensures Linked(t', y)
  {
    assert Linked(t, y);
  }

  lemma OldPath(t: Tree, path: seq<nat>, x: nat, t': Tree)
    requires Extends(t, path, x, t')
    ensures IsPath(t', path)
    ensures forall m :: 0 <= m < |path| ==> x in t'.leaves[path[m]]
    ensures forall l :: 0 <= l < |t.nodes| && t'.nodes[l].kind.Leaf? ==> l in t'.leaves[t.root]
    ensures x in t'.leaves[t.root]
  {
    forall j | 0 < j < |path| ensures t'.parent[path[j]] == Some(path[j - 1]) {
      assert t.leaves[Last(path)] < t.leaves[path[j - 1]];
    }
    forall j, k | 0 <= j < k < |path| ensures t'.leaves[path[k]] < t'.leaves[path[j]] {
      LeavesAreOld(t, path[j]);
      assert t'.leaves[path[j]] == t.leaves[path[j]] + {x};
      assert t'.leaves[path[k]] == t.leaves[path[k]] + {x};
      var l :| l in t.leaves[path[j]] && l !in t.leaves[path[k]];
      assert l in t'.leaves[path[j]] && l !in t'.leaves[path[k]];
    }
    assert path[0] in path;
  }

  // What is left to show is about the changed node, its children, and the new nodes.

  ghost predicate NewShapes(t: Tree, path: seq<nat>, t': Tree)
  {
    && path != [] && |t'.leaves| == |t'.parent| == |t'.nodes|
    && forall y :: 0 <= y < |t'.nodes| && (y >= |t.nodes| || y == Last(path)) ==> Shape(t', y)
  }

  ghost predicate NewLinks(t: Tree, path: seq<nat>, t': Tree)
  {
    && path != [] && |t.parent| == |t.nodes| && |t'.parent| == |t'.nodes|
    && forall y :: 0 <= y < |t'.nodes| && (y >= |t.nodes| || t.parent[y] == Some(Last(path))) ==> Linked(t', y)
  }

  ghost predicate NewValues(t: Tree, x: nat, t': Tree)
  {
    && |t'.leaves| == |t'.nodes|
    && forall y :: |t.nodes| <= y < |t'.nodes| ==> Values(t', y) && (y == x || t'.nodes[y].kind.Internal?)
  }

  lemma AttachReady(t: Tree, path: seq<nat>, x: nat, t': Tree)
    requires Extends(t, path, x, t')
    requires NewShapes(t, path, t')
    requires NewLinks(t, path, t')
    requires NewValues(t, x, t')
    requires BottomPending(t', Last(path), x)
    ensures AtBottom(t', path, x)
  {
    hide TreeOk;
    hide BottomPending;
    hide Values;
    hide Pending;
    OldPath(t, path, x, t');
    forall y | 0 <= y < |t'.nodes| ensures Shape(t', y) && Linked(t', y) {
      if y < |t.nodes| {
        if y != Last(path) { OldShape(t, path, x, t', y); }
        if t.parent[y] != Some(Last(path)) { OldLinked(t, path, x, t', y); }
      }
    }
    forall y | 0 <= y < |t'.nodes| && y !in path ensures Values(t', y) {
      if y < |t.nodes| { OldValues(t, path, x, t', y); }
    }
    forall m | 0 <= m < |path| - 1 ensures Pending(t', path[m], x) {
      OldPending(t, path, x, t', m);
    }
  }

  lemma ChildOfLastKeepsLeaves(t: Tree, path: seq<nat>, k: nat)
    requires TreeOk(t) && IsPath(t, path)
    requires k < |Children(t.nodes, Last(path))|
    ensures Children(t.nodes, Last(path))[k] !in path
  {
    var b := Last(path);
    assert Shape(t, b);
    var c := Children(t.nodes, b)[k];
    if c in path { ChildOnPath(t, path, b, c); }
  }

  /** Swapping two children does not matter to the structure. */
  lemma ShapeUpToSwap(t: Tree, b: nat, ch: seq<nat>)
    requires |t.leaves| == |t.parent| == |t.nodes| && IsInternal(t.nodes, b) && SwappedOnce(ch, Children(t.nodes, b))
    requires 2 <= |ch| <= MAX_CHILDREN && Partition(t.leaves, ch, t.leaves[b])
    requires forall k :: 0 <= k < |ch| ==> t.parent[ch[k]] == Some(b)
    ensures Shape(t, b)
    ensures forall c :: c in ch ==> c in Children(t.nodes, b)
  {
    hide SwappedOnce;
    hide Partition;
    var ch' := Children(t.nodes, b);
    SwappedOnceKeeps(t.leaves, ch, ch', t.leaves[b]);
    forall k | 0 <= k < |ch'| ensures ch'[k] < |t.nodes| && t.parent[ch'[k]] == Some(b) {
      assert ch'[k] in ch;
      var j :| 0 <= j < |ch| && ch[j] == ch'[k];
    }
  }

  /** What the tree says about the last node of the path. */
  lemma PathEnd(t: Tree, path: seq<nat>)
    requires TreeOk(t) && IsPath(t, path)
    ensures var b := Last(path);
            && Children(t.nodes, b) != [] && LastChild(t.nodes, b) < |t.nodes| && LastChild(t.nodes, b) != b
            && t.nodes[LastChild(t.nodes, b)].maxOrder == t.nodes[b].maxOrder
            && Hull(t.nodes, t.leaves[b], t.nodes[b].bounds) && TopOrder(t.nodes, t.leaves[b], t.nodes[b].maxOrder)
  {
    var b := Last(path);
    LastChildsParent(t, b);
    assert Values(t, b);
    if LastChild(t.nodes, b) == b { ChildOnPath(t, path, b, b); }
  }

  /** Bounds and order of a leaf set that gains `x`, in the new table. */
  lemma GainLeaf(nodes: seq<Node>, nodes': seq<Node>, ls: set<nat>, b: Bounds, m: nat, x: nat)
    requires Hull(nodes, ls, b) && TopOrder(nodes, ls, m) && |nodes| <= |nodes'| && IsLeaf(nodes', x)
    requires forall l :: IsLeaf(nodes, l) ==> nodes'[l] == nodes[l]
    ensures Hull(nodes', ls + {x}, b.Union(nodes'[x].bounds))
    ensures TopOrder(nodes', ls + {x}, MaxNat(m, nodes'[x].maxOrder))
  {
    LeafValuesFrame(nodes, nodes', ls, b, m);
    HullAdd(nodes', ls, b, x);
    TopOrderAdd(nodes', ls, m, x);
  }

  lemma LeafValues(t: Tree, x: nat)
    requires |t.leaves| == |t.nodes| && x < |t.nodes| && t.leaves[x] == {x} && t.nodes[x].kind == Leaf(t.nodes[x].maxOrder)
    ensures Values(t, x)
  {}

  // ----- The node has room ----------------------------------------------------------

  /** The tables after the leaf is added to the last node of the path. */
  ghost predicate AddedChild(t: Tree, path: seq<nat>, x: nat, leaf: Node, t': Tree)
  {
    && Extends(t, path, x, t')
    && |t'.nodes| == x + 1
    && Children(t.nodes, Last(path)) != [] && leaf.kind == Leaf(leaf.maxOrder)
    && t'.nodes[Last(path)] == WithChild(t.nodes[Last(path)], x, leaf.bounds, leaf.maxOrder)
    && t'.nodes[x] == leaf && t'.parent[x] == Some(Last(path))
    && (forall y :: 0 <= y < x ==> t'.parent[y] == t.parent[y])
  }

  lemma AddedChildTables(t: Tree, path: seq<nat>, x: nat, leaf: Node, t': Tree)
    requires TreeOk(t) && IsPath(t, path)
    requires x == |t.nodes| && leaf.kind == Leaf(leaf.maxOrder) && Children(t.nodes, Last(path)) != []
    requires t'.nodes == (t.nodes + [leaf])[Last(path) := WithChild(t.nodes[Last(path)], x, leaf.bounds, leaf.maxOrder)]
    requires t'.leaves == Grow(t.leaves, path, x) + [{x}]
    requires t'.parent == t.parent + [Some(Last(path))] && t'.root == t.root
    ensures AddedChild(t, path, x, leaf, t')
  {}

  lemma AddedChildIsOneMore(t: Tree, path: seq<nat>, x: nat, leaf: Node, t': Tree)
    requires AddedChild(t, path, x, leaf, t')
    ensures OneMoreLeaf(t.nodes, t'.nodes, x, leaf.bounds, leaf.maxOrder)
  {}

  lemma AddedChildParts(t: Tree, path: seq<nat>, x: nat, leaf: Node, t': Tree)
    requires AddedChild(t, path, x, leaf, t')
    ensures t'.leaves[Last(path)] == t.leaves[Last(path)] + {x}
    ensures var ch1 := Children(t.nodes, Last(path)) + [x];
            && 3 <= |ch1|
            && Partition(t'.leaves, ch1, t'.leaves[Last(path)])
            && forall k :: 0 <= k < |ch1| ==> t'.parent[ch1[k]] == Some(Last(path))
  {
    hide Hull;
    hide TopOrder;
    var b := Last(path);
    var ch := Children(t.nodes, b);
    assert Shape(t, b);
    LeavesAreOld(t, b);
    forall k | 0 <= k < |ch| ensures t'.leaves[ch[k]] == t.leaves[ch[k]] {
      ChildOfLastKeepsLeaves(t, path, k);
    }
    hide TreeOk;
    PartitionSame(t.leaves, t'.leaves, ch, t.leaves[b]);
    PartitionAppend(t'.leaves, ch, t.leaves[b], x);
  }

  lemma AddedChildLast(t: Tree, path: seq<nat>, x: nat, leaf: Node, t': Tree)
    requires AddedChild(t, path, x, leaf, t')
    requires |Children(t.nodes, Last(path))| < MAX_CHILDREN
    ensures Shape(t', Last(path))
    ensures forall c :: c in Children(t.nodes, Last(path)) + [x] ==> c in Children(t'.nodes, Last(path))
  {
    var ch1 := Children(t.nodes, Last(path)) + [x];
    AddedChildParts(t, path, x, leaf, t');
    WithChildSwapped(t.nodes[Last(path)], x, leaf.bounds, leaf.maxOrder);
    hide TreeOk;
    hide IsPath;
    hide Partition;
    hide Shape;
    hide SwappedOnce;
    hide WithChild;
    ShapeUpToSwap(t', Last(path), ch1);
  }

  lemma AddedChildShape(t: Tree, path: seq<nat>, x: nat, leaf: Node, t': Tree)
    requires AddedChild(t, path, x, leaf, t')
    requires |Children(t.nodes, Last(path))| < MAX_CHILDREN
    ensures NewShapes(t, path, t')
    ensures forall c :: c in Children(t.nodes, Last(path)) + [x] ==> c in Children(t'.nodes, Last(path))
  {
    hide TreeOk;
    hide Partition;
    hide WithChild;
    AddedChildLast(t, path, x, leaf, t');
  }

  lemma AddedChildBottom(t: Tree, path: seq<nat>, x: nat, leaf: Node, t': Tree)
    requires AddedChild(t, path, x, leaf, t')
    ensures BottomPending(t', Last(path), x)
  {
    hide TreeOk;
    hide Hull;
    hide TopOrder;
    var b := Last(path);
    var node := t.nodes[b];
    PathEnd(t, path);
    assert t'.leaves[b] == t.leaves[b] + {x};
    GainLeaf(t.nodes, t'.nodes, t.leaves[b], node.bounds, node.maxOrder, x);
    UnionIsLeast(node.bounds.Union(leaf.bounds), leaf.bounds, node.bounds);
    UnionIsLeast(node.bounds, leaf.bounds, node.bounds);
  }

  lemma AddedChildLinks(t: Tree, path: seq<nat>, x: nat, leaf: Node, t': Tree)
    requires AddedChild(t, path, x, leaf, t')
    requires forall c :: c in Children(t.nodes, Last(path)) + [x] ==> c in Children(t'.nodes, Last(path))
    ensures NewLinks(t, path, t') && NewValues(t, x, t')
  {
    var ch := Children(t.nodes, Last(path));
    forall y | 0 <= y < |t'.nodes| && (y == x || t.parent[y] == Some(Last(path))) ensures Linked(t', y) {
      if y < x {
        assert Linked(t, y);
        assert y in ch + [x];
      } else {
        assert (ch + [x])[|ch|] == x;
      }
    }
    LeafValues(t', x);
  }

  lemma AddedChildReady(t: Tree, path: seq<nat>, x: nat, leaf: Node, t': Tree)
    requires AddedChild(t, path, x, leaf, t')
    requires |Children(t.nodes, Last(path))| < MAX_CHILDREN
    ensures AtBottom(t', path, x)
  {
    hide Extends;
    hide NewLinks;
    hide NewValues;
    hide BottomPending;
    hide AtBottom;
    hide Shape;
    AddedChildShape(t, path, x, leaf, t');
    AddedChildBottom(t, path, x, leaf, t');
    AddedChildLinks(t, path, x, leaf, t');
    AttachReady(t, path, x, t');
  }

  // ----- The node is full -----------------------------------------------------------

  /** The tables after child `pos` of the last path node, the leaf `s`, and the new leaf `x` are paired up. */
  ghost predicate PairedUp(t: Tree, path: seq<nat>, pos: nat, s: nat, x: nat, leaf: Node, t': Tree)
  {
    && Extends(t, path, x, t')
    && |t'.nodes| == x + 2
    && pos < |Children(t.nodes, Last(path))| && s == Children(t.nodes, Last(path))[pos] && IsLeaf(t.nodes, s)
    && leaf.kind == Leaf(leaf.maxOrder) && t'.nodes[x] == leaf
    && t'.nodes[x + 1] == Pair(s, t.nodes[s], x, leaf.bounds, leaf.maxOrder)
    && t'.nodes[Last(path)] == WithReplaced(t.nodes[Last(path)], pos, x + 1, t'.nodes[x + 1].maxOrder)
    && t'.leaves[x + 1] == {s, x}
    && t'.parent[s] == Some(x + 1) && t'.parent[x] == Some(x + 1) && t'.parent[x + 1] == Some(Last(path))
    && (forall y :: 0 <= y < x && y != s ==> t'.parent[y] == t.parent[y])
  }

  lemma PairedUpTables(t: Tree, path: seq<nat>, pos: nat, s: nat, x: nat, leaf: Node, t': Tree)
    requires TreeOk(t) && IsPath(t, path)
    requires x == |t.nodes| && leaf.kind == Leaf(leaf.maxOrder)
    requires pos < |Children(t.nodes, Last(path))| && s == Children(t.nodes, Last(path))[pos] && IsLeaf(t.nodes, s)
    requires var pair := Pair(s, t.nodes[s], x, leaf.bounds, leaf.maxOrder);
             t'.nodes == (t.nodes + [leaf] + [pair])[Last(path) := WithReplaced(t.nodes[Last(path)], pos, x + 1, pair.maxOrder)]
    requires t'.leaves == Grow(t.leaves, path, x) + [{x}, {s, x}]
    requires t'.parent == t.parent[s := Some(x + 1)] + [Some(x + 1), Some(Last(path))] && t'.root == t.root
    ensures PairedUp(t, path, pos, s, x, leaf, t')
  {
    assert t.parent[s] == Some(Last(path)) by { assert Shape(t, Last(path)); }
    WithReplacedSwapped(t.nodes[Last(path)], pos, x + 1, Pair(s, t.nodes[s], x, leaf.bounds, leaf.maxOrder).maxOrder);
    hide TreeOk;
    hide WithReplaced;
    hide Pair;
    hide SwappedOnce;
  }

  lemma PairedUpIsOneMore(t: Tree, path: seq<nat>, pos: nat, s: nat, x: nat, leaf: Node, t': Tree)
    requires PairedUp(t, path, pos, s, x, leaf, t')
    ensures OneMoreLeaf(t.nodes, t'.nodes, x, leaf.bounds, leaf.maxOrder)
  {}

  /** Two different singletons make up a two-element set, in either order. */
  lemma PairPartition(leaves: seq<set<nat>>, a: nat, b: nat)
    requires a < |leaves| && b < |leaves| && a != b && leaves[a] == {a} && leaves[b] == {b}
    ensures Partition(leaves, [a, b], {a, b})
  {
    var ch := [a, b];
    assert a in leaves[ch[0]] && b in leaves[ch[1]];
  }

  /** Node `p` is the pair over the leaves `s` and `x`. */
  ghost predicate IsPair(t: Tree, s: nat, x: nat, p: nat) {
    && |t.leaves| == |t.parent| == |t.nodes| && p < |t.nodes| && IsLeaf(t.nodes, s) && IsLeaf(t.nodes, x) && s != x
    && t.leaves[s] == {s} && t.leaves[x] == {x} && t.leaves[p] == {s, x}
    && t.parent[s] == Some(p) && t.parent[x] == Some(p)
    && t.nodes[p] == Pair(s, t.nodes[s], x, t.nodes[x].bounds, t.nodes[x].maxOrder)
  }

  lemma PairShape(t: Tree, s: nat, x: nat, p: nat)
    requires IsPair(t, s, x, p)
    ensures Shape(t, p) && s in Children(t.nodes, p) && x in Children(t.nodes, p)
  {
    var ch := Children(t.nodes, p);
    PairPartition(t.leaves, s, x);
    PairPartition(t.leaves, x, s);
    assert {x, s} == {s, x};
    assert ch[0] in ch && ch[1] in ch;
  }

  lemma PairedUpPair(t: Tree, path: seq<nat>, pos: nat, s: nat, x: nat, leaf: Node, t': Tree)
    requires PairedUp(t, path, pos, s, x, leaf, t')
    ensures IsPair(t', s, x, x + 1) && t'.nodes[s] == t.nodes[s]
  {
    hide Partition;
    hide Values;
    hide Linked;
    hide Pair;
    hide WithReplaced;
    assert Shape(t, s);
    ChildOfLastKeepsLeaves(t, path, pos);
    assert Last(path) in path;
  }

  lemma PairValues(t: Tree, s: nat, x: nat, p: nat)
    requires IsPair(t, s, x, p)
    ensures Values(t, p)
  {
    HullAdd(t.nodes, {s}, t.nodes[s].bounds, x);
    TopOrderAdd(t.nodes, {s}, t.nodes[s].maxOrder, x);
    assert {s} + {x} == {s, x};
    hide Hull;
    hide TopOrder;
  }

  lemma ReplacedParts(t: Tree, path: seq<nat>, pos: nat, s: nat, x: nat, leaf: Node, t': Tree)
    requires PairedUp(t, path, pos, s, x, leaf, t')
    ensures t'.leaves[Last(path)] == t.leaves[Last(path)] + {x}
    ensures var ch1 := Children(t.nodes, Last(path))[pos := x + 1];
            && 2 <= |ch1| <= MAX_CHILDREN
            && Partition(t'.leaves, ch1, t'.leaves[Last(path)])
            && forall k :: 0 <= k < |ch1| ==> t'.parent[ch1[k]] == Some(Last(path))
  {
    var b := Last(path);
    var ch := Children(t.nodes, b);
    var ch1 := ch[pos := x + 1];
    assert Shape(t, b) && Shape(t, s);
    LeavesAreOld(t, b);
    forall k | 0 <= k < |ch| && k != pos ensures t'.leaves[ch1[k]] == t.leaves[ch[k]] && t'.parent[ch1[k]] == Some(b) {
      ChildOfLastKeepsLeaves(t, path, k);
      NoRepeats(t, b, k, pos);
    }
    assert t'.leaves[x + 1] == t.leaves[s] + {x};
    PartitionGrow(t.leaves, t'.leaves, ch, ch1, t.leaves[b], pos, x);
  }

  lemma ReplacedShape(t: Tree, path: seq<nat>, pos: nat, s: nat, x: nat, leaf: Node, t': Tree)
    requires PairedUp(t, path, pos, s, x, leaf, t')
    ensures Shape(t', Last(path))
    ensures forall c :: c in Children(t.nodes, Last(path))[pos := x + 1] ==> c in Children(t'.nodes, Last(path))
  {
    var ch1 := Children(t.nodes, Last(path))[pos := x + 1];
    ReplacedParts(t, path, pos, s, x, leaf, t');
    WithReplacedSwapped(t.nodes[Last(path)], pos, x + 1, t'.nodes[x + 1].maxOrder);
    hide TreeOk;
    hide IsPath;
    hide Partition;
    hide Shape;
    hide SwappedOnce;
    hide WithReplaced;
    ShapeUpToSwap(t', Last(path), ch1);
  }

  /** Replacing a child keeps bounds and order; the new node is last if it has the highest order, or was put there. */
  lemma ReplacedLast(node: Node, pos: nat, m: nat, mOrder: nat)
    requires node.kind.Internal? && pos < |node.kind.children|
    ensures var node' := WithReplaced(node, pos, m, mOrder);
            && node'.bounds == node.bounds && node'.maxOrder == node.maxOrder
            && node'.kind.Internal? && |node'.kind.children| == |node.kind.children|
            && Last(node'.kind.children)
               == if mOrder > node.maxOrder || pos == |node.kind.children| - 1 then m else Last(node.kind.children)
  {}

  /** The highest order below the changed node is that of its last child. */
  lemma ReplacedOrder(t: Tree, path: seq<nat>, pos: nat, s: nat, x: nat, leaf: Node, t': Tree)
    requires PairedUp(t, path, pos, s, x, leaf, t')
    ensures var b := Last(path);
            && Children(t'.nodes, b) != [] && LastChild(t'.nodes, b) < |t'.nodes| && LastChild(t'.nodes, b) != b
            && t'.nodes[b].bounds == t.nodes[b].bounds && t'.nodes[b].maxOrder == t.nodes[b].maxOrder
            && t'.nodes[LastChild(t'.nodes, b)].maxOrder == MaxNat(t.nodes[b].maxOrder, leaf.maxOrder)
  {
    hide TreeOk;
    hide Hull;
    hide TopOrder;
    var b := Last(path);
    PathEnd(t, path);
    SiblingOrderAtMost(t, b, pos);
    ReplacedLast(t.nodes[b], pos, x + 1, t'.nodes[x + 1].maxOrder);
    hide WithReplaced;
    assert t'.nodes[x + 1].maxOrder == MaxNat(t.nodes[s].maxOrder, leaf.maxOrder);
  }

  lemma ReplacedBottom(t: Tree, path: seq<nat>, pos: nat, s: nat, x: nat, leaf: Node, t': Tree)
    requires PairedUp(t, path, pos, s, x, leaf, t')
    ensures BottomPending(t', Last(path), x)
  {
    hide Hull;
    hide TopOrder;
    var b := Last(path);
    var node := t.nodes[b];
    PathEnd(t, path);
    ReplacedOrder(t, path, pos, s, x, leaf, t');
    hide TreeOk;
    hide WithReplaced;
    hide Pair;
    assert t'.leaves[b] == t.leaves[b] + {x};
    GainLeaf(t.nodes, t'.nodes, t.leaves[b], node.bounds, node.maxOrder, x);
  }

  lemma SiblingOrderAtMost(t: Tree, b: nat, pos: nat)
    requires TreeOk(t) && IsInternal(t.nodes, b) && pos < |Children(t.nodes, b)|
    ensures Children(t.nodes, b)[pos] < |t.nodes| && t.nodes[Children(t.nodes, b)[pos]].maxOrder <= t.nodes[b].maxOrder
  {
    assert Shape(t, b);
    var s := Children(t.nodes, b)[pos];
    assert Values(t, b) && Values(t, s);
    ChildOrderAtMost(t.nodes, t.leaves[b], t.nodes[b].maxOrder, t.leaves[s], t.nodes[s].maxOrder);
  }

  lemma PairedUpOldLink(t: Tree, path: seq<nat>, pos: nat, s: nat, x: nat, leaf: Node, t': Tree, y: nat)
    requires PairedUp(t, path, pos, s, x, leaf, t') && y < x && y != s && t.parent[y] == Some(Last(path))
    requires forall c :: c in Children(t.nodes, Last(path))[pos := x + 1] ==> c in Children(t'.nodes, Last(path))
    ensures Linked(t', y)
  {
    hide AllShape;
    hide Values;
    var ch := Children(t.nodes, Last(path));
    assert Linked(t, y);
    var k :| 0 <= k < |ch| && ch[k] == y;
    assert ch[pos := x + 1][k] == y;
  }

  lemma PairedUpLinks(t: Tree, path: seq<nat>, pos: nat, s: nat, x: nat, leaf: Node, t': Tree)
    requires PairedUp(t, path, pos, s, x, leaf, t')
    requires s in Children(t'.nodes, x + 1) && x in Children(t'.nodes, x + 1)
    requires forall c :: c in Children(t.nodes, Last(path))[pos := x + 1] ==> c in Children(t'.nodes, Last(path))
    ensures NewLinks(t, path, t')
  {
    hide Shape;
    hide Values;
    assert Children(t.nodes, Last(path))[pos := x + 1][pos] == x + 1;
    assert Linked(t, t.root) && Linked(t, s);
    assert s != t.root by { assert Shape(t, Last(path)); }
    forall y | 0 <= y < |t'.nodes| && (y >= |t.nodes| || t.parent[y] == Some(Last(path))) ensures Linked(t', y) {
      if y < x && y != s {
        PairedUpOldLink(t, path, pos, s, x, leaf, t', y);
      }
    }
  }

  lemma PairedUpShapes(t: Tree, path: seq<nat>, pos: nat, s: nat, x: nat, leaf: Node, t': Tree)
    requires PairedUp(t, path, pos, s, x, leaf, t')
    ensures NewShapes(t, path, t') && NewLinks(t, path, t')
  {
    hide TreeOk;
    hide Partition;
    hide WithReplaced;
    hide Pair;
    hide NewLinks;
    PairedUpPair(t, path, pos, s, x, leaf, t');
    PairShape(t', s, x, x + 1);
    ReplacedShape(t, path, pos, s, x, leaf, t');
    PairedUpLinks(t, path, pos, s, x, leaf, t');
    assert Shape(t', x);
    hide Shape;
  }

  lemma PairedUpReady(t: Tree, path: seq<nat>, pos: nat, s: nat, x: nat, leaf: Node, t': Tree)
    requires PairedUp(t, path, pos, s, x, leaf, t')
    ensures AtBottom(t', path, x)
  {
    hide Extends;
    hide NewShapes;
    hide NewLinks;
    hide NewValues;
    hide BottomPending;
    hide AtBottom;
    PairedUpShapes(t, path, pos, s, x, leaf, t');
    PairedUpValues(t, path, pos, s, x, leaf, t');
    ReplacedBottom(t, path, pos, s, x, leaf, t');
    AttachReady(t, path, x, t');
  }

  lemma PairedUpValues(t: Tree, path: seq<nat>, pos: nat, s: nat, x: nat, leaf: Node, t': Tree)
    requires PairedUp(t, path, pos, s, x, leaf, t')
    ensures NewValues(t, x, t')
  {
    hide TreeOk;
    hide IsPath;
    hide WithReplaced;
    hide Values;
    PairedUpPair(t, path, pos, s, x, leaf, t');
    PairValues(t', s, x, x + 1);
    LeafValues(t', x);
  }
}
