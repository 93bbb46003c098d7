/**
 * How one insertion changes the node table of crates/gpui/src/bounds_tree.rs: the value
 * level of `insert_leaf`. The methods of BoundsTree follow these functions step by step.
 *
 * After the new leaf is attached below the last node of the insert path, the whole path
 * counts the leaf among its leaves (`Grow`), but only the nodes that the upward pass has
 * reached have bounds, orders and child order that agree with that. `Climb` says which.
 */
module TreeGrowth {
  import opened Wrappers
  import opened Geometry
  import opened Arithmetic
  import opened TreeShape

  function Swap<T>(s: seq<T>, i: nat, j: nat): seq<T>
    requires i < |s| && j < |s|
  {
    s[i := s[j]][j := s[i]]
  }

  /** `path` goes down from the root, from each node to one of its children. */
  ghost predicate IsPath(t: Tree, path: seq<nat>)
  {
    && |t.leaves| == |t.parent| == |t.nodes|
    && path != [] && path[0] == t.root
    && (forall j :: 0 <= j < |path| ==> IsInternal(t.nodes, path[j]))
    && (forall j :: 0 < j < |path| ==> t.parent[path[j]] == Some(path[j - 1]))
    && (forall j, k :: 0 <= j < k < |path| ==> t.leaves[path[k]] < t.leaves[path[j]])
  }

  /** The nodes of the path now hold leaf `x`. */
  ghost function Grow(leaves: seq<set<nat>>, path: seq<nat>, x: nat): seq<set<nat>> {
    seq(|leaves|, i requires 0 <= i < |leaves| => if i in path then leaves[i] + {x} else leaves[i])
  }

  // ----- Partitions -----------------------------------------------------------------

  lemma PartitionSwap(leaves: seq<set<nat>>, ch: seq<nat>, ls: set<nat>, i: nat, j: nat)
    requires Partition(leaves, ch, ls) && i < |ch| && j < |ch|
    ensures Partition(leaves, Swap(ch, i, j), ls)
  {
    var ch' := Swap(ch, i, j);
    forall l | l in ls ensures exists k :: 0 <= k < |ch'| && l in leaves[ch'[k]] {
      var k :| 0 <= k < |ch| && l in leaves[ch[k]];
      var k' := if k == i then j else if k == j then i else k;
      assert ch'[k'] == ch[k];
    }
  }

  lemma PartitionAppend(leaves: seq<set<nat>>, ch: seq<nat>, ls: set<nat>, x: nat)
    requires Partition(leaves, ch, ls) && x < |leaves| && leaves[x] == {x} && x !in ls
    ensures Partition(leaves, ch + [x], ls + {x})
  {
    var ch' := ch + [x];
    forall l | l in ls + {x} ensures exists k :: 0 <= k < |ch'| && l in leaves[ch'[k]] {
      if l == x {
        assert ch'[|ch|] == x;
      } else {
        var k :| 0 <= k < |ch| && l in leaves[ch[k]];
        assert ch'[k] == ch[k];
      }
    }
  }

  /** Part `p` gains `x`, by growing or by being replaced with a node that also holds `x`. */
  lemma PartitionGrow(leaves: seq<set<nat>>, leaves': seq<set<nat>>, ch: seq<nat>, ch': seq<nat>, ls: set<nat>, p: nat, x: nat)
    requires Partition(leaves, ch, ls) && x !in ls && |leaves| <= |leaves'| && |ch'| == |ch| && p < |ch|
    requires ch'[p] < |leaves'| && leaves'[ch'[p]] == leaves[ch[p]] + {x}
    requires forall k :: 0 <= k < |ch| && k != p ==> ch'[k] == ch[k] && leaves'[ch'[k]] == leaves[ch[k]]
    ensures Partition(leaves', ch', ls + {x})
  {}

  // ----- The upward pass ------------------------------------------------------------

  /** A path node the upward pass has not reached: its values leave out leaf `x`. */
  ghost predicate Pending(t: Tree, i: nat, x: nat) {
    && |t.leaves| == |t.nodes| && IsInternal(t.nodes, i)
    && Children(t.nodes, i) != [] && LastChild(t.nodes, i) < |t.nodes|
    && Hull(t.nodes, t.leaves[i] - {x}, t.nodes[i].bounds)
    && TopOrder(t.nodes, t.leaves[i] - {x}, t.nodes[i].maxOrder)
    && TopOrder(t.nodes, t.leaves[LastChild(t.nodes, i)] - {x}, t.nodes[i].maxOrder)
  }

  /** The node `x` was attached to: the child order is settled, bounds and order may not be. */
  ghost predicate BottomPending(t: Tree, i: nat, x: nat) {
    && |t.leaves| == |t.nodes| && IsInternal(t.nodes, i) && x < |t.nodes|
    && Children(t.nodes, i) != [] && LastChild(t.nodes, i) < |t.nodes| && LastChild(t.nodes, i) != i
    && Hull(t.nodes, t.leaves[i], t.nodes[i].bounds.Union(t.nodes[x].bounds))
    && TopOrder(t.nodes, t.leaves[i], MaxNat(t.nodes[i].maxOrder, t.nodes[x].maxOrder))
    && t.nodes[LastChild(t.nodes, i)].maxOrder == MaxNat(t.nodes[i].maxOrder, t.nodes[x].maxOrder)
  }

  ghost predicate Growing(t: Tree, path: seq<nat>, x: nat) {
    && AllShape(t) && AllLinked(t) && IsLeaf(t.nodes, x)
    && IsPath(t, path)
    && (forall m :: 0 <= m < |path| ==> x in t.leaves[path[m]])
    && (forall l :: 0 <= l < |t.nodes| && t.nodes[l].kind.Leaf? ==> l in t.leaves[t.root])
  }

  /** The upward pass has dealt with the path nodes at positions `j` and up. */
  ghost predicate Climb(t: Tree, path: seq<nat>, j: nat, x: nat) {
    && Growing(t, path, x) && j <= |path|
    && (forall i :: 0 <= i < |t.nodes| && i !in path[..j] ==> Values(t, i))
    && (forall m :: 0 <= m < j ==> Pending(t, path[m], x))
  }

  /** The upward pass is about to start. */
  ghost predicate AtBottom(t: Tree, path: seq<nat>, x: nat) {
    && Growing(t, path, x)
    && (forall i :: 0 <= i < |t.nodes| && i !in path ==> Values(t, i))
    && (forall m :: 0 <= m < |path| - 1 ==> Pending(t, path[m], x))
    && BottomPending(t, path[|path| - 1], x)
  }

  /** Position of the first occurrence of `c`. */
  function Position(ch: seq<nat>, c: nat): (p: nat)
    requires c in ch
    ensures p < |ch| && ch[p] == c && c !in ch[..p]
  {
    if ch[0] == c then 0 else
      assert ch[1..] + [] == ch[1..];
      var p := Position(ch[1..], c) + 1;
      assert ch[..p] == [ch[0]] + ch[1..][..p - 1];
      p
  }

  function MoveToEnd(ch: seq<nat>, c: nat): (r: seq<nat>)
    ensures |r| == |ch|
  {
    if c in ch then Swap(ch, Position(ch, c), |ch| - 1) else ch
  }

  /** One step of the upward pass on a node; `child` is the path node below it. */
  function Updated(node: Node, child: Option<nat>, bounds: Bounds, order: nat): Node
    requires node.kind.Internal?
  {
    var wider := node.(bounds := node.bounds.Union(bounds));
    if node.maxOrder < order then
      match child
      case None => wider.(maxOrder := order)
      case Some(c) => wider.(maxOrder := order, kind := Internal(MoveToEnd(node.kind.children, c)))
    else wider
  }

  /** The bounds and the order take in the new leaf; only if the order grew does the child below change places with the last one. */
  lemma UpdatedIs(node: Node, child: Option<nat>, bounds: Bounds, order: nat)
    requires node.kind.Internal?
    ensures var node' := Updated(node, child, bounds, order);
            && node'.bounds == node.bounds.Union(bounds) && node'.maxOrder == (if node.maxOrder < order then order else node.maxOrder)
            && node'.kind.Internal? && |node'.kind.children| == |node.kind.children|
            && (order <= node.maxOrder || child == None ==> node'.kind == node.kind)
            && forall p :: 0 <= p < |node.kind.children| && order > node.maxOrder
                           && child == Some(node.kind.children[p]) && node.kind.children[p] !in node.kind.children[..p] ==>
                 var ch := node.kind.children; node'.kind.children == ch[p := ch[|ch| - 1]][|ch| - 1 := ch[p]]
  {
    forall p | 0 <= p < |node.kind.children| && child == Some(node.kind.children[p]) && node.kind.children[p] !in node.kind.children[..p]
      ensures p == Position(node.kind.children, child.value)
    {
      var ch := node.kind.children;
      var q := Position(ch, child.value);
      assert forall i :: 0 <= i < q ==> ch[..q][i] == ch[i];
      assert forall i :: 0 <= i < p ==> ch[..p][i] == ch[i];
    }
  }

  /** The same list, or one with two places swapped. */
  ghost predicate SwappedOnce(ch: seq<nat>, ch': seq<nat>) {
    ch' == ch || exists p, q :: 0 <= p < |ch| && 0 <= q < |ch| && ch' == Swap(ch, p, q)
  }

  lemma SwappedOnceKeeps(leaves: seq<set<nat>>, ch: seq<nat>, ch': seq<nat>, ls: set<nat>)
    requires SwappedOnce(ch, ch')
    ensures |ch'| == |ch| && (forall c :: c in ch <==> c in ch')
    ensures Partition(leaves, ch, ls) ==> Partition(leaves, ch', ls)
  {
    if ch' != ch {
      var p, q :| 0 <= p < |ch| && 0 <= q < |ch| && ch' == Swap(ch, p, q);
      SwapKeepsMembers(ch, p, q);
      SwapKeepsMembers(ch', p, q);
      assert Swap(ch', p, q) == ch;
      if Partition(leaves, ch, ls) { PartitionSwap(leaves, ch, ls, p, q); }
    }
  }

  lemma SwapKeepsMembers(ch: seq<nat>, i: nat, j: nat)
    requires i < |ch| && j < |ch|
    ensures forall c :: c in ch ==> c in Swap(ch, i, j)
  {
    forall c | c in ch ensures c in Swap(ch, i, j) {
      var k :| 0 <= k < |ch| && ch[k] == c;
      assert Swap(ch, i, j)[if k == i then j else if k == j then i else k] == c;
    }
  }

  /** Rewriting one internal node with the same children, in another order, keeps the structure. */
  lemma RewriteKeepsNode(t: Tree, i: nat, node: Node, y: nat)
    requires AllShape(t) && AllLinked(t) && IsInternal(t.nodes, i) && y < |t.nodes|
    requires node.kind.Internal? && SwappedOnce(Children(t.nodes, i), node.kind.children)
    ensures Shape(t.With(i, node), y) && Linked(t.With(i, node), y)
  {
    hide Partition;
    hide SwappedOnce;
    assert Shape(t, y) && Linked(t, y);
    SwappedOnceKeeps(t.leaves, Children(t.nodes, i), node.kind.children, t.leaves[i]);
    if y == i {
      var ch, ch' := Children(t.nodes, i), node.kind.children;
      forall k | 0 <= k < |ch'| ensures t.parent[ch'[k]] == Some(i) {
        assert ch'[k] in ch;
      }
    }
  }

  lemma RewriteKeepsStructure(t: Tree, path: seq<nat>, x: nat, i: nat, node: Node)
    requires Growing(t, path, x) && IsInternal(t.nodes, i)
    requires node.kind.Internal? && SwappedOnce(Children(t.nodes, i), node.kind.children)
    ensures Growing(t.With(i, node), path, x)
  {
    hide Shape;
    hide Linked;
    forall y | 0 <= y < |t.nodes| ensures Shape(t.With(i, node), y) && Linked(t.With(i, node), y) {
      RewriteKeepsNode(t, i, node, y);
    }
  }

  /** Bounds and order of a node the pass has just updated. */
  lemma UpdatedValues(t: Tree, i: nat, x: nat)
    requires Pending(t, i, x) && IsLeaf(t.nodes, x) && x in t.leaves[i]
    ensures Hull(t.nodes, t.leaves[i], t.nodes[i].bounds.Union(t.nodes[x].bounds))
    ensures TopOrder(t.nodes, t.leaves[i], MaxNat(t.nodes[i].maxOrder, t.nodes[x].maxOrder))
  {
    HullAdd(t.nodes, t.leaves[i] - {x}, t.nodes[i].bounds, x);
    TopOrderAdd(t.nodes, t.leaves[i] - {x}, t.nodes[i].maxOrder, x);
    assert t.leaves[i] - {x} + {x} == t.leaves[i];
  }

  /** The child a node lists last after the update attains the node's order. */
  lemma UpdatedLastChild(t: Tree, i: nat, c: nat, x: nat)
    requires Pending(t, i, x) && IsLeaf(t.nodes, x)
    requires c in Children(t.nodes, i) && c < |t.nodes| && c != i && x in t.leaves[c] && t.leaves[c] <= t.leaves[i]
    requires TopOrder(t.nodes, t.leaves[c], t.nodes[c].maxOrder)
    requires LastChild(t.nodes, i) != i
    requires LastChild(t.nodes, i) != c ==> x !in t.leaves[LastChild(t.nodes, i)]
    requires TopOrder(t.nodes, t.leaves[LastChild(t.nodes, i)], t.nodes[LastChild(t.nodes, i)].maxOrder)
    ensures var node := Updated(t.nodes[i], Some(c), t.nodes[x].bounds, t.nodes[x].maxOrder);
            var last := node.kind.children[|node.kind.children| - 1];
            last < |t.nodes| && last != i && t.nodes[last].maxOrder == node.maxOrder
  {
    var last := LastChild(t.nodes, i);
    if t.nodes[i].maxOrder < t.nodes[x].maxOrder {
      assert t.nodes[c].maxOrder == t.nodes[x].maxOrder;
    } else if last != c {
      assert t.leaves[last] - {x} == t.leaves[last];
    } else {
      assert t.nodes[c].maxOrder == t.nodes[i].maxOrder;
    }
  }

  /** `Values` of a node that is not rewritten. */
  lemma ValuesFrame(t: Tree, c: nat, node: Node, i: nat)
    requires |t.leaves| == |t.nodes| && IsInternal(t.nodes, c) && i < |t.nodes| && Values(t, i)
    requires c != i && (IsInternal(t.nodes, i) ==> LastChild(t.nodes, i) != c)
    ensures Values(t.With(c, node), i)
  {
    LeafValuesFrame(t.nodes, t.With(c, node).nodes, t.leaves[i], t.nodes[i].bounds, t.nodes[i].maxOrder);
  }

  /** `Values` of the node that is rewritten. */
  lemma RewrittenValues(t: Tree, i: nat, node: Node)
    requires |t.leaves| == |t.nodes| && IsInternal(t.nodes, i) && node.kind.Internal? && node.kind.children != []
    requires Hull(t.nodes, t.leaves[i], node.bounds) && TopOrder(t.nodes, t.leaves[i], node.maxOrder)
    requires var last := node.kind.children[|node.kind.children| - 1];
             last < |t.nodes| && last != i && t.nodes[last].maxOrder == node.maxOrder
    ensures Values(t.With(i, node), i)
  {
    LeafValuesFrame(t.nodes, t.nodes[i := node], t.leaves[i], node.bounds, node.maxOrder);
  }

  lemma PendingFrame(t: Tree, c: nat, node: Node, i: nat, x: nat)
    requires Pending(t, i, x) && IsInternal(t.nodes, c) && c != i
    ensures Pending(t.With(c, node), i, x)
  {}

  /** A node whose last child is rewritten is that child's parent. */
  lemma LastChildsParent(t: Tree, i: nat)
    requires AllShape(t) && IsInternal(t.nodes, i)
    ensures Children(t.nodes, i) != [] && LastChild(t.nodes, i) < |t.nodes| && t.parent[LastChild(t.nodes, i)] == Some(i)
  {
    assert Shape(t, i);
  }

  /** The node just below position `j` of the path, seen from its parent. */
  lemma PathChild(t: Tree, path: seq<nat>, x: nat, m: nat)
    requires Growing(t, path, x) && m + 1 < |path|
    ensures path[m + 1] in Children(t.nodes, path[m]) && path[m + 1] != path[m]
    ensures t.leaves[path[m + 1]] <= t.leaves[path[m]] && x in t.leaves[path[m + 1]]
    ensures forall c :: c in Children(t.nodes, path[m]) && c != path[m + 1] ==> c < |t.leaves| && x !in t.leaves[c]
  {
    assert Shape(t, path[m]);
    assert Linked(t, path[m + 1]);
    var ch := Children(t.nodes, path[m]);
    var p :| 0 <= p < |ch| && ch[p] == path[m + 1];
    forall c | c in ch && c != path[m + 1] ensures c < |t.leaves| && x !in t.leaves[c] {
      var k :| 0 <= k < |ch| && ch[k] == c;
    }
  }

  /** A parent of a path node is the path node above it. */
  lemma NotAboveThePath(t: Tree, path: seq<nat>, x: nat, m: nat, i: nat)
    requires Growing(t, path, x) && m < |path| && t.parent[path[m]] == Some(i)
    ensures m > 0 && i == path[m - 1]
  {
    assert Linked(t, t.root);
  }

  /** Rewriting path node `m` keeps the values of every node but itself and the path node above it. */
  lemma OthersKeepValues(t: Tree, path: seq<nat>, x: nat, m: nat, node: Node, y: nat)
    requires Growing(t, path, x) && m < |path|
    requires y < |t.nodes| && y != path[m] && (m > 0 ==> y != path[m - 1]) && Values(t, y)
    ensures Values(t.With(path[m], node), y)
  {
    hide AllShape;
    hide AllLinked;
    if IsInternal(t.nodes, y) {
      LastChildsParent(t, y);
      if LastChild(t.nodes, y) == path[m] { NotAboveThePath(t, path, x, m, y); }
    }
    ValuesFrame(t, path[m], node, y);
  }

  /** Rewriting path node `m` keeps the nodes above it pending. */
  lemma AboveStaysPending(t: Tree, path: seq<nat>, x: nat, m: nat, node: Node)
    requires Growing(t, path, x) && m < |path|
    requires forall k :: 0 <= k < m ==> Pending(t, path[k], x)
    ensures forall k :: 0 <= k < m ==> Pending(t.With(path[m], node), path[k], x)
  {
    hide Pending;
    hide AllShape;
    hide AllLinked;
    forall k | 0 <= k < m ensures Pending(t.With(path[m], node), path[k], x) {
      assert t.leaves[path[m]] < t.leaves[path[k]];
      PendingFrame(t, path[m], node, path[k], x);
    }
  }

  /** Dealing with path node `m` leaves only the nodes above it to deal with. */
  lemma NodeDealtWith(t: Tree, path: seq<nat>, x: nat, m: nat, node: Node)
    requires Growing(t, path, x) && m < |path|
    requires forall y :: 0 <= y < |t.nodes| && y !in path[..m + 1] ==> Values(t, y)
    requires Values(t.With(path[m], node), path[m])
    ensures forall y :: 0 <= y < |t.nodes| && y !in path[..m] ==> Values(t.With(path[m], node), y)
  {
    hide Values;
    hide AllShape;
    hide AllLinked;
    var above := path[..m];
    assert path[..m + 1] == above + [path[m]];
    forall y | 0 <= y < |t.nodes| && y !in above && y != path[m] ensures Values(t.With(path[m], node), y) {
      if m > 0 { assert path[m - 1] == above[m - 1]; }
      OthersKeepValues(t, path, x, m, node, y);
    }
  }

  lemma FirstNodeValues(t: Tree, i: nat, x: nat)
    requires BottomPending(t, i, x)
    ensures Values(t.With(i, Updated(t.nodes[i], None, t.nodes[x].bounds, t.nodes[x].maxOrder)), i)
  {
    RewrittenValues(t, i, Updated(t.nodes[i], None, t.nodes[x].bounds, t.nodes[x].maxOrder));
  }

  lemma ClimbFirst(t: Tree, path: seq<nat>, x: nat)
    requires AtBottom(t, path, x)
    ensures IsInternal(t.nodes, path[|path| - 1])
    ensures var b := path[|path| - 1];
            Climb(t.With(b, Updated(t.nodes[b], None, t.nodes[x].bounds, t.nodes[x].maxOrder)), path, |path| - 1, x)
  {
    hide Values;
    hide Pending;
    hide BottomPending;
    hide AllShape;
    hide AllLinked;
    var j := |path| - 1;
    var b := path[j];
    var node := Updated(t.nodes[b], None, t.nodes[x].bounds, t.nodes[x].maxOrder);
    FirstNodeValues(t, b, x);
    assert path[..j + 1] == path;
    NodeDealtWith(t, path, x, j, node);
    AboveStaysPending(t, path, x, j, node);
    RewriteKeepsStructure(t, path, x, b, node);
  }

  lemma NextNodeValues(t: Tree, path: seq<nat>, j: nat, x: nat)
    requires Climb(t, path, j, x) && 0 < j < |path|
    ensures var i := path[j - 1];
            var node := Updated(t.nodes[i], Some(path[j]), t.nodes[x].bounds, t.nodes[x].maxOrder);
            Values(t.With(i, node), i)
  {
    hide Values;
    hide AllShape;
    hide AllLinked;
    hide Hull;
    hide TopOrder;
    var i := path[j - 1];
    assert Pending(t, i, x);
    UpdatedValues(t, i, x);
    ClimbLastChild(t, path, j, x);
    RewrittenValues(t, i, Updated(t.nodes[i], Some(path[j]), t.nodes[x].bounds, t.nodes[x].maxOrder));
  }

  lemma ClimbNext(t: Tree, path: seq<nat>, j: nat, x: nat)
    requires Climb(t, path, j, x) && 0 < j < |path|
    ensures IsInternal(t.nodes, path[j - 1])
    ensures var i := path[j - 1];
            Climb(t.With(i, Updated(t.nodes[i], Some(path[j]), t.nodes[x].bounds, t.nodes[x].maxOrder)), path, j - 1, x)
  {
    hide Values;
    hide Pending;
    hide AllShape;
    hide AllLinked;
    var i := path[j - 1];
    var node := Updated(t.nodes[i], Some(path[j]), t.nodes[x].bounds, t.nodes[x].maxOrder);
    NextNodeValues(t, path, j, x);
    NodeDealtWith(t, path, x, j - 1, node);
    AboveStaysPending(t, path, x, j - 1, node);
    PathChild(t, path, x, j - 1);
    RewriteKeepsStructure(t, path, x, i, node);
  }

  lemma ClimbLastChild(t: Tree, path: seq<nat>, j: nat, x: nat)
    requires Climb(t, path, j, x) && 0 < j < |path|
    ensures var i := path[j - 1];
            var node := Updated(t.nodes[i], Some(path[j]), t.nodes[x].bounds, t.nodes[x].maxOrder);
            var last := node.kind.children[|node.kind.children| - 1];
            last < |t.nodes| && last != i && t.nodes[last].maxOrder == node.maxOrder
  {
    hide AllShape;
    hide AllLinked;
    var i, c := path[j - 1], path[j];
    PathChild(t, path, x, j - 1);
    LastChildsParent(t, i);
    var last := LastChild(t.nodes, i);
    assert last !in path[..j] && c !in path[..j];
    assert Values(t, last) && Values(t, c);
    UpdatedLastChild(t, i, c, x);
  }

  /** When the pass has reached the root, the tree is well formed again. */
  lemma ClimbDone(t: Tree, path: seq<nat>, x: nat)
    requires Climb(t, path, 0, x)
    ensures TreeOk(t)
  {}
}
