/**
 * The well-formedness of the node table of crates/gpui/src/bounds_tree.rs, as predicates
 * and lemmas over plain values.
 *
 * Nodes refer to each other by table index, and an insertion can put a new parent at a
 * higher index than its child or a new child at a higher index than its parent. So the
 * invariant does not go by index: `leaves[i]` is the set of leaf indices below node `i`,
 * and `parent[i]` the node that lists `i` as a child. Leaf nodes never change once they
 * are in the table, so every condition on bounds and orders is stated against leaves.
 */
module TreeShape {
  import opened Wrappers
  import opened Geometry
  import opened Arithmetic

  const MAX_CHILDREN: nat := 12

  datatype NodeKind =
    | Leaf(order: nat)
    | Internal(children: seq<nat>)

  datatype Node = Node(bounds: Bounds, maxOrder: nat, kind: NodeKind)

  /**
   * The node table with the tree that it describes: the leaves below each node, the node
   * that lists it as a child, and the root.
   */
  datatype Tree = Tree(nodes: seq<Node>, leaves: seq<set<nat>>, parent: seq<Option<nat>>, root: nat)
  {
    function With(i: nat, node: Node): Tree
      requires i < |nodes|
    {
      this.(nodes := nodes[i := node])
    }
  }

  predicate IsLeaf(nodes: seq<Node>, i: int) {
    0 <= i < |nodes| && nodes[i].kind.Leaf?
  }

  predicate IsInternal(nodes: seq<Node>, i: int) {
    0 <= i < |nodes| && nodes[i].kind.Internal?
  }

  predicate InTable(nodes: seq<Node>, ch: seq<nat>) {
    forall k :: 0 <= k < |ch| ==> ch[k] < |nodes|
  }

  function Children(nodes: seq<Node>, i: nat): seq<nat>
    requires IsInternal(nodes, i)
  {
    nodes[i].kind.children
  }

  function LastChild(nodes: seq<Node>, i: nat): nat
    requires IsInternal(nodes, i) && Children(nodes, i) != []
  {
    Children(nodes, i)[|Children(nodes, i)| - 1]
  }

  /** The corners of `b` are exactly the corner-wise minimum and maximum over the leaves `ls`. */
  ghost predicate Hull(nodes: seq<Node>, ls: set<nat>, b: Bounds) {
    && (forall l :: l in ls ==> IsLeaf(nodes, l) && nodes[l].bounds.Inside(b))
    && (exists l :: l in ls && nodes[l].bounds.origin.x == b.origin.x)
    && (exists l :: l in ls && nodes[l].bounds.origin.y == b.origin.y)
    && (exists l :: l in ls && nodes[l].bounds.BottomRight().x == b.BottomRight().x)
    && (exists l :: l in ls && nodes[l].bounds.BottomRight().y == b.BottomRight().y)
  }

  /** `m` is the maximum order over the leaves `ls`. */
  ghost predicate TopOrder(nodes: seq<Node>, ls: set<nat>, m: nat) {
    && (forall l :: l in ls ==> IsLeaf(nodes, l) && nodes[l].maxOrder <= m)
    && (exists l :: l in ls && nodes[l].maxOrder == m)
  }

  /** The leaf sets of the children are pairwise disjoint and add up to `ls`. */
  ghost predicate Partition(leaves: seq<set<nat>>, ch: seq<nat>, ls: set<nat>) {
    && (forall k :: 0 <= k < |ch| ==> ch[k] < |leaves|)
    && (forall k, l :: 0 <= k < |ch| && l in leaves[ch[k]] ==> l in ls)
    && (forall j, k, l :: 0 <= j < |ch| && 0 <= k < |ch| && l in leaves[ch[j]] && l in leaves[ch[k]] ==> j == k)
    && (forall l :: l in ls ==> exists k :: 0 <= k < |ch| && l in leaves[ch[k]])
  }

  /** Structure of one node: where its leaves are, and whose child each child is. */
  ghost predicate Shape(t: Tree, i: nat)
    requires |t.leaves| == |t.parent| == |t.nodes| && i < |t.nodes|
  {
    match t.nodes[i].kind
    case Leaf(_) => t.leaves[i] == {i}
    case Internal(ch) =>
      && 2 <= |ch| <= MAX_CHILDREN
      && Partition(t.leaves, ch, t.leaves[i])
      && (forall k :: 0 <= k < |ch| ==> t.parent[ch[k]] == Some(i))
  }

  /** Bounds and maximum order of one node, and the child that attains the order in last place. */
  ghost predicate Values(t: Tree, i: nat)
    requires |t.leaves| == |t.nodes| && i < |t.nodes|
  {
    && Hull(t.nodes, t.leaves[i], t.nodes[i].bounds)
    && TopOrder(t.nodes, t.leaves[i], t.nodes[i].maxOrder)
    && match t.nodes[i].kind
       case Leaf(order) => t.nodes[i].maxOrder == order
       case Internal(ch) =>
         && ch != [] && LastChild(t.nodes, i) < |t.nodes|
         && t.nodes[LastChild(t.nodes, i)].maxOrder == t.nodes[i].maxOrder
  }

  /** Every node but the root is listed by its parent. */
  ghost predicate Linked(t: Tree, i: nat)
    requires |t.parent| == |t.nodes| && i < |t.nodes|
  {
    if i == t.root then t.parent[i] == None
    else t.parent[i].Some? && IsInternal(t.nodes, t.parent[i].value) && i in Children(t.nodes, t.parent[i].value)
  }

  ghost predicate AllShape(t: Tree) {
    && |t.leaves| == |t.parent| == |t.nodes|
    && forall i :: 0 <= i < |t.nodes| ==> Shape(t, i)
  }

  ghost predicate AllLinked(t: Tree) {
    && |t.parent| == |t.nodes|
    && t.root < |t.nodes|
    && forall i :: 0 <= i < |t.nodes| ==> Linked(t, i)
  }

  ghost predicate TreeOk(t: Tree) {
    && AllShape(t)
    && AllLinked(t)
    && (forall i :: 0 <= i < |t.nodes| ==> Values(t, i))
    && (forall l :: 0 <= l < |t.nodes| && t.nodes[l].kind.Leaf? ==> l in t.leaves[t.root])
  }

  // ----- Leaf sets ------------------------------------------------------------------

  lemma ChildLeavesSmaller(t: Tree, i: nat, k: nat)
    requires AllShape(t) && IsInternal(t.nodes, i) && k < |Children(t.nodes, i)|
    requires forall j :: 0 <= j < |t.nodes| ==> t.leaves[j] != {}
    ensures Children(t.nodes, i)[k] < |t.leaves| && t.leaves[Children(t.nodes, i)[k]] < t.leaves[i]
  {
    assert Shape(t, i);
    var ch := Children(t.nodes, i);
    var other := if k == 0 then 1 else 0;
    var l :| l in t.leaves[ch[other]];
    assert l in t.leaves[i] && l !in t.leaves[ch[k]];
  }

  /** The leaves below the nodes of a list. */
  ghost function Covered(leaves: seq<set<nat>>, list: seq<nat>): set<nat> {
    if list == [] then {}
    else
      var c := list[|list| - 1];
      Covered(leaves, list[..|list| - 1]) + (if c < |leaves| then leaves[c] else {})
  }

  /** How much a search still has to look at below the nodes of a list. */
  ghost function Weight(leaves: seq<set<nat>>, list: seq<nat>): nat {
    if list == [] then 0
    else
      var c := list[|list| - 1];
      Weight(leaves, list[..|list| - 1]) + (if c < |leaves| && leaves[c] != {} then 2 * |leaves[c]| - 1 else 0)
  }

  lemma {:induction false} CoveredConcat(leaves: seq<set<nat>>, a: seq<nat>, b: seq<nat>)
    ensures Covered(leaves, a + b) == Covered(leaves, a) + Covered(leaves, b)
    ensures Weight(leaves, a + b) == Weight(leaves, a) + Weight(leaves, b)
  {
    if b == [] {
      assert a + b == a;
    } else {
      CoveredConcat(leaves, a, b[..|b| - 1]);
      assert (a + b)[..|a + b| - 1] == a + b[..|b| - 1];
    }
  }

  lemma {:induction false} CoveredHas(leaves: seq<set<nat>>, list: seq<nat>, c: nat)
    requires c in list && c < |leaves|
    ensures leaves[c] <= Covered(leaves, list)
  {
    if list[|list| - 1] != c {
      CoveredHas(leaves, list[..|list| - 1], c);
    }
  }

  /** The children of a node weigh less than the node: at least two disjoint nonempty parts. */
  lemma {:induction false} PartsWeigh(leaves: seq<set<nat>>, ch: seq<nat>, ls: set<nat>)
    requires forall k :: 0 <= k < |ch| ==> ch[k] < |leaves| && leaves[ch[k]] != {}
    requires forall k, l :: 0 <= k < |ch| && l in leaves[ch[k]] ==> l in ls
    requires forall j, k, l :: 0 <= j < |ch| && 0 <= k < |ch| && l in leaves[ch[j]] && l in leaves[ch[k]] ==> j == k
    ensures Weight(leaves, ch) + |ch| <= 2 * |ls|
  {
    if ch != [] {
      var last := leaves[ch[|ch| - 1]];
      PartsWeigh(leaves, ch[..|ch| - 1], ls - last);
      assert ls == (ls - last) + last;
    }
  }

  // ----- Hull and TopOrder ----------------------------------------------------------

  /** Both depend on the leaf nodes only. */
  lemma LeafValuesFrame(nodes: seq<Node>, nodes': seq<Node>, ls: set<nat>, b: Bounds, m: nat)
    requires |nodes| <= |nodes'|
    requires forall l :: l in ls && IsLeaf(nodes, l) ==> nodes'[l] == nodes[l]
    ensures Hull(nodes, ls, b) ==> Hull(nodes', ls, b)
    ensures TopOrder(nodes, ls, m) ==> TopOrder(nodes', ls, m)
  {}

  lemma HullAdd(nodes: seq<Node>, ls: set<nat>, b: Bounds, x: nat)
    requires Hull(nodes, ls, b) && IsLeaf(nodes, x)
    ensures Hull(nodes, ls + {x}, b.Union(nodes[x].bounds))
  {
    var nb := nodes[x].bounds;
    var u := b.Union(nb);
    UnionIsLeast(b, nb, u);
    assert x in ls + {x};
    var l0 :| l0 in ls && nodes[l0].bounds.origin.x == b.origin.x;
    var l1 :| l1 in ls && nodes[l1].bounds.origin.y == b.origin.y;
    var l2 :| l2 in ls && nodes[l2].bounds.BottomRight().x == b.BottomRight().x;
    var l3 :| l3 in ls && nodes[l3].bounds.BottomRight().y == b.BottomRight().y;
    assert l0 in ls + {x} && l1 in ls + {x} && l2 in ls + {x} && l3 in ls + {x};
  }

  lemma TopOrderAdd(nodes: seq<Node>, ls: set<nat>, m: nat, x: nat)
    requires TopOrder(nodes, ls, m) && IsLeaf(nodes, x)
    ensures TopOrder(nodes, ls + {x}, MaxNat(m, nodes[x].maxOrder))
  {}

  /** A node's maximum bounds the maximum of each of its children. */
  lemma ChildOrderAtMost(nodes: seq<Node>, ls: set<nat>, m: nat, cls: set<nat>, cm: nat)
    requires TopOrder(nodes, ls, m) && TopOrder(nodes, cls, cm) && cls <= ls
    ensures cm <= m
  {}

  lemma SmallerSet(a: set<nat>, b: set<nat>)
    requires a < b
    ensures |a| < |b|
  {
    assert b == a + (b - a);
  }
}
