/** The pointer surgery of the AVL tree. Each method is proved to turn memory holding one tree into
    memory holding another, touching no node outside the label range it is given. */
module Avl {
  import opened Bytes
  import opened ZNodes
  import opened Trees
  import opened Rebalancing

  method AvlUpdate(node: ZNode)
    requires node.left != node && node.right != node
    modifies node`height, node`cnt
    ensures node.height == 1 + Max(AvlHeight(node.left), AvlHeight(node.right))
    ensures node.cnt == 1 + AvlCnt(node.left) + AvlCnt(node.right)
  {
    node.height := 1 + Max(AvlHeight(node.left), AvlHeight(node.right));
    node.cnt := 1 + AvlCnt(node.left) + AvlCnt(node.right);
  }

  /** What a rotation about `node`, `top` and the subtree between them (root `inner`) changes. */
  ghost predicate Pivoted(m: Mem, m': Mem, node: ZNode, cell: Cell, top: ZNode, topCell: Cell, inner: ZNode?) {
    m'.Keys == m.Keys && node in m && top in m && m'[node] == cell && m'[top] == topCell &&
    (inner != null ==> inner in m && m'[inner] == m[inner].(parent := node)) &&
    forall n :: n in m && n != node && n != top && n != inner ==> m'[n] == m[n]
  }

  /** Two pivots labelled `x` and `y`, and a node between them: nothing else changes. */
  lemma PivotedSame(m: Mem, m': Mem, node: ZNode, cell: Cell, top: ZNode, topCell: Cell, inner: ZNode?,
                    s: seq<ZNode>, lo: int, x: int, y: int, hi: int)
    requires Pivoted(m, m', node, cell, top, topCell, inner)
    requires lo < x < y < hi && (inner != null ==> x < At(s, inner) < y)
    requires (At(s, node) == x && At(s, top) == y) || (At(s, node) == y && At(s, top) == x)
    ensures Same(m, m', s, lo, x) && Same(m, m', s, y, hi) && SameOutside(m, m', s, lo, hi)
    ensures forall n :: n in m && x < At(s, n) < y && n != inner ==> n in m' && m'[n] == m[n]
  {
  }

  /** The three subtrees `a`, `b`, `c` around two pivots labelled `x` and `y`: `b` changes hands. */
  lemma PiecesHold(m: Mem, m': Mem, node: ZNode, cell: Cell, top: ZNode, topCell: Cell,
                   a: Tree, pa: ZNode, b: Tree, c: Tree, pc: ZNode,
                   s: seq<ZNode>, lo: int, x: int, y: int, hi: int)
    requires Pivoted(m, m', node, cell, top, topCell, Root(b))
    requires lo < x < y < hi
    requires (At(s, node) == x && At(s, top) == y) || (At(s, node) == y && At(s, top) == x)
    requires Ranked(a, s, lo, x) && Ranked(b, s, x, y) && Ranked(c, s, y, hi)
    requires Holds(m, a, pa) && Holds(m, b, top) && Holds(m, c, pc)
    ensures Holds(m', a, pa) && Holds(m', b, node) && Holds(m', c, pc)
    ensures SameOutside(m, m', s, lo, hi)
  {
    PivotedSame(m, m', node, cell, top, topCell, Root(b), s, lo, x, y, hi);
    HoldsSame(m, m', a, pa, s, lo, x);
    HoldsMoved(m, m', b, top, node, s, x, y);
    HoldsSame(m, m', c, pc, s, y, hi);
  }

  lemma RootCell(m: Mem, t: Tree, parent: ZNode?, s: seq<ZNode>, lo: int, hi: int)
    requires Holds(m, t, parent) && Ranked(t, s, lo, hi)
    ensures t.Node? ==> t.node in m && lo < At(s, t.node) < hi
    ensures t.Node? ==> m[t.node] == Cell(parent, Root(t.left), Root(t.right), Height(t), Size(t))
  {
  }

  /** The pointers a rotation is about to follow lead to different nodes. */
  ghost predicate Pivotable(m: Mem, node: ZNode, top: ZNode, outer: ZNode?, inner: ZNode?, other: ZNode?) {
    node in m && top in m && node != top &&
    (outer != null ==> outer in m && outer != node && outer != top && outer != inner) &&
    (inner != null ==> inner in m && inner != node && inner != top) &&
    (other != null ==> other in m && other != node && other != top && other != inner)
  }

  lemma LeftPivots(m: Mem, t: Tree, p: ZNode?, s: seq<ZNode>, lo: int, hi: int)
    requires t.Node? && t.right.Node? && Loose(m, t, p) && Ranked(t, s, lo, hi)
    ensures var v := t.right;
      m[t.node].parent == p && m[t.node].left == Root(t.left) && m[t.node].right == v.node &&
      Pivotable(m, t.node, v.node, Root(t.left), Root(v.left), Root(v.right)) &&
      m[v.node].left == Root(v.left) && m[v.node].right == Root(v.right)
    ensures (t.left.Node? ==> m[t.left.node].height == Height(t.left) && m[t.left.node].cnt == Size(t.left)) &&
      (t.right.left.Node? ==>
        m[t.right.left.node].height == Height(t.right.left) && m[t.right.left.node].cnt == Size(t.right.left)) &&
      (t.right.right.Node? ==>
        m[t.right.right.node].height == Height(t.right.right) && m[t.right.right.node].cnt == Size(t.right.right))
  {
    var x, y := At(s, t.node), At(s, t.right.node);
    RootCell(m, t.left, t.node, s, lo, x);
    RootCell(m, t.right, t.node, s, x, hi);
    RootCell(m, t.right.left, t.right.node, s, x, y);
    RootCell(m, t.right.right, t.right.node, s, y, hi);
  }

  lemma RightPivots(m: Mem, t: Tree, p: ZNode?, s: seq<ZNode>, lo: int, hi: int)
    requires t.Node? && t.left.Node? && Loose(m, t, p) && Ranked(t, s, lo, hi)
    ensures var v := t.left;
      m[t.node].parent == p && m[t.node].left == v.node && m[t.node].right == Root(t.right) &&
      Pivotable(m, t.node, v.node, Root(t.right), Root(v.right), Root(v.left)) &&
      m[v.node].left == Root(v.left) && m[v.node].right == Root(v.right)
    ensures (t.right.Node? ==> m[t.right.node].height == Height(t.right) && m[t.right.node].cnt == Size(t.right)) &&
      (t.left.left.Node? ==>
        m[t.left.left.node].height == Height(t.left.left) && m[t.left.left.node].cnt == Size(t.left.left)) &&
      (t.left.right.Node? ==>
        m[t.left.right.node].height == Height(t.left.right) && m[t.left.right.node].cnt == Size(t.left.right))
  {
    var x, y := At(s, t.node), At(s, t.left.node);
    RootCell(m, t.right, t.node, s, x, hi);
    RootCell(m, t.left, t.node, s, lo, x);
    RootCell(m, t.left.left, t.left.node, s, lo, y);
    RootCell(m, t.left.right, t.left.node, s, y, x);
  }

  lemma RotatedLeftHolds(m: Mem, m': Mem, t: Tree, p: ZNode?, s: seq<ZNode>, lo: int, hi: int)
    requires t.Node? && t.right.Node? && Loose(m, t, p) && Ranked(t, s, lo, hi)
    requires var r := RotatedLeft(t);
      Pivoted(m, m', t.node,
              Cell(r.node, Root(t.left), Root(t.right.left), Height(r.left), Size(r.left)),
              r.node, Cell(p, t.node, Root(r.right), Height(r), Size(r)), Root(t.right.left))
    ensures Holds(m', RotatedLeft(t), p) && SameOutside(m, m', s, lo, hi)
  {
    var v := t.right;
    assert Ranked(v, s, At(s, t.node), hi);
    PiecesHold(m, m', t.node, m'[t.node], v.node, m'[v.node], t.left, t.node, v.left, v.right, v.node,
               s, lo, At(s, t.node), At(s, v.node), hi);
  }

  lemma RotatedRightHolds(m: Mem, m': Mem, t: Tree, p: ZNode?, s: seq<ZNode>, lo: int, hi: int)
    requires t.Node? && t.left.Node? && Loose(m, t, p) && Ranked(t, s, lo, hi)
    requires var r := RotatedRight(t);
      Pivoted(m, m', t.node,
              Cell(r.node, Root(t.left.right), Root(t.right), Height(r.right), Size(r.right)),
              r.node, Cell(p, Root(r.left), t.node, Height(r), Size(r)), Root(t.left.right))
    ensures Holds(m', RotatedRight(t), p) && SameOutside(m, m', s, lo, hi)
  {
    var v := t.left;
    assert Ranked(v, s, lo, At(s, t.node));
    PiecesHold(m, m', t.node, m'[t.node], v.node, m'[v.node], v.left, v.node, v.right, t.right, t.node,
               s, lo, At(s, v.node), At(s, t.node), hi);
  }

  method RotLeft(node: ZNode, ghost nodes: set<ZNode>) returns (newNode: ZNode)
    requires node in nodes && node.right != null && node.right in nodes
    requires Pivotable(Snap(nodes), node, node.right, node.left, node.right.left, node.right.right)
    modifies nodes`parent, nodes`left, nodes`right, nodes`height, nodes`cnt
    ensures newNode == old(node.right)
    ensures node.height == 1 + Max(old(AvlHeight(node.left)), old(AvlHeight(node.right.left)))
    ensures node.cnt == 1 + old(AvlCnt(node.left)) + old(AvlCnt(node.right.left))
    ensures Pivoted(old(Snap(nodes)), Snap(nodes),
      node, Cell(newNode, old(node.left), old(node.right.left), node.height, node.cnt),
      newNode, Cell(old(node.parent), node, old(node.right.right),
                    1 + Max(node.height, old(AvlHeight(node.right.right))),
                    1 + node.cnt + old(AvlCnt(node.right.right))),
      old(node.right.left))
  {
    var parent := node.parent;
    newNode := node.right;
    var inner := newNode.left;
    // the subtree in the middle changes hands
    node.right := inner;
    if inner != null {
      inner.parent := node;
    }
    // the risen node looks up to the old parent
    newNode.parent := parent;
    // and the two pivots trade places
    newNode.left := node;
    node.parent := newNode;
    AvlUpdate(node);
    AvlUpdate(newNode);
  }

  method RotRight(node: ZNode, ghost nodes: set<ZNode>) returns (newNode: ZNode)
    requires node in nodes && node.left != null && node.left in nodes
    requires Pivotable(Snap(nodes), node, node.left, node.right, node.left.right, node.left.left)
    modifies nodes`parent, nodes`left, nodes`right, nodes`height, nodes`cnt
    ensures newNode == old(node.left)
    ensures node.height == 1 + Max(old(AvlHeight(node.left.right)), old(AvlHeight(node.right)))
    ensures node.cnt == 1 + old(AvlCnt(node.left.right)) + old(AvlCnt(node.right))
    ensures Pivoted(old(Snap(nodes)), Snap(nodes),
      node, Cell(newNode, old(node.left.right), old(node.right), node.height, node.cnt),
      newNode, Cell(old(node.parent), old(node.left.left), node,
                    1 + Max(old(AvlHeight(node.left.left)), node.height), 1 + old(AvlCnt(node.left.left)) + node.cnt),
      old(node.left.right))
  {
    var parent := node.parent;
    newNode := node.left;
    var inner := newNode.right;
    // the subtree in the middle changes hands
    node.left := inner;
    if inner != null {
      inner.parent := node;
    }
    // the risen node looks up to the old parent
    newNode.parent := parent;
    // and the two pivots trade places
    newNode.right := node;
    node.parent := newNode;
    AvlUpdate(node);
    AvlUpdate(newNode);
  }

  lemma LeftData(t: Tree)
    requires t.Node? && t.right.Node?
    ensures var r := RotatedLeft(t);
      Height(r.left) == 1 + Max(Height(t.left), Height(t.right.left)) &&
      Size(r.left) == 1 + Size(t.left) + Size(t.right.left) &&
      Height(r) == 1 + Max(Height(r.left), Height(r.right)) && Size(r) == 1 + Size(r.left) + Size(r.right)
    ensures forall u: Tree :: u.Leaf? ==> Height(u) == 0 && Size(u) == 0
  {
  }

  lemma RightData(t: Tree)
    requires t.Node? && t.left.Node?
    ensures var r := RotatedRight(t);
      Height(r.right) == 1 + Max(Height(t.left.right), Height(t.right)) &&
      Size(r.right) == 1 + Size(t.left.right) + Size(t.right) &&
      Height(r) == 1 + Max(Height(r.left), Height(r.right)) && Size(r) == 1 + Size(r.left) + Size(r.right)
    ensures forall u: Tree :: u.Leaf? ==> Height(u) == 0 && Size(u) == 0
  {
  }

  /** A left rotation of memory that holds `t` (its root's data aside) gives the rotated tree. */
  method RotateTreeLeft(node: ZNode, ghost t: Tree, ghost p: ZNode?, ghost nodes: set<ZNode>,
                        ghost s: seq<ZNode>, ghost lo: int, ghost hi: int)
    returns (newNode: ZNode)
    requires t.Node? && t.node == node && t.right.Node?
    requires Loose(Snap(nodes), t, p) && Ranked(t, s, lo, hi)
    modifies nodes`parent, nodes`left, nodes`right, nodes`height, nodes`cnt
    ensures newNode == t.right.node && Holds(Snap(nodes), RotatedLeft(t), p)
    ensures SameOutside(old(Snap(nodes)), Snap(nodes), s, lo, hi)
  {
    hide Holds, Ranked, Loose, SameOutside, Height, Size, Max, Pivoted, Pivotable;
    ghost var m := Snap(nodes);
    LeftPivots(m, t, p, s, lo, hi);
    LeftData(t);
    newNode := RotLeft(node, nodes);
    RotatedLeftHolds(m, Snap(nodes), t, p, s, lo, hi);
  }

  method RotateTreeRight(node: ZNode, ghost t: Tree, ghost p: ZNode?, ghost nodes: set<ZNode>,
                         ghost s: seq<ZNode>, ghost lo: int, ghost hi: int)
    returns (newNode: ZNode)
    requires t.Node? && t.node == node && t.left.Node?
    requires Loose(Snap(nodes), t, p) && Ranked(t, s, lo, hi)
    modifies nodes`parent, nodes`left, nodes`right, nodes`height, nodes`cnt
    ensures newNode == t.left.node && Holds(Snap(nodes), RotatedRight(t), p)
    ensures SameOutside(old(Snap(nodes)), Snap(nodes), s, lo, hi)
  {
    hide Holds, Ranked, Loose, SameOutside, Height, Size, Max, Pivoted, Pivotable;
    ghost var m := Snap(nodes);
    RightPivots(m, t, p, s, lo, hi);
    RightData(t);
    newNode := RotRight(node, nodes);
    RotatedRightHolds(m, Snap(nodes), t, p, s, lo, hi);
  }

  /** The left subtree has become `l`, in place, and its root has been stored in the parent. */
  lemma LeftReplaced(m: Mem, m1: Mem, m2: Mem, t: Tree, l: Tree, p: ZNode?, s: seq<ZNode>, lo: int, hi: int)
    requires Loose(m, t, p) && Ranked(t, s, lo, hi) && hi <= |s|
    requires Holds(m1, l, t.node) && Ranked(l, s, lo, At(s, t.node)) && SameOutside(m, m1, s, lo, At(s, t.node))
    requires t.node in m2 && m2[t.node] == m1[t.node].(left := Root(l))
    requires forall n :: n in m1 && n != t.node ==> n in m2 && m2[n] == m1[n]
    ensures Loose(m2, Node(l, t.node, t.right), p) && Ranked(Node(l, t.node, t.right), s, lo, hi)
    ensures SameOutside(m, m2, s, lo, hi)
  {
    var x := At(s, t.node);
    HoldsSame(m1, m2, l, t.node, s, lo, x);
    HoldsSame(m, m2, t.right, t.node, s, x, hi);
  }

  lemma RightReplaced(m: Mem, m1: Mem, m2: Mem, t: Tree, r: Tree, p: ZNode?, s: seq<ZNode>, lo: int, hi: int)
    requires Loose(m, t, p) && Ranked(t, s, lo, hi) && hi <= |s|
    requires Holds(m1, r, t.node) && Ranked(r, s, At(s, t.node), hi) && SameOutside(m, m1, s, At(s, t.node), hi)
    requires t.node in m2 && m2[t.node] == m1[t.node].(right := Root(r))
    requires forall n :: n in m1 && n != t.node ==> n in m2 && m2[n] == m1[n]
    ensures Loose(m2, Node(t.left, t.node, r), p) && Ranked(Node(t.left, t.node, r), s, lo, hi)
    ensures SameOutside(m, m2, s, lo, hi)
  {
    var x := At(s, t.node);
    HoldsSame(m1, m2, r, t.node, s, x, hi);
    HoldsSame(m, m2, t.left, t.node, s, lo, x);
  }

  /** The first half of a double rotation: `node->left = rot_left(node->left)`. */
  method RotateLeftChild(node: ZNode, ghost t: Tree, ghost p: ZNode?, ghost nodes: set<ZNode>,
                         ghost s: seq<ZNode>, ghost lo: int, ghost hi: int)
    requires t.Node? && t.node == node && t.left.Node? && t.left.right.Node?
    requires Loose(Snap(nodes), t, p) && Ranked(t, s, lo, hi) && hi <= |s|
    modifies nodes`parent, nodes`left, nodes`right, nodes`height, nodes`cnt
    ensures var u := Node(RotatedLeft(t.left), node, t.right);
      Loose(Snap(nodes), u, p) && Ranked(u, s, lo, hi)
    ensures SameOutside(old(Snap(nodes)), Snap(nodes), s, lo, hi)
  {
    ghost var m := Snap(nodes);
    RotatedLeftWalk(t.left, s, lo, At(s, node));
    var l := RotateTreeLeft(node.left, t.left, node, nodes, s, lo, At(s, node));
    ghost var m1 := Snap(nodes);
    node.left := l;
    LeftReplaced(m, m1, Snap(nodes), t, RotatedLeft(t.left), p, s, lo, hi);
  }

  method RotateRightChild(node: ZNode, ghost t: Tree, ghost p: ZNode?, ghost nodes: set<ZNode>,
                          ghost s: seq<ZNode>, ghost lo: int, ghost hi: int)
    requires t.Node? && t.node == node && t.right.Node? && t.right.left.Node?
    requires Loose(Snap(nodes), t, p) && Ranked(t, s, lo, hi) && hi <= |s|
    modifies nodes`parent, nodes`left, nodes`right, nodes`height, nodes`cnt
    ensures var u := Node(t.left, node, RotatedRight(t.right));
      Loose(Snap(nodes), u, p) && Ranked(u, s, lo, hi)
    ensures SameOutside(old(Snap(nodes)), Snap(nodes), s, lo, hi)
  {
    ghost var m := Snap(nodes);
    RotatedRightWalk(t.right, s, At(s, node), hi);
    var r := RotateTreeRight(node.right, t.right, node, nodes, s, At(s, node), hi);
    ghost var m1 := Snap(nodes);
    node.right := r;
    RightReplaced(m, m1, Snap(nodes), t, RotatedRight(t.right), p, s, lo, hi);
  }

  lemma SameOutsideTransitive(m: Mem, m1: Mem, m2: Mem, s: seq<ZNode>, lo: int, hi: int)
    requires SameOutside(m, m1, s, lo, hi) && SameOutside(m1, m2, s, lo, hi)
    ensures SameOutside(m, m2, s, lo, hi)
  {
  }

  /** The left subtree is taller by two. */
  method AvlFixLeft(node: ZNode, ghost t: Tree, ghost p: ZNode?, ghost nodes: set<ZNode>,
                    ghost s: seq<ZNode>, ghost lo: int, ghost hi: int)
    returns (top: ZNode)
    requires t.Node? && t.node == node && Height(t.left) == Height(t.right) + 2
    requires Loose(Snap(nodes), t, p) && Ranked(t, s, lo, hi) && hi <= |s|
    modifies nodes`parent, nodes`left, nodes`right, nodes`height, nodes`cnt
    ensures top == Root(FixedLeft(t)) && Holds(Snap(nodes), FixedLeft(t), p)
    ensures SameOutside(old(Snap(nodes)), Snap(nodes), s, lo, hi)
  {
    ghost var m, u := Snap(nodes), t;
    assert node.left == t.left.node && AvlHeight(node.left.left) == Height(t.left.left) &&
      AvlHeight(node.left.right) == Height(t.left.right) by { RightPivots(m, t, p, s, lo, hi); }
    if AvlHeight(node.left.left) < AvlHeight(node.left.right) {
      RotateLeftChild(node, t, p, nodes, s, lo, hi);
      u := Node(RotatedLeft(t.left), node, t.right);
    }
    ghost var m1 := Snap(nodes);
    assert SameOutside(m, m1, s, lo, hi);
    assert FixedLeft(t) == RotatedRight(u);
    top := RotateTreeRight(node, u, p, nodes, s, lo, hi);
    SameOutsideTransitive(m, m1, Snap(nodes), s, lo, hi);
  }

  /** The right subtree is taller by two. */
  method AvlFixRight(node: ZNode, ghost t: Tree, ghost p: ZNode?, ghost nodes: set<ZNode>,
                     ghost s: seq<ZNode>, ghost lo: int, ghost hi: int)
    returns (top: ZNode)
    requires t.Node? && t.node == node && Height(t.left) + 2 == Height(t.right)
    requires Loose(Snap(nodes), t, p) && Ranked(t, s, lo, hi) && hi <= |s|
    modifies nodes`parent, nodes`left, nodes`right, nodes`height, nodes`cnt
    ensures top == Root(FixedRight(t)) && Holds(Snap(nodes), FixedRight(t), p)
    ensures SameOutside(old(Snap(nodes)), Snap(nodes), s, lo, hi)
  {
    ghost var m, u := Snap(nodes), t;
    assert node.right == t.right.node && AvlHeight(node.right.left) == Height(t.right.left) &&
      AvlHeight(node.right.right) == Height(t.right.right) by { LeftPivots(m, t, p, s, lo, hi); }
    if AvlHeight(node.right.right) < AvlHeight(node.right.left) {
      RotateRightChild(node, t, p, nodes, s, lo, hi);
      u := Node(t.left, node, RotatedRight(t.right));
    }
    ghost var m1 := Snap(nodes);
    assert SameOutside(m, m1, s, lo, hi);
    assert FixedRight(t) == RotatedLeft(u);
    top := RotateTreeLeft(node, u, p, nodes, s, lo, hi);
    SameOutsideTransitive(m, m1, Snap(nodes), s, lo, hi);
  }
}
