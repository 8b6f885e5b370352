/** `avl_fix`: walking up from a changed node, rebalancing and re-linking until the root. */
module AvlFixing {
  import opened Bytes
  import opened ZNodes
  import opened Trees
  import opened Rebalancing
  import opened Avl

  /** A hole that a balanced tree of height `h` fits into. */
  predicate FitsHole(c: Context, h: nat) {
    c.Top? ||
    (h <= Height(c.sibling) + 1 && Height(c.sibling) <= h + 1 && Balanced(c.sibling) &&
     FitsHole(c.up, 1 + Max(h, Height(c.sibling))))
  }

  /** One level up: the subtree, its parent and its sibling. */
  function Up(c: Context, t: Tree): Tree
    requires !c.Top?
  {
    if c.InLeft? then Node(t, c.node, c.sibling) else Node(c.sibling, c.node, t)
  }

  lemma PlugUp(c: Context, t: Tree)
    requires !c.Top?
    ensures Plug(c.up, Up(c, t)) == Plug(c, t)
  {
    if c.InLeft? {
      assert Up(c, t) == Node(t, c.node, c.sibling);
    } else {
      assert Up(c, t) == Node(c.sibling, c.node, t);
    }
  }

  lemma BalancedTop(t: Tree)
    ensures Balanced(Plug(Top, t)) == (Balanced(t) && FitsHole(Top, Height(t)))
  {
  }

  lemma BalancedUp(c: Context, t: Tree)
    requires !c.Top?
    ensures (Balanced(Up(c, t)) && FitsHole(c.up, Height(Up(c, t)))) == (Balanced(t) && FitsHole(c, Height(t)))
  {
    assert Height(Up(c, t)) == 1 + Max(Height(t), Height(c.sibling));
  }

  lemma {:induction false} BalancedPlug(c: Context, t: Tree)
    ensures Balanced(Plug(c, t)) == (Balanced(t) && FitsHole(c, Height(t)))
  {
    hide *;
    if c.Top? {
      BalancedTop(t);
    } else {
      PlugUp(c, t);
      BalancedUp(c, t);
      BalancedPlug(c.up, Up(c, t));
    }
  }

  /** The fixed subtree has been stored in the parent that `c` names. */
  lemma StoredInParent(m: Mem, m1: Mem, m2: Mem, c: Context, child: ZNode?, t: Tree, s: seq<ZNode>)
    requires !c.Top? && LooseContext(m, c, child) && RankedContext(c, s)
    requires SameOutside(m, m1, s, Lo(c, s), Hi(c, s))
    requires Holds(m1, t, c.node) && Ranked(t, s, Lo(c, s), Hi(c, s))
    requires c.node in m1 && m2.Keys == m1.Keys
    requires m2[c.node] == if c.InLeft? then m1[c.node].(left := Root(t)) else m1[c.node].(right := Root(t))
    requires forall n :: n in m1 && n != c.node ==> m2[n] == m1[n]
    ensures Loose(m2, Up(c, t), Owner(c.up)) && LooseContext(m2, c.up, c.node)
    ensures Ranked(Up(c, t), s, Lo(c.up, s), Hi(c.up, s)) && RankedContext(c.up, s)
  {
    HoldsSame(m1, m2, t, c.node, s, Lo(c, s), Hi(c, s));
    SiblingSame(m, m2, c, s);
    UpSame(m, m2, c, child, s);
  }

  lemma SiblingSame(m: Mem, m2: Mem, c: Context, s: seq<ZNode>)
    requires !c.Top? && Holds(m, c.sibling, c.node) && RankedContext(c, s)
    requires forall n :: n in m && (At(s, n) <= Lo(c, s) || Hi(c, s) <= At(s, n)) && At(s, n) < |s| && n != c.node ==>
      n in m2 && m2[n] == m[n]
    ensures Holds(m2, c.sibling, c.node)
  {
    if c.InLeft? {
      HoldsSame(m, m2, c.sibling, c.node, s, At(s, c.node), Hi(c.up, s));
    } else {
      HoldsSame(m, m2, c.sibling, c.node, s, Lo(c.up, s), At(s, c.node));
    }
  }

  lemma UpSame(m: Mem, m2: Mem, c: Context, child: ZNode?, s: seq<ZNode>)
    requires !c.Top? && LooseContext(m, c, child) && RankedContext(c, s)
    requires forall n :: n in m && (At(s, n) <= Lo(c, s) || Hi(c, s) <= At(s, n)) && At(s, n) < |s| && n != c.node ==>
      n in m2 && m2[n] == m[n]
    ensures LooseContext(m2, c.up, c.node)
  {
    ContextSame(m, m2, c.up, c.node, s);
  }

  /** One turn of the loop: refresh the data of `node`, and rotate if its sides differ by two. */
  method AvlFixNode(node: ZNode, ghost t: Tree, ghost p: ZNode?, ghost nodes: set<ZNode>,
                    ghost s: seq<ZNode>, ghost lo: int, ghost hi: int)
    returns (top: ZNode)
    requires t.Node? && t.node == node && Loose(Snap(nodes), t, p) && Ranked(t, s, lo, hi) && hi <= |s|
    modifies nodes`parent, nodes`left, nodes`right, nodes`height, nodes`cnt
    ensures top == Root(Rebalanced(t)) && Holds(Snap(nodes), Rebalanced(t), p)
    ensures SameOutside(old(Snap(nodes)), Snap(nodes), s, lo, hi)
  {
    ghost var m := Snap(nodes);
    RootCell(m, t.left, node, s, lo, At(s, node));
    RootCell(m, t.right, node, s, At(s, node), hi);
    AvlUpdate(node);
    ghost var m1 := Snap(nodes);
    RootUpdated(m, m1, t, p, s, lo, hi);
    var l := AvlHeight(node.left);
    var r := AvlHeight(node.right);
    top := node;
    if l == r + 2 {
      top := AvlFixLeft(node, t, p, nodes, s, lo, hi);
      SameOutsideTransitive(m, m1, Snap(nodes), s, lo, hi);
    } else if l + 2 == r {
      top := AvlFixRight(node, t, p, nodes, s, lo, hi);
      SameOutsideTransitive(m, m1, Snap(nodes), s, lo, hi);
    }
  }

  lemma RootUpdated(m: Mem, m1: Mem, t: Tree, p: ZNode?, s: seq<ZNode>, lo: int, hi: int)
    requires t.Node? && Loose(m, t, p) && Ranked(t, s, lo, hi)
    requires t.node in m1 && m1[t.node] == m[t.node].(height := Height(t), cnt := Size(t))
    requires forall n :: n in m && n != t.node ==> n in m1 && m1[n] == m[n]
    ensures Holds(m1, t, p) && Loose(m1, t, p) && SameOutside(m, m1, s, lo, hi)
  {
    HoldsSame(m, m1, t.left, t.node, s, lo, At(s, t.node));
    HoldsSame(m, m1, t.right, t.node, s, At(s, t.node), hi);
  }

  /** Sides differing by at most two around a node whose place once fitted height `h`. */
  predicate Repairable(c: Context, t: Tree, h: nat) {
    t.Node? && Balanced(t.left) && Balanced(t.right) &&
    Height(t.left) <= Height(t.right) + 2 && Height(t.right) <= Height(t.left) + 2 &&
    FitsHole(c, h) && h <= Height(Rebalanced(t)) + 1 && Height(Rebalanced(t)) <= h + 1
  }

  /** The imbalance never grows on the way up. */
  lemma RepairableUp(c: Context, t: Tree, h: nat)
    requires !c.Top? && Repairable(c, t, h)
    ensures Repairable(c.up, Up(c, Rebalanced(t)), 1 + Max(h, Height(c.sibling)))
  {
    RebalancedIsBalanced(t);
    var u := Up(c, Rebalanced(t));
    RebalancedIsBalanced(u);
  }

  /** Memory with `t` around a node under repair, in the hole of `c`, labelled by `s`. */
  ghost predicate UnderRepair(m: Mem, c: Context, t: Tree, h: nat, s: seq<ZNode>) {
    Repairable(c, t, h) && Loose(m, t, Owner(c)) && LooseContext(m, c, t.node) &&
    Ranked(t, s, Lo(c, s), Hi(c, s)) && RankedContext(c, s)
  }

  /** One level repaired and stored in the parent. */
  lemma RepairedUp(m: Mem, m1: Mem, m2: Mem, c: Context, t: Tree, h: nat, s: seq<ZNode>)
    requires UnderRepair(m, c, t, h, s) && !c.Top?
    requires Holds(m1, Rebalanced(t), Owner(c)) && SameOutside(m, m1, s, Lo(c, s), Hi(c, s))
    requires c.node in m1 && m2.Keys == m1.Keys
    requires var top := Root(Rebalanced(t));
      m2[c.node] == if c.InLeft? then m1[c.node].(left := top) else m1[c.node].(right := top)
    requires forall n :: n in m1 && n != c.node ==> m2[n] == m1[n]
    ensures UnderRepair(m2, c.up, Up(c, Rebalanced(t)), 1 + Max(h, Height(c.sibling)), s)
    ensures InOrder(Plug(c.up, Up(c, Rebalanced(t)))) == InOrder(Plug(c, t))
  {
    RebalancedKeepsWalk(t, s, Lo(c, s), Hi(c, s));
    PlugInOrder(c, t);
    PlugInOrder(c, Rebalanced(t));
    StoredInParent(m, m1, m2, c, t.node, Rebalanced(t), s);
    RepairableUp(c, t, h);
  }

  /** One turn of the loop with the store through `from`: the node's parent, and the fixed subtree. */
  method AvlFixStep(node: ZNode, ghost c: Context, ghost t: Tree, ghost h: nat, ghost nodes: set<ZNode>,
      ghost s: seq<ZNode>)
    returns (parent: ZNode?, top: ZNode)
    requires UnderRepair(Snap(nodes), c, t, h, s) && t.node == node
    modifies nodes`parent, nodes`left, nodes`right, nodes`height, nodes`cnt
    ensures parent == Owner(c) && top == Root(Rebalanced(t))
    ensures c.Top? ==> Holds(Snap(nodes), Rebalanced(t), null)
    ensures !c.Top? ==> UnderRepair(Snap(nodes), c.up, Up(c, Rebalanced(t)), 1 + Max(h, Height(c.sibling)), s)
    ensures !c.Top? ==> InOrder(Plug(c.up, Up(c, Rebalanced(t)))) == InOrder(Plug(c, t))
  {
    ghost var m := Snap(nodes);
    SideOf(m, c, t, s);
    parent := node.parent;
    var onLeft := parent != null && parent.left == node;
    top := AvlFixNode(node, t, Owner(c), nodes, s, Lo(c, s), Hi(c, s));
    if parent != null {
      ghost var m1 := Snap(nodes);
      assert c.node in m1;
      if onLeft {
        parent.left := top;
      } else {
        parent.right := top;
      }
      RepairedUp(m, m1, Snap(nodes), c, t, h, s);
    }
  }

  /** `avl_fix`. The tree around `start` may have out-of-date data on the path to the root and be off
      by one level at `start`; the result is a balanced tree with the same walk and exact data. */
  method AvlFix(start: ZNode, ghost c0: Context, ghost t0: Tree, ghost h0: nat, ghost nodes: set<ZNode>,
      ghost s: seq<ZNode>)
    returns (root: ZNode, ghost t': Tree)
    requires UnderRepair(Snap(nodes), c0, t0, h0, s) && t0.node == start
    modifies nodes`parent, nodes`left, nodes`right, nodes`height, nodes`cnt
    ensures Holds(Snap(nodes), t', null) && root == Root(t')
    ensures Balanced(t') && Ranked(t', s, -1, |s|)
    ensures InOrder(t') == InOrder(Plug(c0, t0))
  {
    var node := start;
    ghost var c: Context, t: Tree, h: nat := c0, t0, h0;
    while true
      invariant UnderRepair(Snap(nodes), c, t, h, s) && t.node == node
      invariant InOrder(Plug(c, t)) == InOrder(Plug(c0, t0))
      decreases c
    {
      RebalancedKeepsWalk(t, s, Lo(c, s), Hi(c, s));
      RebalancedIsBalanced(t);
      var parent, top := AvlFixStep(node, c, t, h, nodes, s);
      if parent == null {
        return top, Rebalanced(t);
      }
      t, h := Up(c, Rebalanced(t)), 1 + Max(h, Height(c.sibling));
      c := c.up;
      node := parent;
    }
  }

  /** `parent->left == node` tells on which side a node hangs. */
  lemma SideOf(m: Mem, c: Context, t: Tree, s: seq<ZNode>)
    requires t.Node? && LooseContext(m, c, t.node) && RankedContext(c, s)
    requires Ranked(t, s, Lo(c, s), Hi(c, s))
    ensures !c.Top? ==>
      c.node in m && (m[c.node].left == t.node) == c.InLeft? && (m[c.node].right == t.node) == c.InRight?
  {
  }
}
