/** `avl_del_easy` and `avl_del`: detaching a node, splicing the successor's object into its place. */
module AvlDeletion {
  import opened Sequences
  import opened Bytes
  import opened ZNodes
  import opened Trees
  import opened Rebalancing
  import opened Avl
  import opened AvlFixing

  /** The one subtree a node with at most one child has. */
  function OnlyChild(l: Tree, r: Tree): Tree {
    if l.Node? then l else r
  }

  /** Memory holding a balanced tree whose nodes are labelled by `s`. */
  ghost predicate Whole(m: Mem, t: Tree, s: seq<ZNode>) {
    Holds(m, t, null) && Balanced(t) && Ranked(t, s, -1, |s|)
  }

  /** The same, looked at from one of its subtrees. */
  ghost predicate Opened(m: Mem, c: Context, t: Tree, s: seq<ZNode>) {
    Holds(m, t, Owner(c)) && LooseContext(m, c, Root(t)) &&
    Ranked(t, s, Lo(c, s), Hi(c, s)) && RankedContext(c, s) &&
    Balanced(t) && FitsHole(c, Height(t))
  }

  lemma OpenedAt(m: Mem, c: Context, t: Tree, s: seq<ZNode>)
    requires Whole(m, Plug(c, t), s)
    ensures Opened(m, c, t, s)
  {
    HoldsPlug(m, c, t);
    RankedPlug(c, t, s);
    BalancedPlug(c, t);
  }

  /** The node's subtree `child` has been moved under the node's parent. */
  ghost predicate ChildUpdated(m: Mem, m1: Mem, c: Context, child: Tree) {
    m1.Keys == m.Keys &&
    (child.Node? ==> child.node in m && m1[child.node] == m[child.node].(parent := Owner(c))) &&
    forall n :: n in m && n != Root(child) ==> m1[n] == m[n]
  }

  lemma ChildMoved(m: Mem, m1: Mem, c: Context, l: Tree, node: ZNode, r: Tree, s: seq<ZNode>)
    requires l.Leaf? || r.Leaf?
    requires Opened(m, c, Node(l, node, r), s) && ChildUpdated(m, m1, c, OnlyChild(l, r))
    ensures var child := OnlyChild(l, r);
      Holds(m1, child, Owner(c)) && Ranked(child, s, Lo(c, s), Hi(c, s)) && SameOutside(m, m1, s, Lo(c, s), Hi(c, s))
  {
    var child := OnlyChild(l, r);
    if l.Node? {
      RankedWider(l, s, Lo(c, s), At(s, node), Lo(c, s), Hi(c, s));
    } else {
      RankedWider(r, s, At(s, node), Hi(c, s), Lo(c, s), Hi(c, s));
    }
    RootCell(m, child, node, s, Lo(c, s), Hi(c, s));
    HoldsMoved(m, m1, child, node, Owner(c), s, Lo(c, s), Hi(c, s));
  }

  /** Losing one level under a node that fitted: the parent is repairable. */
  lemma DetachedRepairable(c: Context, l: Tree, node: ZNode, r: Tree)
    requires !c.Top? && (l.Leaf? || r.Leaf?)
    requires Balanced(Node(l, node, r)) && FitsHole(c, Height(Node(l, node, r)))
    ensures Repairable(c.up, Up(c, OnlyChild(l, r)), 1 + Max(Height(Node(l, node, r)), Height(c.sibling)))
  {
    RebalancedIsBalanced(Up(c, OnlyChild(l, r)));
  }

  /** The child has taken the node's place under the parent: the parent is up for repair. */
  lemma DetachedUnderRepair(m: Mem, m1: Mem, m2: Mem, c: Context, l: Tree, node: ZNode, r: Tree, s: seq<ZNode>)
    requires !c.Top? && (l.Leaf? || r.Leaf?)
    requires Opened(m, c, Node(l, node, r), s) && ChildUpdated(m, m1, c, OnlyChild(l, r))
    requires c.node in m1 && m2.Keys == m1.Keys
    requires var child := Root(OnlyChild(l, r));
      m2[c.node] == if c.InLeft? then m1[c.node].(left := child) else m1[c.node].(right := child)
    requires forall n :: n in m1 && n != c.node ==> m2[n] == m1[n]
    ensures UnderRepair(m2, c.up, Up(c, OnlyChild(l, r)), 1 + Max(Height(Node(l, node, r)), Height(c.sibling)), s)
  {
    ChildMoved(m, m1, c, l, node, r, s);
    StoredInParent(m, m1, m2, c, node, OnlyChild(l, r), s);
    DetachedRepairable(c, l, node, r);
  }

  /** Where a node and its neighbours are. */
  lemma NodeCell(m: Mem, c: Context, l: Tree, node: ZNode, r: Tree, s: seq<ZNode>)
    requires Opened(m, c, Node(l, node, r), s)
    ensures node in m && m[node] == Cell(Owner(c), Root(l), Root(r), Height(Node(l, node, r)), Size(Node(l, node, r)))
    ensures !c.Top? ==> c.node in m && c.node != node && (m[c.node].left == node) == c.InLeft?
    ensures l.Node? ==> l.node in m && l.node != node && l.node != Owner(c)
    ensures r.Node? ==> r.node in m && r.node != node && r.node != Owner(c) && Root(l) != r.node
  {
    SideOf(m, c, Node(l, node, r), s);
    RootCell(m, l, node, s, Lo(c, s), At(s, node));
    RootCell(m, r, node, s, At(s, node), Hi(c, s));
    assert !c.Top? ==> At(s, c.node) == Lo(c, s) || At(s, c.node) == Hi(c, s);
  }

  lemma OnlyChildWalk(l: Tree, r: Tree)
    requires l.Leaf? || r.Leaf?
    ensures InOrder(OnlyChild(l, r)) == InOrder(l) + InOrder(r)
  {
    if l.Leaf? {
      assert InOrder(l) == [];
    } else {
      assert InOrder(r) == [];
    }
  }

  lemma DetachedWalk(c: Context, l: Tree, r: Tree)
    requires l.Leaf? || r.Leaf?
    ensures InOrder(Plug(c, OnlyChild(l, r))) == Before(c) + InOrder(l) + InOrder(r) + After(c)
    ensures !c.Top? ==> Plug(c.up, Up(c, OnlyChild(l, r))) == Plug(c, OnlyChild(l, r))
  {
    hide *;
    OnlyChildWalk(l, r);
    PlugInOrder(c, OnlyChild(l, r));
    RegroupFour(Before(c), InOrder(l), InOrder(r), After(c));
    if !c.Top? {
      PlugUp(c, OnlyChild(l, r));
    }
  }

  /** The pointer half of `avl_del_easy`: the only child takes the node's place. */
  method Unlink(node: ZNode, ghost c: Context, ghost l: Tree, ghost r: Tree, ghost nodes: set<ZNode>,
      ghost s: seq<ZNode>)
    returns (parent: ZNode?, child: ZNode?)
    requires l.Leaf? || r.Leaf?
    requires Opened(Snap(nodes), c, Node(l, node, r), s)
    modifies nodes`parent, nodes`left, nodes`right
    ensures parent == Owner(c) && child == Root(OnlyChild(l, r))
    ensures c.Top? ==> Whole(Snap(nodes), OnlyChild(l, r), s)
    ensures !c.Top? ==>
      UnderRepair(Snap(nodes), c.up, Up(c, OnlyChild(l, r)), 1 + Max(Height(Node(l, node, r)), Height(c.sibling)), s)
  {
    ghost var m := Snap(nodes);
    NodeCell(m, c, l, node, r, s);
    child := if node.left != null then node.left else node.right;
    parent := node.parent;
    var onLeft := parent != null && parent.left == node;
    if child != null {
      child.parent := parent;
    }
    ghost var m1 := Snap(nodes);
    assert ChildUpdated(m, m1, c, OnlyChild(l, r));
    if parent == null {
      ChildMoved(m, m1, c, l, node, r, s);
    } else {
      if onLeft {
        parent.left := child;
      } else {
        parent.right := child;
      }
      DetachedUnderRepair(m, m1, Snap(nodes), c, l, node, r, s);
    }
  }

  /** `avl_del_easy`: a node with an empty side makes room for its other child. */
  method AvlDelEasy(node: ZNode, ghost c: Context, ghost l: Tree, ghost r: Tree, ghost nodes: set<ZNode>,
      ghost s: seq<ZNode>)
    returns (root: ZNode?, ghost t': Tree)
    requires l.Leaf? || r.Leaf?
    requires Opened(Snap(nodes), c, Node(l, node, r), s)
    modifies nodes`parent, nodes`left, nodes`right, nodes`height, nodes`cnt
    ensures Whole(Snap(nodes), t', s) && root == Root(t')
    ensures InOrder(t') == Before(c) + InOrder(l) + InOrder(r) + After(c)
  {
    DetachedWalk(c, l, r);
    var parent, child := Unlink(node, c, l, r, nodes, s);
    if parent == null {
      return child, OnlyChild(l, r);
    }
    ghost var h := 1 + Max(Height(Node(l, node, r)), Height(c.sibling));
    root, t' := AvlFix(parent, c.up, Up(c, OnlyChild(l, r)), h, nodes, s);
  }

  // ---- putting the successor's object where the node was ----

  /** The nodes around a hole for `t`, every `height` and `cnt` exact. */
  ghost predicate HoldsContext(m: Mem, c: Context, t: Tree) {
    c.Top? ||
    (c.node in m && Holds(m, c.sibling, c.node) && HoldsContext(m, c.up, Up(c, t)) &&
     m[c.node] == Cell(Owner(c.up), Root(Up(c, t).left), Root(Up(c, t).right), Height(Up(c, t)), Size(Up(c, t))))
  }

  lemma {:induction false} HoldsPlugExactly(m: Mem, c: Context, t: Tree)
    ensures Holds(m, Plug(c, t), null) == (Holds(m, t, Owner(c)) && HoldsContext(m, c, t))
  {
    if !c.Top? {
      HoldsPlugExactly(m, c.up, Up(c, t));
    }
  }

  /** A change inside the hole that keeps root, height and size is invisible to the context. */
  lemma {:induction false} HoldsContextSame(m: Mem, m': Mem, c: Context, t: Tree, t': Tree, s: seq<ZNode>)
    requires HoldsContext(m, c, t) && RankedContext(c, s) && SameOutside(m, m', s, Lo(c, s), Hi(c, s))
    requires Root(t) == Root(t') && Height(t) == Height(t') && Size(t) == Size(t')
    ensures HoldsContext(m', c, t')
  {
    if !c.Top? {
      SiblingSame(m, m', c, s);
      HoldsContextSame(m, m', c.up, Up(c, t), Up(c, t'), s);
    }
  }

  /** `node`'s fields copied to `victim`, and the links of `l`, `r` and `p` to `node` redirected. */
  ghost predicate Spliced(m: Mem, m': Mem, node: ZNode, victim: ZNode, l: ZNode?, r: ZNode?, p: ZNode?, onLeft: bool) {
    m'.Keys == m.Keys && node in m && victim in m && m'[victim] == m[node] &&
    (l != null ==> l in m && m'[l] == m[l].(parent := victim)) &&
    (r != null ==> r in m && m'[r] == m[r].(parent := victim)) &&
    (p != null ==> p in m && m'[p] == if onLeft then m[p].(left := victim) else m[p].(right := victim)) &&
    forall n :: n in m && n != victim && n != l && n != r && n != p ==> m'[n] == m[n]
  }

  /** One of the node's subtrees, now under `victim`; the other one and the owner are elsewhere. */
  lemma SplicedChild(m: Mem, m': Mem, child: Tree, node: ZNode, victim: ZNode, other: ZNode?, p: ZNode?, s: seq<ZNode>,
      lo: int, hi: int)
    requires Holds(m, child, node) && Ranked(child, s, lo, hi) && hi <= |s| && At(s, victim) == |s|
    requires other != null ==> !(lo < At(s, other) < hi)
    requires p != null ==> !(lo < At(s, p) < hi)
    requires m'.Keys == m.Keys
    requires (child.Node? ==> child.node in m && m'[child.node] == m[child.node].(parent := victim))
    requires forall n :: n in m && n != victim && n != Root(child) && n != other && n != p ==> m'[n] == m[n]
    ensures Holds(m', child, victim)
  {
    hide Holds, Ranked, At;
    HoldsMoved(m, m', child, node, victim, s, lo, hi);
  }

  lemma SplicedSides(m: Mem, m': Mem, c: Context, l: Tree, node: ZNode, victim: ZNode, r: Tree, s: seq<ZNode>)
    requires Opened(m, c, Node(l, node, r), s) && At(s, victim) == |s|
    requires Spliced(m, m', node, victim, Root(l), Root(r), Owner(c), c.InLeft?)
    ensures Holds(m', Node(l, victim, r), Owner(c))
  {
    hide LooseContext, RankedContext, FitsHole, Balanced, At, Lo, Hi;
    var x := At(s, node);
    NodeCell(m, c, l, node, r, s);
    OwnerOutside(c, s);
    RootCell(m, l, node, s, Lo(c, s), x);
    RootCell(m, r, node, s, x, Hi(c, s));
    SplicedChild(m, m', l, node, victim, Root(r), Owner(c), s, Lo(c, s), x);
    SplicedChild(m, m', r, node, victim, Root(l), Owner(c), s, x, Hi(c, s));
  }

  lemma OwnerOutside(c: Context, s: seq<ZNode>)
    ensures !c.Top? ==> At(s, c.node) == Lo(c, s) || At(s, c.node) == Hi(c, s)
  {
  }

  lemma SplicedContext(m: Mem, m': Mem, c: Context, l: Tree, node: ZNode, victim: ZNode, r: Tree, s: seq<ZNode>)
    requires !c.Top?
    requires Opened(m, c, Node(l, node, r), s) && HoldsContext(m, c, Node(l, node, r)) && At(s, victim) == |s|
    requires Spliced(m, m', node, victim, Root(l), Root(r), Owner(c), c.InLeft?)
    ensures HoldsContext(m', c, Node(l, victim, r))
  {
    SplicedOutside(m, m', c, l, node, victim, r, s);
    SiblingSame(m, m', c, s);
    HoldsContextSame(m, m', c.up, Up(c, Node(l, node, r)), Up(c, Node(l, victim, r)), s);
  }

  /** Of the nodes around the hole, only the owner's link changes. */
  lemma SplicedOutside(m: Mem, m': Mem, c: Context, l: Tree, node: ZNode, victim: ZNode, r: Tree, s: seq<ZNode>)
    requires !c.Top?
    requires Opened(m, c, Node(l, node, r), s) && At(s, victim) == |s|
    requires Spliced(m, m', node, victim, Root(l), Root(r), Owner(c), c.InLeft?)
    ensures forall n :: n in m && (At(s, n) <= Lo(c, s) || Hi(c, s) <= At(s, n)) && At(s, n) < |s| && n != c.node ==>
      n in m' && m'[n] == m[n]
    ensures SameOutside(m, m', s, Lo(c.up, s), Hi(c.up, s))
  {
    RootCell(m, l, node, s, Lo(c, s), At(s, node));
    RootCell(m, r, node, s, At(s, node), Hi(c, s));
    forall n | n in m && (At(s, n) <= Lo(c, s) || Hi(c, s) <= At(s, n)) && At(s, n) < |s| && n != c.node
      ensures n in m' && m'[n] == m[n]
    {
      assert n != victim && n != Root(l) && n != Root(r);
    }
    assert Lo(c.up, s) <= Lo(c, s) && Hi(c, s) <= Hi(c.up, s) && Lo(c.up, s) < At(s, c.node) < Hi(c.up, s);
  }

  lemma SplicedHolds(m: Mem, m': Mem, c: Context, l: Tree, node: ZNode, victim: ZNode, r: Tree, s: seq<ZNode>)
    requires Opened(m, c, Node(l, node, r), s) && HoldsContext(m, c, Node(l, node, r)) && At(s, victim) == |s|
    requires Spliced(m, m', node, victim, Root(l), Root(r), Owner(c), c.InLeft?)
    ensures Holds(m', Plug(c, Node(l, victim, r)), null) && Balanced(Plug(c, Node(l, victim, r)))
  {
    var t, t' := Node(l, node, r), Node(l, victim, r);
    SplicedSides(m, m', c, l, node, victim, r, s);
    if !c.Top? {
      SplicedContext(m, m', c, l, node, victim, r, s);
    }
    HoldsPlugExactly(m', c, t');
    BalancedPlug(c, t');
  }

  /** The pointer half of the splice: `*victim = *node`, then its neighbours are pointed at `victim`. */
  method CopyOver(node: ZNode, victim: ZNode, top: ZNode?, ghost nodes: set<ZNode>) returns (root: ZNode?)
    requires node in nodes && victim in nodes && node != victim
    requires node.left != null ==>
      node.left in nodes && node.left != node && node.left != victim && node.left != node.right &&
      node.left != node.parent
    requires node.right != null ==>
      node.right in nodes && node.right != node && node.right != victim && node.right != node.parent
    requires node.parent != null ==> node.parent in nodes && node.parent != node && node.parent != victim
    modifies nodes`parent, nodes`left, nodes`right, nodes`height, nodes`cnt
    ensures root == if node.parent == null then victim else top
    ensures Spliced(old(Snap(nodes)), Snap(nodes), node, victim, node.left, node.right, node.parent,
                    old(node.parent != null && node.parent.left == node))
  {
    victim.parent, victim.left, victim.right := node.parent, node.left, node.right;
    victim.height, victim.cnt := node.height, node.cnt;
    if victim.left != null {
      victim.left.parent := victim;
    }
    if victim.right != null {
      victim.right.parent := victim;
    }
    var parent := node.parent;
    if parent == null {
      root := victim;
    } else {
      root := top;
      if parent.left == node {
        parent.left := victim;
      } else {
        parent.right := victim;
      }
    }
  }

  /** The successor's object in the node's place, in memory labelled without the successor. */
  method Splice(node: ZNode, victim: ZNode, top: ZNode?, ghost c: Context, ghost l: Tree, ghost r: Tree,
                ghost nodes: set<ZNode>, ghost s: seq<ZNode>)
    returns (root: ZNode?)
    requires Opened(Snap(nodes), c, Node(l, node, r), s) && HoldsContext(Snap(nodes), c, Node(l, node, r))
    requires victim in nodes && At(s, victim) == |s| && top == Root(Plug(c, Node(l, node, r)))
    modifies nodes`parent, nodes`left, nodes`right, nodes`height, nodes`cnt
    ensures Holds(Snap(nodes), Plug(c, Node(l, victim, r)), null) && Balanced(Plug(c, Node(l, victim, r)))
    ensures root == Root(Plug(c, Node(l, victim, r)))
  {
    hide HoldsContext, Holds, Balanced, Plug, Spliced, LooseContext, Lo, Hi, Height, Size, FitsHole, InOrder;
    ghost var m := Snap(nodes);
    NodeCell(m, c, l, node, r, s);
    InsideLabels(c, l, node, r, s);
    RootOfPlug(c, Node(l, node, r), Node(l, victim, r));
    root := CopyOver(node, victim, top, nodes);
    SplicedHolds(m, Snap(nodes), c, l, node, victim, r, s);
  }

  lemma {:induction false} RootOfPlug(c: Context, t: Tree, t': Tree)
    ensures if c.Top? then Plug(c, t) == t && Plug(c, t') == t' else Root(Plug(c, t)) == Root(Plug(c, t'))
  {
    if !c.Top? && !c.up.Top? {
      RootOfPlug(c.up, Up(c, t), Up(c, t'));
    }
  }

  lemma InsideLabels(c: Context, l: Tree, node: ZNode, r: Tree, s: seq<ZNode>)
    requires Ranked(Node(l, node, r), s, Lo(c, s), Hi(c, s)) && RankedContext(c, s)
    ensures At(s, node) < |s|
    ensures l.Node? ==> At(s, l.node) < |s|
    ensures r.Node? ==> At(s, r.node) < |s|
    ensures !c.Top? ==> At(s, c.node) < |s|
  {
  }

  /** A node of a tree has a place in it. */
  lemma {:induction false} LocateFrom(c0: Context, t: Tree, node: ZNode) returns (c: Context, l: Tree, r: Tree)
    requires node in InOrder(t)
    ensures Plug(c, Node(l, node, r)) == Plug(c0, t)
    decreases t
  {
    if t.node == node {
      return c0, t.left, t.right;
    } else if node in InOrder(t.left) {
      c, l, r := LocateFrom(InLeft(t.node, t.right, c0), t.left, node);
    } else {
      c, l, r := LocateFrom(InRight(t.left, t.node, c0), t.right, node);
    }
  }

  lemma AtAbsent(s: seq<ZNode>, n: ZNode)
    requires n !in s
    ensures At(s, n) == |s|
  {
  }

  lemma WholeOf(m: Mem, t: Tree)
    requires Holds(m, t, null) && Balanced(t) && Distinct(InOrder(t))
    ensures Whole(m, t, InOrder(t))
  {
    RankedInOrder(t, InOrder(t), 0);
  }

  /** Without repetitions, a walk splits around a node in one way only. */
  lemma SplitUnique(a: seq<ZNode>, x: ZNode, b: seq<ZNode>, c: seq<ZNode>, d: seq<ZNode>)
    requires a + [x] + b == c + [x] + d && Distinct(a + [x] + b)
    ensures a == c && b == d
  {
    var s := a + [x] + b;
    assert s[|a|] == x && s[|c|] == x;
    assert |a| == |c|;
    assert a == s[..|a|] && c == s[..|c|] && b == s[|a| + 1..] && d == s[|c| + 1..];
  }

  lemma RemovedSplit(s: seq<ZNode>, a: seq<ZNode>, x: ZNode, b: seq<ZNode>)
    requires s == a + [x] + b && Distinct(s)
    ensures At(s, x) == |a| && Removed(s, |a|) == a + b
  {
    AtIndex(s, |a|);
  }

  /** Leaving out the second of two neighbours. */
  lemma DistinctWithout(a: seq<ZNode>, x: ZNode, y: ZNode, b: seq<ZNode>)
    requires Distinct(a + [x] + [y] + b)
    ensures Distinct(a + [x] + b) && y !in a + [x] + b
  {
    var s, s1 := a + [x] + [y] + b, a + [x] + b;
    forall i | 0 <= i < |s1|
      ensures s1[i] == s[if i <= |a| then i else i + 1]
    {
    }
    assert s[|a| + 1] == y;
  }

  lemma NodeWalk(l: Tree, node: ZNode, r: Tree)
    ensures InOrder(Node(l, node, r)) == InOrder(l) + [node] + InOrder(r)
  {
  }

  lemma PlugNodeWalk(c: Context, l: Tree, node: ZNode, r: Tree)
    ensures InOrder(Plug(c, Node(l, node, r))) == (Before(c) + InOrder(l)) + [node] + (InOrder(r) + After(c))
  {
    hide *;
    PlugInOrder(c, Node(l, node, r));
    NodeWalk(l, node, r);
    RegroupAround(Before(c), InOrder(l), node, InOrder(r), After(c));
  }

  /** The successor: leftmost in the right subtree. */
  method FindVictim(node: ZNode, ghost t: Tree, ghost c: Context, ghost l: Tree, ghost r: Tree, ghost nodes: set<ZNode>,
      ghost s: seq<ZNode>)
    returns (victim: ZNode, ghost cv: Context, ghost rv: Tree)
    requires Whole(Snap(nodes), t, s) && t == Plug(c, Node(l, node, r)) && r.Node?
    ensures Plug(cv, Node(Leaf, victim, rv)) == t
    ensures Before(cv) == Before(c) + InOrder(l) + [node]
  {
    ghost var m := Snap(nodes);
    OpenedAt(m, c, Node(l, node, r), s);
    NodeCell(m, c, l, node, r, s);
    victim := node.right;
    cv := InRight(l, node, c);
    ghost var tv := r;
    OpenedAt(m, cv, tv, s);
    while victim.left != null
      invariant tv.Node? && tv.node == victim && Plug(cv, tv) == t && Opened(m, cv, tv, s)
      invariant Before(cv) == Before(c) + InOrder(l) + [node]
      decreases tv
    {
      NodeCell(m, cv, tv.left, victim, tv.right, s);
      victim := victim.left;
      cv := InLeft(tv.node, tv.right, cv);
      tv := tv.left;
      OpenedAt(m, cv, tv, s);
    }
    NodeCell(m, cv, tv.left, victim, tv.right, s);
    rv := tv.right;
  }

  /** `victim`, already detached, takes over the place of `node` in the tree `t1`. */
  method TakeOver(node: ZNode, victim: ZNode, top: ZNode?, ghost t1: Tree, ghost nodes: set<ZNode>, ghost a: seq<ZNode>,
      ghost b: seq<ZNode>)
    returns (root: ZNode?, ghost t': Tree)
    requires Holds(Snap(nodes), t1, null) && Balanced(t1) && top == Root(t1)
    requires InOrder(t1) == a + [node] + b && Distinct(InOrder(t1))
    requires victim in nodes && victim !in InOrder(t1)
    modifies nodes`parent, nodes`left, nodes`right, nodes`height, nodes`cnt
    ensures Holds(Snap(nodes), t', null) && Balanced(t') && root == Root(t')
    ensures InOrder(t') == a + [victim] + b
  {
    ghost var s := InOrder(t1);
    ghost var c: Context, l: Tree, r: Tree := Top, Leaf, Leaf;
    assert s[|a|] == node;
    c, l, r := LocateFrom(Top, t1, node);
    WholeOf(Snap(nodes), t1);
    OpenedAt(Snap(nodes), c, Node(l, node, r), s);
    HoldsPlugExactly(Snap(nodes), c, Node(l, node, r));
    AtAbsent(s, victim);
    root := Splice(node, victim, top, c, l, r, nodes, s);
    t' := Plug(c, Node(l, victim, r));
    PlugNodeWalk(c, l, node, r);
    PlugNodeWalk(c, l, victim, r);
    SplitUnique(a, node, b, Before(c) + InOrder(l), InOrder(r) + After(c));
  }

  /** Detach the successor, then put its object where the node is. */
  method SwapWithSuccessor(node: ZNode, victim: ZNode, ghost cv: Context, ghost rv: Tree, ghost nodes: set<ZNode>,
                           ghost s: seq<ZNode>, ghost a: seq<ZNode>, ghost b: seq<ZNode>)
    returns (root: ZNode?, ghost t': Tree)
    requires Opened(Snap(nodes), cv, Node(Leaf, victim, rv), s)
    requires Before(cv) + [] + InOrder(rv) + After(cv) == a + [node] + b
    requires Distinct(a + [node] + b) && victim !in a + [node] + b
    modifies nodes`parent, nodes`left, nodes`right, nodes`height, nodes`cnt
    ensures Holds(Snap(nodes), t', null) && Balanced(t') && root == Root(t')
    ensures InOrder(t') == a + [victim] + b
  {
    NodeCell(Snap(nodes), cv, Leaf, victim, rv, s);
    ghost var t1;
    root, t1 := AvlDelEasy(victim, cv, Leaf, rv, nodes, s);
    root, t' := TakeOver(node, victim, root, t1, nodes, a, b);
  }

  /** The case of two children. */
  method AvlDelInner(node: ZNode, ghost t: Tree, ghost c: Context, ghost l: Tree, ghost r: Tree,
      ghost nodes: set<ZNode>, ghost s: seq<ZNode>)
    returns (root: ZNode?, ghost t': Tree)
    requires Whole(Snap(nodes), t, s) && t == Plug(c, Node(l, node, r)) && r.Node?
    requires s == InOrder(t) && Distinct(s)
    modifies nodes`parent, nodes`left, nodes`right, nodes`height, nodes`cnt
    ensures Holds(Snap(nodes), t', null) && Balanced(t') && root == Root(t')
    ensures InOrder(t') == (Before(c) + InOrder(l)) + (InOrder(r) + After(c))
  {
    var victim;
    ghost var cv, rv;
    victim, cv, rv := FindVictim(node, t, c, l, r, nodes, s);
    PlugNodeWalk(c, l, node, r);
    PlugNodeWalk(cv, Leaf, victim, rv);
    SuccessorWalk(s, Before(c) + InOrder(l), node, InOrder(r) + After(c), Before(cv), victim, InOrder(rv), After(cv));
    OpenedAt(Snap(nodes), cv, Node(Leaf, victim, rv), s);
    root, t' := SwapWithSuccessor(node, victim, cv, rv, nodes, s, Before(c) + InOrder(l), InOrder(rv) + After(cv));
  }

  /** `avl_del`: the tree without `node`, every other node object in its old order. */
  method AvlDel(node: ZNode, ghost t: Tree, ghost nodes: set<ZNode>) returns (root: ZNode?, ghost t': Tree)
    requires Holds(Snap(nodes), t, null) && Balanced(t)
    requires Distinct(InOrder(t)) && node in InOrder(t)
    modifies nodes`parent, nodes`left, nodes`right, nodes`height, nodes`cnt
    ensures Holds(Snap(nodes), t', null) && Balanced(t') && root == Root(t')
    ensures At(InOrder(t), node) < Size(t) && InOrder(t') == Removed(InOrder(t), At(InOrder(t), node))
  {
    ghost var s := InOrder(t);
    ghost var c: Context, l: Tree, r: Tree := Top, Leaf, Leaf;
    c, l, r := LocateFrom(Top, t, node);
    WholeOf(Snap(nodes), t);
    OpenedAt(Snap(nodes), c, Node(l, node, r), s);
    NodeCell(Snap(nodes), c, l, node, r, s);
    NodeRemoved(c, l, node, r, s);
    if node.left == null || node.right == null {
      root, t' := AvlDelEasy(node, c, l, r, nodes, s);
    } else {
      root, t' := AvlDelInner(node, t, c, l, r, nodes, s);
    }
  }

  lemma NodeRemoved(c: Context, l: Tree, node: ZNode, r: Tree, s: seq<ZNode>)
    requires s == InOrder(Plug(c, Node(l, node, r))) && Distinct(s)
    ensures At(s, node) < |s|
    ensures Removed(s, At(s, node)) == (Before(c) + InOrder(l)) + (InOrder(r) + After(c))
    ensures Removed(s, At(s, node)) == Before(c) + InOrder(l) + InOrder(r) + After(c)
  {
    PlugNodeWalk(c, l, node, r);
    RemovedSplit(s, Before(c) + InOrder(l), node, InOrder(r) + After(c));
    Joined(Before(c) + InOrder(l), InOrder(r), After(c));
  }

  /** A walk `a, x, d` that is also `p, y, u, v` with `p` ending in `x`: `y` comes right after `x`. */
  lemma SuccessorWalk(s: seq<ZNode>, a: seq<ZNode>, x: ZNode, d: seq<ZNode>, p: seq<ZNode>, y: ZNode, u: seq<ZNode>,
      v: seq<ZNode>)
    requires s == a + [x] + d && p == a + [x] && s == (p + []) + [y] + (u + v) && Distinct(s)
    ensures p + [] + u + v == a + [x] + (u + v) && Distinct(a + [x] + (u + v)) && y !in a + [x] + (u + v)
    ensures a + [y] + (u + v) == a + d
  {
    assert p + [] == a + [x];
    assert d == s[|a| + 1..] == [y] + (u + v);
    DistinctWithout(a, x, y, u + v);
  }
}
