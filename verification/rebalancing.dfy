/** The AVL fix-up as a transformation of trees: same walk, balanced, height off by at most one. */
module Rebalancing {
  import opened Sequences
  import opened ZNodes
  import opened Trees

  function RotatedLeft(t: Tree): Tree
    requires t.Node? && t.right.Node?
  {
    Node(Node(t.left, t.node, t.right.left), t.right.node, t.right.right)
  }

  function RotatedRight(t: Tree): Tree
    requires t.Node? && t.left.Node?
  {
    Node(t.left.left, t.left.node, Node(t.left.right, t.node, t.right))
  }

  function FixedLeft(t: Tree): Tree
    requires t.Node? && t.left.Node?
  {
    if Height(t.left.left) < Height(t.left.right) then
      RotatedRight(Node(RotatedLeft(t.left), t.node, t.right))
    else RotatedRight(t)
  }

  function FixedRight(t: Tree): Tree
    requires t.Node? && t.right.Node?
  {
    if Height(t.right.right) < Height(t.right.left) then
      RotatedLeft(Node(t.left, t.node, RotatedRight(t.right)))
    else RotatedLeft(t)
  }

  function Rebalanced(t: Tree): Tree
    requires t.Node?
  {
    if Height(t.left) == Height(t.right) + 2 then FixedLeft(t)
    else if Height(t.left) + 2 == Height(t.right) then FixedRight(t)
    else t
  }

  lemma RotatedLeftWalk(t: Tree, s: seq<ZNode>, lo: int, hi: int)
    requires t.Node? && t.right.Node?
    ensures InOrder(RotatedLeft(t)) == InOrder(t)
    ensures Ranked(t, s, lo, hi) ==> Ranked(RotatedLeft(t), s, lo, hi)
  {
    Regroup([], InOrder(t.left) + [t.node] + InOrder(t.right.left), t.right.node, InOrder(t.right.right), []);
    assert Ranked(t, s, lo, hi) ==> Ranked(t.right, s, At(s, t.node), hi);
  }

  lemma RotatedRightWalk(t: Tree, s: seq<ZNode>, lo: int, hi: int)
    requires t.Node? && t.left.Node?
    ensures InOrder(RotatedRight(t)) == InOrder(t)
    ensures Ranked(t, s, lo, hi) ==> Ranked(RotatedRight(t), s, lo, hi)
  {
    Regroup([], InOrder(t.left.left), t.left.node, InOrder(t.left.right) + [t.node] + InOrder(t.right), []);
    assert Ranked(t, s, lo, hi) ==> Ranked(t.left, s, lo, At(s, t.node));
  }

  lemma RebalancedKeepsWalk(t: Tree, s: seq<ZNode>, lo: int, hi: int)
    requires t.Node?
    ensures InOrder(Rebalanced(t)) == InOrder(t)
    ensures Ranked(t, s, lo, hi) ==> Ranked(Rebalanced(t), s, lo, hi)
  {
    if Height(t.left) == Height(t.right) + 2 {
      if Height(t.left.left) < Height(t.left.right) {
        RotatedLeftWalk(t.left, s, lo, At(s, t.node));
        RotatedRightWalk(Node(RotatedLeft(t.left), t.node, t.right), s, lo, hi);
      } else {
        RotatedRightWalk(t, s, lo, hi);
      }
    } else if Height(t.left) + 2 == Height(t.right) {
      if Height(t.right.right) < Height(t.right.left) {
        RotatedRightWalk(t.right, s, At(s, t.node), hi);
        RotatedLeftWalk(Node(t.left, t.node, RotatedRight(t.right)), s, lo, hi);
      } else {
        RotatedLeftWalk(t, s, lo, hi);
      }
    }
  }

  lemma FixedLeftIsBalanced(t: Tree)
    requires t.Node? && Balanced(t.left) && Balanced(t.right) && Height(t.left) == Height(t.right) + 2
    ensures Balanced(FixedLeft(t)) && Height(t) - 1 <= Height(FixedLeft(t)) <= Height(t)
  {
    var l := t.left;
    if Height(l.left) < Height(l.right) {
      assert l.right.Node? && Height(l.right) == Height(t.right) + 1;
      var r := FixedLeft(t);
      assert r == Node(Node(l.left, l.node, l.right.left), l.right.node, Node(l.right.right, t.node, t.right));
      assert Balanced(r.left) && Balanced(r.right);
    }
  }

  lemma FixedRightIsBalanced(t: Tree)
    requires t.Node? && Balanced(t.left) && Balanced(t.right) && Height(t.left) + 2 == Height(t.right)
    ensures Balanced(FixedRight(t)) && Height(t) - 1 <= Height(FixedRight(t)) <= Height(t)
  {
    var r := t.right;
    if Height(r.right) < Height(r.left) {
      assert r.left.Node? && Height(r.left) == Height(t.left) + 1;
      var f := FixedRight(t);
      assert f == Node(Node(t.left, t.node, r.left.left), r.left.node, Node(r.left.right, r.node, r.right));
      assert Balanced(f.left) && Balanced(f.right);
    }
  }

  /** Two balanced subtrees whose heights differ by at most two become one balanced tree; it loses
      at most one level, and only when a rotation was needed. */
  lemma RebalancedIsBalanced(t: Tree)
    requires t.Node? && Balanced(t.left) && Balanced(t.right)
    requires Height(t.left) <= Height(t.right) + 2 && Height(t.right) <= Height(t.left) + 2
    ensures Balanced(Rebalanced(t))
    ensures Height(t) - 1 <= Height(Rebalanced(t)) <= Height(t)
    ensures Balanced(t) ==> Rebalanced(t) == t
  {
    if Height(t.left) == Height(t.right) + 2 {
      FixedLeftIsBalanced(t);
    } else if Height(t.left) + 2 == Height(t.right) {
      FixedRightIsBalanced(t);
    }
  }
}
