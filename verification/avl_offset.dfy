/** `avl_offset`: walking by rank, and how far an AVL tree can be from balanced. */
module AvlRanks {
  import opened Sequences
  import opened Bytes
  import opened ZNodes
  import opened Trees
  import opened Avl
  import opened AvlFixing
  import opened AvlDeletion

  function Depth(c: Context): nat {
    if c.Top? then 0 else 1 + Depth(c.up)
  }

  lemma {:induction false} DepthPlug(c: Context, t: Tree)
    ensures Depth(c) + Height(t) <= Height(Plug(c, t))
  {
    if !c.Top? {
      DepthPlug(c.up, Up(c, t));
    }
  }

  /** A step of the walk: to the parent, or to a child. */
  datatype Step = Climb | Descend

  /** A route that climbs first and never again once it descends. */
  function Route(climbs: nat, drops: nat): seq<Step> {
    seq(climbs, _ => Climb) + seq(drops, _ => Descend)
  }

  lemma RouteGrows(climbs: nat, drops: nat)
    ensures Route(climbs, drops) + [Descend] == Route(climbs, drops + 1)
    ensures drops == 0 ==> Route(climbs, drops) + [Climb] == Route(climbs + 1, drops)
    ensures Route(0, 0) == []
  {
  }

  /** Where the walk is: at the root of `u` in the hole of `c`, `k` places into the whole walk. */
  ghost predicate Standing(m: Mem, t: Tree, c: Context, u: Tree, k: nat) {
    u.Node? && Plug(c, u) == t && k == |Before(c)| + Size(u.left) &&
    u.node in m && m[u.node].left == Root(u.left) && m[u.node].right == Root(u.right) && m[u.node].parent == Owner(c) &&
    (u.left.Node? ==> u.left.node in m && m[u.left.node].cnt == Size(u.left)) &&
    (u.right.Node? ==> u.right.node in m && m[u.right.node].cnt == Size(u.right)) &&
    (!c.Top? ==> c.node in m && (m[c.node].right == u.node) == c.InRight?)
  }

  lemma StandingAt(m: Mem, t: Tree, c: Context, u: Tree, s: seq<ZNode>)
    requires Whole(m, t, s) && u.Node? && Plug(c, u) == t
    ensures Standing(m, t, c, u, |Before(c)| + Size(u.left))
  {
    OpenedAt(m, c, u, s);
    SideOf(m, c, u, s);
    RootCell(m, u.left, u.node, s, Lo(c, s), At(s, u.node));
    RootCell(m, u.right, u.node, s, At(s, u.node), Hi(c, s));
  }

  lemma PlaceOf(c: Context, u: Tree)
    requires u.Node?
    ensures var s, k := InOrder(Plug(c, u)), |Before(c)| + Size(u.left);
      |s| == |Before(c)| + Size(u) + |After(c)| && s[k] == u.node
  {
    PlugNodeWalk(c, u.left, u.node, u.right);
    PlaceIn(Before(c) + InOrder(u.left), u.node, InOrder(u.right) + After(c));
  }

  lemma PlaceIn(a: seq<ZNode>, x: ZNode, b: seq<ZNode>)
    ensures (a + [x] + b)[|a|] == x && |a + [x] + b| == |a| + 1 + |b|
  {
  }

  /** All there is to know at one place of the walk, `k` nodes into it. */
  ghost predicate Here(m: Mem, t: Tree, c: Context, u: Tree, node: ZNode, k: int) {
    u.Node? && u.node == node && Plug(c, u) == t && k == |Before(c)| + Size(u.left) &&
    Standing(m, t, c, u, |Before(c)| + Size(u.left)) &&
    Size(t) == |Before(c)| + Size(u) + |After(c)| && InOrder(t)[k] == node &&
    Depth(c) + Height(u) <= Height(t)
  }

  lemma StepTo(m: Mem, t: Tree, c: Context, u: Tree, s: seq<ZNode>)
    requires Whole(m, t, s) && u.Node? && Plug(c, u) == t
    ensures Here(m, t, c, u, u.node, |Before(c)| + Size(u.left))
  {
    StandingAt(m, t, c, u, s);
    PlaceOf(c, u);
    DepthPlug(c, u);
  }

  // The three moves, and the rank change each of them makes.

  lemma MoveRight(m: Mem, t: Tree, c: Context, u: Tree, node: ZNode, k: int, s: seq<ZNode>)
    requires Whole(m, t, s) && Here(m, t, c, u, node, k) && u.right.Node?
    ensures Here(m, t, InRight(u.left, node, c), u.right, u.right.node, k + Size(u.right.left) + 1)
    ensures |Before(InRight(u.left, node, c))| == k + 1 && 0 < Height(u.right) <= Height(t)
  {
    StepTo(m, t, InRight(u.left, node, c), u.right, s);
  }

  lemma MoveLeft(m: Mem, t: Tree, c: Context, u: Tree, node: ZNode, k: int, s: seq<ZNode>)
    requires Whole(m, t, s) && Here(m, t, c, u, node, k) && u.left.Node?
    ensures Here(m, t, InLeft(node, u.right, c), u.left, u.left.node, k - Size(u.left.right) - 1)
    ensures |Before(InLeft(node, u.right, c))| == k - Size(u.left) && 0 < Height(u.left) <= Height(t)
  {
    StepTo(m, t, InLeft(node, u.right, c), u.left, s);
  }

  lemma MoveUp(m: Mem, t: Tree, c: Context, u: Tree, node: ZNode, k: int, s: seq<ZNode>)
    requires Whole(m, t, s) && Here(m, t, c, u, node, k) && !c.Top?
    ensures Here(m, t, c.up, Up(c, u), c.node, if c.InLeft? then k + Size(u.right) + 1 else k - Size(u.left) - 1)
    ensures 0 < Height(Up(c, u)) <= Height(t)
  {
    StepTo(m, t, c.up, Up(c, u), s);
  }

  /** What the walk reads at a node. */
  lemma Reads(m: Mem, t: Tree, c: Context, u: Tree, node: ZNode, k: int)
    requires Here(m, t, c, u, node, k)
    ensures u.Node? && (u.left.Leaf? ==> Size(u.left) == 0) && (u.right.Leaf? ==> Size(u.right) == 0)
    ensures c.Top? ==> |Before(c)| == 0 && |After(c)| == 0
    ensures node in m && m[node].left == Root(u.left) && m[node].right == Root(u.right) && m[node].parent == Owner(c)
    ensures u.left.Node? ==> u.left.node in m && m[u.left.node].cnt == Size(u.left)
    ensures u.right.Node? ==> u.right.node in m && m[u.right.node].cnt == Size(u.right)
    ensures !c.Top? ==> c.node in m && (m[c.node].right == node) == c.InRight?
    ensures 0 <= k < Size(t) && k == |Before(c)| + Size(u.left) && Size(t) == |Before(c)| + Size(u) + |After(c)|
    ensures InOrder(t)[k] == node && Depth(c) + Height(u) <= Height(t)
    ensures Height(u.left) < Height(u) && Height(u.right) < Height(u) && Size(u) == 1 + Size(u.left) + Size(u.right)
  {
  }

  /** The node that is `j` nodes into the whole walk lies in the subtree `u`. */
  predicate Within(c: Context, u: Tree, j: int) {
    |Before(c)| <= j < |Before(c)| + Size(u)
  }

  /** One turn of the loop: towards the target if it is below, else to the parent. */
  method OffsetStep(node: ZNode, pos: int, offset: int,
                    ghost t: Tree, ghost c: Context, ghost u: Tree, ghost first: int,
                    ghost nodes: set<ZNode>, ghost s: seq<ZNode>)
    returns (next: ZNode?, pos': int, ghost c': Context, ghost u': Tree, ghost step: Step)
    requires Whole(Snap(nodes), t, s) && Here(Snap(nodes), t, c, u, node, first + pos) && pos != offset
    ensures next == null ==> !(0 <= first + offset < Size(t))
    ensures next != null ==> Here(Snap(nodes), t, c', u', next, first + pos') && 0 < Height(u') <= Height(t)
    ensures next != null && step.Climb? ==> !Within(c, u, first + offset) && Depth(c') + 1 == Depth(c)
    ensures next != null && step.Descend? ==> Within(c', u', first + offset) && Height(u') < Height(u)
  {
    hide Here, Standing, Whole, Plug, InOrder, Before, After, Size, Height;
    ghost var m := Snap(nodes);
    Reads(m, t, c, u, node, first + pos);
    pos', c', u' := pos, c, u;
    if pos < offset && pos + AvlCnt(node.right) >= offset {
      MoveRight(m, t, c, u, node, first + pos, s);
      c', u', step := InRight(u.left, node, c), u.right, Descend;
      Reads(m, t, c', u', u'.node, |Before(c')| + Size(u'.left));
      next := node.right;
      pos' := pos + AvlCnt(next.left) + 1;
    } else if pos > offset && pos - AvlCnt(node.left) <= offset {
      MoveLeft(m, t, c, u, node, first + pos, s);
      c', u', step := InLeft(node, u.right, c), u.left, Descend;
      Reads(m, t, c', u', u'.node, |Before(c')| + Size(u'.left));
      next := node.left;
      pos' := pos - (AvlCnt(next.right) + 1);
    } else {
      next := node.parent;
      step := Climb;
      if next != null {
        MoveUp(m, t, c, u, node, first + pos, s);
        if next.right == node {
          pos' := pos - (AvlCnt(node.left) + 1);
        } else {
          pos' := pos + AvlCnt(node.right) + 1;
        }
        c', u' := c.up, Up(c, u);
      }
    }
  }

  /** `avl_offset`: the node `offset` places further in the walk, or null if there is none. The walk
      climbs, then descends, in fewer steps than twice the height. */
  method AvlOffset(start: ZNode, offset: int, ghost t: Tree, ghost nodes: set<ZNode>)
    returns (res: ZNode?, ghost path: seq<Step>, ghost climbs: nat, ghost drops: nat)
    requires Holds(Snap(nodes), t, null) && Balanced(t)
    requires Distinct(InOrder(t)) && start in InOrder(t)
    ensures var k := At(InOrder(t), start) + offset;
      res == if 0 <= k < Size(t) then InOrder(t)[k] else null
    ensures path == Route(climbs, drops) && climbs < Height(t) && drops < Height(t)
  {
    hide *;
    ghost var s := InOrder(t);
    ghost var c: Context, u: Tree, first: int := Top, t, 0;
    RouteGrows(0, 0);
    c, u, first := StartingAt(Snap(nodes), t, start);
    path, climbs, drops := [], 0, 0;
    var node: ZNode := start;
    var pos := 0;
    while offset != pos
      invariant Here(Snap(nodes), t, c, u, node, first + pos)
      invariant path == Route(climbs, drops)
      invariant climbs + Depth(c) < Height(t) || drops > 0
      invariant climbs < Height(t) && drops < Height(t) && drops + Height(u) <= Height(t)
      invariant drops > 0 ==> Within(c, u, first + offset)
      decreases drops == 0, if drops > 0 then Height(u) else Depth(c)
    {
      RouteGrows(climbs, drops);
      ghost var step;
      var next;
      next, pos, c, u, step := OffsetStep(node, pos, offset, t, c, u, first, nodes, s);
      if next == null {
        return null, path, climbs, drops;
      }
      node := next;
      path := path + [step];
      climbs, drops := if step.Climb? then climbs + 1 else climbs, if step.Climb? then drops else drops + 1;
    }
    Reads(Snap(nodes), t, c, u, node, first + pos);
    return node, path, climbs, drops;
  }

  lemma StartingAt(m: Mem, t: Tree, start: ZNode) returns (c: Context, u: Tree, first: int)
    requires Holds(m, t, null) && Balanced(t) && Distinct(InOrder(t)) && start in InOrder(t)
    ensures Whole(m, t, InOrder(t)) && Here(m, t, c, u, start, first) && first == At(InOrder(t), start)
    ensures Depth(c) + Height(u) <= Height(t) && Height(u) > 0
  {
    WholeOf(m, t);
    var l: Tree, r: Tree;
    c, l, r := LocateFrom(Top, t, start);
    u := Node(l, start, r);
    StepTo(m, t, c, u, InOrder(t));
    first := |Before(c)| + Size(l);
    AtIndex(InOrder(t), first);
  }

  /** The Fibonacci numbers. */
  function Fib(n: nat): nat {
    if n < 2 then n else Fib(n - 1) + Fib(n - 2)
  }

  lemma {:induction false} FibMonotone(a: nat, b: nat)
    requires a <= b
    ensures Fib(a) <= Fib(b)
    decreases b
  {
    if a < b {
      FibMonotone(a, b - 1);
    }
  }

  lemma FibTogether(a: nat, b: nat)
    requires a <= b + 1 && b <= a + 1
    ensures Fib(a + 2) + Fib(b + 2) >= Fib(3 + Max(a, b))
  {
    var h := Max(a, b);
    assert Fib(h + 3) == Fib(h + 2) + Fib(h + 1);
    FibMonotone(h + 1, Min(a, b) + 2);
  }

  lemma BalancedParts(t: Tree)
    requires Balanced(t) && t.Node?
    ensures Balanced(t.left) && Balanced(t.right)
    ensures Height(t.left) <= Height(t.right) + 1 && Height(t.right) <= Height(t.left) + 1
    ensures Height(t) == 1 + Max(Height(t.left), Height(t.right)) && Size(t) == 1 + Size(t.left) + Size(t.right)
  {
  }

  lemma LeafIsLarge()
    ensures Size(Leaf) + 1 >= Fib(Height(Leaf) + 2)
  {
    assert Fib(2) == 1;
  }

  /** A balanced tree of height `h` has at least `Fib(h + 2) - 1` nodes: height is logarithmic in size. */
  lemma {:induction false} BalancedIsLarge(t: Tree)
    requires Balanced(t)
    ensures Size(t) + 1 >= Fib(Height(t) + 2)
  {
    hide *;
    if t.Node? {
      BalancedParts(t);
      BalancedIsLarge(t.left);
      BalancedIsLarge(t.right);
      FibTogether(Height(t.left), Height(t.right));
    } else {
      LeafIsLarge();
    }
  }

  lemma {:induction false} FibDoubles(h: nat)
    ensures Fib(h + 2) >= Pow2(h / 2)
  {
    if h >= 2 {
      FibDoubles(h - 2);
      FibMonotone(h, h + 1);
      assert h / 2 == (h - 2) / 2 + 1;
    } else {
      assert Fib(2) == 1 && Fib(3) == 2;
    }
  }

  /** Height at most twice the binary logarithm of one more than the size. */
  lemma HeightIsLogarithmic(t: Tree)
    requires Balanced(t)
    ensures Pow2(Height(t) / 2) <= Size(t) + 1
  {
    BalancedIsLarge(t);
    FibDoubles(Height(t));
  }
}
