/** What a linked node structure means: binary trees, one-hole contexts, and the node memory
    that represents them. */
module Trees {
  import opened Sequences
  import opened Bytes
  import opened ZNodes

  datatype Tree = Leaf | Node(left: Tree, node: ZNode, right: Tree)

  /** A tree with one subtree missing, read from the hole up to the root. */
  datatype Context =
    | Top
    | InLeft(node: ZNode, sibling: Tree, up: Context)
    | InRight(sibling: Tree, node: ZNode, up: Context)

  function Root(t: Tree): ZNode? {
    if t.Leaf? then null else t.node
  }

  function Height(t: Tree): nat {
    if t.Leaf? then 0 else 1 + Max(Height(t.left), Height(t.right))
  }

  function Size(t: Tree): nat {
    if t.Leaf? then 0 else 1 + Size(t.left) + Size(t.right)
  }

  function InOrder(t: Tree): (s: seq<ZNode>)
    ensures |s| == Size(t)
  {
    if t.Leaf? then [] else InOrder(t.left) + [t.node] + InOrder(t.right)
  }

  /** Every node's subtrees differ in height by at most one. */
  predicate Balanced(t: Tree) {
    t.Leaf? ||
    (Height(t.left) <= Height(t.right) + 1 && Height(t.right) <= Height(t.left) + 1 &&
     Balanced(t.left) && Balanced(t.right))
  }

  function Plug(c: Context, t: Tree): Tree {
    match c
    case Top => t
    case InLeft(n, sibling, up) => Plug(up, Node(t, n, sibling))
    case InRight(sibling, n, up) => Plug(up, Node(sibling, n, t))
  }

  /** The node right above the hole. */
  function Owner(c: Context): ZNode? {
    if c.Top? then null else c.node
  }

  function Before(c: Context): seq<ZNode> {
    match c
    case Top => []
    case InLeft(_, _, up) => Before(up)
    case InRight(sibling, n, up) => Before(up) + InOrder(sibling) + [n]
  }

  function After(c: Context): seq<ZNode> {
    match c
    case Top => []
    case InLeft(n, sibling, up) => [n] + InOrder(sibling) + After(up)
    case InRight(_, _, up) => After(up)
  }

  lemma {:induction false} PlugInOrder(c: Context, t: Tree)
    ensures InOrder(Plug(c, t)) == Before(c) + InOrder(t) + After(c)
  {
    match c
    case Top =>
    case InLeft(n, sibling, up) =>
      PlugInOrder(up, Node(t, n, sibling));
      Regroup(Before(up), InOrder(t), n, InOrder(sibling), After(up));
    case InRight(sibling, n, up) =>
      PlugInOrder(up, Node(sibling, n, t));
      Regroup(Before(up), InOrder(sibling), n, InOrder(t), After(up));
  }

  // ---- labels: positions in a fixed sequence of nodes, which tell nodes apart ----

  /** The position of a node in a sequence, or the sequence's length. */
  function At(s: seq<ZNode>, n: ZNode): (i: nat)
    ensures i <= |s|
  {
    if s == [] then 0 else if s[0] == n then 0 else 1 + At(s[1..], n)
  }

  lemma {:induction false} AtIndex(s: seq<ZNode>, i: nat)
    requires Distinct(s) && i < |s|
    ensures At(s, s[i]) == i
  {
    if i > 0 {
      AtIndex(s[1..], i - 1);
    }
  }

  /** The tree's nodes carry increasing labels strictly between `lo` and `hi`. */
  predicate Ranked(t: Tree, s: seq<ZNode>, lo: int, hi: int) {
    t.Leaf? ||
    (lo < At(s, t.node) < hi && Ranked(t.left, s, lo, At(s, t.node)) && Ranked(t.right, s, At(s, t.node), hi))
  }

  lemma {:induction false} RankedWider(t: Tree, s: seq<ZNode>, lo: int, hi: int, lo': int, hi': int)
    requires Ranked(t, s, lo, hi) && lo' <= lo && hi <= hi'
    ensures Ranked(t, s, lo', hi')
  {
    if t.Node? {
      RankedWider(t.left, s, lo, At(s, t.node), lo', At(s, t.node));
      RankedWider(t.right, s, At(s, t.node), hi, At(s, t.node), hi');
    }
  }

  /** The labels just outside the hole. */
  function Lo(c: Context, s: seq<ZNode>): (lo: int)
    ensures -1 <= lo
  {
    match c
    case Top => -1
    case InLeft(_, _, up) => Lo(up, s)
    case InRight(_, n, _) => At(s, n)
  }

  function Hi(c: Context, s: seq<ZNode>): (hi: int)
    ensures hi <= |s|
  {
    match c
    case Top => |s|
    case InLeft(n, _, _) => At(s, n)
    case InRight(_, _, up) => Hi(up, s)
  }

  predicate RankedContext(c: Context, s: seq<ZNode>) {
    match c
    case Top => true
    case InLeft(n, sibling, up) =>
      Lo(up, s) < At(s, n) < Hi(up, s) && Ranked(sibling, s, At(s, n), Hi(up, s)) && RankedContext(up, s)
    case InRight(sibling, n, up) =>
      Lo(up, s) < At(s, n) < Hi(up, s) && Ranked(sibling, s, Lo(up, s), At(s, n)) && RankedContext(up, s)
  }

  lemma {:induction false} RankedPlug(c: Context, t: Tree, s: seq<ZNode>)
    ensures Ranked(Plug(c, t), s, -1, |s|) == (Ranked(t, s, Lo(c, s), Hi(c, s)) && RankedContext(c, s))
  {
    match c
    case Top =>
    case InLeft(n, sibling, up) => RankedPlug(up, Node(t, n, sibling), s);
    case InRight(sibling, n, up) => RankedPlug(up, Node(sibling, n, t), s);
  }

  lemma WalkParts(t: Tree)
    requires t.Node?
    ensures InOrder(t) == InOrder(t.left) + [t.node] + InOrder(t.right) && Size(t) == 1 + Size(t.left) + Size(t.right)
  {
  }

  lemma RankedNode(t: Tree, s: seq<ZNode>, lo: int, hi: int)
    requires t.Leaf? ||
      (lo < At(s, t.node) < hi && Ranked(t.left, s, lo, At(s, t.node)) && Ranked(t.right, s, At(s, t.node), hi))
    ensures Ranked(t, s, lo, hi)
  {
  }

  /** A tree whose in-order walk is a run of `s` is labelled by it. */
  lemma {:induction false} RankedInOrder(t: Tree, s: seq<ZNode>, from: nat)
    requires Distinct(s) && from + Size(t) <= |s| && InOrder(t) == s[from..from + Size(t)]
    ensures Ranked(t, s, from - 1, from + Size(t))
  {
    hide *;
    if t.Node? {
      var k := Size(t.left);
      WalkParts(t);
      RunSplit(s, from, InOrder(t.left), t.node, InOrder(t.right));
      AtIndex(s, from + k);
      RankedInOrder(t.left, s, from);
      RankedInOrder(t.right, s, from + k + 1);
    }
    RankedNode(t, s, from - 1, from + Size(t));
  }

  // ---- memory that represents trees ----

  ghost predicate Holds(m: Mem, t: Tree, parent: ZNode?) {
    t.Leaf? ||
    (t.node in m && m[t.node] == Cell(parent, Root(t.left), Root(t.right), Height(t), Size(t)) &&
     Holds(m, t.left, t.node) && Holds(m, t.right, t.node))
  }

  /** As `Holds`, but the root's own `height` and `cnt` may be out of date. */
  ghost predicate Loose(m: Mem, t: Tree, parent: ZNode?) {
    t.Node? && t.node in m &&
    m[t.node].parent == parent && m[t.node].left == Root(t.left) && m[t.node].right == Root(t.right) &&
    Holds(m, t.left, t.node) && Holds(m, t.right, t.node)
  }

  /** The nodes around a hole whose root pointer is `child`; `height` and `cnt` on the path are free. */
  ghost predicate LooseContext(m: Mem, c: Context, child: ZNode?) {
    match c
    case Top => true
    case InLeft(n, sibling, up) =>
      n in m && m[n].parent == Owner(up) && m[n].left == child && m[n].right == Root(sibling) &&
      Holds(m, sibling, n) && LooseContext(m, up, n)
    case InRight(sibling, n, up) =>
      n in m && m[n].parent == Owner(up) && m[n].left == Root(sibling) && m[n].right == child &&
      Holds(m, sibling, n) && LooseContext(m, up, n)
  }

  lemma {:induction false} HoldsPlug(m: Mem, c: Context, t: Tree)
    requires Holds(m, Plug(c, t), null)
    ensures Holds(m, t, Owner(c)) && LooseContext(m, c, Root(t))
  {
    match c
    case Top =>
    case InLeft(n, sibling, up) => HoldsPlug(m, up, Node(t, n, sibling));
    case InRight(sibling, n, up) => HoldsPlug(m, up, Node(sibling, n, t));
  }

  /** The two memories agree on every node labelled strictly between `lo` and `hi`. */
  ghost predicate Same(m: Mem, m': Mem, s: seq<ZNode>, lo: int, hi: int) {
    forall n :: n in m && lo < At(s, n) < hi ==> n in m' && m'[n] == m[n]
  }

  lemma {:induction false} HoldsSame(m: Mem, m': Mem, t: Tree, parent: ZNode?, s: seq<ZNode>, lo: int, hi: int)
    requires Holds(m, t, parent) && Ranked(t, s, lo, hi) && Same(m, m', s, lo, hi)
    ensures Holds(m', t, parent)
  {
    if t.Node? {
      HoldsSame(m, m', t.left, t.node, s, lo, At(s, t.node));
      HoldsSame(m, m', t.right, t.node, s, At(s, t.node), hi);
    }
  }

  /** Changing only the root's parent pointer moves a subtree under another node. */
  lemma HoldsMoved(m: Mem, m': Mem, t: Tree, parent: ZNode?, parent': ZNode?, s: seq<ZNode>, lo: int, hi: int)
    requires Holds(m, t, parent) && Ranked(t, s, lo, hi)
    requires t.Node? ==> t.node in m' && m'[t.node] == m[t.node].(parent := parent')
    requires forall n :: n in m && lo < At(s, n) < hi && n != Root(t) ==> n in m' && m'[n] == m[n]
    ensures Holds(m', t, parent')
  {
    if t.Node? {
      HoldsSame(m, m', t.left, t.node, s, lo, At(s, t.node));
      HoldsSame(m, m', t.right, t.node, s, At(s, t.node), hi);
    }
  }

  /** They agree on every node of `s` labelled at or beyond those bounds. */
  ghost predicate SameOutside(m: Mem, m': Mem, s: seq<ZNode>, lo: int, hi: int) {
    forall n :: n in m && (At(s, n) <= lo || hi <= At(s, n)) && At(s, n) < |s| ==> n in m' && m'[n] == m[n]
  }

  lemma {:induction false} ContextSame(m: Mem, m': Mem, c: Context, child: ZNode?, s: seq<ZNode>)
    requires LooseContext(m, c, child) && RankedContext(c, s)
    requires SameOutside(m, m', s, Lo(c, s), Hi(c, s))
    ensures LooseContext(m', c, child)
  {
    match c
    case Top =>
    case InLeft(n, sibling, up) =>
      HoldsSame(m, m', sibling, n, s, At(s, n), Hi(up, s));
      ContextSame(m, m', up, n, s);
    case InRight(sibling, n, up) =>
      HoldsSame(m, m', sibling, n, s, Lo(up, s), At(s, n));
      ContextSame(m, m', up, n, s);
  }
}
