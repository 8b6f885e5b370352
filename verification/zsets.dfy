/** The sorted set: one set of member objects, indexed by (score, name) and by name. */
module ZSets {
  import opened Sequences
  import opened Bytes
  import opened Scores
  import opened HNodes
  import opened HTables
  import opened HMaps
  import opened ZNodes
  import opened Trees
  import opened AvlFixing
  import opened AvlDeletion
  import opened AvlRanks
  import opened Walks
  import opened Listings
  import opened Replies

  /** The owner of a hole after a node has been hung into it. */
  ghost predicate Hung(m: Mem, m': Mem, c: Context, node: ZNode) {
    node !in m && m'.Keys == m.Keys + {node} &&
    m'[node].parent == Owner(c) && m'[node].left == null && m'[node].right == null &&
    (!c.Top? ==>
      c.node in m && m'[c.node] == if c.InLeft? then m[c.node].(left := node) else m[c.node].(right := node)) &&
    forall n :: n in m && n != Owner(c) ==> m'[n] == m[n]
  }

  lemma HungContext(m: Mem, m': Mem, c: Context, node: ZNode, s: seq<ZNode>)
    requires LooseContext(m, c, null) && RankedContext(c, s) && Hung(m, m', c, node)
    ensures LooseContext(m', c, node) && Loose(m', Node(Leaf, node, Leaf), Owner(c))
  {
    if !c.Top? {
      SiblingSame(m, m', c, s);
      UpSame(m, m', c, null, s);
    }
  }

  lemma LeafRepairable(c: Context, node: ZNode)
    requires FitsHole(c, 0)
    ensures Repairable(c, Node(Leaf, node, Leaf), 0) && InOrder(Node(Leaf, node, Leaf)) == [node]
    ensures Balanced(Leaf) && Height(Leaf) == 0 && Root(Leaf) == null
  {
  }

  /** The walk with `node` in the hole labels the tree around it. */
  lemma HungRanked(c: Context, node: ZNode, s: seq<ZNode>)
    requires s == Before(c) + [node] + After(c) && Distinct(s) && InOrder(Node(Leaf, node, Leaf)) == [node]
    ensures var t := Node(Leaf, node, Leaf);
      InOrder(Plug(c, t)) == s && Ranked(t, s, Lo(c, s), Hi(c, s)) && RankedContext(c, s)
  {
    hide *;
    var t := Node(Leaf, node, Leaf);
    PlugInOrder(c, t);
    WholeRun(s);
    RankedInOrder(Plug(c, t), s, 0);
    RankedPlug(c, t, s);
  }

  lemma WholeRun(s: seq<ZNode>)
    ensures s[0..0 + |s|] == s
  {
  }

  /** A leaf hung into a balanced tree is ready for `avl_fix`. */
  lemma HungUnderRepair(m: Mem, m': Mem, c: Context, node: ZNode, s: seq<ZNode>)
    requires Holds(m, Plug(c, Leaf), null) && Balanced(Plug(c, Leaf)) && Hung(m, m', c, node)
    requires s == Before(c) + [node] + After(c) && Distinct(s)
    ensures UnderRepair(m', c, Node(Leaf, node, Leaf), 0, s)
    ensures InOrder(Plug(c, Node(Leaf, node, Leaf))) == s
  {
    hide LooseContext, Loose, Hung, Holds, Plug, Balanced, Ranked, RankedContext, FitsHole, Repairable, InOrder,
      Distinct, Before, After, Lo, Hi;
    HoldsPlug(m, c, Leaf);
    BalancedPlug(c, Leaf);
    LeafRepairable(c, node);
    HungRanked(c, node, s);
    HungContext(m, m', c, node, s);
  }

  lemma SearchStart(keys: Keys, t: Tree, key: ZKey)
    ensures Plug(Top, t) == t && Passed(keys, Top, key)
  {
  }

  /** One comparison of the search; names that differ are never tied. */
  lemma SearchStep(keys: Keys, c: Context, u: Tree, key: ZKey)
    requires u.Node? && Sorted(keys, InOrder(Plug(c, u))) && Passed(keys, c, key)
    ensures u.node in keys
    ensures ZLess(key, keys[u.node]) ==> Passed(keys, InLeft(u.node, u.right, c), key)
    ensures !ZLess(key, keys[u.node]) && keys[u.node].name != key.name ==> Passed(keys, InRight(u.left, u.node, c), key)
    ensures Plug(InLeft(u.node, u.right, c), u.left) == Plug(c, u) == Plug(InRight(u.left, u.node, c), u.right)
  {
    hide Sorted, Passed, ZLess, InOrder;
    PassedStep(keys, c, u, key);
    ZLessTotal(key, keys[u.node]);
  }

  /** Members and hash nodes correspond one to one, by name. */
  ghost predicate Filed(members: map<Bytes, ZNode>, nodes: set<ZNode>, items: set<HNode>)
    reads items`owner
  {
    (forall z :: z in nodes ==> z.Name() in members && members[z.Name()] == z) &&
    (forall name :: name in members ==> members[name] in nodes && members[name].Name() == name) &&
    (forall z :: z in nodes ==> z.hmap in items && z.hmap.hcode == StrHash(z.Name()) && z.hmap.owner == z) &&
    (forall h :: h in items ==> h.key in members && members[h.key].hmap == h)
  }

  lemma FiledMore(members: map<Bytes, ZNode>, nodes: set<ZNode>, items: set<HNode>, rookie: ZNode)
    requires Filed(members, nodes, items) && rookie !in nodes && rookie.Name() !in members
    requires rookie.hmap.hcode == StrHash(rookie.Name()) && rookie.hmap.owner == rookie
    ensures Filed(members[rookie.Name() := rookie], nodes + {rookie}, items + {rookie.hmap})
  {
  }

  /** A member is what its name finds. */
  lemma FiledAt(members: map<Bytes, ZNode>, nodes: set<ZNode>, items: set<HNode>, node: ZNode)
    requires Filed(members, nodes, items) && node in nodes
    ensures node.hmap in items && forall h :: h in items && h.key == node.Name() ==> h == node.hmap
  {
  }

  lemma FiledFewer(members: map<Bytes, ZNode>, nodes: set<ZNode>, items: set<HNode>, node: ZNode)
    requires Filed(members, nodes, items) && node in nodes
    ensures Filed(members - {node.Name()}, nodes - {node}, items - {node.hmap})
  {
  }

  /** The scores of members, by name. */
  ghost function ScoresOf(members: map<Bytes, ZNode>): (scores: ScoreMap)
    reads members.Values`score
    ensures scores.Keys == members.Keys
    ensures forall name :: name in members ==> scores[name] == members[name].score
  {
    map name | name in members :: members[name].score
  }

  class ZSet {
    var root: ZNode?
    const hmap: HMap
    ghost var tree: Tree
    ghost var nodes: set<ZNode>
    ghost var members: map<Bytes, ZNode>
    ghost var Repr: set<object>

    constructor ()
      ensures Valid() && members == map[] && fresh(Repr)
    {
      hide HMap.Valid, Ordered, Named;
      root := null;
      hmap := new HMap();
      tree, nodes, members := Leaf, {}, map[];
      new;
      Repr := {this, hmap} + hmap.Repr;
      NothingOrdered();
    }

    /** The tree half: `nodes`, in (score, name) order, in a linked and balanced tree. */
    ghost predicate Ordered()
      reads this`root, this`tree, this`nodes, nodes
    {
      Holds(Snap(nodes), tree, null) && root == Root(tree) && Balanced(tree) &&
      (forall z :: z in nodes ==> z in InOrder(tree)) && (forall z :: z in InOrder(tree) ==> z in nodes) &&
      Sorted(KeysOf(nodes), InOrder(tree))
    }

    /** The hash half: every member is filed under its name, and nothing else is. */
    ghost predicate Named()
      reads this`members, this`nodes, hmap`items, hmap.items`owner
    {
      Filed(members, nodes, hmap.items)
    }

    /** The set owns its dictionary and its members. */
    ghost predicate Owned()
      reads this`Repr, this`nodes, hmap`Repr
    {
      this in Repr && hmap in Repr && hmap.Repr <= Repr && nodes <= Repr && this !in hmap.Repr &&
      forall z :: z in nodes ==> z !in hmap.Repr
    }

    ghost predicate Valid()
      reads this, Repr
      ensures Valid() ==> this in Repr
    {
      this in Repr && hmap in Repr && hmap.Repr <= Repr && Owned() && hmap.Valid() && Ordered() && Named()
    }

    /** What reading the tree at `u`, in the hole of `c`, gives. */
    lemma Cells(c: Context, u: Tree)
      requires Ordered() && Plug(c, u) == tree
      ensures u.Node? ==>
        u.node in nodes && u.node.left == Root(u.left) && u.node.right == Root(u.right) && u.node.parent == Owner(c)
    {
      hide Sorted, Balanced;
      HoldsPlug(Snap(nodes), c, u);
    }

    /** The search of `tree_insert`: the hole where `node` belongs, as its owner and a side. */
    method FindPlace(node: ZNode) returns (parent: ZNode?, onLeft: bool, ghost c: Context, ghost turns: nat)
      requires Ordered() && forall z :: z in nodes ==> z.Name() != node.Name()
      ensures Plug(c, Leaf) == tree && parent == Owner(c) && onLeft == c.InLeft?
      ensures Passed(KeysOf(nodes), c, node.Key()) && turns <= Height(tree)
    {
      hide Holds, Sorted, Balanced, InOrder, Plug, ZLess, Passed, Height;
      ghost var keys, key := KeysOf(nodes), node.Key();
      parent, onLeft, c, turns := null, false, Top, 0;
      ghost var u := tree;
      var cur := root;
      SearchStart(keys, u, key);
      while cur != null
        invariant Plug(c, u) == tree && cur == Root(u) && parent == Owner(c) && onLeft == c.InLeft?
        invariant Passed(keys, c, key) && turns + Height(u) <= Height(tree)
        decreases u
      {
        Cells(c, u);
        SearchStep(keys, c, u, key);
        SeekDown(c, u);
        turns := turns + 1;
        parent := cur;
        if ZLess(node.Key(), parent.Key()) {
          cur, onLeft := parent.left, true;
          c, u := InLeft(u.node, u.right, c), u.left;
        } else {
          cur, onLeft := parent.right, false;
          c, u := InRight(u.left, u.node, c), u.right;
        }
      }
    }

    /** `*from = &node->tree` with the parent link. */
    method Hang(node: ZNode, parent: ZNode?, onLeft: bool, ghost c: Context)
      requires node !in nodes && parent == Owner(c) && onLeft == c.InLeft? && (parent != null ==> parent in nodes)
      requires node.left == null && node.right == null
      modifies this`root, nodes`left, nodes`right, node`parent
      ensures Hung(old(Snap(nodes)), Snap(nodes + {node}), c, node)
    {
      if parent == null {
        root := node;
      } else if onLeft {
        parent.left := node;
      } else {
        parent.right := node;
      }
      node.parent := parent;
    }

    /** Attach at the place that the search has found: the new leaf is up for repair, in the walk `s`. */
    method HangInPlace(node: ZNode, parent: ZNode?, onLeft: bool, ghost c: Context) returns (ghost s: seq<ZNode>)
      requires Ordered() && node !in nodes && node.left == null && node.right == null
      requires Plug(c, Leaf) == tree && parent == Owner(c) && onLeft == c.InLeft?
      requires Passed(KeysOf(nodes), c, node.Key())
      modifies this`root, nodes`left, nodes`right, node`parent
      ensures UnderRepair(Snap(nodes + {node}), c, Node(Leaf, node, Leaf), 0, s)
      ensures InOrder(Plug(c, Node(Leaf, node, Leaf))) == s
      ensures Sorted(KeysOf(nodes + {node}), s)
      ensures (forall z :: z in s ==> z in nodes + {node}) && (forall z :: z in nodes + {node} ==> z in s)
    {
      hide *;
      ghost var m := Snap(nodes);
      s := Before(c) + [node] + After(c);
      PlaceFound(c, node);
      PlaceSorted(c, node);
      TreeHeld(c);
      Hang(node, parent, onLeft, c);
      KeysKept(nodes + {node});
      HungUnderRepair(m, Snap(nodes + {node}), c, node, s);
    }

    lemma TreeHeld(c: Context)
      requires Ordered() && Plug(c, Leaf) == tree
      ensures Holds(Snap(nodes), Plug(c, Leaf), null) && Balanced(Plug(c, Leaf))
    {
    }

    lemma PlaceSorted(c: Context, node: ZNode)
      requires Ordered() && node !in nodes && Plug(c, Leaf) == tree && Passed(KeysOf(nodes), c, node.Key())
      ensures Sorted(KeysOf(nodes + {node}), Before(c) + [node] + After(c))
    {
      hide Holds, Sorted, Balanced, InOrder, Plug, Passed, Before, After, ZLess;
      InsertedWalk(KeysOf(nodes), c, node, KeysOf(nodes + {node}));
    }

    lemma OrderedAs(s: seq<ZNode>)
      requires Holds(Snap(nodes), tree, null) && root == Root(tree) && Balanced(tree) && InOrder(tree) == s
      requires (forall z :: z in s ==> z in nodes) && (forall z :: z in nodes ==> z in s) && Sorted(KeysOf(nodes), s)
      ensures Ordered()
    {
    }

    /** `zset->root = avl_fix(&node->tree)`, for a leaf hung into the tree. */
    method Refit(node: ZNode, ghost c: Context, ghost s: seq<ZNode>, ghost all: set<ZNode>)
      requires UnderRepair(Snap(all), c, Node(Leaf, node, Leaf), 0, s)
      requires InOrder(Plug(c, Node(Leaf, node, Leaf))) == s && Sorted(KeysOf(all), s)
      requires (forall z :: z in s ==> z in all) && (forall z :: z in all ==> z in s)
      modifies this`root, this`tree, this`nodes, all`parent, all`left, all`right, all`height, all`cnt
      ensures Ordered() && nodes == all
    {
      hide *;
      var top;
      ghost var t;
      top, t := AvlFix(node, c, Node(Leaf, node, Leaf), 0, all, s);
      KeysKept(all);
      label Fixed:
      root, tree, nodes := top, t, all;
      KeysKept@Fixed(all);
      SnapKept@Fixed(all);
      OrderedAs(s);
    }

    /** `tree_insert`: the tree half gains exactly this member. */
    method TreeInsert(node: ZNode)
      requires Ordered() && node !in nodes && node.left == null && node.right == null
      requires forall z :: z in nodes ==> z.Name() != node.Name()
      modifies this`root, this`tree, this`nodes
      modifies nodes`parent, nodes`left, nodes`right, nodes`height, nodes`cnt
      modifies node`parent, node`left, node`right, node`height, node`cnt
      ensures Ordered() && nodes == old(nodes) + {node}
    {
      hide *;
      ghost var all := nodes + {node};
      var parent, onLeft;
      ghost var c, turns;
      parent, onLeft, c, turns := FindPlace(node);
      ghost var s := HangInPlace(node, parent, onLeft, c);
      Refit(node, c, s, all);
    }

    /** `Ordered`, taken apart. */
    lemma OrderedParts()
      requires Ordered()
      ensures Holds(Snap(nodes), tree, null) && root == Root(tree) && Balanced(tree)
      ensures Sorted(KeysOf(nodes), InOrder(tree))
      ensures (forall z :: z in nodes ==> z in InOrder(tree)) && (forall z :: z in InOrder(tree) ==> z in nodes)
    {
    }

    /** What the search establishes about the walk with `node` in its place. */
    lemma PlaceFound(c: Context, node: ZNode)
      requires Ordered() && node !in nodes && Plug(c, Leaf) == tree
      ensures Distinct(Before(c) + [node] + After(c)) && (Owner(c) != null ==> Owner(c) in nodes)
      ensures forall z :: z in Before(c) + [node] + After(c) ==> z in nodes + {node}
      ensures forall z :: z in nodes + {node} ==> z in Before(c) + [node] + After(c)
    {
      hide *;
      OrderedParts();
      HoldsPlug(Snap(nodes), c, Leaf);
      OwnerIn(Snap(nodes), c, Root(Leaf));
      HoleWalk(c);
      SortedDistinct(KeysOf(nodes), InOrder(tree));
      DistinctInsert(Before(c), node, After(c));
    }

    static lemma HoleWalk(c: Context)
      ensures InOrder(Plug(c, Leaf)) == Before(c) + After(c) && Root(Leaf) == null
    {
      PlugInOrder(c, Leaf);
      assert InOrder(Leaf) == [];
    }

    static lemma OwnerIn(m: Mem, c: Context, child: ZNode?)
      requires LooseContext(m, c, child)
      ensures Owner(c) != null ==> Owner(c) in m
    {
    }

    lemma InsertedWalk(keys: Keys, c: Context, node: ZNode, keys': Keys)
      requires Sorted(keys, InOrder(Plug(c, Leaf))) && node in keys' && Passed(keys, c, keys'[node])
      requires forall n :: n in keys ==> n in keys' && keys'[n] == keys[n]
      ensures Sorted(keys', Before(c) + [node] + After(c))
    {
      hide Sorted, ZLess;
      PlugInOrder(c, Leaf);
      assert Before(c) + InOrder(Leaf) + After(c) == Before(c) + After(c);
      InsertedSorted(keys, Before(c), After(c), node, keys');
    }

    /** `zset->root = avl_del(&node->tree)`: the tree half loses exactly this member. */
    method TreeDelete(node: ZNode)
      requires Ordered() && node in nodes
      modifies this`root, this`tree, this`nodes
      modifies nodes`parent, nodes`left, nodes`right, nodes`height, nodes`cnt
      ensures Ordered() && nodes == old(nodes) - {node}
    {
      hide Holds, Sorted, Balanced, InOrder, Distinct, Removed;
      ghost var s, all, keys := InOrder(tree), nodes, KeysOf(nodes);
      SortedDistinct(keys, s);
      var top;
      ghost var t;
      top, t := AvlDel(node, tree, nodes);
      KeysKept(all);
      Adopt(top, t, node, keys, s);
    }

    /** The tree without `node` becomes the set's tree. */
    method Adopt(top: ZNode?, ghost t: Tree, ghost node: ZNode, ghost keys: Keys, ghost s: seq<ZNode>)
      requires Holds(Snap(nodes), t, null) && Balanced(t) && top == Root(t) && node in nodes
      requires keys == KeysOf(nodes) && Sorted(keys, s)
      requires (forall z :: z in nodes ==> z in s) && (forall z :: z in s ==> z in nodes)
      requires At(s, node) < |s| && InOrder(t) == Removed(s, At(s, node))
      modifies this`root, this`tree, this`nodes
      ensures Ordered() && nodes == old(nodes) - {node}
    {
      hide *;
      ghost var all := nodes;
      RemovedWalk(keys, s, node);
      label Deleted:
      root, tree, nodes := top, t, nodes - {node};
      SnapKept@Deleted(all);
      KeysKept@Deleted(all);
      FewerKeys(keys, nodes, s, node);
      HoldsElsewhere(Snap(all), Snap(nodes), tree, null);
      OrderedAs(InOrder(t));
    }

    static lemma RemovedWalk(keys: Keys, s: seq<ZNode>, node: ZNode)
      requires Sorted(keys, s) && node in s
      ensures At(s, node) < |s|
      ensures forall z :: z in Removed(s, At(s, node)) ==> z in s && z != node
      ensures forall z :: z in s && z != node ==> z in Removed(s, At(s, node))
    {
      var i :| 0 <= i < |s| && s[i] == node;
      SortedDistinct(keys, s);
      AtIndex(s, i);
      RemovedSorted(keys, s, i, keys);
    }

    lemma FewerKeys(keys: Keys, rest: set<ZNode>, s: seq<ZNode>, node: ZNode)
      requires Sorted(keys, s) && node in s && At(s, node) < |s|
      requires forall n :: n in keys && n != node ==> n in rest && keys[n] == ZKey(n.score, n.Name())
      ensures Sorted(KeysOf(rest), Removed(s, At(s, node)))
    {
      var i :| 0 <= i < |s| && s[i] == node;
      SortedDistinct(keys, s);
      AtIndex(s, i);
      RemovedSorted(keys, s, i, KeysOf(rest));
    }

    /** `zset_update`: nothing if the values are equal, else out of the tree and back in. */
    method Update(node: ZNode, score: Score)
      requires Valid() && node in nodes
      modifies this`root, this`tree, this`nodes
      modifies nodes`parent, nodes`left, nodes`right, nodes`height, nodes`cnt, node`score
      ensures Valid() && nodes == old(nodes)
      ensures node.score == if Rank(old(node.score)) == Rank(score) then old(node.score) else score
    {
      hide HMap.Valid, Ordered, Named;
      OtherNames(node);
      if Rank(node.score) == Rank(score) {
        return;
      }
      ghost var all := nodes;
      TreeDelete(node);
      node.AvlInit();
      label Out:
      node.score := score;
      OrderedKept@Out();
      TreeInsert(node);
      assert nodes == all;
    }

    lemma OtherNames(node: ZNode)
      requires Named() && node in nodes
      ensures forall z :: z in nodes - {node} ==> z.Name() != node.Name()
    {
    }

    twostate lemma OrderedKept()
      requires old(Ordered()) && root == old(root) && tree == old(tree) && nodes == old(nodes)
      requires forall z :: z in nodes ==> z.score == old(z.score) && CellOf(z) == old(CellOf(z))
      ensures Ordered()
    {
      hide Holds, Sorted, Balanced;
      KeysKept(nodes);
      SnapKept(nodes);
    }

    /** `zset_lookup`: the member of that name. An empty tree answers without touching the dictionary. */
    method Lookup(name: Bytes) returns (found: ZNode?)
      requires Valid()
      modifies hmap`migratePos, hmap`age, hmap`switches, hmap.newer`size, hmap.newer`items, hmap.newer`chains
      modifies hmap.older, hmap.newer.tab, hmap.older.tab, hmap.items`next
      ensures Valid() && Scores() == old(Scores()) && members == old(members)
      ensures found == if name in members then members[name] else null
    {
      hide HMap.Valid, Ordered, ScoresOf, Filed, Matches, StrHash;
      EmptyTree();
      if root == null {
        return null;
      }
      NamedBy(name);
      var node := hmap.Lookup(StrHash(name), ByKey(name));
      ScoresKept();
      if node == null {
        return null;
      }
      return node.owner as ZNode;
    }

    /** Who answers to a name in the dictionary. */
    lemma NamedBy(name: Bytes)
      requires Valid()
      ensures forall h :: h in hmap.items && h.hcode == StrHash(name) && Matches(ByKey(name), h) ==>
        name in members && h.owner == members[name]
      ensures name in members ==>
        members[name].hmap in hmap.items && members[name].hmap.hcode == StrHash(name) &&
        Matches(ByKey(name), members[name].hmap)
    {
      hide HMap.Valid, Ordered, StrHash;
    }

    lemma EmptyTree()
      requires Valid()
      ensures members != map[] ==> root != null
    {
      hide Holds, Sorted, Balanced, HMap.Valid;
      if members != map[] {
        var name :| name in members;
        assert members[name] in InOrder(tree);
      }
    }

    /** The simple view of a sorted set. */
    ghost function Scores(): (scores: ScoreMap)
      reads this`members, members.Values`score
    {
      ScoresOf(members)
    }

    twostate lemma ScoresKept()
      requires members == old(members) && forall name :: name in members ==>
        members[name].score == old(members[name].score)
      ensures Scores() == old(Scores())
    {
    }

    /** Into the dictionary, then into the tree. */
    method LinkBoth(rookie: ZNode)
      requires Owned() && hmap.Valid() && Ordered() && rookie.left == null && rookie.right == null
      requires rookie !in nodes && rookie !in hmap.Repr && rookie.hmap !in hmap.items && hmap.Repr <= Repr
      requires forall z :: z in nodes ==> z.Name() != rookie.Name()
      modifies this`root, this`tree, this`nodes
      modifies nodes`parent, nodes`left, nodes`right, nodes`height, nodes`cnt
      modifies rookie`parent, rookie`left, rookie`right, rookie`height, rookie`cnt
      modifies hmap, hmap.newer, hmap.older, hmap.newer.tab, hmap.older.tab, hmap.items`next, rookie.hmap`next
      ensures hmap.Valid() && Ordered() && nodes == old(nodes) + {rookie}
      ensures hmap.items == old(hmap.items) + {rookie.hmap}
      ensures fresh(hmap.Repr - old(hmap.Repr) - {rookie.hmap}) && Scores() == old(Scores())
    {
      hide HMap.Valid, Ordered, ScoresOf;
      hmap.Insert(rookie.hmap);
      OrderedKept();
      TreeInsert(rookie);
      ScoresKept();
    }

    /** The second branch of `zset_insert`: a new member, into both indexes. */
    method AddMember(name: Bytes, score: Score)
      requires Valid() && name !in members
      modifies Repr
      ensures Valid() && fresh(Repr - old(Repr))
      ensures Scores() == old(Scores())[name := score]
    {
      hide HMap.Valid, Ordered, Filed, Owned, ScoresOf;
      hmap.Footprint();
      Ownership();
      NoSuchName(name);
      ghost var were, those, them := members, nodes, hmap.items;
      var rookie := new ZNode(name, score);
      ghost var before := hmap.Repr;
      LinkBoth(rookie);
      ghost var more := {rookie} + (hmap.Repr - before);
      assert fresh(more);
      FiledMore(were, those, them, rookie);
      Enroll(rookie, more);
    }

    /** Catching up with a member that is in both indexes. */
    ghost method Enroll(rookie: ZNode, more: set<object>)
      requires Ordered() && hmap.Valid() && Filed(members[rookie.Name() := rookie], nodes, hmap.items)
      requires this in Repr && hmap in Repr && nodes <= Repr + more && hmap.Repr <= Repr + more && this !in hmap.Repr
      requires forall z :: z in nodes ==> z !in hmap.Repr
      modifies this`members, this`Repr
      ensures Valid() && Repr == old(Repr) + more
      ensures Scores() == old(Scores())[rookie.Name() := rookie.score]
    {
      hide HMap.Valid, Filed, ScoresOf;
      ScoresMore(members, rookie);
      members := members[rookie.Name() := rookie];
      Repr := Repr + more;
      OrderedKept();
    }

    static lemma ScoresMore(members: map<Bytes, ZNode>, rookie: ZNode)
      ensures ScoresOf(members[rookie.Name() := rookie]) == ScoresOf(members)[rookie.Name() := rookie.score]
    {
    }

    lemma Ownership()
      requires Valid()
      ensures this in Repr && hmap in Repr && hmap.Repr <= Repr && nodes <= Repr && this !in hmap.Repr
      ensures forall z :: z in nodes ==> z !in hmap.Repr
      ensures members.Values <= nodes
    {
      hide HMap.Valid, Ordered;
    }

    lemma NoSuchName(name: Bytes)
      requires Named() && name !in members
      ensures forall z :: z in nodes ==> z.Name() != name
    {
    }

    /** The first branch of `zset_insert`. */
    method Rescore(node: ZNode, score: Score)
      requires Valid() && node in nodes
      modifies this`root, this`tree, this`nodes
      modifies nodes`parent, nodes`left, nodes`right, nodes`height, nodes`cnt, node`score
      ensures Valid() && Scores() == Rescored(old(Scores()), node.Name(), score)
    {
      hide HMap.Valid, Ordered, Valid, Rescored;
      assert node.Name() in members && members[node.Name()] == node &&
        forall name :: name in members ==> members[name].Name() == name by { Open(); }
      ghost var scores := Scores();
      Update(node, score);
      Rescoring(members, scores, node, score);
    }

    /** `zset_insert`: true if the name is new. */
    method Insert(name: Bytes, score: Score) returns (added: bool)
      requires Valid()
      modifies Repr
      ensures Valid() && fresh(Repr - old(Repr))
      ensures added == (name !in old(Scores())) && Scores() == Rescored(old(Scores()), name, score)
    {
      hide HMap.Valid, Ordered, Filed, ScoresOf;
      Open();
      var node := Lookup(name);
      if node == null {
        AddMember(name, score);
        added := true;
      } else {
        MemberNamed(name);
        Rescore(node, score);
        added := false;
      }
    }

    lemma MemberNamed(name: Bytes)
      requires Valid() && name in members
      ensures members[name] in nodes && members[name].Name() == name
    {
      hide HMap.Valid, Ordered;
    }

    lemma Open()
      requires Valid()
      ensures Owned() && hmap.Valid() && Ordered() && Named()
      ensures hmap.newer in Repr && hmap.older in Repr && hmap.items <= Repr
      ensures (hmap.newer.tab != null ==> hmap.newer.tab in Repr) && (hmap.older.tab != null ==> hmap.older.tab in Repr)
    {
      hide HMap.Valid, Ordered, Filed;
      hmap.Footprint();
    }

    static lemma Rescoring(members: map<Bytes, ZNode>, scores: ScoreMap, node: ZNode, score: Score)
      requires scores.Keys == members.Keys && node.Name() in members && members[node.Name()] == node
      requires forall name :: name in members && name != node.Name() ==> members[name].score == scores[name]
      requires node.score == if Rank(scores[node.Name()]) == Rank(score) then scores[node.Name()] else score
      ensures ScoresOf(members) == Rescored(scores, node.Name(), score)
    {
    }

    /** Out of the dictionary, where `hm_delete` finds this very member, then out of the tree. */
    method UnlinkBoth(node: ZNode)
      requires Owned() && hmap.Valid() && Ordered() && Named() && node in nodes
      modifies this`root, this`tree, this`nodes
      modifies nodes`parent, nodes`left, nodes`right, nodes`height, nodes`cnt
      modifies hmap`migratePos, hmap`age, hmap`switches, hmap`items, hmap.newer, hmap.older, hmap.newer.tab
      modifies hmap.older.tab, hmap.items`next
      ensures hmap.Valid() && Ordered() && nodes == old(nodes) - {node}
      ensures hmap.items == old(hmap.items) - {node.hmap}
    {
      hide HMap.Valid, Ordered, Filed;
      FiledAt(members, nodes, hmap.items, node);
      var found := hmap.Delete(node.hmap.hcode, ByKey(node.Name()));
      assert found == node.hmap;
      OrderedKept();
      TreeDelete(node);
    }

    /** `zset_delete`: out of both indexes. */
    method Delete(node: ZNode)
      requires Valid() && node in nodes
      modifies Repr
      ensures Valid() && Repr == old(Repr)
      ensures Scores() == old(Scores()) - {node.Name()} && nodes == old(nodes) - {node}
    {
      hide HMap.Valid, Ordered, ScoresOf, Filed;
      Open();
      ghost var those, them, scores := nodes, hmap.items, ScoresOf(members);
      UnlinkBoth(node);
      assert ScoresOf(members) == scores;
      FiledFewer(members, those, them, node);
      Strike(node);
    }

    /** Catching up with a member that is gone from both indexes. */
    ghost method Strike(node: ZNode)
      requires Ordered() && hmap.Valid() && Filed(members - {node.Name()}, nodes, hmap.items)
      requires Owned() && hmap.Repr <= Repr
      modifies this`members
      ensures Valid() && Scores() == old(Scores()) - {node.Name()}
    {
      hide HMap.Valid, Filed, ScoresOf;
      ScoresFewer(members, node.Name());
      members := members - {node.Name()};
      OrderedKept();
    }

    static lemma ScoresFewer(members: map<Bytes, ZNode>, name: Bytes)
      ensures ScoresOf(members - {name}) == ScoresOf(members) - {name}
    {
    }

    /** The members' keys in tree order. */
    ghost function Listing(): seq<ZKey>
      requires Valid()
      reads this, Repr
    {
      KeyList(KeysOf(nodes), InOrder(tree))
    }

    /** Tree order is the sorted order of the scores. */
    lemma ListingIsSorted()
      requires Valid()
      ensures IsListing(Scores(), Listing()) && |Listing()| == Size(tree)
    {
      hide HMap.Valid, Holds, Balanced, ZLess, InOrder;
      var keys, s := KeysOf(nodes), InOrder(tree);
      var list := Listing();
      forall i | 0 <= i < |list|
        ensures list[i].name in Scores() && Scores()[list[i].name] == list[i].score
      {
        assert s[i] in s;
      }
      forall name | name in Scores()
        ensures ZKey(Scores()[name], name) in list
      {
        assert members[name] in s;
        var i :| 0 <= i < |s| && s[i] == members[name];
        assert list[i] == ZKey(Scores()[name], name);
      }
    }

    /** `zset_seekge`: the first member not below the key, or null. */
    method SeekGe(score: Score, name: Bytes) returns (found: ZNode?, ghost turns: nat)
      requires Valid()
      ensures var k := CountBelow(Listing(), ZKey(score, name));
        found == if k < |InOrder(tree)| then InOrder(tree)[k] else null
      ensures |Listing()| == |InOrder(tree)| && turns <= Height(tree)
    {
      hide HMap.Valid, Holds, Sorted, Balanced, InOrder, Plug, ZLess, Sought, Before, After, Filed, Height;
      ghost var keys, key := KeysOf(nodes), ZKey(score, name);
      ghost var c: Context, u: Tree := Top, tree;
      found, turns := null, 0;
      var node := root;
      SeekStart(keys, u, key);
      while node != null
        invariant Plug(c, u) == tree && node == Root(u) && Sought(keys, c, key)
        invariant found == if After(c) == [] then null else After(c)[0]
        invariant turns + Height(u) <= Height(tree)
        decreases u
      {
        Cells(c, u);
        SoughtStep(keys, c, u, key);
        SeekDown(c, u);
        turns := turns + 1;
        if ZLess(node.Key(), ZKey(score, name)) {
          node := node.right;
          c, u := InRight(u.left, u.node, c), u.right;
        } else {
          found := node;
          node := node.left;
          c, u := InLeft(u.node, u.right, c), u.left;
        }
      }
      SoughtCount(keys, c, key);
    }

    static lemma SeekStart(keys: Keys, t: Tree, key: ZKey)
      ensures Plug(Top, t) == t && Sought(keys, Top, key) && After(Top) == []
    {
    }

    static lemma SeekDown(c: Context, u: Tree)
      requires u.Node?
      ensures Plug(InLeft(u.node, u.right, c), u.left) == Plug(c, u) == Plug(InRight(u.left, u.node, c), u.right)
      ensures After(InLeft(u.node, u.right, c)) != [] && Height(u.left) < Height(u) && Height(u.right) < Height(u)
    {
    }

    /** `znode_offset`: by rank from a member; nothing from nothing. */
    method Offset(node: ZNode?, offset: int) returns (res: ZNode?)
      requires Valid() && (node != null ==> node in nodes)
      ensures node == null ==> res == null
      ensures node != null ==> var k := At(InOrder(tree), node) + offset;
        res == if 0 <= k < |InOrder(tree)| then InOrder(tree)[k] else null
    {
      hide HMap.Valid, Holds, Sorted, Balanced, InOrder, Filed, Distinct;
      if node == null {
        return null;
      }
      SortedDistinct(KeysOf(nodes), InOrder(tree));
      ghost var path, climbs, drops;
      res, path, climbs, drops := AvlOffset(node, offset, tree, nodes);
    }

    /** `tree_dispose`: the nodes it frees, children first. */
    method TreeDispose(node: ZNode?, ghost t: Tree, ghost p: ZNode?) returns (freed: seq<ZNode>)
      requires Holds(Snap(nodes), t, p) && node == Root(t)
      ensures multiset(freed) == multiset(InOrder(t))
      decreases t
    {
      hide Snap, InOrder;
      DisposeWalk(t);
      if node == null {
        return [];
      }
      assert CellOf(node) == Snap(nodes)[node];
      var a := TreeDispose(node.left, t.left, node);
      var b := TreeDispose(node.right, t.right, node);
      return a + b + [node];
    }

    static lemma DisposeWalk(t: Tree)
      ensures t.Leaf? ==> InOrder(t) == []
      ensures t.Node? ==>
        multiset(InOrder(t)) == multiset(InOrder(t.left)) + multiset(InOrder(t.right)) + multiset{t.node}
    {
    }

    /** `zset_clear`: an empty set again, every member freed exactly once. */
    method Clear() returns (freed: seq<ZNode>)
      requires Valid()
      modifies this, hmap, hmap.newer, hmap.older
      ensures Valid() && Scores() == map[] && Repr == old(Repr)
      ensures multiset(freed) == multiset(old(InOrder(tree)))
    {
      hide HMap.Valid, Holds, Sorted, Balanced, Ordered, Filed, InOrder, Snap;
      Open();
      hmap.Clear();
      OrderedKept();
      WholeTree();
      freed := TreeDispose(root, tree, null);
      root := null;
      tree, nodes, members := Leaf, {}, map[];
      NothingOrdered();
    }

    lemma WholeTree()
      requires Ordered()
      ensures Holds(Snap(nodes), tree, null) && root == Root(tree)
    {
    }

    lemma NothingOrdered()
      requires root == null && tree == Leaf && nodes == {} && members == map[] && hmap.items == {}
      ensures Ordered() && Named()
    {
    }

    /** Look a name up, and delete the member if there is one. */
    method Remove(name: Bytes) returns (removed: bool)
      requires Valid()
      modifies Repr
      ensures Valid() && Repr == old(Repr)
      ensures removed == (name in old(Scores())) && Scores() == old(Scores()) - {name}
    {
      hide HMap.Valid, Ordered, Filed, ScoresOf;
      Open();
      ghost var scores := Scores();
      var node := Lookup(name);
      if node == null {
        assert scores - {name} == scores;
        return false;
      }
      MemberNamed(name);
      Delete(node);
      return true;
    }

    /** Look a name up, for its score. */
    method ScoreIfPresent(name: Bytes) returns (score: Option<Score>)
      requires Valid()
      modifies Repr
      ensures Valid() && Repr == old(Repr) && Scores() == old(Scores())
      ensures score == if name in Scores() then Some(Scores()[name]) else None
    {
      hide HMap.Valid, Ordered, Filed;
      Open();
      var node := Lookup(name);
      return if node == null then None else Some(node.score);
    }

    /** The member at a place of the sorted order. */
    lemma AtPlace(i: nat)
      requires Valid() && i < |InOrder(tree)|
      ensures At(InOrder(tree), InOrder(tree)[i]) == i && InOrder(tree)[i] in nodes
      ensures i < |Listing()| && Listing()[i] == InOrder(tree)[i].Key()
    {
      hide HMap.Valid, Holds, Sorted, Balanced, Filed, InOrder, Distinct;
      assert InOrder(tree)[i] in InOrder(tree);
      SortedDistinct(KeysOf(nodes), InOrder(tree));
      AtIndex(InOrder(tree), i);
    }
  }

  lemma {:induction false} HoldsElsewhere(m: Mem, m': Mem, t: Tree, parent: ZNode?)
    requires Holds(m, t, parent) && forall z :: z in InOrder(t) ==> z in m && z in m' && m'[z] == m[z]
    ensures Holds(m', t, parent)
  {
    if t.Node? {
      assert t.node in InOrder(t);
      assert forall z :: z in InOrder(t.left) ==> z in InOrder(t);
      assert forall z :: z in InOrder(t.right) ==> z in InOrder(t);
      HoldsElsewhere(m, m', t.left, t.node);
      HoldsElsewhere(m, m', t.right, t.node);
    }
  }

  lemma DistinctInsert(a: seq<ZNode>, x: ZNode, b: seq<ZNode>)
    requires Distinct(a + b) && x !in a + b
    ensures Distinct(a + [x] + b)
  {
    var s, s' := a + b, a + [x] + b;
    assert forall i :: 0 <= i < |s| ==> s[i] in s;
    forall i, j | 0 <= i < j < |s'|
      ensures s'[i] != s'[j]
    {
      assert i != |a| ==> s'[i] == s[if i < |a| then i else i - 1];
      assert j != |a| ==> s'[j] == s[if j < |a| then j else j - 1];
    }
  }
}
