/** Sorted walks: what the (score, name) order makes of an in-order sequence of members. */
module Walks {
  import opened Sequences
  import opened Scores
  import opened ZNodes
  import opened Trees
  import opened AvlDeletion
  import opened Listings

  type Keys = map<ZNode, ZKey>

  /** The keys of a set of members in the current state. */
  ghost function KeysOf(nodes: set<ZNode>): (keys: Keys)
    reads nodes`score
    ensures keys.Keys == nodes
    ensures forall n :: n in nodes ==> keys[n] == ZKey(n.score, n.Name())
  {
    map n | n in nodes :: ZKey(n.score, n.Name())
  }

  /** Keys change only where scores do. */
  twostate lemma KeysKept(nodes: set<ZNode>)
    requires forall n :: n in nodes ==> n.score == old(n.score)
    ensures KeysOf(nodes) == old(KeysOf(nodes))
  {
  }

  twostate lemma SnapKept(nodes: set<ZNode>)
    requires forall n :: n in nodes ==> CellOf(n) == old(CellOf(n))
    ensures Snap(nodes) == old(Snap(nodes))
  {
  }

  /** Strictly increasing by `zless`. */
  ghost predicate Sorted(keys: Keys, s: seq<ZNode>) {
    (forall i :: 0 <= i < |s| ==> s[i] in keys) &&
    forall i, j :: 0 <= i < j < |s| ==> ZLess(keys[s[i]], keys[s[j]])
  }

  lemma SortedDistinct(keys: Keys, s: seq<ZNode>)
    requires Sorted(keys, s)
    ensures Distinct(s)
  {
    forall i, j | 0 <= i < j < |s|
      ensures s[i] != s[j]
    {
      ZLessTotal(keys[s[i]], keys[s[j]]);
    }
  }

  /** Every node of `s` has a key below `key`; or above it. */
  ghost predicate AllBelow(keys: Keys, s: seq<ZNode>, key: ZKey) {
    forall i :: 0 <= i < |s| ==> s[i] in keys && ZLess(keys[s[i]], key)
  }

  ghost predicate AllAbove(keys: Keys, s: seq<ZNode>, key: ZKey) {
    forall i :: 0 <= i < |s| ==> s[i] in keys && ZLess(key, keys[s[i]])
  }

  /** Putting a node where everything before is below it and everything after above it. */
  lemma InsertedSorted(keys: Keys, a: seq<ZNode>, b: seq<ZNode>, node: ZNode, keys': Keys)
    requires Sorted(keys, a + b) && node in keys'
    requires AllBelow(keys, a, keys'[node]) && AllAbove(keys, b, keys'[node])
    requires forall n :: n in keys && n in a + b ==> n in keys' && keys'[n] == keys[n]
    ensures Sorted(keys', a + [node] + b)
  {
    var s, s' := a + b, a + [node] + b;
    forall i | 0 <= i < |s'|
      ensures s'[i] in keys' && (i < |a| ==> s'[i] == s[i] == a[i] && keys'[s'[i]] == keys[s[i]])
      ensures i > |a| ==> s'[i] == s[i - 1] == b[i - |a| - 1] && keys'[s'[i]] == keys[s[i - 1]]
    {
      if i != |a| {
        var k := if i < |a| then i else i - 1;
        assert s'[i] == s[k] && s[k] in s;
      }
    }
    forall i, j | 0 <= i < j < |s'|
      ensures ZLess(keys'[s'[i]], keys'[s'[j]])
    {
      hide ZLess;
      if i != |a| && j != |a| {
        var i', j' := if i < |a| then i else i - 1, if j < |a| then j else j - 1;
        assert ZLess(keys[s[i']], keys[s[j']]);
      } else if j == |a| {
        assert a[i] == s[i] && ZLess(keys[a[i]], keys'[node]);
      } else {
        assert b[j - |a| - 1] == s[j - 1] && ZLess(keys'[node], keys[b[j - |a| - 1]]);
      }
    }
  }

  lemma RemovedSorted(keys: Keys, s: seq<ZNode>, i: nat, keys': Keys)
    requires Sorted(keys, s) && i < |s|
    requires forall n :: n in keys && n != s[i] ==> n in keys' && keys'[n] == keys[n]
    ensures Sorted(keys', Removed(s, i))
    ensures forall n :: n in Removed(s, i) <==> n in s && n != s[i]
  {
    SortedDistinct(keys, s);
    RemovedMembers(s, i);
    var r := Removed(s, i);
    assert forall k :: 0 <= k < |r| ==> r[k] == s[if k < i then k else k + 1];
  }

  /** The keys along a walk. */
  ghost function KeyList(keys: Keys, s: seq<ZNode>): (l: seq<ZKey>)
    requires forall i :: 0 <= i < |s| ==> s[i] in keys
    ensures |l| == |s| && forall i :: 0 <= i < |s| ==> l[i] == keys[s[i]]
  {
    seq(|s|, i requires 0 <= i < |s| => keys[s[i]])
  }

  // ---- the context of a search ----

  /** A search for `key` has come to the hole of `c`: what it passed on the left is below. */
  ghost predicate Passed(keys: Keys, c: Context, key: ZKey) {
    AllBelow(keys, Before(c), key) && AllAbove(keys, After(c), key)
  }

  lemma AllFurther(keys: Keys, s: seq<ZNode>, k1: ZKey, k2: ZKey)
    requires ZLess(k1, k2)
    ensures AllBelow(keys, s, k1) ==> AllBelow(keys, s, k2)
    ensures AllAbove(keys, s, k2) ==> AllAbove(keys, s, k1)
  {
    hide ZLess;
    if AllBelow(keys, s, k1) {
      forall i | 0 <= i < |s|
        ensures s[i] in keys && ZLess(keys[s[i]], k2)
      {
        ZLessTransitive(keys[s[i]], k1, k2);
      }
    }
    if AllAbove(keys, s, k2) {
      forall i | 0 <= i < |s|
        ensures s[i] in keys && ZLess(k1, keys[s[i]])
      {
        ZLessTransitive(k1, k2, keys[s[i]]);
      }
    }
  }

  lemma BelowBoth(keys: Keys, a: seq<ZNode>, b: seq<ZNode>, key: ZKey)
    ensures AllBelow(keys, a + b, key) == (AllBelow(keys, a, key) && AllBelow(keys, b, key))
  {
    hide ZLess;
    var s := a + b;
    assert forall i :: 0 <= i < |a| ==> s[i] == a[i];
    assert forall i :: 0 <= i < |b| ==> s[|a| + i] == b[i];
  }

  lemma AboveBoth(keys: Keys, a: seq<ZNode>, b: seq<ZNode>, key: ZKey)
    ensures AllAbove(keys, a + b, key) == (AllAbove(keys, a, key) && AllAbove(keys, b, key))
  {
    hide ZLess;
    var s := a + b;
    assert forall i :: 0 <= i < |a| ==> s[i] == a[i];
    assert forall i :: 0 <= i < |b| ==> s[|a| + i] == b[i];
  }

  lemma JustOneNode(keys: Keys, x: ZNode, key: ZKey)
    requires x in keys
    ensures AllBelow(keys, [x], key) == ZLess(keys[x], key) && AllAbove(keys, [x], key) == ZLess(key, keys[x])
  {
    hide ZLess;
    var s := [x];
    assert s[0] == x;
  }

  /** What lies around a hole one step further down. */
  lemma AroundHoles(c: Context, u: Tree)
    requires u.Node?
    ensures Before(InLeft(u.node, u.right, c)) == Before(c)
    ensures After(InLeft(u.node, u.right, c)) == [u.node] + InOrder(u.right) + After(c)
    ensures Before(InRight(u.left, u.node, c)) == Before(c) + InOrder(u.left) + [u.node]
    ensures After(InRight(u.left, u.node, c)) == After(c)
    ensures Plug(c, Node(u.left, u.node, u.right)) == Plug(c, u)
  {
  }

  /** In a sorted tree, whatever comes before a node is below it, and whatever comes after is above. */
  lemma Around(keys: Keys, c: Context, u: Tree)
    requires Sorted(keys, InOrder(Plug(c, u))) && u.Node?
    ensures u.node in keys
    ensures AllBelow(keys, Before(c), keys[u.node]) && AllBelow(keys, InOrder(u.left), keys[u.node])
    ensures AllAbove(keys, InOrder(u.right), keys[u.node]) && AllAbove(keys, After(c), keys[u.node])
  {
    hide *;
    AroundHoles(c, u);
    PlugNodeWalk(c, u.left, u.node, u.right);
    SplitOrder(keys, Before(c) + InOrder(u.left), u.node, InOrder(u.right) + After(c));
    BelowBoth(keys, Before(c), InOrder(u.left), keys[u.node]);
    AboveBoth(keys, InOrder(u.right), After(c), keys[u.node]);
  }

  /** One comparison narrows a search down. */
  lemma PassedStep(keys: Keys, c: Context, u: Tree, key: ZKey)
    requires Sorted(keys, InOrder(Plug(c, u))) && u.Node? && Passed(keys, c, key)
    ensures u.node in keys
    ensures ZLess(key, keys[u.node]) ==> Passed(keys, InLeft(u.node, u.right, c), key)
    ensures ZLess(keys[u.node], key) ==> Passed(keys, InRight(u.left, u.node, c), key)
  {
    hide ZLess, Sorted, InOrder, Plug, Before, After, AllBelow, AllAbove;
    AroundHoles(c, u);
    Around(keys, c, u);
    JustOneNode(keys, u.node, key);
    if ZLess(key, keys[u.node]) {
      AllFurther(keys, InOrder(u.right), key, keys[u.node]);
      AboveBoth(keys, [u.node], InOrder(u.right), key);
      AboveBoth(keys, [u.node] + InOrder(u.right), After(c), key);
    }
    if ZLess(keys[u.node], key) {
      AllFurther(keys, InOrder(u.left), keys[u.node], key);
      BelowBoth(keys, Before(c), InOrder(u.left), key);
      BelowBoth(keys, Before(c) + InOrder(u.left), [u.node], key);
    }
  }

  lemma SplitOrder(keys: Keys, a: seq<ZNode>, x: ZNode, b: seq<ZNode>)
    requires Sorted(keys, a + [x] + b)
    ensures x in keys && AllBelow(keys, a, keys[x]) && AllAbove(keys, b, keys[x])
    ensures Sorted(keys, a) && Sorted(keys, b)
  {
    var s := a + [x] + b;
    assert s[|a|] == x;
    assert forall i :: 0 <= i < |a| ==> s[i] == a[i];
    assert forall i :: 0 <= i < |b| ==> s[|a| + 1 + i] == b[i];
  }

  // ---- seeking ----

  /** A seek has come to the hole of `c`: what it left behind on the left is below the key, and the
      first node it left behind on the right is not. */
  ghost predicate Sought(keys: Keys, c: Context, key: ZKey) {
    AllBelow(keys, Before(c), key) &&
    (After(c) != [] ==> After(c)[0] in keys && !ZLess(keys[After(c)[0]], key))
  }

  lemma SoughtStep(keys: Keys, c: Context, u: Tree, key: ZKey)
    requires Sorted(keys, InOrder(Plug(c, u))) && u.Node? && Sought(keys, c, key)
    ensures u.node in keys
    ensures !ZLess(keys[u.node], key) ==>
      Sought(keys, InLeft(u.node, u.right, c), key) && After(InLeft(u.node, u.right, c))[0] == u.node
    ensures ZLess(keys[u.node], key) ==>
      Sought(keys, InRight(u.left, u.node, c), key) && After(InRight(u.left, u.node, c)) == After(c)
  {
    hide ZLess, Sorted, InOrder, Plug, Before, After, AllBelow, AllAbove;
    AroundHoles(c, u);
    Around(keys, c, u);
    JustOneNode(keys, u.node, key);
    if ZLess(keys[u.node], key) {
      AllFurther(keys, InOrder(u.left), keys[u.node], key);
      BelowBoth(keys, Before(c), InOrder(u.left), key);
      BelowBoth(keys, Before(c) + InOrder(u.left), [u.node], key);
    }
  }

  /** Where the seek ends, as a count of keys below. */
  lemma SoughtCount(keys: Keys, c: Context, key: ZKey)
    requires Sorted(keys, InOrder(Plug(c, Leaf))) && Sought(keys, c, key)
    ensures var s := InOrder(Plug(c, Leaf));
      CountBelow(KeyList(keys, s), key) == |Before(c)| && |s| == |Before(c)| + |After(c)|
    ensures After(c) != [] ==> After(c)[0] == InOrder(Plug(c, Leaf))[|Before(c)|]
  {
    hide ZLess;
    PlugInOrder(c, Leaf);
    var s := InOrder(Plug(c, Leaf));
    assert s == Before(c) + After(c);
    var list := KeyList(keys, s);
    forall i | 0 <= i < |Before(c)|
      ensures ZLess(list[i], key)
    {
      assert s[i] == Before(c)[i];
    }
    CountBelowIs(list, key, |Before(c)|);
  }
}
