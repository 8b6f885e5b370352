/** One hash table: an array of bucket heads and the chains hanging from them. */
module HTables {
  import opened Sequences
  import opened Bytes
  import opened HNodes

  /** Bitwise and of two non-negative numbers. */
  function And(a: nat, b: nat): (r: nat)
    ensures r <= b
  {
    if a == 0 || b == 0 then 0
    else 2 * And(a / 2, b / 2) + (if a % 2 == 1 && b % 2 == 1 then 1 else 0)
  }

  /** `h_init`'s assertion that a table size is a power of two. */
  predicate PowerOfTwo(n: nat) {
    n > 0 && And(n - 1, n) == 0
  }

  lemma DoublePowerOfTwo(n: nat)
    requires PowerOfTwo(n)
    ensures PowerOfTwo(2 * n)
  {
    assert (2 * n - 1) / 2 == n - 1 && 2 * n / 2 == n;
  }

  /** What the `eq` callbacks compare: the key bytes, or the node's identity. */
  datatype Matcher = ByKey(key: Bytes) | ByNode(node: HNode)

  predicate Matches(q: Matcher, n: HNode) {
    match q
    case ByKey(key) => n.key == key
    case ByNode(node) => n == node
  }

  /** A `HNode **`: the slot of the bucket array, or the `next` field, that points at a node. */
  datatype Link = NoLink | Head(pos: nat) | Next(of: HNode)

  type Links = map<HNode, HNode?>

  ghost function Nexts(nodes: set<HNode>): (m: Links)
    reads nodes
    ensures m.Keys == nodes
    ensures forall n :: n in nodes ==> m[n] == n.next
  {
    map n | n in nodes :: n.next
  }

  /** Following `next` from `head` visits `s` and ends. */
  ghost predicate Chain(m: Links, head: HNode?, s: seq<HNode>) {
    if s == [] then head == null
    else head == s[0] && s[0] in m && Chain(m, m[s[0]], s[1..])
  }

  lemma {:induction false} ChainSame(m: Links, m': Links, head: HNode?, s: seq<HNode>)
    requires Chain(m, head, s)
    requires forall n :: n in s && n in m ==> n in m' && m'[n] == m[n]
    ensures Chain(m', head, s)
  {
    if s != [] {
      assert s[0] in s && forall n :: n in s[1..] ==> n in s;
      ChainSame(m, m', m[s[0]], s[1..]);
    }
  }

  lemma {:induction false} ChainAt(m: Links, head: HNode?, s: seq<HNode>, i: nat)
    requires Chain(m, head, s) && i < |s|
    ensures s[i] in m && m[s[i]] == if i + 1 < |s| then s[i + 1] else null
    ensures Chain(m, m[s[i]], s[i + 1..])
    ensures head == s[0]
  {
    if i > 0 {
      ChainAt(m, m[s[0]], s[1..], i - 1);
      assert s[1..][i - 1 + 1..] == s[i + 1..];
    }
  }

  /** Unlinking the node at position `i + 1` by redirecting its predecessor. */
  lemma {:induction false} ChainSkip(m: Links, m': Links, head: HNode?, s: seq<HNode>, i: nat)
    requires Chain(m, head, s) && Distinct(s) && i + 1 < |s|
    requires s[i] in m && s[i + 1] in m && s[i] in m' && m'[s[i]] == m[s[i + 1]]
    requires forall n :: n in s && n in m && n != s[i] && n != s[i + 1] ==> n in m' && m'[n] == m[n]
    ensures Chain(m', head, s[..i + 1] + s[i + 2..])
  {
    var r := s[..i + 1] + s[i + 2..];
    if i == 0 {
      assert r[1..] == s[2..] && s[0] in s && s[1] in s;
      ChainAt(m, head, s, 1);
      assert forall n :: n in s[2..] ==> n in s && n != s[0] && n != s[1];
      ChainSame(m, m', m[s[1]], s[2..]);
    } else {
      assert s[1..][i - 1] == s[i] && s[1..][i] == s[i + 1] && s[0] in s;
      assert forall n :: n in s[1..] ==> n in s;
      ChainSkip(m, m', m[s[0]], s[1..], i - 1);
      assert r[1..] == s[1..][..i] + s[1..][i + 1..];
    }
  }

  /** One bucket: its chain, free of repetitions, of table members that belong there. */
  ghost predicate Bucket(m: Links, head: HNode?, s: seq<HNode>, b: nat, mask: nat, items: set<HNode>) {
    Chain(m, head, s) && Distinct(s) &&
    forall n :: n in s ==> n in items && And(n.hcode, mask) == b
  }

  /** The whole table: every bucket well formed, every member in the bucket its hash selects. */
  ghost predicate Table(heads: seq<HNode?>, chains: seq<seq<HNode>>, mask: nat, items: set<HNode>, m: Links) {
    |heads| == mask + 1 && |chains| == mask + 1 &&
    (forall b :: 0 <= b <= mask ==> Bucket(m, heads[b], chains[b], b, mask, items)) &&
    (forall n :: n in items ==> n in chains[And(n.hcode, mask)])
  }

  lemma EmptyTable(heads: seq<HNode?>, chains: seq<seq<HNode>>, mask: nat, m: Links)
    requires |heads| == mask + 1 && |chains| == mask + 1
    requires forall b :: 0 <= b <= mask ==> heads[b] == null && chains[b] == []
    ensures Table(heads, chains, mask, {}, m)
  {
  }

  /** Another node linked in front of its bucket. */
  lemma InsertedTable(heads: seq<HNode?>, chains: seq<seq<HNode>>, mask: nat, items: set<HNode>, m: Links,
                      node: HNode, m': Links)
    requires Table(heads, chains, mask, items, m) && node !in items
    requires node in m' && m'[node] == heads[And(node.hcode, mask)]
    requires forall n :: n in items && n in m ==> n in m' && m'[n] == m[n]
    ensures var pos := And(node.hcode, mask);
      Table(heads[pos := node], chains[pos := [node] + chains[pos]], mask, items + {node}, m')
  {
    var pos := And(node.hcode, mask);
    var heads', chains' := heads[pos := node], chains[pos := [node] + chains[pos]];
    forall b | 0 <= b <= mask
      ensures Bucket(m', heads'[b], chains'[b], b, mask, items + {node})
    {
      assert Bucket(m, heads[b], chains[b], b, mask, items);
      ChainSame(m, m', heads[b], chains[b]);
      if b == pos {
        assert chains'[b][1..] == chains[b];
      }
    }
    forall n | n in items + {node}
      ensures n in chains'[And(n.hcode, mask)]
    {
      if n != node {
        assert n in chains[And(n.hcode, mask)];
      }
    }
  }

  /** One node unlinked from its chain, through the bucket array or its predecessor. */
  lemma DetachedBucket(m: Links, m': Links, head: HNode?, head': HNode?, s: seq<HNode>, i: nat, b: nat, mask: nat,
      items: set<HNode>)
    requires Bucket(m, head, s, b, mask, items) && i < |s| && s[i] in m
    requires i == 0 ==> head' == m[s[0]]
    requires i > 0 ==> head' == head && s[i - 1] in m' && m'[s[i - 1]] == m[s[i]]
    requires forall n :: n in s && n in m && n != s[i] && (i == 0 || n != s[i - 1]) ==> n in m' && m'[n] == m[n]
    ensures Bucket(m', head', Removed(s, i), b, mask, items - {s[i]})
  {
    RemovedMembers(s, i);
    if i == 0 {
      assert Removed(s, 0) == s[1..];
      ChainAt(m, head, s, 0);
      ChainSame(m, m', m[s[0]], s[1..]);
    } else {
      ChainAt(m, head, s, i);
      ChainAt(m, head, s, i - 1);
      ChainSkip(m, m', head, s, i - 1);
    }
  }

  lemma DetachedTable(heads: seq<HNode?>, chains: seq<seq<HNode>>, mask: nat, items: set<HNode>, m: Links,
                      b: nat, i: nat, heads': seq<HNode?>, m': Links)
    requires Table(heads, chains, mask, items, m) && items <= m.Keys && b <= mask && i < |chains[b]|
    requires chains[b][i] in m && |heads'| == |heads|
    requires forall c :: 0 <= c <= mask && c != b ==> heads'[c] == heads[c]
    requires i == 0 ==> heads'[b] == m[chains[b][0]]
    requires i > 0 ==> heads'[b] == heads[b] && chains[b][i - 1] in m' && m'[chains[b][i - 1]] == m[chains[b][i]]
    requires forall n :: n in m && n != chains[b][i] && (i == 0 || n != chains[b][i - 1]) ==> n in m' && m'[n] == m[n]
    ensures Table(heads', chains[b := Removed(chains[b], i)], mask, items - {chains[b][i]}, m')
  {
    var node, chains' := chains[b][i], chains[b := Removed(chains[b], i)];
    assert Bucket(m, heads[b], chains[b], b, mask, items);
    assert node in chains[b];
    RemovedMembers(chains[b], i);
    forall c | 0 <= c <= mask
      ensures Bucket(m', heads'[c], chains'[c], c, mask, items - {node})
    {
      assert Bucket(m, heads[c], chains[c], c, mask, items);
      if c == b {
        DetachedBucket(m, m', heads[b], heads'[b], chains[b], i, b, mask, items);
      } else {
        assert i > 0 ==> chains[b][i - 1] in chains[b];
        ChainSame(m, m', heads[c], chains[c]);
      }
    }
    forall n | n in items - {node}
      ensures n in chains'[And(n.hcode, mask)]
    {
      assert n in chains[And(n.hcode, mask)];
    }
  }

  /** Only the members' links matter. */
  lemma TableLinks(heads: seq<HNode?>, chains: seq<seq<HNode>>, mask: nat, items: set<HNode>, m: Links, m': Links)
    requires Table(heads, chains, mask, items, m)
    requires forall n :: n in items && n in m ==> n in m' && m'[n] == m[n]
    ensures Table(heads, chains, mask, items, m')
  {
    forall b | 0 <= b <= mask
      ensures Bucket(m', heads[b], chains[b], b, mask, items)
    {
      assert Bucket(m, heads[b], chains[b], b, mask, items);
      ChainSame(m, m', heads[b], chains[b]);
    }
  }

  lemma TableShape(heads: seq<HNode?>, chains: seq<seq<HNode>>, mask: nat, items: set<HNode>, m: Links)
    requires Table(heads, chains, mask, items, m)
    ensures |heads| == mask + 1 && |chains| == mask + 1
  {
  }

  /** What following bucket `b` meets at its `i`-th node. */
  lemma TableAt(heads: seq<HNode?>, chains: seq<seq<HNode>>, mask: nat, items: set<HNode>, m: Links, b: nat, i: nat)
    requires Table(heads, chains, mask, items, m) && b <= mask && b < |chains| && b < |heads| && i <= |chains[b]|
    ensures heads[b] == if |chains[b]| > 0 then chains[b][0] else null
    ensures i < |chains[b]| ==> chains[b][i] in items && chains[b][i] in m
    ensures i < |chains[b]| ==> m[chains[b][i]] == if i + 1 < |chains[b]| then chains[b][i + 1] else null
    ensures 0 < i < |chains[b]| ==>
      chains[b][i - 1] in items && chains[b][i - 1] in m && m[chains[b][i - 1]] == chains[b][i]
    ensures 0 < i < |chains[b]| ==> chains[b][i - 1] != chains[b][i]
  {
    assert Bucket(m, heads[b], chains[b], b, mask, items);
    if i < |chains[b]| {
      ChainAt(m, heads[b], chains[b], i);
      assert chains[b][i] in chains[b];
      if i > 0 {
        ChainAt(m, heads[b], chains[b], i - 1);
        assert chains[b][i - 1] in chains[b];
      }
    }
  }

  /** A member is found by walking its own bucket. */
  lemma TableMember(heads: seq<HNode?>, chains: seq<seq<HNode>>, mask: nat, items: set<HNode>, m: Links, n: HNode)
    requires Table(heads, chains, mask, items, m) && n in items
    ensures And(n.hcode, mask) < |chains| && n in chains[And(n.hcode, mask)]
  {
  }

  lemma DistinctConcat(a: seq<HNode>, b: seq<HNode>)
    requires Distinct(a) && Distinct(b) && forall n :: n in a ==> n !in b
    ensures Distinct(a + b)
  {
    forall i, j | 0 <= i < j < |a + b|
      ensures (a + b)[i] != (a + b)[j]
    {
      if i < |a| <= j {
        assert a[i] in a && b[j - |a|] in b;
      }
    }
  }

  /** The first `k` buckets list, once each, the members that belong there. */
  lemma {:induction false} FlatMembers(heads: seq<HNode?>, chains: seq<seq<HNode>>, mask: nat, items: set<HNode>,
      m: Links, k: nat)
    requires Table(heads, chains, mask, items, m) && k <= mask + 1
    ensures forall n :: n in Flat(chains[..k]) ==> n in items && And(n.hcode, mask) < k
    ensures forall n :: n in items && And(n.hcode, mask) < k ==> n in Flat(chains[..k])
    ensures Distinct(Flat(chains[..k]))
  {
    hide And, Chain;
    if k > 0 {
      FlatMembers(heads, chains, mask, items, m, k - 1);
      assert chains[..k][..k - 1] == chains[..k - 1];
      assert Bucket(m, heads[k - 1], chains[k - 1], k - 1, mask, items);
      var a, b := Flat(chains[..k - 1]), chains[k - 1];
      assert Flat(chains[..k]) == a + b;
      forall n | n in a
        ensures n !in b
      {
        assert n in Flat(chains[..k - 1]);
        assert n in items && And(n.hcode, mask) < k - 1;
      }
      DistinctConcat(a, b);
    }
  }

  /** Each node once, and the callback has agreed to all of them, or to all but the last. */
  ghost predicate Walked(visited: seq<HNode>, f: HNode -> bool, ok: bool) {
    Distinct(visited) && (!ok ==> visited != []) &&
    forall i :: 0 <= i < |visited| ==> f(visited[i]) == (ok || i < |visited| - 1)
  }

  lemma NeverStopped(visited: seq<HNode>, f: HNode -> bool, ok: bool)
    requires Walked(visited, f, ok) && forall n :: f(n)
    ensures ok
  {
    assert visited != [] ==> f(visited[|visited| - 1]);
  }

  /** `struct HTab`. The ghost fields say what the chains hold. */
  class HTab {
    var tab: array?<HNode?>
    var mask: nat
    var size: nat
    ghost var items: set<HNode>
    ghost var chains: seq<seq<HNode>>

    constructor ()
      ensures Valid() && tab == null && items == {}
    {
      tab, mask, size := null, 0, 0;
      items, chains := {}, [];
    }

    ghost predicate Valid()
      reads this, tab, items
    {
      if tab == null then mask == 0 && size == 0 && items == {} && chains == []
      else Table(tab[..], chains, mask, items, Nexts(items)) && size == |items| && PowerOfTwo(mask + 1)
    }

    /** `h_init`. */
    method Init(n: nat)
      requires PowerOfTwo(n)
      modifies this
      ensures Valid() && tab != null && fresh(tab) && mask == n - 1 && items == {}
      ensures chains == seq(n, _ => [])
    {
      tab := new HNode?[n](_ => null);
      mask := n - 1;
      size := 0;
      items, chains := {}, seq(n, _ => []);
      EmptyTable(tab[..], chains, mask, Nexts(items));
    }

    /** Struct assignment. */
    method Assign(other: HTab)
      requires other.Valid() && other != this
      modifies this
      ensures Valid() && tab == other.tab && mask == other.mask && size == other.size
      ensures items == other.items && chains == other.chains
    {
      hide Table;
      tab, mask, size := other.tab, other.mask, other.size;
      items, chains := other.items, other.chains;
    }

    /** Struct assignment from `HTab{}`. */
    method Reset()
      modifies this
      ensures Valid() && tab == null && mask == 0 && size == 0 && items == {} && chains == []
    {
      tab, mask, size := null, 0, 0;
      items, chains := {}, [];
    }

    lemma SizeOfItems()
      requires Valid()
      ensures size == |items| && (tab == null ==> items == {})
    {
      hide Table;
    }

    lemma PowerOfSize()
      requires Valid() && tab != null
      ensures PowerOfTwo(2 * (mask + 1))
    {
      hide Table, And;
      DoublePowerOfTwo(mask + 1);
    }

    /** `Valid`, taken apart for a table that is there. */
    lemma Parts()
      requires Valid() && tab != null
      ensures Table(tab[..], chains, mask, items, Nexts(items)) && size == |items| && PowerOfTwo(mask + 1)
    {
    }

    /** `Valid`, put together again. */
    lemma Whole(heads: seq<HNode?>, m: Links)
      requires tab != null && heads == tab[..] && m == Nexts(items)
      requires Table(heads, chains, mask, items, m) && size == |items| && PowerOfTwo(mask + 1)
      ensures Valid()
    {
    }

    /** `h_insert`: to the front of its bucket. */
    method Insert(node: HNode)
      requires Valid() && tab != null && node !in items
      modifies this`size, this`items, this`chains, tab, node`next
      ensures Valid() && items == old(items) + {node} && size == old(size) + 1
      ensures var pos := And(node.hcode, mask);
        pos < |old(chains)| && chains == old(chains)[pos := [node] + old(chains)[pos]]
    {
      hide Table, And, HTab.Valid, Nexts, PowerOfTwo;
      ghost var m, heads, those, were := Nexts(items), tab[..], items, chains;
      Parts();
      TableShape(heads, chains, mask, items, m);
      var pos := And(node.hcode, mask);
      items, chains := items + {node}, chains[pos := [node] + chains[pos]];
      var next := tab[pos];
      node.next := next;
      tab[pos] := node;
      size := size + 1;
      assert tab[..] == heads[pos := node];
      InsertedTable(heads, were, mask, those, m, node, Nexts(items));
      Whole(tab[..], Nexts(items));
    }

    /** The node a link points at. */
    function Target(from: Link): HNode?
      requires from.Head? ==> tab != null && from.pos < tab.Length
      reads this, tab, if from.Next? then {from.of} else {}
    {
      match from
      case NoLink => null
      case Head(pos) => tab[pos]
      case Next(of) => of.next
    }

    /** `from` is the link to the `i`-th node of bucket `b`. */
    ghost predicate LinkTo(from: Link, b: nat, i: nat)
      reads this
    {
      tab != null && b <= mask && b < |chains| && i < |chains[b]| &&
      from == if i == 0 then Head(b) else Next(chains[b][i - 1])
    }

    /** `h_lookup`: the link to the first node of the key's bucket with that hash that `eq` accepts. */
    method Lookup(hcode: nat, eq: Matcher) returns (from: Link, ghost b: nat, ghost i: nat)
      requires Valid()
      ensures from == NoLink ==> forall n :: n in items && n.hcode == hcode ==> !Matches(eq, n)
      ensures from != NoLink ==> LinkTo(from, b, i) && chains[b][i] in items
      ensures from != NoLink ==> chains[b][i].hcode == hcode && Matches(eq, chains[b][i])
    {
      hide Table, And, Matches;
      b, i := 0, 0;
      if tab == null {
        return NoLink, b, i;
      }
      ghost var m, heads := Nexts(items), tab[..];
      TableShape(heads, chains, mask, items, m);
      var pos := And(hcode, mask);
      b := pos;
      from := Head(pos);
      var cur := tab[pos];
      TableAt(heads, chains, mask, items, m, b, i);
      while cur != null
        invariant i <= |chains[b]| && cur == (if i < |chains[b]| then chains[b][i] else null)
        invariant i < |chains[b]| ==> LinkTo(from, b, i)
        invariant forall k :: 0 <= k < i ==> !(chains[b][k].hcode == hcode && Matches(eq, chains[b][k]))
        decreases |chains[b]| - i
      {
        TableAt(heads, chains, mask, items, m, b, i);
        if cur.hcode == hcode && Matches(eq, cur) {
          return;
        }
        from := Next(cur);
        cur := cur.next;
        i := i + 1;
      }
      from := NoLink;
      forall n | n in items && n.hcode == hcode
        ensures !Matches(eq, n)
      {
        TableMember(heads, chains, mask, items, m, n);
      }
    }

    /** The link that `h_lookup` returns leads to that node. */
    lemma LinkTarget(from: Link, b: nat, i: nat)
      requires Valid() && LinkTo(from, b, i)
      ensures from.Head? ==> from.pos < tab.Length
      ensures Target(from) == chains[b][i]
    {
      hide Table;
      TableShape(tab[..], chains, mask, items, Nexts(items));
      TableAt(tab[..], chains, mask, items, Nexts(items), b, i);
    }

    /** `h_foreach`: the nodes that the callback `f` is called with, in order, and whether it let the walk
        go to its end. */
    method Foreach(f: HNode -> bool) returns (ok: bool, visited: seq<HNode>)
      requires Valid() && (tab != null ==> mask != 0)
      ensures Walked(visited, f, ok) && (forall n :: n in visited ==> n in items)
      ensures ok ==> |visited| == size && forall n :: n in items ==> n in visited
    {
      hide Table, And, Bucket, Chain;
      visited := [];
      ghost var m := Nexts(items);
      if tab != null { TableShape(tab[..], chains, mask, items, m); }
      var i := 0;
      while mask != 0 && i <= mask
        invariant tab != null ==> i <= mask + 1 && i <= |chains| && visited == Flat(chains[..i])
        invariant tab == null ==> visited == []
        invariant forall n :: n in visited ==> f(n)
      {
        ghost var before, j := visited, 0;
        TableAt(tab[..], chains, mask, items, m, i, 0);
        var node := tab[i];
        while node != null
          invariant j <= |chains[i]| && node == (if j < |chains[i]| then chains[i][j] else null)
          invariant visited == before + chains[i][..j] && forall n :: n in visited ==> f(n)
          decreases |chains[i]| - j
        {
          TableAt(tab[..], chains, mask, items, m, i, j);
          visited := visited + [node];
          if !f(node) {
            Stopped(visited, before, i, j);
            return false, visited;
          }
          node := node.next;
          j := j + 1;
        }
        assert chains[i][..j] == chains[i] && chains[..i + 1][..i] == chains[..i];
        i := i + 1;
      }
      WholeListing(visited, i);
      ok := true;
    }

    /** A walk that was stopped in bucket `i` has visited a part of the listing. */
    lemma Stopped(visited: seq<HNode>, before: seq<HNode>, i: nat, j: nat)
      requires Valid() && tab != null && i <= mask && i < |chains| && j < |chains[i]|
      requires before == Flat(chains[..i]) && visited == before + chains[i][..j] + [chains[i][j]]
      ensures Distinct(visited) && forall n :: n in visited ==> n in items
    {
      hide Table, And;
      var all := Flat(chains[..i + 1]);
      FlatMembers(tab[..], chains, mask, items, Nexts(items), i + 1);
      assert chains[..i + 1][..i] == chains[..i];
      assert all == before + chains[i] && visited == all[..|before| + j + 1];
    }

    lemma WholeListing(visited: seq<HNode>, i: nat)
      requires Valid() && (tab == null ==> visited == [])
      requires tab != null ==> i == mask + 1 && i <= |chains| && visited == Flat(chains[..i])
      ensures Distinct(visited) && |visited| == size && forall n :: n in visited <==> n in items
    {
      hide Table;
      if tab != null {
        FlatMembers(tab[..], chains, mask, items, Nexts(items), i);
        DistinctCount(visited, items);
      }
    }

    /** The writes of `h_detach`: `*from` takes the node's `next`. */
    method Unhook(from: Link, ghost all: set<HNode>) returns (node: HNode)
      requires tab != null && size > 0 && from != NoLink && (from.Head? ==> from.pos < tab.Length)
      requires from.Next? ==> from.of in all && from.of.next != from.of
      requires Target(from) != null && Target(from) in all
      modifies this`size, tab, all`next
      ensures node == old(Target(from)) && size + 1 == old(size)
      ensures from.Head? ==> tab[..] == old(tab[..])[from.pos := node.next] && Nexts(all) == old(Nexts(all))
      ensures from.Next? ==> tab[..] == old(tab[..]) && Nexts(all) == old(Nexts(all))[from.of := old(node.next)]
    {
      var target := Target(from);
      node := target;
      if from.Head? {
        tab[from.pos] := node.next;
      } else {
        from.of.next := node.next;
      }
      size := size - 1;
    }

    /** The same, for a table with these members and chains. */
    method UnhookFrom(from: Link, ghost all: set<HNode>, ghost were: seq<seq<HNode>>, ghost b: nat, ghost i: nat)
      returns (node: HNode)
      requires tab != null && size > 0 && Table(tab[..], were, mask, all, Nexts(all))
      requires b <= mask && b < |were| && i < |were[b]| && from == if i == 0 then Head(b) else Next(were[b][i - 1])
      modifies this`size, tab, all`next
      ensures node == were[b][i] && node in all && size + 1 == old(size)
      ensures Table(tab[..], were[b := Removed(were[b], i)], mask, all - {node}, Nexts(all - {node}))
    {
      hide Table, Removed, PowerOfTwo, And;
      ghost var m, heads := Nexts(all), tab[..];
      TableShape(heads, were, mask, all, m);
      TableAt(heads, were, mask, all, m, b, i);
      node := Unhook(from, all);
      DetachedTable(heads, were, mask, all, m, b, i, tab[..], Nexts(all));
      TableLinks(tab[..], were[b := Removed(were[b], i)], mask, all - {node}, Nexts(all), Nexts(all - {node}));
    }

    /** `h_detach`: unlink the node that `from` points at. */
    method Detach(from: Link, ghost b: nat, ghost i: nat) returns (node: HNode)
      requires Valid() && LinkTo(from, b, i)
      modifies this`size, this`items, this`chains, tab, items`next
      ensures Valid() && node == old(chains)[b][i] && node in old(items)
      ensures items == old(items) - {node} && size + 1 == old(size)
      ensures chains == old(chains)[b := Removed(old(chains)[b], i)]
    {
      hide Table, Removed, HTab.Valid, PowerOfTwo;
      ghost var all, were := items, chains;
      Parts();
      TableAt(tab[..], chains, mask, items, Nexts(items), b, i);
      items, chains := items - {chains[b][i]}, chains[b := Removed(chains[b], i)];
      node := UnhookFrom(from, all, were, b, i);
      Whole(tab[..], Nexts(items));
    }
  }
}
