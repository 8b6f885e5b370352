/** The idle queue: connections in the order in which they were last active, and the timers made from it. */
module IdleQueues {
  import opened Sequences
  import opened Bytes
  import opened Replies
  import opened Keyspaces
  import opened DLists
  import opened Stores
  import opened Conns

  /** `k_idle_timeout_ms`. */
  const IDLE_TIMEOUT: nat := 5000

  function Nodes(conns: seq<Conn>): (s: seq<DList>)
    ensures |s| == |conns| && forall i :: 0 <= i < |conns| ==> s[i] == conns[i].idleNode
  {
    seq(|conns|, i requires 0 <= i < |conns| => conns[i].idleNode)
  }

  /** Nobody was active later than anybody behind. */
  predicate OldestFirst(conns: seq<Conn>)
    reads conns`lastActive
  {
    forall i, j :: 0 <= i < j < |conns| ==> conns[i].lastActive <= conns[j].lastActive
  }

  /** Nobody was active after `now`. */
  predicate Until(conns: seq<Conn>, now: nat)
    reads conns`lastActive
  {
    forall i :: 0 <= i < |conns| ==> conns[i].lastActive <= now
  }

  /** `(int32_t)` of a 64-bit difference. */
  function AsInt32(v: nat): int {
    var low := v % 0x1_0000_0000;
    if low < 0x8000_0000 then low else low - 0x1_0000_0000
  }

  /** The cast keeps a gap exactly if it is below 2^31 milliseconds. */
  lemma AsInt32Exact(v: nat)
    ensures AsInt32(v) == v <==> v < 0x8000_0000
  {
  }

  /** The promise of an exact gap fails for longer ones: with a single key that expires in 3000000000
      milliseconds and no connection, the cast yields a negative timeout, and `poll` waits without limit. */
  lemma LongGap(key: Bytes)
    ensures IsEarliest([], map[key := Record(StrValue([]), Some(3000000000))], 3000000000)
    ensures AsInt32(3000000000 - 0) == -1294967296
  {
    var ks: Keyspace := map[key := Record(StrValue([]), Some(3000000000))];
    assert ks[key].deadline == Some(3000000000);
  }

  /** `(uint64_t)-1`. */
  const NEVER: nat := 0xFFFF_FFFF_FFFF_FFFF

  /** `t` is a time at which something has to be done: a connection's, or a key's. */
  predicate IsDeadline(conns: seq<Conn>, ks: Keyspace, t: nat)
    reads conns`lastActive
  {
    (exists i :: 0 <= i < |conns| && conns[i].lastActive + IDLE_TIMEOUT == t) ||
    exists k :: k in ks && ks[k].deadline == Some(t)
  }

  predicate IsEarliest(conns: seq<Conn>, ks: Keyspace, t: nat)
    reads conns`lastActive
  {
    IsDeadline(conns, ks, t) && forall u: nat :: IsDeadline(conns, ks, u) ==> t <= u
  }

  /** Nothing has to be done before: five seconds after anybody's last activity, or when a key expires. */
  lemma EarliestIsFirst(conns: seq<Conn>, ks: Keyspace, t: nat)
    requires IsEarliest(conns, ks, t)
    ensures forall i :: 0 <= i < |conns| ==> t <= conns[i].lastActive + 5000
    ensures forall k :: k in ks && ks[k].deadline.Some? ==> t <= ks[k].deadline.value
    ensures (exists i :: 0 <= i < |conns| && t == conns[i].lastActive + 5000) ||
      exists k :: k in ks && ks[k].deadline == Some(t)
  {
    forall i | 0 <= i < |conns|
      ensures t <= conns[i].lastActive + 5000
    {
      assert IsDeadline(conns, ks, conns[i].lastActive + 5000);
    }
    forall k | k in ks && ks[k].deadline.Some?
      ensures t <= ks[k].deadline.value
    {
      assert IsDeadline(conns, ks, ks[k].deadline.value);
    }
  }

  /** The list head and the nodes of the queued connections. */
  function RingOf(head: DList, conns: seq<Conn>): (s: seq<DList>)
    ensures |s| == |conns| + 1 && s[0] == head && forall i :: 0 <= i < |conns| ==> s[i + 1] == conns[i].idleNode
  {
    [head] + Nodes(conns)
  }

  lemma NodesApart(head: DList, conns: seq<Conn>)
    requires Distinct(RingOf(head, conns))
    ensures forall i, j :: 0 <= i < j < |conns| ==> conns[i].idleNode != conns[j].idleNode && conns[i] != conns[j]
    ensures forall i :: 0 <= i < |conns| ==> conns[i].idleNode != head
  {
    hide RingOf, Nodes;
    var r := RingOf(head, conns);
    forall i, j | 0 <= i < j < |conns|
      ensures conns[i].idleNode != conns[j].idleNode
    {
      assert r[i + 1] != r[j + 1];
    }
    forall i | 0 <= i < |conns|
      ensures conns[i].idleNode != head
    {
      assert r[0] != r[i + 1];
    }
  }

  lemma NodesConcat(a: seq<Conn>, b: seq<Conn>)
    ensures Nodes(a + b) == Nodes(a) + Nodes(b)
  {
    hide Nodes;
  }

  lemma OneNode(c: Conn)
    ensures Nodes([c]) == [c.idleNode]
  {
    hide Nodes;
  }

  lemma RingSplit(head: DList, a: seq<Conn>, c: Conn, b: seq<Conn>)
    ensures RingOf(head, a + [c] + b) == RingOf(head, a) + [c.idleNode] + Nodes(b)
    ensures RingOf(head, a + b) == RingOf(head, a) + Nodes(b)
    ensures RingOf(head, a + [c]) == RingOf(head, a) + [c.idleNode]
    ensures forall d :: d in RingOf(head, a) || d in Nodes(b) || d == c.idleNode ==> d in RingOf(head, a + [c] + b)
  {
    hide Nodes;
    OneNode(c);
    NodesConcat(a, [c]);
    NodesConcat(a + [c], b);
    NodesConcat(a, b);
  }

  lemma WithoutFirst(head: DList, conns: seq<Conn>)
    requires conns != []
    ensures [] + [conns[0]] + conns[1..] == conns && [] + conns[1..] == conns[1..]
    ensures forall d :: d in RingOf(head, conns[1..]) ==> d in RingOf(head, conns)
  {
    hide Nodes, RingOf;
    RingSplit(head, [], conns[0], conns[1..]);
    assert [] + [conns[0]] + conns[1..] == conns && [] + conns[1..] == conns[1..];
  }

  lemma InRing(head: DList, conns: seq<Conn>, d: DList)
    requires d in RingOf(head, conns)
    ensures d == head || exists i :: 0 <= i < |conns| && d == conns[i].idleNode
  {
    hide Nodes, RingOf;
    var r := RingOf(head, conns);
    var i :| 0 <= i < |r| && r[i] == d;
    assert i > 0 ==> r[i] == conns[i - 1].idleNode;
  }

  /** Whoever has left is no longer in the ring. */
  lemma Absent(head: DList, a: seq<Conn>, c: Conn, b: seq<Conn>)
    requires Distinct(RingOf(head, a + [c] + b))
    ensures c.idleNode !in RingOf(head, a + b)
    ensures c !in a + b
  {
    hide Nodes, RingOf;
    var all := a + [c] + b;
    NodesApart(head, all);
    assert all[|a|] == c;
    assert forall i :: 0 <= i < |a + b| ==> (a + b)[i] == all[if i < |a| then i else i + 1];
    if c.idleNode in RingOf(head, a + b) {
      InRing(head, a + b, c.idleNode);
    }
  }

  lemma Refreshed(conns: seq<Conn>, c: Conn, now: nat)
    requires OldestFirst(conns) && Until(conns, now) && c.lastActive == now
    ensures OldestFirst(conns + [c]) && Until(conns + [c], now)
  {
  }

  lemma OthersInOrder(a: seq<Conn>, c: Conn, b: seq<Conn>, now: nat)
    requires OldestFirst(a + [c] + b) && Until(a + [c] + b, now)
    ensures OldestFirst(a + b) && Until(a + b, now)
  {
    var all := a + [c] + b;
    assert forall i :: 0 <= i < |a + b| ==> (a + b)[i] == all[if i < |a| then i else i + 1];
  }

  lemma NobodyOlder(conns: seq<Conn>)
    requires OldestFirst(conns) && conns != []
    ensures OldestFirst(conns[1..]) && forall i :: 0 <= i < |conns| ==> conns[0].lastActive <= conns[i].lastActive
  {
  }

  class IdleQueue {
    const head: DList
    ghost var queue: seq<Conn>

    constructor ()
      ensures Valid() && queue == [] && fresh(head)
    {
      head := new DList();
      queue := [];
      new;
      Init(head);
      assert RingOf(head, []) == [head];
    }

    ghost function Ring(): (s: seq<DList>)
      reads this
      ensures |s| == |queue| + 1 && s[0] == head && forall i :: 0 <= i < |queue| ==> s[i + 1] == queue[i].idleNode
    {
      RingOf(head, queue)
    }

    /** A well-formed circle of the list head and the queued connections, in order. */
    ghost predicate Valid()
      reads this, Ring()
    {
      IsRing(Ring()) && forall i :: 0 <= i < |queue| ==> Ring()[i + 1].owner == queue[i]
    }

    /** `dlist_detach` of a queued connection. */
    method Leave(conn: Conn, ghost before: seq<Conn>, ghost after: seq<Conn>)
      requires Valid() && queue == before + [conn] + after
      modifies this, Ring()
      ensures Valid() && queue == before + after && conn.idleNode.owner == conn
      ensures forall k :: 0 <= k < |Ring()| ==> Ring()[k] in old(Ring())
    {
      hide IsRing, RingOf;
      RingSplit(head, before, conn, after);
      assert Ring() == RingOf(head, before) + [conn.idleNode] + Nodes(after) by { hide Nodes; }
      assert forall k :: 0 <= k < |RingOf(head, before)| ==> RingOf(head, before)[k] == Ring()[k];
      assert forall k :: 0 <= k < |Nodes(after)| ==> Nodes(after)[k] == Ring()[|before| + 2 + k];
      Owners(before, conn, after);
      assert queue[|before|] == conn && Ring()[|before| + 1].owner == conn;
      Detach(conn.idleNode, RingOf(head, before), Nodes(after));
      queue := before + after;
    }

    lemma Owners(before: seq<Conn>, conn: Conn, after: seq<Conn>)
      requires Valid() && queue == before + [conn] + after
      ensures forall i :: 0 <= i < |before + after| ==> (before + after)[i].idleNode.owner == (before + after)[i]
    {
      hide IsRing, RingOf;
      forall i | 0 <= i < |before + after|
        ensures (before + after)[i].idleNode.owner == (before + after)[i]
      {
        var k := if i < |before| then i else i + 1;
        assert queue[k] == (before + after)[i] && Ring()[k + 1].owner == queue[k];
      }
    }

    /** `dlist_insert_before` the list head. */
    method Join(conn: Conn)
      requires Valid() && conn.idleNode !in Ring() && conn.idleNode.owner == conn
      modifies this, Ring(), conn.idleNode
      ensures Valid() && queue == old(queue) + [conn] && Ring() == old(Ring()) + [conn.idleNode]
    {
      hide IsRing, RingOf, Nodes;
      RingSplit(head, queue, conn, []);
      InsertBefore(head, conn.idleNode, Ring());
      queue := queue + [conn];
    }

    /** The nodes of the ring are there already. */
    lemma Exists()
      ensures forall k :: 0 <= k < |Ring()| ==> allocated(Ring()[k])
    {
      hide RingOf;
      assert forall k :: 0 <= k < |Ring()| ==> Ring()[k] == if k == 0 then head else queue[k - 1].idleNode;
      assert forall k :: 0 <= k < |queue| ==> allocated(queue[k]);
    }

    /** `handle_accept`: a new connection goes to the back. */
    method Enter(now: nat) returns (conn: Conn)
      requires Valid()
      modifies this, Ring()
      ensures Valid() && queue == old(queue) + [conn]
      ensures Ring() == old(Ring()) + [conn.idleNode]
      ensures fresh(conn) && fresh(conn.incoming) && fresh(conn.outgoing) && fresh(conn.idleNode)
      ensures conn.TwoBuffers() && conn.lastActive == now
      ensures conn.State() == ConnState(true, false, false, [], [], [], [], [])
    {
      hide RingOf;
      ghost var ring := Ring();
      Exists();
      conn := new Conn(now);
      assert forall k :: 0 <= k < |ring| ==> ring[k] != conn.idleNode;
      assert Ring() == ring && conn.idleNode !in ring;
      Join(conn);
    }

    /** The refresh in the main loop: the connection is the last to have been active. */
    method Touch(conn: Conn, now: nat, ghost before: seq<Conn>, ghost after: seq<Conn>)
      requires Valid() && queue == before + [conn] + after
      requires OldestFirst(queue) && Until(queue, now)
      modifies this, Ring(), conn`lastActive
      ensures Valid() && queue == before + after + [conn] && conn.lastActive == now
      ensures OldestFirst(queue) && Until(queue, now)
      ensures forall k :: 0 <= k < |Ring()| ==> Ring()[k] in old(Ring())
    {
      hide RingOf, Nodes, OldestFirst, Until;
      Absent(head, before, conn, after);
      OthersInOrder(before, conn, after, now);
      assert queue[|before|] == conn && Ring()[|before| + 1] == conn.idleNode;
      conn.lastActive := now;
      Leave(conn, before, after);
      Join(conn);
      Refreshed(before + after, conn, now);
    }

    /** `conn_destroy` on the connection at the front. */
    method CloseFirst(conn: Conn)
      requires Valid() && queue != [] && queue[0] == conn
      modifies this, Ring()
      ensures Valid() && old(queue) == [conn] + queue
      ensures forall k :: 0 <= k < |Ring()| ==> Ring()[k] in old(Ring())
    {
      hide IsRing, RingOf, Nodes;
      ghost var rest := queue[1..];
      WithoutFirst(head, queue);
      Leave(conn, [], rest);
    }

    /** The first loop of `process_timers`: exactly the connections that have been idle for five
        seconds are closed. */
    method Expire(now: nat) returns (ghost closed: seq<Conn>)
      requires Valid() && OldestFirst(queue)
      modifies this, Ring()
      ensures Valid() && old(queue) == closed + queue
      ensures forall i :: 0 <= i < |closed| ==> closed[i].lastActive + IDLE_TIMEOUT <= now
      ensures forall i :: 0 <= i < |queue| ==> now < queue[i].lastActive + IDLE_TIMEOUT
      ensures forall k :: 0 <= k < |Ring()| ==> Ring()[k] in old(Ring())
    {
      hide IdleQueue.Valid, RingOf, OldestFirst;
      closed := [];
      assert closed + queue == queue;
      EmptyQueue();
      while !Empty(head)
        invariant Valid() && old(queue) == closed + queue && (Empty(head) <==> queue == [])
        invariant forall k :: 0 <= k < |Ring()| ==> Ring()[k] in old(Ring())
        invariant OldestFirst(queue)
        invariant forall i :: 0 <= i < |closed| ==> closed[i].lastActive + IDLE_TIMEOUT <= now
        decreases |queue|
      {
        First();
        NobodyOlder(queue);
        var conn := head.next.owner as Conn;
        if conn.lastActive + IDLE_TIMEOUT > now {
          break;
        }
        assert queue[1..] == ([conn] + queue[1..])[1..] && closed + queue == closed + [conn] + queue[1..];
        CloseFirst(conn);
        closed := closed + [conn];
        EmptyQueue();
      }
    }

    lemma EmptyQueue()
      requires Valid()
      ensures Empty(head) <==> queue == []
    {
      EmptyMeansAlone(Ring());
    }

    /** The node behind the list head is the first connection's. */
    lemma First()
      requires Valid() && queue != []
      ensures head.next == queue[0].idleNode && queue[0].idleNode.owner == queue[0]
    {
      hide RingOf;
      assert Ring()[0].next == Ring()[1] && Ring()[0 + 1].owner == queue[0];
    }

    /** `next_timer_ms`: how long to sleep. */
    method NextTimer(now: nat, store: Store) returns (ms: int)
      requires Valid() && OldestFirst(queue) && store.Valid()
      ensures (forall t: nat :: !IsDeadline(queue, store.View(), t)) ==> ms == -1
      ensures forall t: nat :: IsEarliest(queue, store.View(), t) && t < NEVER ==>
        ms == if t <= now then 0 else AsInt32(t - now)
    {
      hide Store.Valid, Store.View, IsRing, RingOf;
      ghost var ks := store.View();
      store.Earliest();
      var next := NEVER;
      EmptyQueue();
      if !Empty(head) {
        First();
        var conn := head.next.owner as Conn;
        next := conn.lastActive + IDLE_TIMEOUT;
        assert IsDeadline(queue, ks, next);
      }
      if store.timers.a != [] && store.timers.a[0].val < next {
        next := store.timers.a[0].val;
        assert IsDeadline(queue, ks, next);
      }
      if next == NEVER {
        return -1;
      }
      if next <= now {
        return 0;
      }
      return AsInt32(next - now);
    }
  }
}
