/** The event loop: connections served in turn, then the timers, over one database. */
module Servers {
  import opened Sequences
  import opened Bytes
  import opened Replies
  import opened Keyspaces
  import opened Codecs
  import opened Streams
  import opened DLists
  import opened Stores
  import opened Sweeps
  import opened Runs
  import opened Conns
  import opened IdleQueues
  import opened Requests
  import opened Clients

  /** Readiness is only reported where it was asked for. */
  predicate AsAsked(conn: Conn, ready: Ready)
    reads conn`wantRead, conn`wantWrite
  {
    (ready.canRead ==> conn.wantRead) && (ready.canWrite ==> conn.wantWrite)
  }

  /** A connection is dropped after an error, or when it asked for it. */
  predicate Stays(ready: Ready, conn: Conn)
    reads conn`wantClose
  {
    !ready.error && !conn.wantClose
  }

  /** When the loop comes to a polled connection, what is ready, and the clock while it is served. */
  datatype Visit = Visit(ready: Ready, touched: nat, reading: nat -> nat)

  /** A clock that starts at `t`, reaches `end` at most, and never goes back. */
  ghost predicate InTime(visits: seq<Visit>, t: nat, end: nat) {
    (forall k :: 0 <= k < |visits| ==> t <= visits[k].touched && Clock(visits[k].reading, visits[k].touched)) &&
    (forall k, n: nat :: 0 <= k < |visits| ==> visits[k].reading(n) <= end) &&
    forall k, l, n: nat :: 0 <= k < l < |visits| ==> visits[k].reading(n) <= visits[l].touched
  }

  /** Every connection once, and ready only for what it waits for. */
  predicate Pending(polled: seq<Conn>, visits: seq<Visit>, queue: seq<Conn>)
    requires |polled| == |visits|
    reads polled`wantRead, polled`wantWrite
  {
    (forall k :: 0 <= k < |polled| ==> polled[k] in queue && AsAsked(polled[k], visits[k].ready)) &&
    forall k, l :: 0 <= k < l < |polled| ==> polled[k] != polled[l]
  }

  /** A clock that starts no earlier than `t` and never goes back. */
  ghost predicate Clock(reading: nat -> nat, t: nat) {
    (forall i :: 0 <= i ==> t <= reading(i)) && forall i, j :: 0 <= i < j ==> reading(i) <= reading(j)
  }

  predicate NoLater(events: seq<Event>, t: nat) {
    forall i :: 0 <= i < |events| ==> events[i].now <= t
  }

  /** A history of the database: from nothing to `ks`, with a clock that has reached `t`. */
  ghost predicate History(nums: Numbers, states: seq<Keyspace>, events: seq<Event>, t: nat, ks: Keyspace) {
    Run(nums, states, events) && states[0] == map[] && states[|events|] == ks && Ticking(events) && NoLater(events, t)
  }

  lemma NothingYetDone(nums: Numbers, database: set<object>)
    ensures History(nums, [map[]], [], 0, map[]) && ConnsApart([], database) && OldestFirst([]) && Until([], 0)
    ensures AllSettled([]) && Attributed([], [], [])
  {
  }

  lemma HistoryOn(nums: Numbers, states: seq<Keyspace>, events: seq<Event>, t: nat, more: seq<Keyspace>,
      later: seq<Event>, u: nat)
    requires Run(nums, more, later) && History(nums, states, events, t, more[0])
    requires t <= u && Ticking(later) && NoLater(later, u) && forall i :: 0 <= i < |later| ==> t <= later[i].now
    ensures History(nums, states + more[1..], events + later, u, more[|later|])
  {
    hide Run;
    RunLength(nums, more, later);
    RunLength(nums, states, events);
    RunOn(nums, states, events, more, later);
  }

  lemma RunLength(nums: Numbers, states: seq<Keyspace>, events: seq<Event>)
    requires Run(nums, states, events)
    ensures |states| == |events| + 1
  {
  }

  lemma AnswersTick(events: seq<Event>, reading: nat -> nat, cmds: seq<seq<Bytes>>, t: nat)
    requires Answers(events, reading, cmds) && Clock(reading, t)
    ensures Ticking(events) && NoLater(events, reading(|events|)) && t <= reading(|events|)
    ensures forall i :: 0 <= i < |events| ==> t <= events[i].now
  {
  }

  lemma HistoryLater(nums: Numbers, states: seq<Keyspace>, events: seq<Event>, t: nat, ks: Keyspace, u: nat)
    requires History(nums, states, events, t, ks) && t <= u
    ensures History(nums, states, events, u, ks)
  {
  }

  lemma LaterStill(conns: seq<Conn>, t: nat, u: nat)
    requires Until(conns, t) && t <= u
    ensures Until(conns, u)
  {
  }

  /** Connections share no memory with the database, nor with each other. */
  ghost predicate ConnsApart(conns: seq<Conn>, database: set<object>) {
    (forall c <- conns ::
      c.TwoBuffers() && c !in database && c.incoming !in database && c.outgoing !in database &&
      c.idleNode !in database) &&
    forall c <- conns, d <- conns | c != d ::
      c.incoming != d.incoming && c.incoming != d.outgoing && c.outgoing != d.outgoing
  }

  /** Every open connection waits as it should, and its account is right. */
  ghost predicate AllSettled(conns: seq<Conn>)
    reads conns, set c | c in conns :: c.incoming, set c | c in conns :: c.outgoing
  {
    forall c <- conns :: Settled(c.State()) && Accounted(c.State())
  }

  /** The events that belong to one connection, when `who[i]` has caused `events[i]`. */
  function Of(events: seq<Event>, who: seq<Conn?>, c: Conn): seq<Event>
    requires |events| == |who|
  {
    if events == [] then []
    else
      var n := |events| - 1;
      Of(events[..n], who[..n], c) + if who[n] == c then [events[n]] else []
  }

  /** Each of these connections has been answered by exactly its own part of the history, in order. */
  ghost predicate Attributed(conns: seq<Conn>, events: seq<Event>, who: seq<Conn?>)
    reads conns`asked
  {
    |events| == |who| && forall c <- conns :: c.asked == Of(events, who, c)
  }

  function Repeat(c: Conn?, n: nat): (s: seq<Conn?>)
    ensures |s| == n && forall i :: 0 <= i < n ==> s[i] == c
  {
    if n == 0 then [] else Repeat(c, n - 1) + [c]
  }

  lemma {:induction false} OfMore(events: seq<Event>, who: seq<Conn?>, done: seq<Event>, cause: Conn?, c: Conn)
    requires |events| == |who|
    ensures Of(events + done, who + Repeat(cause, |done|), c) == Of(events, who, c) + if c == cause then done else []
  {
    if done == [] {
      assert events + done == events && who + Repeat(cause, 0) == who;
    } else {
      var n := |done| - 1;
      OfMore(events, who, done[..n], cause, c);
      var all, them := events + done, who + Repeat(cause, n + 1);
      assert all[..|all| - 1] == events + done[..n] && them[..|all| - 1] == who + Repeat(cause, n);
      assert done == done[..n] + [done[n]];
    }
  }

  lemma {:induction false} OfNobody(events: seq<Event>, who: seq<Conn?>, c: Conn)
    requires |events| == |who| && c !in who
    ensures Of(events, who, c) == []
  {
    if events != [] {
      var n := |events| - 1;
      assert who[n] in who;
      OfNobody(events[..n], who[..n], c);
    }
  }

  lemma {:induction false} OfPart(events: seq<Event>, who: seq<Conn?>, c: Conn)
    requires |events| == |who|
    ensures forall e <- Of(events, who, c) :: e in events
  {
    if events != [] {
      var n := |events| - 1;
      OfPart(events[..n], who[..n], c);
    }
  }

  /** One connection has caused some more events. */
  lemma AttributedMore(others: seq<Conn>, conn: Conn, events: seq<Event>, who: seq<Conn?>, done: seq<Event>)
    requires Attributed(others, events, who) && conn !in others && conn.asked == Of(events, who, conn) + done
    ensures Attributed(others + [conn], events + done, who + Repeat(conn, |done|))
  {
    forall c <- others + [conn]
      ensures c.asked == Of(events + done, who + Repeat(conn, |done|), c)
    {
      OfMore(events, who, done, conn, c);
      assert Of(events, who, c) + [] == Of(events, who, c);
    }
  }

  /** A pass of the timers belongs to nobody. */
  lemma AttributedPass(conns: seq<Conn>, events: seq<Event>, who: seq<Conn?>, e: Event)
    requires Attributed(conns, events, who)
    ensures Attributed(conns, events + [e], who + [null])
  {
    assert Repeat(null, 1) == [null];
    forall c <- conns
      ensures c.asked == Of(events + [e], who + [null], c)
    {
      OfMore(events, who, [e], null, c);
      assert Of(events, who, c) + [] == Of(events, who, c);
    }
  }

  lemma AttributedNew(conns: seq<Conn>, conn: Conn, events: seq<Event>, who: seq<Conn?>)
    requires Attributed(conns, events, who) && conn.asked == [] && forall i :: 0 <= i < |who| ==> who[i] != conn
    ensures Attributed(conns + [conn], events, who)
  {
    OfNobody(events, who, conn);
  }

  lemma JustOne(others: seq<Conn>, c: Conn, events: seq<Event>, who: seq<Conn?>)
    requires Attributed(others + [c], events, who)
    ensures Attributed(others, events, who) && Attributed([c], events, who)
  {
  }

  /** What the others keep, and what a new connection brings. */
  lemma Admitted(conns: seq<Conn>, conn: Conn, database: set<object>, now: nat, events: seq<Event>, who: seq<Conn?>)
    requires ConnsApart(conns, database) && OldestFirst(conns) && Until(conns, now) && AllSettled(conns)
    requires Attributed(conns, events, who)
    requires conn.TwoBuffers() && conn.lastActive == now
    requires conn.State() == ConnState(true, false, false, [], [], [], [], [])
    requires conn !in database && conn.incoming !in database && conn.outgoing !in database && conn.idleNode !in database
    requires Others(conn, conns)
    requires forall i :: 0 <= i < |who| ==> who[i] != conn
    ensures ConnsApart(conns + [conn], database) && OldestFirst(conns + [conn]) && Until(conns + [conn], now)
    ensures AllSettled(conns + [conn]) && Attributed(conns + [conn], events, who)
  {
    hide ConnsApart, OldestFirst, Until, AllSettled, Attributed, Settled, Accounted;
    Refreshed(conns, conn, now);
    NewApart(conns, database, conn);
    NewAccount();
    NewSettled(conns, conn);
    AttributedNew(conns, conn, events, who);
  }

  lemma VisitedTick(s: ConnState, ready: Ready, clock: nat -> nat, done: seq<Event>, s': ConnState, t: nat)
    requires Visited(s, ready, clock, done, s') && Clock(clock, t)
    ensures Ticking(done) && NoLater(done, clock(|done|)) && t <= clock(|done|)
    ensures forall i :: 0 <= i < |done| ==> t <= done[i].now
  {
    AnswersTick(done, clock, Reading(s, ready).cmds, t);
  }

  lemma AttributedPart(a: seq<Conn>, c: Conn, b: seq<Conn>, events: seq<Event>, who: seq<Conn?>)
    requires Attributed(a + [c] + b, events, who)
    ensures Attributed(a + b, events, who) && c.asked == Of(events, who, c)
  {
  }

  ghost function Snapshots(conns: seq<Conn>): (s: seq<ConnState>)
    reads conns, set c | c in conns :: c.incoming, set c | c in conns :: c.outgoing
    ensures |s| == |conns| && forall k :: 0 <= k < |conns| ==> s[k] == conns[k].State()
  {
    if conns == [] then [] else Snapshots(conns[..|conns| - 1]) + [conns[|conns| - 1].State()]
  }

  /** The first `n` of these connections have had their visits, and the others have not. */
  ghost predicate VisitedSome(was: seq<ConnState>, visits: seq<Visit>, served: seq<seq<Event>>, states: seq<ConnState>,
      n: nat) {
    n == |served| <= |was| == |visits| == |states| &&
    (forall k :: 0 <= k < n ==> Visited(was[k], visits[k].ready, visits[k].reading, served[k], states[k])) &&
    forall k :: n <= k < |was| ==> states[k] == was[k]
  }

  lemma VisitedOneMore(was: seq<ConnState>, visits: seq<Visit>, served: seq<seq<Event>>, states: seq<ConnState>, n: nat,
      done: seq<Event>, s': ConnState)
    requires VisitedSome(was, visits, served, states, n) && n < |visits| && n < |states|
    requires Visited(states[n], visits[n].ready, visits[n].reading, done, s')
    ensures VisitedSome(was, visits, served + [done], states[n := s'], n + 1)
  {
    hide Visited;
  }

  /** The visited connections carry the times of their visits, and are in the queue unless dropped. */
  predicate Placed(polled: seq<Conn>, visits: seq<Visit>, queue: seq<Conn>)
    requires |polled| <= |visits|
    reads polled`lastActive, polled`wantClose
  {
    forall k :: 0 <= k < |polled| ==>
      polled[k].lastActive == visits[k].touched && (polled[k] in queue <==> Stays(visits[k].ready, polled[k]))
  }

  /** What becomes of the visited connections: one that stays open is closed for being idle exactly if
      five seconds or more lie between its visit and the end of the round, and queued otherwise. */
  predicate Judged(polled: seq<Conn>, visits: seq<Visit>, closed: seq<Conn>, queue: seq<Conn>, end: nat)
    requires |polled| <= |visits|
    reads polled`lastActive, polled`wantClose
  {
    forall k :: 0 <= k < |polled| ==>
      polled[k].lastActive == visits[k].touched &&
      (polled[k] in closed <==> Stays(visits[k].ready, polled[k]) && visits[k].touched + IDLE_TIMEOUT <= end) &&
      (polled[k] in queue <==> Stays(visits[k].ready, polled[k]) && end < visits[k].touched + IDLE_TIMEOUT)
  }

  lemma PlacedJudged(polled: seq<Conn>, visits: seq<Visit>, was: seq<Conn>, closed: seq<Conn>, queue: seq<Conn>,
      end: nat)
    requires |polled| <= |visits| && Placed(polled, visits, was)
    requires forall c :: c in closed <==> c in was && c.lastActive + IDLE_TIMEOUT <= end
    requires forall c :: c in queue <==> c in was && end < c.lastActive + IDLE_TIMEOUT
    ensures Judged(polled, visits, closed, queue, end)
  {
  }

  /** A connection ends with its stream, with bad bytes, or with a call that fails. */
  predicate Ends(incoming: Bytes, ready: Ready, answered: bool) {
    (ready.canRead && (ready.r.ReadEof? || ready.r.ReadFailed?)) ||
    (ready.canRead && ready.r.Got? && Drain(incoming + ready.r.chunk).close) ||
    ((ready.canWrite || answered) && ready.w.WriteFailed?)
  }

  lemma EndsWhen()
    ensures forall incoming, ready: Ready, answered :: Ends(incoming, ready, answered) <==>
      (ready.canRead && (ready.r.ReadEof? || ready.r.ReadFailed?)) ||
      (ready.canRead && ready.r.Got? && Drain(incoming + ready.r.chunk).close) ||
      ((ready.canWrite || answered) && ready.w.WriteFailed?)
  {
    hide Drain;
  }

  lemma EndsAsClosed(s: ConnState, ready: Ready, clock: nat -> nat, done: seq<Event>, s': ConnState)
    requires Visited(s, ready, clock, done, s')
    ensures s'.wantClose <==> Ends(s.incoming, ready, done != [])
  {
    hide Visited, Drain;
    VisitSays(s, ready, clock, done, s');
  }

  /** What becomes of the visited connections, without speaking of visits. */
  lemma EndedOrKept(polled: seq<Conn>, visits: seq<Visit>, was: seq<ConnState>, served: seq<seq<Event>>,
      closed: seq<Conn>, queue: seq<Conn>, end: nat)
    requires |polled| == |visits| && VisitedSome(was, visits, served, Snapshots(polled), |polled|)
    requires Judged(polled, visits, closed, queue, end)
    ensures |was| == |served| == |polled|
    ensures forall k :: 0 <= k < |polled| ==>
      var stays := !visits[k].ready.error && !Ends(was[k].incoming, visits[k].ready, served[k] != []);
      (polled[k] in closed <==> stays && visits[k].touched + 5000 <= end) &&
      (polled[k] in queue <==> stays && end < visits[k].touched + 5000)
  {
    hide *;
    SomeVisited(was, visits, served, Snapshots(polled));
    forall k | 0 <= k < |polled|
      ensures var stays := !visits[k].ready.error && !Ends(was[k].incoming, visits[k].ready, served[k] != []);
        (polled[k] in closed <==> stays && visits[k].touched + 5000 <= end) &&
        (polled[k] in queue <==> stays && end < visits[k].touched + 5000)
    {
      EndsAsClosed(was[k], visits[k].ready, visits[k].reading, served[k], Snapshots(polled)[k]);
      JudgedAt(polled, visits, closed, queue, end, k);
    }
  }

  lemma SomeVisited(was: seq<ConnState>, visits: seq<Visit>, served: seq<seq<Event>>, states: seq<ConnState>)
    requires VisitedSome(was, visits, served, states, |states|)
    ensures |served| == |was| == |visits| == |states|
    ensures forall k :: 0 <= k < |states| ==>
      Visited(was[k], visits[k].ready, visits[k].reading, served[k], states[k])
  {
    hide Visited;
  }

  lemma JudgedAt(polled: seq<Conn>, visits: seq<Visit>, closed: seq<Conn>, queue: seq<Conn>, end: nat, k: nat)
    requires k < |polled| <= |visits| && Judged(polled, visits, closed, queue, end)
    ensures Snapshots(polled)[k].wantClose == polled[k].wantClose
    ensures var stays := !visits[k].ready.error && !polled[k].wantClose;
      (polled[k] in closed <==> stays && visits[k].touched + 5000 <= end) &&
      (polled[k] in queue <==> stays && end < visits[k].touched + 5000)
  {
    hide Snapshots;
  }

  lemma Inputs(polled: seq<Conn>)
    ensures forall k :: 0 <= k < |polled| ==> Snapshots(polled)[k].incoming == polled[k].incoming.data
  {
    hide Snapshots;
  }

  lemma PlacedOneMore(polled: seq<Conn>, visits: seq<Visit>, n: nat, was: seq<Conn>, queue: seq<Conn>)
    requires n < |polled| <= |visits| && Distinct(polled) && Placed(polled[..n], visits, was)
    requires polled[n].lastActive == visits[n].touched && (polled[n] in queue <==> Stays(visits[n].ready, polled[n]))
    requires forall c :: c != polled[n] ==> (c in queue <==> c in was)
    ensures Placed(polled[..n + 1], visits, queue)
  {
    forall k | 0 <= k < n + 1
      ensures polled[k].lastActive == visits[k].touched && (polled[k] in queue <==> Stays(visits[k].ready, polled[k]))
    {
      if k < n {
        assert polled[..n][k] == polled[k] && polled[k] != polled[n];
      }
    }
  }

  lemma NewApart(conns: seq<Conn>, database: set<object>, conn: Conn)
    requires ConnsApart(conns, database) && conn.TwoBuffers()
    requires conn !in database && conn.incoming !in database && conn.outgoing !in database && conn.idleNode !in database
    requires Others(conn, conns)
    ensures ConnsApart(conns + [conn], database)
  {
  }

  lemma NewSettled(conns: seq<Conn>, conn: Conn)
    requires AllSettled(conns) && Settled(conn.State()) && Accounted(conn.State())
    ensures AllSettled(conns + [conn])
  {
    hide Settled, Accounted, Conn.State;
  }

  /** A new connection owes nothing. */
  lemma NewAccount()
    ensures var s := ConnState(true, false, false, [], [], [], [], []); Settled(s) && Accounted(s)
  {
    EmptyStream();
    NoFrames([]);
  }

  lemma Parts(a: seq<Conn>, c: Conn, b: seq<Conn>, database: set<object>)
    requires ConnsApart(a + [c] + b, database)
    ensures ConnsApart(a + b, database) && c.TwoBuffers()
    ensures c !in database && c.incoming !in database && c.outgoing !in database && c.idleNode !in database
  {
  }

  lemma PartsSettled(a: seq<Conn>, c: Conn, b: seq<Conn>)
    requires AllSettled(a + [c] + b)
    ensures AllSettled(a + b) && Settled(c.State()) && Accounted(c.State())
  {
    hide Settled, Accounted, Conn.State;
  }

  predicate Others(c: Conn, conns: seq<Conn>) {
    forall d <- conns ::
      d != c && d.incoming != c.incoming && d.outgoing != c.outgoing &&
      d.incoming != c.outgoing && d.outgoing != c.incoming
  }

  lemma OthersApart(a: seq<Conn>, c: Conn, b: seq<Conn>, database: set<object>)
    requires ConnsApart(a + [c] + b, database) && c !in a + b
    ensures Others(c, a + b)
  {
  }

  lemma RingApart(head: DList, conns: seq<Conn>, database: set<object>)
    requires ConnsApart(conns, database) && head !in database
    ensures forall d <- RingOf(head, conns) :: d !in database
  {
    hide RingOf, Nodes;
    forall d <- RingOf(head, conns)
      ensures d !in database
    {
      InRing(head, conns, d);
    }
  }

  /** The database has grown by new memory only. */
  lemma StillApart(conns: seq<Conn>, database: set<object>, database': set<object>)
    requires ConnsApart(conns, database)
    requires forall c <- conns ::
      c !in database' - database && c.incoming !in database' - database && c.outgoing !in database' - database
    requires forall c <- conns :: c.idleNode !in database' - database
    ensures ConnsApart(conns, database')
  {
  }

  lemma RingElsewhere(ring: seq<DList>, objects: set<object>, database: set<object>)
    requires forall k :: 0 <= k < |ring| ==> ring[k] !in database
    requires forall o <- objects :: !(o is DList) || o in database
    ensures forall k :: 0 <= k < |ring| ==> ring[k] !in objects
  {
  }

  /** What the others keep when the last connection leaves. */
  lemma Gone(conns: seq<Conn>, c: Conn, database: set<object>, t: nat)
    requires ConnsApart(conns + [c], database) && OldestFirst(conns + [c]) && Until(conns + [c], t)
    ensures ConnsApart(conns, database) && OldestFirst(conns) && Until(conns, t)
    ensures conns + [c] == conns + [c] + [] && conns == conns + []
  {
    assert conns + [c] == conns + [c] + [] && conns == conns + [];
    Parts(conns, c, [], database);
    OthersInOrder(conns, c, [], t);
  }

  /** What the others keep when the connections at the front go. */
  lemma FrontGone(closed: seq<Conn>, rest: seq<Conn>, database: set<object>, t: nat)
    requires ConnsApart(closed + rest, database) && OldestFirst(closed + rest) && Until(closed + rest, t)
    requires AllSettled(closed + rest)
    ensures ConnsApart(rest, database) && OldestFirst(rest) && Until(rest, t) && AllSettled(rest)
  {
    hide Settled, Accounted, Conn.State;
    assert forall i :: 0 <= i < |rest| ==> rest[i] == (closed + rest)[|closed| + i];
  }

  lemma Outside(conns: seq<Conn>, database: set<object>)
    requires ConnsApart(conns, database)
    ensures forall k :: 0 <= k < |conns| ==> conns[k] !in database
    ensures forall c <- conns :: c !in database && c.incoming !in database && c.outgoing !in database
  {
  }

  lemma FrontAttributed(closed: seq<Conn>, rest: seq<Conn>, events: seq<Event>, who: seq<Conn?>)
    requires Attributed(closed + rest, events, who)
    ensures Attributed(rest, events, who)
  {
  }

  lemma ClosedExactly(closed: seq<Conn>, rest: seq<Conn>, now: nat)
    requires forall i :: 0 <= i < |closed| ==> closed[i].lastActive + IDLE_TIMEOUT <= now
    requires forall i :: 0 <= i < |rest| ==> now < rest[i].lastActive + IDLE_TIMEOUT
    ensures forall c :: c in closed <==> c in closed + rest && c.lastActive + IDLE_TIMEOUT <= now
    ensures forall c :: c in rest <==> c in closed + rest && now < c.lastActive + IDLE_TIMEOUT
  {
  }

  lemma OnePass(nums: Numbers, now: nat, ks: Keyspace, ks': Keyspace, evicted: seq<Bytes>)
    requires Sweep(now, ks, ks', evicted)
    ensures Run(nums, [ks, ks'], [Swept(now, evicted)])
  {
    hide Sweep;
    assert Follows(nums, ks, Swept(now, evicted), ks');
  }

  lemma NextPending(polled: seq<Conn>, visits: seq<Visit>, before: seq<Conn>, after: seq<Conn>)
    requires |polled| == |visits| > 0 && Pending(polled, visits, before + [polled[0]] + after)
    ensures AsAsked(polled[0], visits[0].ready) && Pending(polled[1..], visits[1..], before + after)
    ensures forall k :: 0 <= k < |polled[1..]| ==> polled[1..][k] != polled[0] && polled[1..][k] in before + after
  {
  }

  lemma PendingLonger(polled: seq<Conn>, visits: seq<Visit>, queue: seq<Conn>, more: seq<Conn>)
    requires |polled| == |visits| && Pending(polled, visits, queue)
    ensures Pending(polled, visits, queue + more)
  {
  }

  lemma NextInTime(visits: seq<Visit>, t: nat, end: nat)
    requires visits != [] && InTime(visits, t, end)
    ensures t <= visits[0].touched && Clock(visits[0].reading, visits[0].touched)
    ensures forall n: nat :: visits[0].reading(n) <= end && InTime(visits[1..], visits[0].reading(n), end)
  {
    forall n: nat
      ensures InTime(visits[1..], visits[0].reading(n), end)
    {
      assert forall k :: 0 <= k < |visits[1..]| ==> visits[1..][k] == visits[k + 1];
    }
  }

  lemma EachPending(polled: seq<Conn>, visits: seq<Visit>, queue: seq<Conn>)
    requires |polled| == |visits| && Pending(polled, visits, queue)
    ensures forall k :: 0 <= k < |polled| ==> polled[k] in queue
    ensures forall k, l :: 0 <= k < l < |polled| ==> polled[k] != polled[l]
  {
  }

  lemma FirstPending(polled: seq<Conn>, visits: seq<Visit>, queue: seq<Conn>)
    requires |polled| == |visits| > 0 && Pending(polled, visits, queue)
    ensures polled[0] in queue
  {
  }

  class Server {
    const nums: Numbers
    const store: Store
    const idle: IdleQueue
    ghost var clock: nat
    ghost var states: seq<Keyspace>
    ghost var events: seq<Event>
    ghost var who: seq<Conn?>

    constructor (nums: Numbers)
      ensures Valid() && events == [] && clock == 0 && idle.queue == [] && this.nums == nums
      ensures fresh(idle) && fresh(idle.head) && fresh(store.Repr)
    {
      hide Store.Valid, Store.View, History, OldestFirst, Until, ConnsApart, AllSettled, Attributed;
      this.nums := nums;
      store := new Store();
      idle := new IdleQueue();
      clock, states, events, who := 0, [map[]], [], [];
      new;
      NothingYetDone(nums, store.Repr);
    }

    /** What holds whenever the server polls: the database is in order and is what its history made of
        it, the idle queue is in order, every open connection waits as it should and its account is right,
        and what it was answered is its own part of the history. */
    ghost predicate Valid()
      reads this, store, store.Repr, idle, idle.Ring(), idle.queue
      reads set c | c in idle.queue :: c.incoming, set c | c in idle.queue :: c.outgoing
    {
      store.Valid() && idle.Valid() && this !in store.Repr && idle !in store.Repr && idle.head !in store.Repr &&
      ConnsApart(idle.queue, store.Repr) && OldestFirst(idle.queue) && Until(idle.queue, clock) &&
      History(nums, states, events, clock, store.View()) && AllSettled(idle.queue) &&
      Attributed(idle.queue, events, who)
    }

    /** `Valid`, taken apart. */
    lemma Pieces()
      requires Valid()
      ensures store.Valid() && idle.Valid() && this !in store.Repr && idle !in store.Repr && idle.head !in store.Repr
      ensures ConnsApart(idle.queue, store.Repr) && OldestFirst(idle.queue) && Until(idle.queue, clock)
      ensures History(nums, states, events, clock, store.View()) && AllSettled(idle.queue)
      ensures Attributed(idle.queue, events, who)
    {
    }

    /** `Valid`, put together again. */
    lemma Whole()
      requires store.Valid() && idle.Valid() && this !in store.Repr && idle !in store.Repr && idle.head !in store.Repr
      requires ConnsApart(idle.queue, store.Repr) && OldestFirst(idle.queue) && Until(idle.queue, clock)
      requires History(nums, states, events, clock, store.View()) && AllSettled(idle.queue)
      requires Attributed(idle.queue, events, who)
      ensures Valid()
    {
    }

    /** A new connection. */
    method Accept(now: nat) returns (conn: Conn)
      requires Valid() && clock <= now
      modifies this, idle, idle.Ring()
      ensures Valid() && clock == now && events == old(events) && who == old(who) && store.View() == old(store.View())
      ensures idle.queue == old(idle.queue) + [conn] && fresh(conn) && fresh(conn.incoming) && fresh(conn.outgoing)
      ensures conn.State() == ConnState(true, false, false, [], [], [], [], []) && conn.lastActive == now
      ensures forall k :: 0 <= k < |idle.Ring()| ==> idle.Ring()[k] in old(idle.Ring()) || fresh(idle.Ring()[k])
    {
      hide Store.Valid, Store.View, IdleQueue.Valid, RingOf, History, Settled, Accounted, OldestFirst, Until,
        ConnsApart, AllSettled, Attributed, Of;
      ghost var queue := idle.queue;
      HistoryLater(nums, states, events, clock, store.View(), now);
      LaterStill(queue, clock, now);
      RingApart(idle.head, queue, store.Repr);
      clock := now;
      assert forall k :: 0 <= k < |who| ==> who[k] == null || allocated(who[k]);
      conn := idle.Enter(now);
      Admitted(queue, conn, store.Repr, now, events, who);
    }

    /** The read or write of one polled connection, which is now the most recently active one. */
    method Handle(conn: Conn, ready: Ready, reading: nat -> nat, ghost others: seq<Conn>)
      returns (ghost more: seq<Keyspace>, ghost done: seq<Event>)
      requires store.Valid() && idle.Valid() && idle.queue == others + [conn] && ConnsApart(idle.queue, store.Repr)
      requires idle !in store.Repr && this !in store.Repr
      requires AllSettled(others) && Attributed(others, events, who) && Others(conn, others)
      requires Settled(conn.State()) && AsAsked(conn, ready)
      requires forall k :: 0 <= k < |idle.Ring()| ==> idle.Ring()[k] !in store.Repr
      modifies conn`wantRead, conn`wantWrite, conn`wantClose, conn`chunks, conn`asked, conn`written, conn.incoming
      modifies conn.outgoing, store.Repr
      ensures idle.Valid() && store.Valid() && fresh(store.Repr - old(store.Repr)) && ConnsApart(idle.queue, store.Repr)
      ensures AllSettled(others) && (conn.wantClose || Settled(conn.State())) && Attributed(others, events, who)
      ensures Run(nums, more, done) && |more| == |done| + 1 && more[0] == old(store.View())
      ensures more[|done|] == store.View()
      ensures Visited(old(conn.State()), ready, reading, done, conn.State()) && conn.asked == old(conn.asked) + done
    {
      hide Store.Valid, Store.View, IdleQueue.Valid, RingOf, AllSettled, Attributed, Of, Visited, Run, Settled,
        Accounted;
      ghost var database := store.Repr;
      RingElsewhere(idle.Ring(), {conn, conn.incoming, conn.outgoing} + database, database);
      idle.Exists();
      more, done := conn.Serve(nums, reading, store, ready);
      StillApart(others + [conn], database, store.Repr);
    }

    /** The refresh, and the read or write that follows it. */
    method Attend(conn: Conn, ready: Ready, touched: nat, reading: nat -> nat, ghost before: seq<Conn>,
        ghost after: seq<Conn>)
      returns (ghost more: seq<Keyspace>, ghost done: seq<Event>)
      requires Valid() && idle.queue == before + [conn] + after && AsAsked(conn, ready) && clock <= touched
      modifies idle, idle.Ring(), conn, conn.incoming, conn.outgoing, store.Repr
      ensures idle.Valid() && idle.queue == before + after + [conn] && OldestFirst(idle.queue)
      ensures Until(idle.queue, touched)
      ensures store.Valid() && fresh(store.Repr - old(store.Repr)) && ConnsApart(idle.queue, store.Repr)
      ensures AllSettled(before + after) && (conn.wantClose || Settled(conn.State()))
      ensures Attributed(before + after, events, who)
      ensures Run(nums, more, done) && |more| == |done| + 1 && more[0] == old(store.View())
      ensures more[|done|] == store.View()
      ensures Visited(old(conn.State()), ready, reading, done, conn.State()) && conn.lastActive == touched
      ensures conn.asked == old(conn.asked) + done
      ensures forall k :: 0 <= k < |idle.Ring()| ==> idle.Ring()[k] in old(idle.Ring())
    {
      hide *;
      Mine(conn, before, after);
      Refresh(conn, touched, before, after);
      Outside(idle.queue, store.Repr);
      more, done := Handle(conn, ready, reading, before + after);
    }

    /** What holds of one of the queued connections. */
    lemma Mine(conn: Conn, before: seq<Conn>, after: seq<Conn>)
      requires Valid() && idle.queue == before + [conn] + after
      ensures Settled(conn.State()) && Accounted(conn.State()) && |events| == |who|
      ensures conn.asked == Of(events, who, conn)
      ensures conn !in before + after
      ensures this !in store.Repr && idle !in store.Repr && idle.head !in store.Repr
      ensures History(nums, states, events, clock, store.View())
    {
      hide Store.Valid, Store.View, IdleQueue.Valid, RingOf, History, OldestFirst, Until, ConnsApart, AllSettled,
        Attributed, Of, Settled, Accounted;
      PartsSettled(before, conn, after);
      AttributedPart(before, conn, after, events, who);
      Alone(conn, before, after);
    }

    /** The refresh of one polled connection: only the idle queue changes. */
    method Refresh(conn: Conn, touched: nat, ghost before: seq<Conn>, ghost after: seq<Conn>)
      requires Valid() && idle.queue == before + [conn] + after && clock <= touched
      modifies idle, idle.Ring(), conn`lastActive
      ensures idle.Valid() && idle.queue == before + after + [conn] && OldestFirst(idle.queue)
      ensures Until(idle.queue, touched)
      ensures store.Valid() && store.View() == old(store.View()) && ConnsApart(idle.queue, store.Repr)
      ensures Settled(conn.State()) && Accounted(conn.State()) && conn.State() == old(conn.State())
      ensures AllSettled(before + after) && Others(conn, before + after) && conn.lastActive == touched
      ensures Attributed(before + after, events, who) && conn.asked == Of(events, who, conn)
      ensures forall k :: 0 <= k < |idle.Ring()| ==> idle.Ring()[k] in old(idle.Ring()) && idle.Ring()[k] !in store.Repr
    {
      hide Store.Valid, Store.View, IdleQueue.Valid, RingOf, History, OldestFirst, Until, AllSettled, Attributed, Of,
        Settled, Accounted;
      RingApart(idle.head, idle.queue, store.Repr);
      Parts(before, conn, after, store.Repr);
      PartsSettled(before, conn, after);
      AttributedPart(before, conn, after, events, who);
      Alone(conn, before, after);
      OthersApart(before, conn, after, store.Repr);
      LaterStill(idle.queue, clock, touched);
      idle.Touch(conn, touched, before, after);
    }

    lemma Alone(conn: Conn, before: seq<Conn>, after: seq<Conn>)
      requires idle.Valid() && idle.queue == before + [conn] + after
      ensures conn !in before + after
    {
      Absent(idle.head, before, conn, after);
    }

    /** The history grows by what one connection's requests did, or by a pass of the timers. */
    ghost method Note(more: seq<Keyspace>, done: seq<Event>, cause: Conn?, u: nat)
      requires Run(nums, more, done) && |more| == |done| + 1 && History(nums, states, events, clock, more[0])
      requires clock <= u && Ticking(done) && NoLater(done, u) && forall i :: 0 <= i < |done| ==> clock <= done[i].now
      modifies this`states, this`events, this`who, this`clock
      ensures History(nums, states, events, clock, more[|done|]) && clock == u && events == old(events) + done
      ensures who == old(who) + Repeat(cause, |done|)
    {
      hide Run, History;
      HistoryOn(nums, states, events, clock, more, done, u);
      states, events, who, clock := states + more[1..], events + done, who + Repeat(cause, |done|), u;
    }

    /** One polled connection: it becomes the most recently active one, is served, and stays unless an
        error or a bad request ends it. */
    method ServeOne(conn: Conn, ready: Ready, touched: nat, reading: nat -> nat, ghost before: seq<Conn>,
        ghost after: seq<Conn>)
      returns (ghost done: seq<Event>)
      requires Valid() && idle.queue == before + [conn] + after && AsAsked(conn, ready)
      requires clock <= touched && Clock(reading, touched)
      modifies this, idle, idle.Ring(), conn, conn.incoming, conn.outgoing, store.Repr
      ensures Valid() && fresh(store.Repr - old(store.Repr)) && clock == reading(|done|)
      ensures events == old(events) + done && who == old(who) + Repeat(conn, |done|)
      ensures Visited(old(conn.State()), ready, reading, done, conn.State()) && conn.lastActive == touched
      ensures Accounted(conn.State()) && Attributed([conn], events, who)
      ensures idle.queue == before + after + if ready.error || conn.wantClose then [] else [conn]
      ensures conn !in before + after
      ensures forall k :: 0 <= k < |idle.Ring()| ==> idle.Ring()[k] in old(idle.Ring())
    {
      hide *;
      ghost var others, s := before + after, conn.State();
      Mine(conn, before, after);
      ghost var more;
      more, done := Attend(conn, ready, touched, reading, before, after);
      VisitedAccounted(s, ready, reading, done, conn.State());
      VisitedTick(s, ready, reading, done, conn.State(), touched);
      AttributedMore(others, conn, events, who, done);
      RingElsewhere(idle.Ring(), {this}, {});
      idle.Exists();
      Note(more, done, conn, reading(|done|));
      assert idle.Valid();
      LaterStill(idle.queue, touched, clock);
      AttributedPart(others, conn, [], events, who);
      KeepOrClose(conn, ready.error, others);
    }

    /** The end of the loop body: a connection is dropped after an error or when it asked for it. */
    method KeepOrClose(conn: Conn, error: bool, ghost others: seq<Conn>)
      requires store.Valid() && idle.Valid() && this !in store.Repr && idle !in store.Repr && idle.head !in store.Repr
      requires idle.queue == others + [conn] && ConnsApart(idle.queue, store.Repr) && OldestFirst(idle.queue)
      requires Until(idle.queue, clock)
      requires History(nums, states, events, clock, store.View()) && Attributed(idle.queue, events, who)
      requires AllSettled(others) && Accounted(conn.State()) && (conn.wantClose || Settled(conn.State()))
      modifies idle, idle.Ring()
      ensures Valid() && idle.queue == others + if error || conn.wantClose then [] else [conn]
      ensures Attributed([conn], events, who)
      ensures forall k :: 0 <= k < |idle.Ring()| ==> idle.Ring()[k] in old(idle.Ring())
    {
      hide Server.Valid, Store.Valid, Store.View, IdleQueue.Valid, RingOf, Nodes, History, OldestFirst, Until,
        ConnsApart, AllSettled, Attributed, Of, Run, Settled, Accounted;
      JustOne(others, conn, events, who);
      if error || conn.wantClose {
        Gone(others, conn, store.Repr, clock);
        RingApart(idle.head, idle.queue, store.Repr);
        idle.Leave(conn, others, []);
      } else {
        NewSettled(others, conn);
      }
      Whole();
    }

    /** The first loop of `process_timers`: connections idle for five seconds go. */
    method CloseIdle(now: nat) returns (ghost closed: seq<Conn>)
      requires Valid() && clock <= now
      modifies idle, idle.Ring()
      ensures Valid() && store.View() == old(store.View()) && old(idle.queue) == closed + idle.queue
      ensures forall c :: c in closed <==> c in old(idle.queue) && c.lastActive + IDLE_TIMEOUT <= now
      ensures forall c :: c in idle.queue <==> c in old(idle.queue) && now < c.lastActive + IDLE_TIMEOUT
      ensures forall k :: 0 <= k < |idle.Ring()| ==> idle.Ring()[k] in old(idle.Ring())
    {
      hide Store.Valid, Store.View, IdleQueue.Valid, RingOf, History, OldestFirst, Until, ConnsApart, AllSettled,
        Attributed, Of;
      RingApart(idle.head, idle.queue, store.Repr);
      closed := idle.Expire(now);
      FrontGone(closed, idle.queue, store.Repr, clock);
      FrontAttributed(closed, idle.queue, events, who);
      ClosedExactly(closed, idle.queue, now);
    }

    /** The second loop: due keys go. */
    method ExpireDue(now: nat) returns (ghost evicted: seq<Bytes>)
      requires Valid() && clock <= now
      modifies this`states, this`events, this`who, this`clock, store.Repr
      ensures Valid() && clock == now && store.Repr == old(store.Repr)
      ensures events == old(events) + [Swept(now, evicted)] && who == old(who) + [null]
      ensures Sweep(now, old(store.View()), store.View(), evicted)
      ensures forall i :: 0 <= i < |idle.queue| ==> idle.queue[i].lastActive == old(idle.queue[i].lastActive)
    {
      hide Store.Valid, Store.View, IdleQueue.Valid, RingOf, History, OldestFirst, Until, ConnsApart, AllSettled,
        Attributed, Of, Run, Sweep;
      ghost var was := store.View();
      LaterStill(idle.queue, clock, now);
      Outside(idle.queue, store.Repr);
      RingApart(idle.head, idle.queue, store.Repr);
      idle.Exists();
      evicted := ExpireKeys(store, now);
      OnePass(nums, now, was, store.View(), evicted);
      AttributedPass(idle.queue, events, who, Swept(now, evicted));
      RingElsewhere(idle.Ring(), {this}, {});
      assert Repeat(null, 1) == [null];
      Note([was, store.View()], [Swept(now, evicted)], null, now);
    }

    /** `process_timers`. */
    method ProcessTimers(now: nat) returns (ghost closed: seq<Conn>, ghost evicted: seq<Bytes>)
      requires Valid() && clock <= now
      modifies this, idle, idle.Ring(), store.Repr
      ensures Valid() && clock == now && store.Repr == old(store.Repr)
      ensures events == old(events) + [Swept(now, evicted)] && who == old(who) + [null]
      ensures Sweep(now, old(store.View()), store.View(), evicted)
      ensures old(idle.queue) == closed + idle.queue
      ensures forall i :: 0 <= i < |old(idle.queue)| ==> old(idle.queue)[i].lastActive == old(idle.queue[i].lastActive)
      ensures forall c :: c in closed <==> c in old(idle.queue) && c.lastActive + IDLE_TIMEOUT <= now
      ensures forall c :: c in idle.queue <==> c in old(idle.queue) && now < c.lastActive + IDLE_TIMEOUT
      ensures forall k :: 0 <= k < |idle.Ring()| ==> idle.Ring()[k] in old(idle.Ring())
    {
      hide *;
      Elsewhere();
      closed := CloseIdle(now);
      evicted := ExpireDue(now);
    }

    /** Connections in memory of their own: apart from the database, and from each other. */
    ghost predicate OnTheirOwn(polled: seq<Conn>)
      reads store
    {
      Distinct(polled) &&
      (forall k :: 0 <= k < |polled| ==>
        polled[k] !in store.Repr && polled[k].incoming !in store.Repr && polled[k].outgoing !in store.Repr) &&
      forall k, l :: 0 <= k < |polled| && 0 <= l < |polled| && k != l ==>
        polled[k].incoming != polled[l].incoming && polled[k].incoming != polled[l].outgoing &&
        polled[k].outgoing != polled[l].outgoing
    }

    lemma OwnParts(polled: seq<Conn>)
      requires OnTheirOwn(polled)
      ensures forall k :: 0 <= k < |polled| ==>
        polled[k] !in store.Repr && polled[k].incoming !in store.Repr && polled[k].outgoing !in store.Repr
    {
    }

    /** One turn of the loop over the polled connections: nothing happens to the others. */
    method ServeNth(polled: seq<Conn>, visits: seq<Visit>, i: nat, ghost end: nat) returns (ghost done: seq<Event>)
      requires Valid() && |polled| == |visits| && i < |polled| && OnTheirOwn(polled)
      requires Pending(polled[i..], visits[i..], idle.queue) && InTime(visits[i..], clock, end)
      modifies this, idle, idle.Ring(), store.Repr, polled[i], polled[i].incoming, polled[i].outgoing
      ensures Valid() && old(clock) <= clock <= end && fresh(store.Repr - old(store.Repr))
      ensures events == old(events) + done
      ensures Pending(polled[i + 1..], visits[i + 1..], idle.queue) && InTime(visits[i + 1..], clock, end)
      ensures OnTheirOwn(polled)
      ensures Visited(old(polled[i].State()), visits[i].ready, visits[i].reading, done, polled[i].State())
      ensures Snapshots(polled) == old(Snapshots(polled))[i := polled[i].State()]
      ensures polled[i].lastActive == visits[i].touched
      ensures (polled[i] in idle.queue <==> Stays(visits[i].ready, polled[i]))
      ensures forall c :: c != polled[i] ==> (c in idle.queue <==> c in old(idle.queue))
      ensures forall k :: 0 <= k < |idle.Ring()| ==> idle.Ring()[k] in old(idle.Ring())
    {
      hide Server.Valid, RingOf, Visited, Clock, InTime, Pending, AsAsked, Of, Accounted, Attributed, Conn.State,
        Snapshots, VisitedSome, Placed, Repeat;
      ghost var rest, later, states := polled[i..], visits[i..], Snapshots(polled);
      FirstPending(rest, later, idle.queue);
      ghost var before, after := Place(polled[i]);
      NextPending(rest, later, before, after);
      NextInTime(later, clock, end);
      assert rest[1..] == polled[i + 1..] && later[1..] == visits[i + 1..];
      done := ServeOne(polled[i], visits[i].ready, visits[i].touched, visits[i].reading, before, after);
      PendingLonger(rest[1..], later[1..], before + after, idle.queue[|before + after|..]);
      assert idle.queue == before + after + idle.queue[|before + after|..];
      assert forall k :: 0 <= k < |polled| && k != i ==> polled[k].State() == states[k];
    }

    /** The same, as progress of the loop. */
    method ServeNext(polled: seq<Conn>, visits: seq<Visit>, i: nat, ghost end: nat, ghost was: seq<ConnState>,
        ghost served: seq<seq<Event>>)
      returns (ghost done: seq<Event>)
      requires Valid() && |polled| == |visits| && i < |polled| && OnTheirOwn(polled)
      requires Pending(polled[i..], visits[i..], idle.queue) && InTime(visits[i..], clock, end)
      requires VisitedSome(was, visits, served, Snapshots(polled), i) && Placed(polled[..i], visits, idle.queue)
      modifies this, idle, idle.Ring(), store.Repr, polled[i], polled[i].incoming, polled[i].outgoing
      ensures Valid() && old(clock) <= clock <= end && fresh(store.Repr - old(store.Repr))
      ensures events == old(events) + done
      ensures Pending(polled[i + 1..], visits[i + 1..], idle.queue) && InTime(visits[i + 1..], clock, end)
      ensures OnTheirOwn(polled)
      ensures VisitedSome(was, visits, served + [done], Snapshots(polled), i + 1)
      ensures Placed(polled[..i + 1], visits, idle.queue)
      ensures forall c :: c !in polled ==> (c in idle.queue <==> c in old(idle.queue))
      ensures forall k :: 0 <= k < |idle.Ring()| ==> idle.Ring()[k] in old(idle.Ring())
    {
      hide Server.Valid, RingOf, Visited, InTime, Pending, AsAsked, Of, Accounted, VisitedSome, Placed, Snapshots,
        Conn.State;
      ghost var states, queue := Snapshots(polled), idle.queue;
      done := ServeNth(polled, visits, i, end);
      VisitedOneMore(was, visits, served, states, i, done, polled[i].State());
      PlacedOneMore(polled, visits, i, queue, idle.queue);
    }

    /** The loop over the polled connections: exactly what the visits bring is answered and written. */
    method ServeAll(polled: seq<Conn>, visits: seq<Visit>, ghost end: nat) returns (ghost served: seq<seq<Event>>)
      requires Valid() && |polled| == |visits| && Pending(polled, visits, idle.queue) && InTime(visits, clock, end)
      requires clock <= end
      modifies this, idle, idle.Ring(), store.Repr
      modifies polled, set c | c in polled :: c.incoming, set c | c in polled :: c.outgoing
      ensures Valid() && old(clock) <= clock <= end && fresh(store.Repr - old(store.Repr))
      ensures events == old(events) + Flat(served)
      ensures VisitedSome(old(Snapshots(polled)), visits, served, Snapshots(polled), |polled|)
      ensures Placed(polled, visits, idle.queue)
      ensures OnTheirOwn(polled)
      ensures forall c :: c !in polled ==> (c in idle.queue <==> c in old(idle.queue))
      ensures forall k :: 0 <= k < |idle.Ring()| ==> idle.Ring()[k] in old(idle.Ring())
    {
      hide Server.Valid, RingOf, Visited, Clock, InTime, Pending, AsAsked, Of, Accounted, VisitedSome, Placed,
        OnTheirOwn, Snapshots, Conn.State;
      var i := 0;
      served := [];
      ghost var was := Snapshots(polled);
      ServeStart(polled, visits);
      assert events == events + Flat<Event>([]);
      while i < |polled|
        invariant 0 <= i <= |polled|
        invariant Valid() && old(clock) <= clock <= end && fresh(store.Repr - old(store.Repr)) && OnTheirOwn(polled)
        invariant events == old(events) + Flat(served)
        invariant VisitedSome(was, visits, served, Snapshots(polled), i) && Placed(polled[..i], visits, idle.queue)
        invariant Pending(polled[i..], visits[i..], idle.queue) && InTime(visits[i..], clock, end)
        invariant forall k :: 0 <= k < |idle.Ring()| ==> idle.Ring()[k] in old(idle.Ring())
        invariant forall c :: c !in polled ==> (c in idle.queue <==> c in old(idle.queue))
      {
        ghost var done := ServeNext(polled, visits, i, end, was, served);
        FlatMore(served, done);
        served := served + [done];
        i := i + 1;
      }
      assert polled[..i] == polled;
    }

    lemma ServeStart(polled: seq<Conn>, visits: seq<Visit>)
      requires Valid() && |polled| == |visits| && Pending(polled, visits, idle.queue)
      ensures polled[0..] == polled && visits[0..] == visits && polled[..0] == []
      ensures OnTheirOwn(polled) && VisitedSome(Snapshots(polled), visits, [], Snapshots(polled), 0)
      ensures Placed([], visits, idle.queue)
    {
      hide Server.Valid, AsAsked;
      EachPending(polled, visits, idle.queue);
      PolledAlone(polled);
    }

    lemma PolledAlone(polled: seq<Conn>)
      requires Valid() && Distinct(polled) && forall k :: 0 <= k < |polled| ==> polled[k] in idle.queue
      ensures OnTheirOwn(polled)
    {
    }

    lemma Place(conn: Conn) returns (before: seq<Conn>, after: seq<Conn>)
      requires conn in idle.queue
      ensures idle.queue == before + [conn] + after
    {
      var i :| 0 <= i < |idle.queue| && idle.queue[i] == conn;
      before, after := idle.queue[..i], idle.queue[i + 1..];
    }

    lemma Elsewhere()
      requires Valid()
      ensures idle !in store.Repr && forall i :: 0 <= i < |idle.queue| ==> idle.queue[i] !in store.Repr
    {
    }

    /** The polled connections are visited, and the timers follow. */
    method Round(polled: seq<Conn>, visits: seq<Visit>, end: nat)
      returns (ghost served: seq<seq<Event>>, ghost closed: seq<Conn>, ghost evicted: seq<Bytes>)
      requires Valid() && |polled| == |visits| && Pending(polled, visits, idle.queue) && InTime(visits, clock, end)
      requires clock <= end
      modifies this, idle, idle.Ring(), store.Repr
      modifies polled, set c | c in polled :: c.incoming, set c | c in polled :: c.outgoing
      ensures Valid() && clock == end && fresh(store.Repr - old(store.Repr))
      ensures events == old(events) + Flat(served) + [Swept(end, evicted)]
      ensures VisitedSome(old(Snapshots(polled)), visits, served, Snapshots(polled), |polled|)
      ensures Judged(polled, visits, closed, idle.queue, end)
      ensures forall c :: c !in polled ==> (c in closed <==> c in old(idle.queue) && c.lastActive + IDLE_TIMEOUT <= end)
      ensures forall c :: c !in polled ==>
        (c in idle.queue <==> c in old(idle.queue) && end < c.lastActive + IDLE_TIMEOUT)
      ensures forall i :: 0 <= i < |old(idle.queue)| && old(idle.queue)[i] !in polled ==>
        old(idle.queue)[i].lastActive == old(idle.queue[i].lastActive)
      ensures forall k :: 0 <= k < |idle.Ring()| ==> idle.Ring()[k] in old(idle.Ring())
    {
      hide *;
      Elsewhere();
      served := ServeAll(polled, visits, end);
      OwnParts(polled);
      ghost var queue := idle.queue;
      closed, evicted := ProcessTimers(end);
      PlacedJudged(polled, visits, queue, closed, idle.queue, end);
    }

    /** One round of the event loop after `poll` has returned: a client may have connected at `accepted`,
        the polled connections are visited, and the timers follow. The history grows by exactly the
        answers to what the visits read, visit by visit, and one pass of the timers.

        A polled connection is dropped exactly if there was an error, if its stream has ended or gone bad, or
        if a read or an attempted write failed.

        A connection that was polled is closed for being idle exactly if the round takes five seconds or
        more from its visit to its end, however long nothing has arrived: the visit counts as activity.
        One that was not polled, or has just been accepted, is closed exactly if it has been idle that long. */
    method Turn(accepted: Option<nat>, polled: seq<Conn>, visits: seq<Visit>, end: nat)
      returns (rookie: Conn?, ghost served: seq<seq<Event>>, ghost closed: seq<Conn>, ghost evicted: seq<Bytes>)
      requires Valid() && |polled| == |visits| && Pending(polled, visits, idle.queue)
      requires accepted.Some? ==> clock <= accepted.value
      requires var start := if accepted.Some? then accepted.value else clock; start <= end && InTime(visits, start, end)
      modifies this, idle, idle.Ring(), store.Repr
      modifies polled, set c | c in polled :: c.incoming, set c | c in polled :: c.outgoing
      ensures Valid() && clock == end && fresh(store.Repr - old(store.Repr))
      ensures events == old(events) + Flat(served) + [Swept(end, evicted)]
      ensures VisitedSome(old(Snapshots(polled)), visits, served, Snapshots(polled), |polled|)
      ensures Judged(polled, visits, closed, idle.queue, end)
      ensures forall k :: 0 <= k < |polled| ==>
        var ready := visits[k].ready;
        var dropped := ready.error ||
          (ready.canRead && (ready.r.ReadEof? || ready.r.ReadFailed?)) ||
          (ready.canRead && ready.r.Got? && Drain(old(polled[k].incoming.data) + ready.r.chunk).close) ||
          ((ready.canWrite || served[k] != []) && ready.w.WriteFailed?);
        (polled[k] in closed <==> !dropped && visits[k].touched + 5000 <= end) &&
        (polled[k] in idle.queue <==> !dropped && end < visits[k].touched + 5000)
      ensures forall i :: 0 <= i < |old(idle.queue)| && old(idle.queue)[i] !in polled ==>
        (old(idle.queue)[i] in closed <==> old(idle.queue[i].lastActive) + IDLE_TIMEOUT <= end)
      ensures forall i :: 0 <= i < |old(idle.queue)| && old(idle.queue)[i] !in polled ==>
        (old(idle.queue)[i] in idle.queue <==> end < old(idle.queue[i].lastActive) + IDLE_TIMEOUT)
      ensures if accepted.None? then rookie == null
        else
          fresh(rookie) && (rookie in closed <==> accepted.value + IDLE_TIMEOUT <= end) &&
          (rookie in idle.queue <==> rookie !in closed)
      ensures forall c :: c in closed || c in idle.queue ==> c in old(idle.queue) || c == rookie
      ensures forall k :: 0 <= k < |idle.Ring()| ==> idle.Ring()[k] in old(idle.Ring()) || fresh(idle.Ring()[k])
    {
      hide *;
      ghost var queue, was := idle.queue, Snapshots(polled);
      Inputs(polled);
      EachPending(polled, visits, queue);
      rookie := null;
      if accepted.Some? {
        rookie := Accept(accepted.value);
        PendingLonger(polled, visits, queue, [rookie]);
        assert forall i :: 0 <= i < |queue| ==> idle.queue[i] == queue[i];
        assert idle.queue[|queue|] == rookie;
      }
      served, closed, evicted := Round(polled, visits, end);
      EndedOrKept(polled, visits, was, served, closed, idle.queue, end);
      EndsWhen();
    }

    /** Whatever holds of runs holds of any stretch of the server's history. */
    lemma Stretch(i: nat, j: nat)
      requires Valid() && i <= j <= |events|
      ensures |states| == |events| + 1 && Run(nums, states[i..j + 1], events[i..j])
      ensures states[0] == map[] && states[|events|] == store.View()
    {
      hide Store.Valid, Store.View, IdleQueue.Valid, Run, Attributed;
      RunLength(nums, states, events);
      RunPart(nums, states, events, i, j);
    }

    /** Every reply that was ever given fits the wire format. */
    lemma RepliesFit(i: nat)
      requires Valid() && Sane(nums) && i < |events| && events[i].Asked?
      ensures Fits(events[i].reply)
    {
      hide Store.Valid, Store.View, IdleQueue.Valid, Run, Fits, Sane, Attributed;
      RunOrderly(nums, states, events, i);
    }

    /** Any open connection at any moment, whatever other clients and the timers do in between: its part
        of the history answers the requests that its client has sent, as far as they have arrived, and the
        bytes for that client read back as these answers. */
    lemma Conversation(conn: Conn, cmds: seq<seq<Bytes>>)
      requires Valid() && Sane(nums) && conn in idle.queue && Concat(conn.chunks) <= Sendings(cmds)
      requires forall i :: 0 <= i < |cmds| ==> |Body(cmds[i])| <= CLIENT_MAX_MSG
      ensures |events| == |who| && conn.asked == Of(events, who, conn)
      ensures |conn.asked| <= |cmds| && AnswersTo(conn.asked, cmds[..|conn.asked|])
      ensures Concat(conn.chunks) == Sendings(cmds) ==> |conn.asked| == |cmds|
      ensures ReadMany(conn.written + conn.outgoing.data, |conn.asked|) ==
        if AllShort(conn.asked) then Some(Responses(conn.asked)) else None
    {
      hide Store.Valid, Store.View, IdleQueue.Valid, Run, Fits, Sane, Body, Encode, ReadMany, History, Settled,
        Accounted, AllShort, Sendings, Of;
      OfPart(events, who, conn);
      forall i | 0 <= i < |conn.asked| && conn.asked[i].Asked?
        ensures Fits(conn.asked[i].reply)
      {
        assert conn.asked[i] in events;
        var k :| 0 <= k < |events| && events[k] == conn.asked[i];
        RepliesFit(k);
      }
      Clients.Conversation(conn.State(), cmds);
    }
  }

  /** A silent client: nothing has been asked of the server, `conn` is its only connection, last active
      at `t`, and nothing has come from it. */
  ghost predicate Silent(server: Server, conn: Conn, t: nat)
    reads server, server.idle, conn
  {
    server.clock == t && conn.lastActive == t && conn.chunks == [] &&
    (forall e <- server.events :: e.Swept?) && conn in server.idle.queue && forall c <- server.idle.queue :: c == conn
  }

  lemma NobodyAsked(server: Server)
    requires server.Valid() && forall e <- server.events :: e.Swept?
    ensures server.store.View() == map[]
  {
    hide Store.Valid, Store.View, IdleQueue.Valid, Run;
    OnlyPasses(server.nums, server.states, server.events, |server.events|);
  }

  /** A visit that finds nothing to read answers nothing. */
  lemma NothingRead(s: ConnState, reading: nat -> nat, done: seq<Event>, s': ConnState)
    requires Visited(s, Ready(false, false, false, ReadAgain, WriteAgain), reading, done, s')
    ensures done == [] && s'.chunks == s.chunks && s'.wantClose == false
  {
  }

  /** A lone connection's deadline is the earliest. */
  lemma LoneDeadline(conns: seq<Conn>, conn: Conn)
    requires conn in conns && forall c <- conns :: c == conn
    ensures IsEarliest(conns, map[], conn.lastActive + IDLE_TIMEOUT)
  {
    var i :| 0 <= i < |conns| && conns[i] == conn;
    assert conns[i].lastActive + IDLE_TIMEOUT == conn.lastActive + IDLE_TIMEOUT;
    assert forall j :: 0 <= j < |conns| ==> conns[j] in conns;
  }

  lemma OneVisit(was: seq<ConnState>, visits: seq<Visit>, served: seq<seq<Event>>, states: seq<ConnState>)
    requires VisitedSome(was, visits, served, states, 1) && |was| == 1
    ensures |served| == 1 && Visited(was[0], visits[0].ready, visits[0].reading, served[0], states[0])
    ensures Flat(served) == served[0]
  {
    hide Visited;
    assert served == [] + [served[0]];
    FlatMore<Event>([], served[0]);
    assert Flat<Event>([]) + served[0] == served[0];
  }

  /** What `next_timer_ms` says then. */
  method Sleep(server: Server, conn: Conn, t: nat) returns (ms: int)
    requires server.Valid() && Silent(server, conn, t) && t + IDLE_TIMEOUT < NEVER
    ensures ms == IDLE_TIMEOUT && server.Valid() && Silent(server, conn, t)
  {
    hide Server.Valid, Store.Valid, Store.View, IdleQueue.Valid, RingOf, History, ConnsApart, OldestFirst, Until,
      AllSettled, Attributed, IsEarliest;
    server.Pieces();
    NobodyAsked(server);
    server.idle.Exists();
    ms := server.idle.NextTimer(t, server.store);
    LoneDeadline(server.idle.queue, conn);
    server.Whole();
  }

  /** The server visits the connection five seconds later, finds nothing, and leaves it open. */
  method SilentVisit(server: Server, conn: Conn, t: nat)
    requires server.Valid() && Silent(server, conn, t)
    modifies server, server.idle, server.idle.Ring(), server.store.Repr, conn, conn.incoming, conn.outgoing
    ensures server.Valid() && Silent(server, conn, t + IDLE_TIMEOUT)
    ensures fresh(server.store.Repr - old(server.store.Repr))
    ensures forall k :: 0 <= k < |server.idle.Ring()| ==>
      server.idle.Ring()[k] in old(server.idle.Ring()) || fresh(server.idle.Ring()[k])
  {
    hide Server.Valid, RingOf, Visited, VisitedSome;
    var wake := t + IDLE_TIMEOUT;
    var visit := Visit(Ready(false, false, false, ReadAgain, WriteAgain), wake, _ => wake);
    var polled, visits := [conn], [visit];
    ghost var was := Snapshots(polled);
    var rookie;
    ghost var served, closed, evicted;
    rookie, served, closed, evicted := server.Turn(None, polled, visits, wake);
    OneVisit(was, visits, served, Snapshots(polled));
    NothingRead(was[0], visit.reading, served[0], conn.State());
  }

  /** One round with a silent client: the server sleeps as long as its own timer says, five seconds. */
  method SilentRound(server: Server, conn: Conn, t: nat) returns (ms: int)
    requires server.Valid() && Silent(server, conn, t) && t + IDLE_TIMEOUT < NEVER
    modifies server, server.idle, server.idle.Ring(), server.store.Repr, conn, conn.incoming, conn.outgoing
    ensures ms == IDLE_TIMEOUT && server.Valid() && Silent(server, conn, t + IDLE_TIMEOUT)
    ensures fresh(server.store.Repr - old(server.store.Repr))
    ensures forall k :: 0 <= k < |server.idle.Ring()| ==>
      server.idle.Ring()[k] in old(server.idle.Ring()) || fresh(server.idle.Ring()[k])
  {
    hide *;
    ms := Sleep(server, conn, t);
    SilentVisit(server, conn, t);
  }

  /** The promise that a silent client is dropped after five seconds fails: one that connects at time 0,
      and from whom nothing ever comes, is still connected at 10000, after two rounds at the very times
      that the server's own timer gives. */
  method SilentClient(nums: Numbers) returns (server: Server, conn: Conn, first: int, second: int)
    ensures server.Valid() && first == IDLE_TIMEOUT && second == IDLE_TIMEOUT && Silent(server, conn, 10000)
  {
    hide Server.Valid, RingOf;
    server := new Server(nums);
    conn := server.Accept(0);
    assert conn.State().chunks == [];
    first := SilentRound(server, conn, 0);
    second := SilentRound(server, conn, 5000);
  }
}
