/** One client connection: its buffers, what it waits for, and the requests it serves. */
module Conns {
  import opened Bytes
  import opened Replies
  import opened Keyspaces
  import opened Codecs
  import opened Requests
  import opened Buffers
  import opened Streams
  import opened Stores
  import opened Commands
  import opened Runs
  import opened DLists

  /** What `read` came back with: EAGAIN, another error, end of file, or some bytes. */
  datatype ReadResult = ReadAgain | ReadFailed | ReadEof | Got(chunk: Bytes)

  /** What `write` came back with; it never takes more than it was offered. */
  datatype WriteResult = WriteAgain | WriteFailed | Wrote(n: nat)

  /** What the kernel reports for one connection, and what its calls would return. */
  datatype Ready = Ready(canRead: bool, canWrite: bool, error: bool, r: ReadResult, w: WriteResult)

  /** How much of `data` a write takes. */
  function Taken(w: WriteResult, data: Bytes): (n: nat)
    ensures n <= |data|
  {
    if w.Wrote? then Min(w.n, |data|) else 0
  }

  /** These events are the answers to these requests. */
  predicate AnswersTo(events: seq<Event>, cmds: seq<seq<Bytes>>) {
    |events| == |cmds| && forall i :: 0 <= i < |cmds| ==> events[i].Asked? && events[i].args == cmds[i]
  }

  /** The same, the `i`-th answered at `clock(i)`. */
  ghost predicate Answers(events: seq<Event>, clock: nat -> nat, cmds: seq<seq<Bytes>>) {
    AnswersTo(events, cmds) && forall i :: 0 <= i < |events| ==> events[i].now == clock(i)
  }

  /** One more request. */
  lemma OneAsked(nums: Numbers, now: nat, args: seq<Bytes>, ks: Keyspace, ks': Keyspace, reply: Reply)
    requires Step(nums, now, args, ks, ks', reply)
    ensures Run(nums, [ks, ks'], [Asked(now, args, reply)])
  {
    hide Step;
    assert Follows(nums, ks, Asked(now, args, reply), ks');
  }

  /** The responses as they go out. */
  function Frames(events: seq<Event>): Bytes {
    if events == [] then []
    else
      var last := events[|events| - 1];
      Frames(events[..|events| - 1]) + if last.Asked? then Frame(Encode(Sent(last.reply))) else []
  }

  lemma FramesMore(events: seq<Event>, now: nat, args: seq<Bytes>, reply: Reply, before: Bytes)
    ensures before + Frames(events + [Asked(now, args, reply)]) == before + Frames(events) + Frame(Encode(Sent(reply)))
  {
    hide Frame, Sent, Encode;
    assert (events + [Asked(now, args, reply)])[..|events|] == events;
  }

  lemma {:induction false} FramesConcat(a: seq<Event>, b: seq<Event>)
    ensures Frames(a + b) == Frames(a) + Frames(b)
  {
    hide Frame, Sent, Encode;
    if b == [] {
      assert a + b == a;
    } else {
      var n := |b| - 1;
      FramesConcat(a, b[..n]);
      assert (a + b)[..|a + b| - 1] == a + b[..n] && (a + b)[|a + b| - 1] == b[n];
    }
  }

  lemma NoFrames(before: Bytes)
    ensures before + Frames([]) == before
  {
  }

  /** A connection at one moment: its flags and buffers, and what has happened to it so far: the chunks
      it has read, the requests it has answered, and the bytes that have gone out. */
  datatype ConnState = ConnState(wantRead: bool, wantWrite: bool, wantClose: bool, incoming: Bytes, outgoing: Bytes,
    chunks: seq<Bytes>, asked: seq<Event>, written: Bytes)

  /** What holds of an open connection whenever the server polls: it waits to read or to write and not
      both, to write exactly when there is output, and no request waits unserved. */
  predicate Settled(s: ConnState) {
    !s.wantClose && s.wantRead != s.wantWrite && (s.wantWrite <==> s.outgoing != []) &&
    NextRequest(s.incoming).NeedMore?
  }

  /** A connection's account: exactly the complete requests among the bytes read have been answered, in
      order; what is left of those bytes is pending; what was written and what is still to be written are
      the responses to those requests. */
  ghost predicate Accounted(s: ConnState) {
    var d := DrainChunks([], s.chunks);
    AnswersTo(s.asked, d.cmds) && s.incoming == d.rest && (d.close ==> s.wantClose) &&
    s.written + s.outgoing == Frames(s.asked)
  }

  /** What a visit reads: the requests that are complete with it, what remains, whether it goes bad. */
  function Reading(s: ConnState, ready: Ready): Drained {
    if ready.canRead && ready.r.Got? then Drain(s.incoming + ready.r.chunk) else Drained([], s.incoming, false)
  }

  /** How much of the output a visit writes: whatever the write takes, if there is one. */
  function Writing(output: Bytes, ready: Ready, answered: bool): (n: nat)
    ensures n <= |output|
  {
    if ready.canWrite || answered then Taken(ready.w, output) else 0
  }

  /** One visit of the main loop to a connection, with the events that it caused. */
  ghost predicate Visited(s: ConnState, ready: Ready, clock: nat -> nat, done: seq<Event>, s': ConnState) {
    var d := Reading(s, ready);
    var output := s.outgoing + Frames(done);
    var n := Writing(output, ready, done != []);
    Answers(done, clock, d.cmds) && s'.asked == s.asked + done &&
    s'.incoming == d.rest &&
    s'.chunks == (if ready.canRead && ready.r.Got? then s.chunks + [ready.r.chunk] else s.chunks) &&
    s'.outgoing == output[n..] && s'.written == s.written + output[..n] &&
    s'.wantClose == (d.close || (ready.canRead && (ready.r.ReadFailed? || ready.r.ReadEof?)) ||
      ((ready.canWrite || done != []) && ready.w.WriteFailed?))
  }

  lemma AnswersAll(done: seq<Event>, clock: nat -> nat, cmds: seq<seq<Bytes>>, asked: seq<Event>,
      before: seq<seq<Bytes>>)
    requires Answers(done, clock, cmds) && AnswersTo(asked, before)
    ensures AnswersTo(asked + done, before + cmds)
  {
  }

  /** A visit, item by item: the requests among what was read are answered, and only these; as much of the
      output leaves as the write takes, which is tried if it can be done or if something was answered; and the
      connection asks to close after the end of the stream, a failed call, or bad bytes. */
  lemma VisitSays(s: ConnState, ready: Ready, clock: nat -> nat, done: seq<Event>, s': ConnState)
    requires Visited(s, ready, clock, done, s')
    ensures if ready.canRead && ready.r.Got? then
        AnswersTo(done, Drain(s.incoming + ready.r.chunk).cmds) &&
        s'.incoming == Drain(s.incoming + ready.r.chunk).rest && s'.chunks == s.chunks + [ready.r.chunk]
      else done == [] && s'.incoming == s.incoming && s'.chunks == s.chunks
    ensures s'.asked == s.asked + done && forall i :: 0 <= i < |done| ==> done[i].now == clock(i)
    ensures s'.written + s'.outgoing == s.written + s.outgoing + Frames(done)
    ensures var taken := |s'.written| - |s.written|;
      if (ready.canWrite || done != []) && ready.w.Wrote?
        then taken == Min(ready.w.n, |s.outgoing| + |Frames(done)|)
        else taken == 0
    ensures s'.wantClose <==>
      (ready.canRead && (ready.r.ReadEof? || ready.r.ReadFailed?)) ||
      (ready.canRead && ready.r.Got? && Drain(s.incoming + ready.r.chunk).close) ||
      ((ready.canWrite || done != []) && ready.w.WriteFailed?)
  {
    hide Drain, Frames;
    var output := s.outgoing + Frames(done);
    var n := Writing(output, ready, done != []);
    assert s.written + output[..n] + output[n..] == s.written + s.outgoing + Frames(done);
  }

  /** A visit to an open connection keeps its account. */
  lemma VisitedAccounted(s: ConnState, ready: Ready, clock: nat -> nat, done: seq<Event>, s': ConnState)
    requires Settled(s) && Accounted(s) && Visited(s, ready, clock, done, s')
    ensures Accounted(s')
  {
    hide Drain, DrainChunks, NextRequest, Frames, Answers, AnswersTo;
    var output := s.outgoing + Frames(done);
    var n := Writing(output, ready, done != []);
    FramesConcat(s.asked, done);
    assert s.written + output[..n] + output[n..] == s.written + s.outgoing + Frames(done);
    AnswersAll(done, clock, Reading(s, ready).cmds, s.asked, DrainChunks([], s.chunks).cmds);
    if ready.canRead && ready.r.Got? {
      DrainOneMore([], s.chunks, ready.r.chunk);
    } else {
      NothingDrained(DrainChunks([], s.chunks).cmds);
    }
  }

  lemma NothingDrained(cmds: seq<seq<Bytes>>)
    ensures cmds + [] == cmds
  {
  }

  /** However the bytes were cut into reads, the account is that of all of them at once. */
  lemma AccountOfWhole(s: ConnState)
    requires Accounted(s)
    ensures var d := Drain(Concat(s.chunks)); AnswersTo(s.asked, d.cmds) && (d.close ==> s.wantClose)
    ensures !s.wantClose ==> s.incoming == Drain(Concat(s.chunks)).rest
  {
    hide NextRequest, Drain, DrainChunks, AnswersTo;
    EmptyStream();
    ChunkingDoesNotMatter([], s.chunks);
    assert [] + Concat(s.chunks) == Concat(s.chunks);
  }

  /** The next request of a stream is the first of those in it. */
  lemma DrainFirst(s: Bytes, done: seq<seq<Bytes>>)
    ensures var d := Drain(s);
      match NextRequest(s)
      case NeedMore => d == Drained([], s, false)
      case Broken => d == Drained([], s, true)
      case Request(args, rest) =>
        d == Drained([args] + Drain(rest).cmds, Drain(rest).rest, Drain(rest).close) &&
        done + d.cmds == done + [args] + Drain(rest).cmds && |rest| < |s|
  {
    hide NextRequest;
    NextRequestShrinks(s);
  }

  class Conn {
    var wantRead: bool
    var wantWrite: bool
    var wantClose: bool
    const incoming: Buffer
    const outgoing: Buffer
    var lastActive: nat
    const idleNode: DList
    ghost var chunks: seq<Bytes>
    ghost var asked: seq<Event>
    ghost var written: Bytes

    /** `handle_accept`: a new connection waits for its first request. */
    constructor (now: nat)
      ensures fresh(incoming) && fresh(outgoing) && fresh(idleNode) && idleNode.owner == this
      ensures TwoBuffers() && lastActive == now
      ensures State() == ConnState(true, false, false, [], [], [], [], [])
    {
      wantRead, wantWrite, wantClose := true, false, false;
      chunks, asked, written := [], [], [];
      incoming := new Buffer();
      outgoing := new Buffer();
      idleNode := new DList();
      lastActive := now;
      new;
      idleNode.owner := this;
    }

    predicate TwoBuffers() {
      incoming != outgoing
    }

    ghost function State(): ConnState
      reads this`wantRead, this`wantWrite, this`wantClose, this`chunks, this`asked, this`written, incoming, outgoing
    {
      ConnState(wantRead, wantWrite, wantClose, incoming.data, outgoing.data, chunks, asked, written)
    }

    /** `try_one_request`. */
    method TryOneRequest(nums: Numbers, now: nat, store: Store) returns (more: bool, ghost reply: Reply)
      requires store.Valid() && TwoBuffers() && this !in store.Repr && incoming !in store.Repr
      requires outgoing !in store.Repr
      modifies this`wantClose, incoming, outgoing, store.Repr
      ensures store.Valid() && fresh(store.Repr - old(store.Repr))
      ensures match NextRequest(old(incoming.data))
        case Request(args, rest) =>
          more && wantClose == old(wantClose) && incoming.data == rest &&
          Step(nums, now, args, old(store.View()), store.View(), reply) &&
          outgoing.data == old(outgoing.data) + Frame(Encode(Sent(reply)))
        case f =>
          !more && wantClose == (old(wantClose) || f.Broken?) && incoming.data == old(incoming.data) &&
          store.View() == old(store.View()) && outgoing.data == old(outgoing.data)
    {
      hide Store.Valid, Store.View, Encode, Step, Parse, Le, FromLe, Sent, Frame;
      reply := Nil;
      if |incoming.data| < 4 {
        return false, reply;
      }
      var len := FromLe(incoming.data[..4]);
      if len > MAX_MSG {
        wantClose := true;
        return false, reply;
      }
      if 4 + len > |incoming.data| {
        return false, reply;
      }
      var ok, cmd := ParseReq(incoming.data[4..4 + len]);
      if !ok {
        wantClose := true;
        return false, reply;
      }
      ghost var before := outgoing.data;
      var header := outgoing.ResponseBegin();
      reply := DoRequest(nums, now, store, cmd, outgoing);
      outgoing.ResponseEnd(header, before, reply);
      incoming.Consume(4 + len);
      return true, reply;
    }

    /** The loop of `handle_read`: every complete request is answered, in order. */
    method ServeAll(nums: Numbers, clock: nat -> nat, store: Store)
      returns (ghost states: seq<Keyspace>, ghost events: seq<Event>)
      requires store.Valid() && TwoBuffers() && this !in store.Repr && incoming !in store.Repr
      requires outgoing !in store.Repr
      modifies this`wantClose, incoming, outgoing, store.Repr
      ensures store.Valid() && fresh(store.Repr - old(store.Repr))
      ensures Run(nums, states, events) && Answers(events, clock, Drain(old(incoming.data)).cmds)
      ensures |states| == |events| + 1 && states[0] == old(store.View()) && states[|events|] == store.View()
      ensures outgoing.data == old(outgoing.data) + Frames(events)
      ensures incoming.data == Drain(old(incoming.data)).rest
      ensures wantClose == (old(wantClose) || Drain(old(incoming.data)).close)
    {
      hide Store.Valid, Store.View, Encode, Step, Follows, Sent, Frame, NextRequest, Drain, Frames, Run, Answers;
      ghost var all, before, closing := Drain(incoming.data), outgoing.data, wantClose;
      ghost var done: seq<seq<Bytes>> := [];
      states, events := [store.View()], [];
      NothingYet(nums, store.View());
      NothingAsked(clock);
      NoFrames(before);
      var more := true;
      var served := 0;
      while more
        invariant store.Valid() && fresh(store.Repr - old(store.Repr))
        invariant this !in store.Repr && incoming !in store.Repr && outgoing !in store.Repr
        invariant Run(nums, states, events) && Answers(events, clock, done) && |done| == |events| == served
        invariant |states| == served + 1
        invariant states[0] == old(store.View()) && states[served] == store.View()
        invariant outgoing.data == before + Frames(events)
        invariant more ==> wantClose == closing
        invariant more ==>
          all.cmds == done + Drain(incoming.data).cmds && all.rest == Drain(incoming.data).rest &&
          all.close == Drain(incoming.data).close
        invariant !more ==> all == Drained(done, incoming.data, all.close) && wantClose == (closing || all.close)
        decreases more, |incoming.data|
      {
        DrainFirst(incoming.data, done);
        ghost var front := NextRequest(incoming.data);
        ghost var reply: Reply;
        more, reply := TryOneRequest(nums, clock(served), store);
        if more {
          ghost var e := Asked(clock(served), front.args, reply);
          OneAsked(nums, e.now, e.args, states[served], store.View(), reply);
          RunOn(nums, states, events, [states[served], store.View()], [e]);
          FramesMore(events, e.now, e.args, reply, before);
          AnswersMore(events, clock, done, e);
          done, states, events := done + [front.args], states + [store.View()], events + [e];
          served := served + 1;
        }
      }
    }

    /** `handle_write`. */
    method HandleWrite(w: WriteResult)
      requires TwoBuffers() && outgoing.data != []
      modifies this`wantRead, this`wantWrite, this`wantClose, this`written, outgoing
      ensures outgoing.data == old(outgoing.data)[Taken(w, old(outgoing.data))..]
      ensures written == old(written) + old(outgoing.data)[..Taken(w, old(outgoing.data))]
      ensures wantClose == (old(wantClose) || w.WriteFailed?)
      ensures if outgoing.data == [] then wantRead && !wantWrite
        else wantRead == old(wantRead) && wantWrite == old(wantWrite)
    {
      if w.WriteAgain? {
        return;
      }
      if w.WriteFailed? {
        wantClose := true;
        return;
      }
      written := written + outgoing.data[..Taken(w, outgoing.data)];
      outgoing.Consume(Taken(w, outgoing.data));
      if |outgoing.data| == 0 {
        wantRead := true;
        wantWrite := false;
      }
    }

    /** `handle_read`: what has arrived is answered in full, and the answers start on their way. */
    method HandleRead(nums: Numbers, clock: nat -> nat, store: Store, r: ReadResult, w: WriteResult)
      returns (ghost states: seq<Keyspace>, ghost events: seq<Event>)
      requires store.Valid() && TwoBuffers() && this !in store.Repr && incoming !in store.Repr
      requires outgoing !in store.Repr
      modifies this`wantRead, this`wantWrite, this`wantClose, this`chunks, this`asked, this`written, incoming, outgoing
      modifies store.Repr
      ensures store.Valid() && fresh(store.Repr - old(store.Repr))
      ensures |states| == |events| + 1 && states[0] == old(store.View()) && states[|events|] == store.View()
      ensures chunks == (if r.Got? then old(chunks) + [r.chunk] else old(chunks)) && asked == old(asked) + events
      ensures !r.Got? ==> written == old(written)
      ensures !r.Got? ==> events == [] && states == [store.View()] && wantClose == (old(wantClose) || !r.ReadAgain?)
      ensures !r.Got? ==> incoming.data == old(incoming.data) && outgoing.data == old(outgoing.data)
      ensures !r.Got? ==> wantRead == old(wantRead) && wantWrite == old(wantWrite)
      ensures r.Got? ==>
        var d, sum := Drain(old(incoming.data) + r.chunk), old(outgoing.data) + Frames(events);
        Run(nums, states, events) && Answers(events, clock, d.cmds) && incoming.data == d.rest &&
        outgoing.data == sum[Taken(w, sum)..] && written == old(written) + sum[..Taken(w, sum)] &&
        wantClose == (old(wantClose) || d.close || (sum != [] && w.WriteFailed?)) &&
        if sum == [] then wantRead == old(wantRead) && wantWrite == old(wantWrite)
        else wantRead == (outgoing.data == []) && wantWrite == (outgoing.data != [])
    {
      hide Store.Valid, Store.View, Encode, Step, Follows, Sent, Frame, NextRequest, Drain, Frames, Run, Answers;
      states, events := [store.View()], [];
      match r
      case ReadAgain =>
      case ReadFailed =>
        wantClose := true;
      case ReadEof =>
        wantClose := true;
      case Got(chunk) =>
        incoming.Append(chunk);
        chunks := chunks + [chunk];
        states, events := ServeAll(nums, clock, store);
        asked := asked + events;
        if |outgoing.data| > 0 {
          wantRead := false;
          wantWrite := true;
          HandleWrite(w);
        }
    }

    /** What the main loop does with a polled connection: it reads or writes only when the kernel says
        so, which it does only for what was asked. */
    method Serve(nums: Numbers, clock: nat -> nat, store: Store, ready: Ready)
      returns (ghost states: seq<Keyspace>, ghost events: seq<Event>)
      requires store.Valid() && TwoBuffers() && this !in store.Repr && incoming !in store.Repr
      requires outgoing !in store.Repr
      requires Settled(State()) && (ready.canRead ==> wantRead) && (ready.canWrite ==> wantWrite)
      modifies this`wantRead, this`wantWrite, this`wantClose, this`chunks, this`asked, this`written, incoming, outgoing
      modifies store.Repr
      ensures store.Valid() && fresh(store.Repr - old(store.Repr))
      ensures wantClose || Settled(State())
      ensures Run(nums, states, events) && |states| == |events| + 1 && states[0] == old(store.View())
      ensures states[|events|] == store.View()
      ensures Visited(old(State()), ready, clock, events, State()) && asked == old(asked) + events
    {
      hide Store.Valid, Store.View, Encode, Step, Follows, Sent, Frame, NextRequest, Drain, Frames, Run, Answers;
      states, events := [store.View()], [];
      NothingYet(nums, store.View());
      NothingAsked(clock);
      NoFrames(outgoing.data);
      ghost var s := State();
      if ready.canRead {
        if ready.r.Got? {
          DrainedRestWaits(incoming.data + ready.r.chunk);
        }
        states, events := HandleRead(nums, clock, store, ready.r, ready.w);
        FramesEmpty(events, clock, if ready.r.Got? then Drain(s.incoming + ready.r.chunk).cmds else []);
      }
      if ready.canWrite {
        HandleWrite(ready.w);
      }
    }
  }

  lemma NothingAsked(clock: nat -> nat)
    ensures Answers([], clock, [])
  {
  }

  lemma AnswersMore(events: seq<Event>, clock: nat -> nat, cmds: seq<seq<Bytes>>, e: Event)
    requires Answers(events, clock, cmds) && e.Asked? && e.now == clock(|cmds|)
    ensures Answers(events + [e], clock, cmds + [e.args])
  {
  }

  /** Every answer puts something out. */
  lemma FramesEmpty(events: seq<Event>, clock: nat -> nat, cmds: seq<seq<Bytes>>)
    requires Answers(events, clock, cmds)
    ensures Frames(events) == [] <==> events == []
  {
    hide Encode, Sent;
  }
}
