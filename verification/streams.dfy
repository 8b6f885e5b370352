/** What a connection's byte stream means: a sequence of requests, and whether it goes bad. */
module Streams {
  import opened Sequences
  import opened Bytes
  import opened Codecs
  import opened Requests
  import opened Buffers

  /** The front of a stream: not enough bytes yet, something unacceptable, or a request and what follows. */
  datatype Front = NeedMore | Broken | Request(args: seq<Bytes>, rest: Bytes)

  function NextRequest(s: Bytes): (f: Front)
    ensures f.Request? ==> |f.rest| < |s|
  {
    if |s| < 4 then NeedMore
    else
      var len := FromLe(s[..4]);
      if len > MAX_MSG then Broken
      else if 4 + len > |s| then NeedMore
      else match Parse(s[4..4 + len])
        case None => Broken
        case Some(args) => Request(args, s[4 + len..])
  }

  /** All complete requests of a stream, the bytes that remain, and whether the connection must close. */
  datatype Drained = Drained(cmds: seq<seq<Bytes>>, rest: Bytes, close: bool)

  function Drain(s: Bytes): Drained
    decreases |s|
  {
    match NextRequest(s)
    case NeedMore => Drained([], s, false)
    case Broken => Drained([], s, true)
    case Request(args, rest) =>
      var d := Drain(rest);
      Drained([args] + d.cmds, d.rest, d.close)
  }

  /** Bytes that arrive later do not change what the front of the stream already is. */
  lemma NextRequestMore(s: Bytes, more: Bytes)
    ensures var f := NextRequest(s);
      (f.Broken? ==> NextRequest(s + more).Broken?) &&
      (f.Request? ==> NextRequest(s + more) == Request(f.args, f.rest + more))
  {
    if |s| >= 4 {
      assert (s + more)[..4] == s[..4];
      var len := FromLe(s[..4]);
      if len <= MAX_MSG && 4 + len <= |s| {
        assert (s + more)[4..4 + len] == s[4..4 + len] && (s + more)[4 + len..] == s[4 + len..] + more;
      }
    }
  }

  /** Draining what has arrived and later the rest is draining everything at once. */
  lemma {:induction false} DrainMore(s: Bytes, more: Bytes)
    ensures var d := Drain(s); var all := Drain(s + more);
      if d.close then all.cmds == d.cmds && all.close
      else var later := Drain(d.rest + more);
        all.cmds == d.cmds + later.cmds && all.close == later.close && all.rest == later.rest
    decreases |s|
  {
    hide NextRequest;
    NextRequestMore(s, more);
    match NextRequest(s)
    case NeedMore =>
    case Broken =>
    case Request(args, rest) =>
      NextRequestShrinks(s);
      DrainMore(rest, more);
  }

  lemma NextRequestShrinks(s: Bytes)
    ensures NextRequest(s).Request? ==> |NextRequest(s).rest| < |s|
  {
  }

  function Concat(chunks: seq<Bytes>): Bytes {
    if chunks == [] then [] else chunks[0] + Concat(chunks[1..])
  }

  /** A connection that reads chunk after chunk, draining each time, until it must close. */
  function DrainChunks(pending: Bytes, chunks: seq<Bytes>): Drained
    decreases |chunks|
  {
    if chunks == [] then Drained([], pending, false)
    else
      var d := Drain(pending + chunks[0]);
      if d.close then d
      else
        var later := DrainChunks(d.rest, chunks[1..]);
        Drained(d.cmds + later.cmds, later.rest, later.close)
  }

  lemma NoChunks(pending: Bytes, chunk: Bytes)
    ensures DrainChunks(pending, []) == Drained([], pending, false)
    ensures var d := Drain(pending + chunk); var once := DrainChunks(pending, [chunk]);
      once.cmds == d.cmds && once.rest == d.rest && once.close == d.close
  {
    hide Drain;
    var d := Drain(pending + chunk);
    assert [chunk][1..] == [] && d.cmds + [] == d.cmds;
  }

  lemma EmptyStream()
    ensures NextRequest([]).NeedMore?
  {
  }

  /** One more chunk for a connection that is still open. */
  lemma {:induction false} DrainOneMore(pending: Bytes, chunks: seq<Bytes>, chunk: Bytes)
    ensures var d := DrainChunks(pending, chunks); var more := DrainChunks(pending, chunks + [chunk]);
      !d.close ==> var last := Drain(d.rest + chunk);
        more.cmds == d.cmds + last.cmds && more.rest == last.rest && more.close == last.close
    decreases |chunks|
  {
    hide Drain;
    NoChunks(pending, chunk);
    if chunks == [] {
      assert [] + [chunk] == [chunk];
    } else {
      var d := Drain(pending + chunks[0]);
      assert (chunks + [chunk])[1..] == chunks[1..] + [chunk] && (chunks + [chunk])[0] == chunks[0];
      if !d.close {
        DrainOneMore(d.rest, chunks[1..], chunk);
        var rest := DrainChunks(d.rest, chunks[1..]);
        Joined(d.cmds, rest.cmds, Drain(rest.rest + chunk).cmds);
      }
    }
  }

  /** However the stream is cut into reads, the commands and the decision to close are those of the
      whole stream. */
  lemma {:induction false} ChunkingDoesNotMatter(pending: Bytes, chunks: seq<Bytes>)
    requires NextRequest(pending).NeedMore?
    ensures var d := DrainChunks(pending, chunks); var all := Drain(pending + Concat(chunks));
      d.cmds == all.cmds && d.close == all.close && (!d.close ==> d.rest == all.rest)
    decreases |chunks|
  {
    hide NextRequest;
    if chunks == [] {
      assert pending + [] == pending;
    } else {
      var first, tail := pending + chunks[0], Concat(chunks[1..]);
      assert pending + Concat(chunks) == first + tail;
      DrainMore(first, tail);
      if !Drain(first).close {
        DrainedRestWaits(first);
        ChunkingDoesNotMatter(Drain(first).rest, chunks[1..]);
      }
    }
  }

  /** After draining, nothing complete is left behind. */
  lemma {:induction false} DrainedRestWaits(s: Bytes)
    ensures !Drain(s).close ==> NextRequest(Drain(s).rest).NeedMore?
    ensures Drain(s).close ==> NextRequest(Drain(s).rest).Broken?
    decreases |s|
  {
    if NextRequest(s).Request? {
      DrainedRestWaits(NextRequest(s).rest);
    }
  }

  /** A framed request at the front of a stream is the next request. */
  lemma FramedRequest(cmd: seq<Bytes>, rest: Bytes)
    requires |Body(cmd)| <= CLIENT_MAX_MSG
    ensures NextRequest(Le(|Body(cmd)|, 4) + Body(cmd) + rest) == Request(cmd, rest)
  {
    hide Le, Parse;
    var s, body := Le(|Body(cmd)|, 4) + Body(cmd) + rest, Body(cmd);
    RequestRoundTrip(cmd);
    U32RoundTrip(|body|);
    FirstString(body, rest);
  }
}
