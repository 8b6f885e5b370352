/** The client's side of the wire: what it makes of the responses. */
module Clients {
  import opened Bytes
  import opened Replies
  import opened Keyspaces
  import opened Codecs
  import opened Requests
  import opened Buffers
  import opened Streams
  import opened Runs
  import opened Conns

  datatype Received = Failed | Received(reply: Reply, rest: Bytes)

  /** `read_res` on the bytes that will arrive: one response, no longer than the client's limit. */
  function ReadRes(s: Bytes): Received {
    if |s| < 4 then Failed
    else
      var len := FromLe(s[..4]);
      if len > CLIENT_MAX_MSG || |s| < 4 + len then Failed
      else
        var d := Decode(s[4..4 + len]);
        if d.Bad? || d.used != len then Failed else Received(d.reply, s[4 + len..])
  }

  /** `n` responses, one after the other. */
  function ReadMany(s: Bytes, n: nat): Option<seq<Reply>> {
    if n == 0 then if s == [] then Some([]) else None
    else match ReadRes(s)
      case Failed => None
      case Received(reply, rest) =>
        match ReadMany(rest, n - 1)
        case None => None
        case Some(replies) => Some([reply] + replies)
  }

  /** What goes out never exceeds the limit, and is as decodable as the reply. */
  lemma SentFits(reply: Reply)
    requires Fits(reply)
    ensures Fits(Sent(reply)) && |Encode(Sent(reply))| <= MAX_MSG
  {
  }

  lemma FrameParts(body: Bytes, rest: Bytes)
    requires |body| < 0x1_0000_0000
    ensures var s := Frame(body) + rest;
      |s| >= 4 + |body| && FromLe(s[..4]) == |body| && s[4..4 + |body|] == body && s[4 + |body|..] == rest
  {
    hide Le, FromLe;
    U32RoundTrip(|body|);
    assert (Frame(body) + rest)[..4] == Le(|body|, 4);
  }

  /** The client recovers a response, and finds the next one behind it, unless the response is longer
      than the client's own limit. */
  lemma ReadsBack(reply: Reply, rest: Bytes)
    requires Fits(reply)
    ensures var sent := Sent(reply);
      ReadRes(Frame(Encode(sent)) + rest) == if |Encode(sent)| <= 4096 then Received(sent, rest) else Failed
  {
    hide Encode, Decode, Frame, Sent, Fits, FromLe;
    SentFits(reply);
    var body := Encode(Sent(reply));
    FrameParts(body, rest);
    DecodeEncode(Sent(reply), []);
    assert body + [] == body;
  }

  /** The responses without the state changes. */
  function Responses(events: seq<Event>): seq<Reply>
    requires forall i :: 0 <= i < |events| ==> events[i].Asked?
  {
    seq(|events|, i requires 0 <= i < |events| => Sent(events[i].reply))
  }

  lemma {:induction false} FramesFirst(events: seq<Event>)
    requires events != [] && events[0].Asked?
    ensures Frames(events) == Frame(Encode(Sent(events[0].reply))) + Frames(events[1..])
  {
    hide Encode, Sent, Frame;
    var init := events[..|events| - 1];
    if |events| > 1 {
      FramesFirst(init);
      assert init[1..] == events[1..][..|events| - 2];
    }
  }

  /** Every response is short enough for the client. */
  predicate AllShort(events: seq<Event>) {
    forall i :: 0 <= i < |events| && events[i].Asked? ==> |Encode(Sent(events[i].reply))| <= CLIENT_MAX_MSG
  }

  lemma AllShortSplit(events: seq<Event>)
    requires events != [] && events[0].Asked?
    ensures AllShort(events) == (|Encode(Sent(events[0].reply))| <= CLIENT_MAX_MSG && AllShort(events[1..]))
  {
    hide Encode, Sent;
    assert forall i :: 0 < i < |events| ==> events[i] == events[1..][i - 1];
  }

  /** The responses to some requests, read one after the other: all of them, unless one is too long. */
  lemma {:induction false} ReadsAllBack(events: seq<Event>)
    requires forall i :: 0 <= i < |events| ==> events[i].Asked? && Fits(events[i].reply)
    ensures ReadMany(Frames(events), |events|) == if AllShort(events) then Some(Responses(events)) else None
  {
    hide Encode, Sent, Frame, Fits, ReadRes, Frames;
    if events == [] {
      NoFrames([]);
    } else {
      FramesFirst(events);
      ReadsBack(events[0].reply, Frames(events[1..]));
      ReadsAllBack(events[1..]);
      AllShortSplit(events);
      assert Responses(events) == [Sent(events[0].reply)] + Responses(events[1..]);
    }
  }

  /** What `send_req` puts out for one request after the other. */
  function Sendings(cmds: seq<seq<Bytes>>): Bytes {
    if cmds == [] then [] else Le(|Body(cmds[0])|, 4) + Body(cmds[0]) + Sendings(cmds[1..])
  }

  /** The server finds in the stream exactly the requests that were sent. */
  lemma {:induction false} SentIsServed(cmds: seq<seq<Bytes>>)
    requires forall i :: 0 <= i < |cmds| ==> |Body(cmds[i])| <= CLIENT_MAX_MSG
    ensures Drain(Sendings(cmds)) == Drained(cmds, [], false)
  {
    hide NextRequest, Body, Le;
    if cmds == [] {
      EmptyStream();
    } else {
      SentIsServed(cmds[1..]);
      FramedRequest(cmds[0], Sendings(cmds[1..]));
      assert cmds == [cmds[0]] + cmds[1..];
    }
  }

  /** A conversation, seen from one connection at any moment. However the bytes that the client sends were
      cut up, and however many of them have arrived, the requests answered are the first ones that were
      sent, in order, and all of them once everything has arrived. What has gone out and what is still to
      go out read back as their responses, exactly if each is within the client's limit. */
  lemma Conversation(s: ConnState, cmds: seq<seq<Bytes>>)
    requires Accounted(s) && Concat(s.chunks) <= Sendings(cmds)
    requires forall i :: 0 <= i < |cmds| ==> |Body(cmds[i])| <= CLIENT_MAX_MSG
    requires forall i :: 0 <= i < |s.asked| && s.asked[i].Asked? ==> Fits(s.asked[i].reply)
    ensures |s.asked| <= |cmds| && AnswersTo(s.asked, cmds[..|s.asked|])
    ensures Concat(s.chunks) == Sendings(cmds) ==> |s.asked| == |cmds|
    ensures ReadMany(s.written + s.outgoing, |s.asked|) == if AllShort(s.asked) then Some(Responses(s.asked)) else None
  {
    hide Encode, Body, Fits, Sent, NextRequest, Drain, DrainChunks, Frames, ReadMany;
    var sent, all := Concat(s.chunks), Sendings(cmds);
    SentIsServed(cmds);
    AccountOfWhole(s);
    DrainMore(sent, all[|sent|..]);
    assert sent + all[|sent|..] == all;
    ReadsAllBack(s.asked);
  }

  /** A key of 4000 bytes, all of them `b`. */
  function LongKey(b: byte): Bytes {
    seq(4000, _ => b)
  }

  /** What the client sends, one request after the other: two strings under long keys, then KEYS. */
  function LongKeys(): seq<seq<Bytes>> {
    [[Ascii("set"), LongKey(0), []], [Ascii("set"), LongKey(1), []], [Ascii("keys")]]
  }

  lemma LongBodies()
    ensures forall i :: 0 <= i < 3 ==> |Body(LongKeys()[i])| <= CLIENT_MAX_MSG
  {
    hide Le;
    ThreeStrings(Ascii("set"), LongKey(0), []);
    ThreeStrings(Ascii("set"), LongKey(1), []);
    assert [Ascii("keys")][1..] == [];
  }

  lemma ThreeStrings(a: Bytes, b: Bytes, c: Bytes)
    ensures |Body([a, b, c])| == 16 + |a| + |b| + |c|
  {
    hide Le;
    assert [a, b, c][1..] == [b, c] && [b, c][1..] == [c] && [c][1..] == [];
    assert |Strings([c])| == 4 + |c| && |Strings([b, c])| == 8 + |b| + |c|;
  }

  lemma TwoKeysEncoded(a: Bytes, b: Bytes)
    ensures |Encode(Arr([Str(a), Str(b)]))| == 15 + |a| + |b|
  {
    hide Le;
    var items := [Str(a), Str(b)];
    assert items[..1] == [Str(a)] && [Str(a)][..0] == [];
    assert EncodeAll(items) == EncodeAll([Str(a)]) + Encode(Str(b));
    assert EncodeAll([Str(a)]) == [] + Encode(Str(a));
  }

  /** The promise that every response can be read fails: three requests that this client can send, to an
      empty server, end in a response that it refuses. */
  lemma TooLongForTheClient(nums: Numbers, now: nat) returns (states: seq<Keyspace>, events: seq<Event>)
    ensures Run(nums, states, events) && states[0] == map[] && AnswersTo(events, LongKeys())
    ensures forall i :: 0 <= i < 3 ==> |Body(LongKeys()[i])| <= CLIENT_MAX_MSG
    ensures |Encode(Sent(events[2].reply))| > CLIENT_MAX_MSG
    ensures forall rest :: ReadRes(Frame(Encode(Sent(events[2].reply))) + rest) == Failed
  {
    hide Encode, Body, ReadRes, Frame;
    var a, b := LongKey(0), LongKey(1);
    assert a[0] != b[0];
    var r := Record(StrValue([]), None);
    var reply := Arr([Str(a), Str(b)]);
    states := [map[], map[a := r], map[a := r, b := r], map[a := r, b := r]];
    events := [Asked(now, LongKeys()[0], Nil), Asked(now, LongKeys()[1], Nil), Asked(now, LongKeys()[2], reply)];
    LongBodies();
    TwoKeysEncoded(a, b);
    forall rest
      ensures ReadRes(Frame(Encode(Sent(reply))) + rest) == Failed
    {
      ReadsBack(reply, rest);
    }
  }
}
