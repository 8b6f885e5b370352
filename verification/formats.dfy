/** The wire format byte by byte: what any other program that talks to the server may rely on. */
module Formats {
  import opened Sequences
  import opened Bytes
  import opened Scores
  import opened Replies
  import opened Codecs
  import opened Buffers
  import opened Requests
  import opened Streams

  lemma AsciiAt(s: string, i: nat)
    requires i < |s| && s[i] < 256 as char
    ensures |Ascii(s)| == |s| && Ascii(s)[i] == s[i] as int
  {
  }

  lemma Shifts(v: int)
    ensures v / 0x100 / 0x100 == v / 0x1_0000
    ensures v / 0x1_0000 / 0x100 == v / 0x100_0000
    ensures v / 0x100_0000 / 0x100 == v / 0x1_0000_0000
    ensures v / 0x1_0000_0000 / 0x100 == v / 0x100_0000_0000
    ensures v / 0x1_0000_0000 / 0x1_0000 == v / 0x1_0000_0000_0000
    ensures v / 0x1_0000_0000 / 0x100_0000 == v / 0x100_0000_0000_0000
  {
  }

  lemma LeFront(v: int, n: nat)
    requires n > 0
    ensures Le(v, n) == [v % 256] + Le(v / 256, n - 1)
    ensures n == 1 ==> Le(v, n) == [v % 256]
  {
  }

  /** `uint32_t`, low byte first. */
  lemma FourBytes(v: int)
    ensures Le(v, 4) == [v % 256, v / 256 % 256, v / 0x1_0000 % 256, v / 0x100_0000 % 256]
  {
    FirstFour(v, 4);
  }

  lemma FirstFour(v: int, n: nat)
    requires n >= 4
    ensures Le(v, n) ==
      [v % 256, v / 256 % 256, v / 0x1_0000 % 256, v / 0x100_0000 % 256] + Le(v / 0x1_0000_0000, n - 4)
    ensures n == 4 ==> Le(v, n) == [v % 256, v / 256 % 256, v / 0x1_0000 % 256, v / 0x100_0000 % 256]
  {
    hide Le;
    LeFront(v, n);
    LeFront(v / 256, n - 1);
    Shifts(v);
    LeFront(v / 0x1_0000, n - 2);
    LeFront(v / 0x100_0000, n - 3);
  }

  /** `int64_t`, low byte first, and negative numbers in two's complement. */
  lemma EightBytes(v: int)
    ensures Le(v, 8) ==
      [v % 256, v / 256 % 256, v / 0x1_0000 % 256, v / 0x100_0000 % 256, v / 0x1_0000_0000 % 256,
       v / 0x100_0000_0000 % 256, v / 0x1_0000_0000_0000 % 256, v / 0x100_0000_0000_0000 % 256]
  {
    hide Le;
    FirstFour(v, 8);
    FourBytes(v / 0x1_0000_0000);
    Shifts(v);
  }

  /** The six kinds of values in a response. */
  lemma NilBytes()
    ensures Encode(Nil) == [0]
  {
  }

  lemma ErrBytes(code: nat, msg: Bytes)
    ensures Encode(Err(code, msg)) ==
      [1, code % 256, code / 256 % 256, code / 0x1_0000 % 256, code / 0x100_0000 % 256,
       |msg| % 256, |msg| / 256 % 256, |msg| / 0x1_0000 % 256, |msg| / 0x100_0000 % 256] + msg
  {
    hide Le;
    FourBytes(code);
    FourBytes(|msg|);
  }

  lemma StrBytes(text: Bytes)
    ensures Encode(Str(text)) ==
      [2, |text| % 256, |text| / 256 % 256, |text| / 0x1_0000 % 256, |text| / 0x100_0000 % 256] + text
  {
    hide Le;
    FourBytes(|text|);
  }

  lemma IntBytes(v: int)
    ensures Encode(Int(v)) ==
      [3, v % 256, v / 256 % 256, v / 0x1_0000 % 256, v / 0x100_0000 % 256, v / 0x1_0000_0000 % 256,
       v / 0x100_0000_0000 % 256, v / 0x1_0000_0000_0000 % 256, v / 0x100_0000_0000_0000 % 256]
  {
    hide Le;
    EightBytes(v);
  }

  /** The bits of the double; the sign is the top one. */
  lemma DblBytes(score: Score)
    ensures var v := if score.negative then score.magnitude + 0x8000_0000_0000_0000 else score.magnitude;
      Encode(Dbl(score)) ==
        [4, v % 256, v / 256 % 256, v / 0x1_0000 % 256, v / 0x100_0000 % 256, v / 0x1_0000_0000 % 256,
         v / 0x100_0000_0000 % 256, v / 0x1_0000_0000_0000 % 256, v / 0x100_0000_0000_0000 % 256]
  {
    hide Le;
    EightBytes(Bits(score));
  }

  /** The count, then the items one after the other. */
  lemma ArrBytes(items: seq<Reply>)
    ensures Encode(Arr(items)) ==
      [5, |items| % 256, |items| / 256 % 256, |items| / 0x1_0000 % 256, |items| / 0x100_0000 % 256] +
        Flat(seq(|items|, i requires 0 <= i < |items| => Encode(items[i])))
  {
    hide Le;
    FourBytes(|items|);
    ItemBytes(items);
  }

  lemma {:induction false} ItemBytes(items: seq<Reply>)
    ensures EncodeAll(items) == Flat(seq(|items|, i requires 0 <= i < |items| => Encode(items[i])))
  {
    hide Encode;
    if items != [] {
      var init := items[..|items| - 1];
      ItemBytes(init);
      var all := seq(|items|, i requires 0 <= i < |items| => Encode(items[i]));
      assert all[..|items| - 1] == seq(|init|, i requires 0 <= i < |init| => Encode(init[i]));
    }
  }

  /** A response: its length, then the tagged value; over 32 MiB, error 2 instead. */
  lemma ResponseBytes(reply: Reply)
    ensures var body := if |Encode(reply)| > 33554432 then [1, 2, 0, 0, 0, 20, 0, 0, 0] + Ascii("response is too big.")
      else Encode(reply);
      Frame(Encode(Sent(reply))) ==
        [|body| % 256, |body| / 256 % 256, |body| / 0x1_0000 % 256, |body| / 0x100_0000 % 256] + body
  {
    hide Le, Encode, Ascii;
    FourBytes(|Encode(Sent(reply))|);
    ErrBytes(2, Ascii("response is too big."));
    Length("response is too big.");
  }

  lemma Length(s: string)
    ensures |Ascii(s)| == |s|
  {
  }

  /** A request: the number of strings, and each string behind its length. */
  lemma RequestBytes(list: seq<Bytes>)
    ensures Body(list) ==
      [|list| % 256, |list| / 256 % 256, |list| / 0x1_0000 % 256, |list| / 0x100_0000 % 256] +
        Flat(seq(|list|, i requires 0 <= i < |list| => LengthAnd(list[i])))
  {
    hide Le;
    FourBytes(|list|);
    StringBytes(list);
  }

  function LengthAnd(s: Bytes): Bytes {
    [|s| % 256, |s| / 256 % 256, |s| / 0x1_0000 % 256, |s| / 0x100_0000 % 256] + s
  }

  lemma {:induction false} StringBytes(list: seq<Bytes>)
    ensures Strings(list) == Flat(seq(|list|, i requires 0 <= i < |list| => LengthAnd(list[i])))
  {
    hide Le, Strings, LengthAnd;
    var all := seq(|list|, i requires 0 <= i < |list| => LengthAnd(list[i]));
    if list == [] {
      NoStrings([]);
    } else {
      var init, last := list[..|list| - 1], list[|list| - 1];
      StringBytes(init);
      StringsAppend(init, last);
      OneString(last);
      assert init + [last] == list;
      assert all[..|list| - 1] == seq(|init|, i requires 0 <= i < |init| => LengthAnd(init[i]));
    }
  }

  lemma OneString(s: Bytes)
    ensures Le(|s|, 4) + s == LengthAnd(s)
  {
    hide Le;
    FourBytes(|s|);
  }

  lemma NumberOf(s: Bytes)
    requires |s| == 4
    ensures FromLe(s) == s[0] as int + 256 * (s[1] as int) + 0x1_0000 * (s[2] as int) + 0x100_0000 * (s[3] as int)
  {
    assert s[1..][1..] == s[2..] && s[2..][1..] == s[3..] && s[3..][1..] == [];
    assert FromLe([]) == 0;
    assert FromLe(s[3..]) == s[3] && FromLe(s[2..]) == s[2] + 256 * FromLe(s[3..]);
    assert FromLe(s[1..]) == s[1] + 256 * FromLe(s[2..]);
  }

  /** What the server finds at the front of a stream: a length above 32 MiB is refused, and so is a complete
      body that is not the encoding of at most 200000 strings; everything else is awaited or accepted. */
  lemma FrontBytes(s: Bytes)
    ensures |s| < 4 ==> NextRequest(s).NeedMore?
    ensures |s| >= 4 ==>
      var len := s[0] as int + 256 * (s[1] as int) + 0x1_0000 * (s[2] as int) + 0x100_0000 * (s[3] as int);
      if len > 33554432 then NextRequest(s).Broken?
      else if |s| < 4 + len then NextRequest(s).NeedMore?
      else match NextRequest(s)
        case NeedMore => false
        case Broken => forall list :: Sendable(list) && |list| <= 200000 ==> s[4..4 + len] != Body(list)
        case Request(args, rest) => s[4..4 + len] == Body(args) && |args| <= 200000 && rest == s[4 + len..]
  {
    hide Parse, FromLe, Body, Sendable;
    if |s| >= 4 {
      NumberOf(s[..4]);
      var len := FromLe(s[..4]);
      if len <= 33554432 && 4 + len <= |s| {
        forall list
          ensures Parse(s[4..4 + len]) == Some(list) <==>
            Sendable(list) && |list| <= 200000 && s[4..4 + len] == Body(list)
        {
          ParseExactly(s[4..4 + len], list);
        }
      }
    }
  }
}
