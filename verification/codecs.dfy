/** The wire format of integers and of tagged replies, and the client's decoder. */
module Codecs {
  import opened Sequences
  import opened Bytes
  import opened Scores
  import opened Replies

  /** The low `n` bytes of an integer in two's complement, least significant first. */
  function Le(v: int, n: nat): (s: Bytes)
    ensures |s| == n
    decreases n
  {
    if n == 0 then [] else [v % 256] + Le(v / 256, n - 1)
  }

  function FromLe(s: Bytes): nat {
    if s == [] then 0 else s[0] + 256 * FromLe(s[1..])
  }

  function Pow256(n: nat): nat {
    if n == 0 then 1 else 256 * Pow256(n - 1)
  }

  lemma {:induction false} LeRoundTrip(v: nat, n: nat)
    requires v < Pow256(n)
    ensures FromLe(Le(v, n)) == v
  {
    if n > 0 {
      LeRoundTrip(v / 256, n - 1);
      assert Le(v, n)[1..] == Le(v / 256, n - 1);
    }
  }

  lemma LowByte(b: byte, high: nat)
    ensures (b + 256 * high) % 256 == b && (b + 256 * high) / 256 == high
  {
  }

  lemma FirstByte(s: Bytes)
    requires s != []
    ensures s == [s[0]] + s[1..]
  {
  }

  lemma {:induction false} FromLeRoundTrip(s: Bytes)
    ensures FromLe(s) < Pow256(|s|) && Le(FromLe(s), |s|) == s
  {
    if s != [] {
      FromLeRoundTrip(s[1..]);
      LowByte(s[0], FromLe(s[1..]));
      FirstByte(s);
      assert Le(FromLe(s), |s|) == [s[0]] + Le(FromLe(s[1..]), |s[1..]|);
    }
  }

  lemma {:induction false} LeWraps(v: int, n: nat)
    ensures Le(v + Pow256(n), n) == Le(v, n)
    decreases n
  {
    if n > 0 {
      LeWraps(v / 256, n - 1);
      assert (v + 256 * Pow256(n - 1)) / 256 == v / 256 + Pow256(n - 1);
    }
  }

  lemma WordSizes()
    ensures Pow256(4) == 0x1_0000_0000 && Pow256(8) == 0x1_0000_0000_0000_0000
  {
    assert Pow256(1) == 256 && Pow256(2) == 0x1_0000 && Pow256(3) == 0x100_0000 && Pow256(4) == 0x1_0000_0000;
    assert Pow256(5) == 0x100_0000_0000 && Pow256(6) == 0x1_0000_0000_0000;
  }

  lemma U32RoundTrip(v: nat)
    requires v < 0x1_0000_0000
    ensures FromLe(Le(v, 4)) == v
  {
    WordSizes();
    LeRoundTrip(v, 4);
  }

  /** `int64_t` from its eight bytes. */
  function Signed(v: nat): int {
    if v < 0x8000_0000_0000_0000 then v else v - 0x1_0000_0000_0000_0000
  }

  lemma I64RoundTrip(v: int)
    requires -0x8000_0000_0000_0000 <= v < 0x8000_0000_0000_0000
    ensures Signed(FromLe(Le(v, 8))) == v
  {
    WordSizes();
    if v >= 0 {
      LeRoundTrip(v, 8);
    } else {
      LeWraps(v, 8);
      LeRoundTrip(v + 0x1_0000_0000_0000_0000, 8);
    }
  }

  /** The bits of a double. */
  function Bits(s: Score): nat {
    s.magnitude + if s.negative then 0x8000_0000_0000_0000 else 0
  }

  function ScoreOf(bits: nat): Score {
    if bits < 0x8000_0000_0000_0000 then Score(false, bits) else Score(true, bits - 0x8000_0000_0000_0000)
  }

  const TAG_NIL: byte := 0
  const TAG_ERR: byte := 1
  const TAG_STR: byte := 2
  const TAG_INT: byte := 3
  const TAG_DBL: byte := 4
  const TAG_ARR: byte := 5

  /** The tagged encoding that the `out_*` functions produce. */
  function Encode(r: Reply): (s: Bytes)
    ensures |s| > 0
  {
    match r
    case Nil => [TAG_NIL]
    case Err(code, msg) => [TAG_ERR] + Le(code, 4) + Le(|msg|, 4) + msg
    case Str(text) => [TAG_STR] + Le(|text|, 4) + text
    case Int(val) => [TAG_INT] + Le(val, 8)
    case Dbl(score) => [TAG_DBL] + Le(Bits(score), 8)
    case Arr(items) => [TAG_ARR] + Le(|items|, 4) + EncodeAll(items)
  }

  function EncodeAll(items: seq<Reply>): Bytes {
    if items == [] then [] else EncodeAll(items[..|items| - 1]) + Encode(items[|items| - 1])
  }

  /** What fits the fields of the encoding. */
  predicate Fits(r: Reply) {
    match r
    case Nil => true
    case Err(code, msg) => code < 0x1_0000_0000
    case Str(text) => true
    case Int(val) => -0x8000_0000_0000_0000 <= val < 0x8000_0000_0000_0000
    case Dbl(score) => score.magnitude < 0x8000_0000_0000_0000
    case Arr(items) => forall i :: 0 <= i < |items| ==> Fits(items[i])
  }

  /** `uint32_t` arithmetic. */
  function W32(v: nat): nat {
    v % 0x1_0000_0000
  }

  datatype Decoded = Bad | Good(reply: Reply, used: nat)
  datatype DecodedAll = BadAll | GoodAll(items: seq<Reply>, used: nat)

  /** `print_response`: what it prints, and the bytes it consumes. A length that overflows its
      `int32_t` result reads as a failure. */
  function Decode(data: Bytes): (d: Decoded)
    ensures d.Good? ==> 0 < d.used
    decreases |data|, 0, 0
  {
    if |data| < 1 then Bad
    else if data[0] == TAG_NIL then Good(Nil, 1)
    else if data[0] == TAG_ERR then
      if |data| < 9 then Bad
      else
        var len := FromLe(data[5..9]);
        if |data| < W32(9 + len) || W32(9 + len) >= 0x8000_0000 || W32(9 + len) < 9 then Bad
        else Good(Err(FromLe(data[1..5]), data[9..W32(9 + len)]), W32(9 + len))
    else if data[0] == TAG_STR then
      if |data| < 5 then Bad
      else
        var len := FromLe(data[1..5]);
        if |data| < W32(5 + len) || W32(5 + len) >= 0x8000_0000 || W32(5 + len) < 5 then Bad
        else Good(Str(data[5..W32(5 + len)]), W32(5 + len))
    else if data[0] == TAG_INT then
      if |data| < 9 then Bad else Good(Int(Signed(FromLe(data[1..9]))), 9)
    else if data[0] == TAG_DBL then
      if |data| < 9 then Bad else Good(Dbl(ScoreOf(FromLe(data[1..9]))), 9)
    else if data[0] == TAG_ARR then
      if |data| < 5 then Bad
      else
        var all := DecodeAll(data[5..], FromLe(data[1..5]));
        if all.BadAll? || 5 + all.used >= 0x8000_0000 then Bad
        else Good(Arr(all.items), 5 + all.used)
    else Bad
  }

  /** The array loop: `n` more elements, one after the other. */
  function DecodeAll(data: Bytes, n: nat): DecodedAll
    decreases |data|, 1, n
  {
    if n == 0 then GoodAll([], 0)
    else
      var d := Decode(data);
      if d.Bad? || d.used > |data| then BadAll
      else
        var rest := DecodeAll(data[d.used..], n - 1);
        if rest.BadAll? then BadAll else GoodAll([d.reply] + rest.items, d.used + rest.used)
  }

  lemma {:induction false} EncodeAllFirst(items: seq<Reply>)
    requires items != []
    ensures EncodeAll(items) == Encode(items[0]) + EncodeAll(items[1..])
  {
    hide Encode;
    if |items| > 1 {
      var init, last, tail := items[..|items| - 1], items[|items| - 1], items[1..];
      EncodeAllFirst(init);
      assert tail[..|tail| - 1] == init[1..] && tail[|tail| - 1] == last && init[0] == items[0];
      assert EncodeAll(tail) == EncodeAll(init[1..]) + Encode(last);
      Joined(Encode(items[0]), EncodeAll(init[1..]), Encode(last));
    } else {
      assert items[..0] == [] && items[1..] == [];
    }
  }

  lemma ErrParts(code: nat, msg: Bytes, rest: Bytes)
    ensures var data := Encode(Err(code, msg)) + rest;
      |data| >= 9 + |msg| && data[0] == TAG_ERR && data[1..5] == Le(code, 4) &&
      data[5..9] == Le(|msg|, 4) && data[9..9 + |msg|] == msg
  {
    hide Le;
    var head, body := [TAG_ERR] + Le(code, 4) + Le(|msg|, 4), msg + rest;
    assert Encode(Err(code, msg)) + rest == head + body;
    assert |head| == 9 && body[..|msg|] == msg;
  }

  lemma DecodeErr(code: nat, msg: Bytes, rest: Bytes)
    requires code < 0x1_0000_0000 && 9 + |msg| < 0x8000_0000
    ensures Decode(Encode(Err(code, msg)) + rest) == Good(Err(code, msg), 9 + |msg|)
  {
    hide Encode, Le, FromLe;
    ErrParts(code, msg, rest);
    U32RoundTrip(code);
    U32RoundTrip(|msg|);
  }

  lemma DecodeStr(text: Bytes, rest: Bytes)
    requires 5 + |text| < 0x8000_0000
    ensures Decode(Encode(Str(text)) + rest) == Good(Str(text), 5 + |text|)
  {
    var data := Encode(Str(text)) + rest;
    assert data[0] == TAG_STR && data[1..5] == Le(|text|, 4) && data[5..5 + |text|] == text;
    U32RoundTrip(|text|);
  }

  lemma DecodeNumber(r: Reply, rest: Bytes)
    requires Fits(r) && (r.Int? || r.Dbl?)
    ensures Decode(Encode(r) + rest) == Good(r, 9)
  {
    var v := if r.Int? then r.val else Bits(r.score);
    var data := Encode(r) + rest;
    assert data[0] == (if r.Int? then TAG_INT else TAG_DBL) && data[1..9] == Le(v, 8);
    if r.Int? {
      I64RoundTrip(v);
    } else {
      WordSizes();
      LeRoundTrip(v, 8);
    }
  }

  lemma DecodeArr(items: seq<Reply>, rest: Bytes)
    requires 5 + |EncodeAll(items)| < 0x8000_0000
    requires DecodeAll(EncodeAll(items) + rest, |items|) == GoodAll(items, |EncodeAll(items)|)
    ensures Decode(Encode(Arr(items)) + rest) == Good(Arr(items), 5 + |EncodeAll(items)|)
  {
    hide EncodeAll, DecodeAll;
    var data := Encode(Arr(items)) + rest;
    assert data[0] == TAG_ARR && data[1..5] == Le(|items|, 4) && data[5..] == EncodeAll(items) + rest;
    EncodeAllSize(items);
    U32RoundTrip(|items|);
  }

  /** The client recovers exactly what the server wrote, whatever follows it, and consumes exactly
      those bytes. */
  lemma {:induction false} DecodeEncode(r: Reply, rest: Bytes)
    requires Fits(r) && |Encode(r)| < 0x8000_0000
    ensures Decode(Encode(r) + rest) == Good(r, |Encode(r)|)
    decreases r, 1, 0
  {
    hide Decode, DecodeAll;
    match r
    case Nil =>
      DecodeNil(rest);
    case Err(code, msg) =>
      DecodeErr(code, msg, rest);
    case Str(text) =>
      DecodeStr(text, rest);
    case Int(val) =>
      DecodeNumber(r, rest);
    case Dbl(score) =>
      DecodeNumber(r, rest);
    case Arr(items) =>
      DecodeEncodeAll(r, items, rest);
      DecodeArr(items, rest);
  }

  lemma DecodeNil(rest: Bytes)
    ensures Decode(Encode(Nil) + rest) == Good(Nil, 1)
  {
  }

  lemma {:induction false} EncodeAllSize(items: seq<Reply>)
    ensures |items| <= |EncodeAll(items)|
  {
    if items != [] {
      EncodeAllSize(items[..|items| - 1]);
    }
  }

  lemma {:induction false} DecodeEncodeAll(r: Reply, items: seq<Reply>, rest: Bytes)
    requires forall i :: 0 <= i < |items| ==> items[i] < r && Fits(items[i])
    requires |EncodeAll(items)| < 0x8000_0000
    ensures DecodeAll(EncodeAll(items) + rest, |items|) == GoodAll(items, |EncodeAll(items)|)
    decreases r, 0, |items|
  {
    hide Decode, Encode, Fits;
    if items != [] {
      EncodeAllFirst(items);
      var tail := EncodeAll(items[1..]) + rest;
      Joined(Encode(items[0]), EncodeAll(items[1..]), rest);
      DecodeEncode(items[0], tail);
      assert (Encode(items[0]) + tail)[|Encode(items[0])|..] == tail;
      DecodeEncodeAll(r, items[1..], rest);
      assert items == [items[0]] + items[1..];
    }
  }
}
