/** The request format: the server's parser and the client's writer. */
module Requests {
  import opened Bytes
  import opened Replies
  import opened Codecs

  /** `k_max_args`. */
  const MAX_ARGS: nat := 200000

  /** The client's `k_max_msg`. */
  const CLIENT_MAX_MSG: nat := 4096

  /** Length-prefixed strings, one after the other. */
  function Strings(list: seq<Bytes>): Bytes {
    if list == [] then [] else Le(|list[0]|, 4) + list[0] + Strings(list[1..])
  }

  /** A request body: the count, then the strings. */
  function Body(list: seq<Bytes>): Bytes {
    Le(|list|, 4) + Strings(list)
  }

  /** What a 32-bit length can describe. */
  predicate Sendable(list: seq<Bytes>) {
    |list| < 0x1_0000_0000 && forall i :: 0 <= i < |list| ==> |list[i]| < 0x1_0000_0000
  }

  /** `n` strings and nothing after them. */
  function ParseStrings(data: Bytes, n: nat): Option<seq<Bytes>> {
    if n == 0 then if data == [] then Some([]) else None
    else if |data| < 4 then None
    else
      var len := FromLe(data[..4]);
      if |data| < 4 + len then None
      else match ParseStrings(data[4 + len..], n - 1)
        case None => None
        case Some(rest) => Some([data[4..4 + len]] + rest)
  }

  /** What `parse_req` accepts. */
  function Parse(data: Bytes): Option<seq<Bytes>> {
    if |data| < 4 || FromLe(data[..4]) > MAX_ARGS then None
    else ParseStrings(data[4..], FromLe(data[..4]))
  }

  lemma U32Bound(s: Bytes)
    requires |s| == 4
    ensures FromLe(s) < 0x1_0000_0000 && Le(FromLe(s), 4) == s
  {
    WordSizes();
    FromLeRoundTrip(s);
  }

  /** What accepting the first of `n` strings means. */
  lemma ParseFirst(data: Bytes, n: nat)
    requires ParseStrings(data, n).Some? && n > 0
    ensures |data| >= 4 && 4 + FromLe(data[..4]) <= |data|
    ensures var len := FromLe(data[..4]); var rest := ParseStrings(data[4 + len..], n - 1);
      rest.Some? && ParseStrings(data, n).value == [data[4..4 + len]] + rest.value
  {
    hide FromLe;
  }

  lemma FirstApart(first: Bytes, rest: seq<Bytes>)
    ensures Strings([first] + rest) == Le(|first|, 4) + first + Strings(rest)
  {
    hide Le;
    assert ([first] + rest)[1..] == rest;
  }

  lemma CutData(data: Bytes, len: nat)
    requires 4 + len <= |data|
    ensures data == data[..4] + data[4..4 + len] + data[4 + len..]
  {
  }

  lemma ParseNothing(data: Bytes)
    requires ParseStrings(data, 0).Some?
    ensures ParseStrings(data, 0).value == [] && Strings([]) == data
  {
  }

  /** Whatever is accepted is the encoding of the result. */
  lemma {:induction false} ParseStringsSound(data: Bytes, n: nat)
    requires ParseStrings(data, n).Some?
    ensures var list := ParseStrings(data, n).value;
      |list| == n && Strings(list) == data && forall s <- list :: |s| < 0x1_0000_0000
  {
    hide *;
    if n > 0 {
      ParseFirst(data, n);
      var len := FromLe(data[..4]);
      var first, tail := data[4..4 + len], data[4 + len..];
      U32Bound(data[..4]);
      ParseStringsSound(tail, n - 1);
      FirstApart(first, ParseStrings(tail, n - 1).value);
      CutData(data, len);
    } else {
      ParseNothing(data);
    }
  }

  /** Every encoding is accepted, and gives back what was encoded. */
  lemma {:induction false} ParseStringsComplete(list: seq<Bytes>)
    requires forall i :: 0 <= i < |list| ==> |list[i]| < 0x1_0000_0000
    ensures ParseStrings(Strings(list), |list|) == Some(list)
  {
    if list != [] {
      ParseStringsComplete(list[1..]);
      var data, s := Strings(list), list[0];
      FirstString(s, Strings(list[1..]));
      U32RoundTrip(|s|);
      assert list == [s] + list[1..];
    }
  }

  lemma FirstString(s: Bytes, rest: Bytes)
    ensures var data := Le(|s|, 4) + s + rest;
      data[..4] == Le(|s|, 4) && data[4..4 + |s|] == s && data[4 + |s|..] == rest && |data| == 4 + |s| + |rest|
  {
  }

  /** The accepted bodies are exactly the encodings of lists of at most 200000 strings. */
  lemma ParseExactly(data: Bytes, list: seq<Bytes>)
    ensures Parse(data) == Some(list) <==> Sendable(list) && |list| <= 200000 && data == Body(list)
  {
    if Parse(data) == Some(list) {
      U32Bound(data[..4]);
      ParseStringsSound(data[4..], FromLe(data[..4]));
      assert data == data[..4] + data[4..];
    }
    if Sendable(list) && |list| <= MAX_ARGS && data == Body(list) {
      ParseStringsComplete(list);
      U32RoundTrip(|list|);
      assert data[..4] == Le(|list|, 4) && data[4..] == Strings(list);
    }
  }

  /** `parse_req`. */
  method ParseReq(data: Bytes) returns (ok: bool, out: seq<Bytes>)
    ensures ok <==> Parse(data).Some?
    ensures ok ==> Parse(data) == Some(out)
  {
    out := [];
    if |data| < 4 {
      return false, out;
    }
    var nstr := FromLe(data[..4]);
    if nstr > MAX_ARGS {
      return false, out;
    }
    var cur := data[4..];
    assert ParseStrings(cur, nstr).Some? ==> [] + ParseStrings(cur, nstr).value == ParseStrings(cur, nstr).value;
    while |out| < nstr
      invariant |out| <= nstr
      invariant ParseStrings(data[4..], nstr) == match ParseStrings(cur, nstr - |out|) {
        case None => None case Some(rest) => Some(out + rest) }
      decreases nstr - |out|
    {
      if |cur| < 4 {
        return false, out;
      }
      var len := FromLe(cur[..4]);
      if |cur| < 4 + len {
        return false, out;
      }
      ghost var before, first := out, cur[4..4 + len];
      ghost var tail := ParseStrings(cur[4 + len..], nstr - |out| - 1);
      assert tail.Some? ==> before + ([first] + tail.value) == before + [first] + tail.value;
      out := out + [cur[4..4 + len]];
      cur := cur[4 + len..];
    }
    assert out + [] == out;
    ok := cur == [];
  }

  /** `memcpy` into a buffer. */
  method Memcpy(buf: array<byte>, at: nat, s: Bytes)
    requires at + |s| <= buf.Length
    modifies buf
    ensures buf[..] == old(buf[..at]) + s + old(buf[at + |s|..])
  {
    var i := 0;
    while i < |s|
      invariant 0 <= i <= |s|
      invariant buf[..at] == old(buf[..at]) && buf[at..at + i] == s[..i] && buf[at + i..] == old(buf[at + i..])
    {
      buf[at + i] := s[i];
      i := i + 1;
    }
  }

  lemma {:induction false} StringsAppend(list: seq<Bytes>, s: Bytes)
    ensures Strings(list + [s]) == Strings(list) + (Le(|s|, 4) + s)
  {
    if list == [] {
      assert [s][1..] == [] && list + [s] == [s];
    } else {
      StringsAppend(list[1..], s);
      assert (list + [s])[1..] == list[1..] + [s] && (list + [s])[0] == list[0];
    }
  }

  /** The first loop of `send_req`. */
  method RequestLength(cmd: seq<Bytes>) returns (len: nat)
    ensures len == |Body(cmd)|
  {
    len := 4;
    var i := 0;
    while i < |cmd|
      invariant 0 <= i <= |cmd| && len == 4 + |Strings(cmd[..i])|
    {
      StringsAppend(cmd[..i], cmd[i]);
      assert cmd[..i] + [cmd[i]] == cmd[..i + 1];
      len := len + 4 + |cmd[i]|;
      i := i + 1;
    }
    assert cmd[..i] == cmd;
  }

  /** The second loop: every string goes behind the ones before it. */
  method FillStrings(cmd: seq<Bytes>, wbuf: array<byte>, ghost head: Bytes)
    requires |head| == 8 && 8 + |Strings(cmd)| <= wbuf.Length && wbuf[..8] == head
    modifies wbuf
    ensures wbuf[..8 + |Strings(cmd)|] == head + Strings(cmd)
  {
    hide Le, Strings;
    var cur := 8;
    var i := 0;
    NoStrings(cmd);
    while i < |cmd|
      invariant 0 <= i <= |cmd| && cur == 8 + |Strings(cmd[..i])| <= wbuf.Length
      invariant wbuf[..cur] == head + Strings(cmd[..i])
    {
      StringsAppend(cmd[..i], cmd[i]);
      assert cmd[..i] + [cmd[i]] == cmd[..i + 1];
      PrefixFits(cmd, i + 1);
      Regrouped(head, Strings(cmd[..i]), Le(|cmd[i]|, 4), cmd[i]);
      Memcpy(wbuf, cur, Le(|cmd[i]|, 4));
      Memcpy(wbuf, cur + 4, cmd[i]);
      cur := cur + 4 + |cmd[i]|;
      i := i + 1;
    }
    assert cmd[..i] == cmd;
  }

  lemma NoStrings(cmd: seq<Bytes>)
    ensures Strings(cmd[..0]) == []
  {
  }

  lemma Regrouped(a: Bytes, b: Bytes, c: Bytes, d: Bytes)
    ensures a + b + c + d == a + (b + (c + d))
  {
  }

  /** `send_req`: the bytes handed to `write_all`, unless the request is too long for the client. */
  method SendReq(cmd: seq<Bytes>) returns (sent: Option<Bytes>)
    ensures |Body(cmd)| > 4096 ==> sent == None
    ensures |Body(cmd)| <= 4096 ==> sent == Some(Le(|Body(cmd)|, 4) + Body(cmd))
  {
    hide Le, Strings;
    var len := RequestLength(cmd);
    if len > CLIENT_MAX_MSG {
      return None;
    }
    var wbuf := new byte[4 + CLIENT_MAX_MSG](_ => 0);
    Memcpy(wbuf, 0, Le(len, 4));
    Memcpy(wbuf, 4, Le(|cmd|, 4));
    ghost var head := Le(len, 4) + Le(|cmd|, 4);
    assert wbuf[..8] == head;
    FillStrings(cmd, wbuf, head);
    assert head + Strings(cmd) == Le(len, 4) + Body(cmd);
    return Some(wbuf[..4 + len]);
  }

  lemma {:induction false} PrefixFits(list: seq<Bytes>, i: nat)
    requires i <= |list|
    ensures |Strings(list[..i])| <= |Strings(list)|
    decreases |list| - i
  {
    if i < |list| {
      StringsAppend(list[..i], list[i]);
      assert list[..i] + [list[i]] == list[..i + 1];
      PrefixFits(list, i + 1);
    } else {
      assert list[..i] == list;
    }
  }

  lemma {:induction false} StringsBound(list: seq<Bytes>)
    ensures 4 * |list| <= |Strings(list)| && forall i :: 0 <= i < |list| ==> |list[i]| <= |Strings(list)|
  {
    if list != [] {
      StringsBound(list[1..]);
      forall i | 0 <= i < |list|
        ensures |list[i]| <= |Strings(list)|
      {
        assert i > 0 ==> list[i] == list[1..][i - 1];
      }
    }
  }

  /** Whatever the client sends, the server reads back. */
  lemma RequestRoundTrip(cmd: seq<Bytes>)
    requires |Body(cmd)| <= CLIENT_MAX_MSG
    ensures Parse(Body(cmd)) == Some(cmd)
  {
    StringsBound(cmd);
    ParseExactly(Body(cmd), cmd);
  }
}
