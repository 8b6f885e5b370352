/** Output buffers: appending tagged values, and patching lengths in afterwards. */
module Buffers {
  import opened Bytes
  import opened Scores
  import opened Replies
  import opened Codecs

  /** `k_max_msg`, 32 MiB. */
  const MAX_MSG: nat := 33554432

  /** A reply as it goes out: its length, then the tagged value; an error in place of a reply that is too big. */
  function Sent(reply: Reply): Reply {
    if |Encode(reply)| > MAX_MSG then Err(ERR_TOO_BIG, Ascii("response is too big.")) else reply
  }

  function Frame(body: Bytes): Bytes {
    Le(|body|, 4) + body
  }

  /** `std::vector<uint8_t>`. */
  class Buffer {
    var data: Bytes

    constructor ()
      ensures data == []
    {
      data := [];
    }

    /** `buf_append`. */
    method Append(s: Bytes)
      modifies this
      ensures data == old(data) + s
    {
      data := data + s;
    }

    /** `buf_consume`. */
    method Consume(n: nat)
      requires n <= |data|
      modifies this
      ensures data == old(data)[n..]
    {
      data := data[n..];
    }

    method OutNil()
      modifies this
      ensures data == old(data) + Encode(Nil)
    {
      Append([TAG_NIL]);
    }

    method OutStr(s: Bytes)
      modifies this
      ensures data == old(data) + Encode(Str(s))
    {
      Append([TAG_STR]);
      Append(Le(|s|, 4));
      Append(s);
      assert data == old(data) + ([TAG_STR] + Le(|s|, 4) + s);
    }

    method OutInt(val: int)
      modifies this
      ensures data == old(data) + Encode(Int(val))
    {
      Append([TAG_INT]);
      Append(Le(val, 8));
      assert data == old(data) + ([TAG_INT] + Le(val, 8));
    }

    method OutDbl(val: Score)
      modifies this
      ensures data == old(data) + Encode(Dbl(val))
    {
      Append([TAG_DBL]);
      Append(Le(Bits(val), 8));
      assert data == old(data) + ([TAG_DBL] + Le(Bits(val), 8));
    }

    method OutErr(code: nat, msg: Bytes)
      modifies this
      ensures data == old(data) + Encode(Err(code, msg))
    {
      Append([TAG_ERR]);
      Append(Le(code, 4));
      Append(Le(|msg|, 4));
      Append(msg);
      assert data == old(data) + ([TAG_ERR] + Le(code, 4) + Le(|msg|, 4) + msg);
    }

    /** The header of an array whose size is known. */
    method OutArr(n: nat)
      modifies this
      ensures data == old(data) + ([TAG_ARR] + Le(n, 4))
    {
      Append([TAG_ARR]);
      Append(Le(n, 4));
      assert data == old(data) + ([TAG_ARR] + Le(n, 4));
    }

    /** The header of an array whose size is patched in by `OutEndArr`. */
    method OutBeginArr() returns (ctx: nat)
      modifies this
      ensures data == old(data) + ([TAG_ARR] + Le(0, 4)) && ctx == |old(data)| + 1
    {
      Append([TAG_ARR]);
      Append(Le(0, 4));
      assert data == old(data) + ([TAG_ARR] + Le(0, 4));
      return |data| - 4;
    }

    method OutEndArr(ctx: nat, n: nat)
      requires 0 < ctx && ctx + 4 <= |data| && data[ctx - 1] == TAG_ARR
      modifies this
      ensures data == old(data)[..ctx] + Le(n, 4) + old(data)[ctx + 4..]
    {
      Patch(ctx, n);
    }

    /** `memcpy` of a `uint32_t` over four bytes. */
    method Patch(at: nat, n: nat)
      requires at + 4 <= |data|
      modifies this
      ensures data == old(data)[..at] + Le(n, 4) + old(data)[at + 4..]
    {
      data := data[..at] + Le(n, 4) + data[at + 4..];
    }

    /** `response_begin`. */
    method ResponseBegin() returns (header: nat)
      modifies this
      ensures data == old(data) + Le(0, 4) && header == |old(data)|
    {
      header := |data|;
      Append(Le(0, 4));
    }

    /** `response_end`: everything since `ResponseBegin` becomes one framed response. */
    method ResponseEnd(header: nat, ghost before: Bytes, ghost reply: Reply)
      requires header == |before| && data == before + Le(0, 4) + Encode(reply)
      modifies this
      ensures data == before + Frame(Encode(Sent(reply)))
    {
      hide Encode, Le, Ascii;
      Slots(before, Le(0, 4), Encode(reply));
      var msgSize := |data| - header - 4;
      if msgSize > MAX_MSG {
        data := data[..header + 4];
        OutErr(ERR_TOO_BIG, Ascii("response is too big."));
        msgSize := |data| - header - 4;
      }
      ghost var body := Encode(Sent(reply));
      Slots(before, Le(0, 4), body);
      Patch(header, msgSize);
      Slots(before, Le(msgSize, 4), body);
    }
  }

  lemma Slots(a: Bytes, b: Bytes, c: Bytes)
    requires |b| == 4
    ensures var d := a + b + c;
      d[..|a|] == a && d[..|a| + 4] == a + b && d[|a| + 4..] == c && |d| == |a| + 4 + |c| && a + b + c == a + (b + c)
  {
  }
}
