/** The intrusive hash-table hook and the string hash. */
module HNodes {
  import opened Bytes

  const FNV_BASIS: nat := 0x811C9DC5
  const FNV_PRIME: nat := 0x01000193
  const TWO_32: nat := 0x1_0000_0000

  /** `str_hash`: 32-bit arithmetic that wraps, whatever the comment beside it calls it. */
  function StrHash(data: Bytes): nat {
    HashFrom(FNV_BASIS, data)
  }

  function HashFrom(h: nat, data: Bytes): nat
    decreases |data|
  {
    if data == [] then h else HashFrom((h + data[0]) * FNV_PRIME % TWO_32, data[1..])
  }

  lemma {:induction false} HashOneMore(h: nat, data: Bytes, b: byte)
    ensures HashFrom(h, data + [b]) == (HashFrom(h, data) + b) * 0x01000193 % 0x1_0000_0000
    decreases |data|
  {
    if data == [] {
      assert (data + [b])[1..] == [];
    } else {
      HashOneMore((h + data[0]) * FNV_PRIME % TWO_32, data[1..], b);
      assert (data + [b])[1..] == data[1..] + [b];
    }
  }

  /** Byte by byte: from 2166136261, add the byte and multiply by 16777619, modulo 2^32. */
  lemma HashByByte(data: Bytes, b: byte)
    ensures StrHash([]) == 2166136261
    ensures StrHash(data + [b]) == (StrHash(data) + b) * 16777619 % 4294967296
  {
    HashOneMore(FNV_BASIS, data, b);
  }

  /** The hook embedded in every payload. `key` is the byte string that the payload's comparison
      callback reads; `owner` is the payload itself, what `container_of` computes. */
  class HNode {
    var next: HNode?
    const hcode: nat
    const key: Bytes
    var owner: object?

    constructor (key: Bytes, hcode: nat)
      ensures this.key == key && this.hcode == hcode && next == null && owner == null
    {
      this.key := key;
      this.hcode := hcode;
      next := null;
      owner := null;
    }
  }
}
