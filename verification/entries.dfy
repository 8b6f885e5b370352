/** Keys of the database with their values, as the dictionary and the timer heap see them. */
module Entries {
  import opened Bytes
  import opened HNodes
  import opened ZSets

  /** `T_STR` and `T_ZSET`. */
  datatype Kind = StrKind | ZSetKind

  /** `(size_t)-1`: larger than every heap index. */
  const NO_TIMER: int := -1

  /** `struct Entry`: the hook (which carries the key), the heap position, and both value fields. */
  class Entry {
    const node: HNode
    var heapIdx: int
    const kind: Kind
    var str: Bytes
    const zset: ZSet

    constructor (key: Bytes, kind: Kind, str: Bytes)
      ensures fresh(node) && node.key == key && node.hcode == StrHash(key) && node.owner == this && node.next == null
      ensures this.kind == kind && this.str == str && heapIdx == NO_TIMER
      ensures this !in zset.Repr && node !in zset.Repr
      ensures fresh(zset) && fresh(zset.Repr) && zset.Valid() && zset.Scores() == map[]
    {
      node := new HNode(key, StrHash(key));
      this.kind := kind;
      this.str := str;
      heapIdx := NO_TIMER;
      zset := new ZSet();
      new;
      node.owner := this;
    }

    function Key(): Bytes {
      node.key
    }
  }
}
