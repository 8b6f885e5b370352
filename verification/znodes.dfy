/** Sorted-set members, and ghost snapshots of their tree fields. */
module ZNodes {
  import opened Bytes
  import opened Scores
  import opened HNodes

  /** A member: the tree hook's fields, the hash hook, and the (score, name) payload. */
  class ZNode {
    var parent: ZNode?
    var left: ZNode?
    var right: ZNode?
    var height: nat
    var cnt: nat
    const hmap: HNode
    var score: Score

    /** `znode_new` together with `avl_init`. */
    constructor (name: Bytes, score: Score)
      ensures fresh(hmap) && hmap.key == name && hmap.hcode == StrHash(name)
      ensures hmap.next == null && hmap.owner == this
      ensures this.score == score
      ensures parent == null && left == null && right == null && height == 1 && cnt == 1
    {
      parent, left, right, height, cnt := null, null, null, 1, 1;
      hmap := new HNode(name, StrHash(name));
      this.score := score;
      new;
      hmap.owner := this;
    }

    function Name(): Bytes {
      hmap.key
    }

    function Key(): ZKey
      reads this
    {
      ZKey(score, Name())
    }

    /** `avl_init` on an existing node. */
    method AvlInit()
      modifies this`parent, this`left, this`right, this`height, this`cnt
      ensures parent == null && left == null && right == null && height == 1 && cnt == 1
    {
      left, right, parent := null, null, null;
      height := 1;
      cnt := 1;
    }
  }

  function AvlHeight(node: ZNode?): nat
    reads node
  {
    if node != null then node.height else 0
  }

  function AvlCnt(node: ZNode?): nat
    reads node
  {
    if node != null then node.cnt else 0
  }

  /** The tree fields of one node, as a value. */
  datatype Cell = Cell(parent: ZNode?, left: ZNode?, right: ZNode?, height: nat, cnt: nat)

  type Mem = map<ZNode, Cell>

  ghost function CellOf(n: ZNode): Cell
    reads n
  {
    Cell(n.parent, n.left, n.right, n.height, n.cnt)
  }

  /** The tree fields of a set of nodes in the current state. */
  ghost function Snap(nodes: set<ZNode>): (m: Mem)
    reads nodes
    ensures m.Keys == nodes
    ensures forall n :: n in nodes ==> m[n] == CellOf(n)
  {
    map n | n in nodes :: CellOf(n)
  }
}
