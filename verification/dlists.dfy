/** Circular doubly linked lists whose links live inside the listed objects. */
module DLists {
  import opened Sequences

  /** `struct DList`; `owner` is the object the links belong to, null for the list head. */
  class DList {
    var prev: DList?
    var next: DList?
    var owner: object?

    constructor ()
      ensures owner == null
    {
      prev, next, owner := null, null, null;
    }
  }

  /** The place after `i` on a circle of `n`. */
  function After(i: nat, n: nat): nat {
    if i + 1 < n then i + 1 else 0
  }

  /** Different nodes in a circle, every neighbour pair linked both ways. */
  ghost predicate IsRing(ring: seq<DList>)
    reads ring
  {
    Distinct(ring) &&
    forall i :: 0 <= i < |ring| ==> ring[i].next == ring[After(i, |ring|)] && ring[After(i, |ring|)].prev == ring[i]
  }

  /** A ring can be read from any of its nodes. */
  lemma RingTurned(a: seq<DList>, b: seq<DList>)
    requires IsRing(a + b)
    ensures IsRing(b + a)
  {
    var was, turned := a + b, b + a;
    forall i, j | 0 <= i < j < |turned|
      ensures turned[i] != turned[j]
    {
      assert turned[i] == was[if i < |b| then |a| + i else i - |b|];
      assert turned[j] == was[if j < |b| then |a| + j else j - |b|];
    }
    forall i | 0 <= i < |turned|
      ensures turned[i].next == turned[After(i, |turned|)] && turned[After(i, |turned|)].prev == turned[i]
    {
      var k := if i < |b| then |a| + i else i - |b|;
      assert was[k] == turned[i] && was[After(k, |was|)] == turned[After(i, |turned|)];
    }
  }

  /** `dlist_init`. */
  method Init(node: DList)
    modifies node
    ensures IsRing([node]) && node.owner == old(node.owner)
  {
    node.prev, node.next := node, node;
  }

  /** `dlist_empty`. */
  predicate Empty(node: DList)
    reads node
  {
    node.next == node
  }

  /** The list is empty when its head is alone in the ring. */
  lemma EmptyMeansAlone(ring: seq<DList>)
    requires IsRing(ring) && ring != []
    ensures Empty(ring[0]) <==> |ring| == 1
  {
    assert ring[0].next == ring[After(0, |ring|)];
  }

  /** `dlist_detach`, seen from the node after the detached one. */
  method DetachLast(node: DList, ghost rest: seq<DList>)
    requires IsRing(rest + [node]) && rest != []
    modifies rest
    ensures IsRing(rest) && node.owner == old(node.owner)
    ensures forall d <- rest :: d.owner == old(d.owner)
  {
    ghost var ring, n := rest + [node], |rest|;
    assert forall i :: 0 <= i < n ==> ring[i] == rest[i];
    assert ring[After(n - 1, n + 1)].prev == rest[n - 1];
    assert ring[n].next == ring[After(n, n + 1)] == rest[0];
    var prev, next := node.prev, node.next;
    prev.next := next;
    next.prev := prev;
  }

  /** `dlist_detach`: the others close up. */
  method Detach(node: DList, ghost before: seq<DList>, ghost after: seq<DList>)
    requires IsRing(before + [node] + after) && before != []
    modifies before, after
    ensures IsRing(before + after) && node.owner == old(node.owner)
    ensures forall d <- before + after :: d.owner == old(d.owner)
  {
    hide IsRing;
    RingTurned(before + [node], after);
    assert after + (before + [node]) == after + before + [node];
    DetachLast(node, after + before);
    RingTurned(after, before);
  }

  /** `dlist_insert_before`. */
  method InsertBefore(target: DList, rookie: DList, ghost ring: seq<DList>)
    requires IsRing(ring) && ring != [] && ring[0] == target && rookie !in ring
    modifies ring, rookie
    ensures IsRing(ring + [rookie])
    ensures forall d <- ring + [rookie] :: d.owner == old(d.owner)
  {
    ghost var n := |ring|;
    assert ring[After(n - 1, n)].prev == ring[n - 1];
    var p := target.prev;
    assert p == ring[n - 1];
    ghost var more := ring + [rookie];
    assert forall i :: 0 <= i < n ==> more[i] == ring[i];
    p.next := rookie;
    rookie.prev := p;
    rookie.next := target;
    target.prev := rookie;
  }
}
