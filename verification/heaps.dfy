/** The array min-heap of timers, which tells every entry where its timer is. */
module Heaps {
  import opened Bytes
  import opened Entries

  /** A timer: when it fires, and the entry whose `heap_idx` follows it. */
  datatype HeapItem = HeapItem(val: nat, ref: Entry)

  function Parent(i: nat): nat
    requires i > 0
  {
    (i + 1) / 2 - 1
  }

  function LeftKid(i: nat): nat {
    i * 2 + 1
  }

  function RightKid(i: nat): nat {
    i * 2 + 2
  }

  lemma Family(i: nat)
    ensures i > 0 ==> Parent(i) < i && (i == LeftKid(Parent(i)) || i == RightKid(Parent(i)))
    ensures Parent(LeftKid(i)) == i && Parent(RightKid(i)) == i
  {
  }

  /** No item fires before its parent. */
  ghost predicate HeapOrdered(a: seq<HeapItem>) {
    forall i :: 0 < i < |a| ==> a[Parent(i)].val <= a[i].val
  }

  /** A heap but for the slot `pos`, whose kids still respect its parent. */
  ghost predicate OrderedAround(a: seq<HeapItem>, pos: nat) {
    (forall i :: 0 < i < |a| && i != pos && Parent(i) != pos ==> a[Parent(i)].val <= a[i].val) &&
    (pos > 0 && Parent(pos) < |a| ==> forall i :: 0 < i < |a| && Parent(i) == pos ==> a[Parent(pos)].val <= a[i].val)
  }

  /** The root is the earliest timer. */
  lemma {:induction false} RootIsLeast(a: seq<HeapItem>, i: nat)
    requires HeapOrdered(a) && i < |a|
    ensures a[0].val <= a[i].val
  {
    if i > 0 {
      Family(i);
      RootIsLeast(a, Parent(i));
    }
  }

  /** Changing one slot of a heap leaves it a heap around that slot. */
  lemma OneSlotChanged(a: seq<HeapItem>, pos: nat, t: HeapItem)
    requires HeapOrdered(a) && pos < |a|
    ensures OrderedAround(a[pos := t], pos)
  {
    if pos > 0 {
      Family(pos);
      forall i | 0 < i < |a| && Parent(i) == pos
        ensures a[Parent(pos)].val <= a[i].val
      {
        Family(i);
      }
    }
    forall i | 0 < i < |a| && i != pos && Parent(i) != pos
      ensures Parent(i) < |a|
    {
      Family(i);
    }
  }

  lemma HeapWithoutLast(a: seq<HeapItem>)
    requires HeapOrdered(a) && |a| > 0
    ensures HeapOrdered(a[..|a| - 1])
  {
    forall i | 0 < i < |a| - 1
      ensures Parent(i) < |a| - 1
    {
      Family(i);
    }
  }

  lemma HeapWithOneMore(a: seq<HeapItem>, t: HeapItem)
    requires HeapOrdered(a)
    ensures OrderedAround(a + [t], |a|)
  {
    forall i | 0 < i < |a + [t]|
      ensures Parent(i) < |a|
    {
      Family(i);
    }
  }

  /** The timer `t`, put at `pos`, has moved up: its old parent is now in its place. */
  lemma MovedUp(a: seq<HeapItem>, pos: nat)
    requires 0 < pos < |a| && OrderedAround(a, pos) && Parent(pos) < pos && a[Parent(pos)].val > a[pos].val
    requires forall i :: 0 < i < |a| && Parent(i) == pos ==> a[pos].val <= a[i].val
    ensures var p := Parent(pos); var b := a[pos := a[p]][p := a[pos]];
      OrderedAround(b, p) && forall i :: 0 < i < |b| && Parent(i) == p ==> b[p].val <= b[i].val
  {
    hide Parent;
    var p := Parent(pos);
    var b := a[pos := a[p]][p := a[pos]];
    Families(|a|);
    forall i | 0 < i < |b| && i != p && Parent(i) != p
      ensures b[Parent(i)].val <= b[i].val
    {
      if Parent(i) != pos {
        assert i != pos && a[Parent(i)].val <= a[i].val;
      }
    }
    forall i | 0 < i < |b| && Parent(i) == p
      ensures b[p].val <= b[i].val && (p > 0 ==> b[Parent(p)].val <= b[i].val)
    {
      if i != pos {
        assert a[p].val <= a[i].val;
      }
      assert p > 0 ==> a[Parent(p)].val <= a[p].val;
    }
  }

  lemma Families(n: nat)
    ensures forall i :: 0 < i < n ==> Parent(i) < i
  {
  }

  /** The smallest kid of `pos` has moved up past `t`, which is now in the kid's place. */
  lemma MovedDown(a: seq<HeapItem>, pos: nat, kid: nat)
    requires pos < kid < |a| && Parent(kid) == pos && OrderedAround(a, pos) && a[kid].val < a[pos].val
    requires forall i :: 0 < i < |a| && Parent(i) == pos ==> a[kid].val <= a[i].val
    requires pos > 0 ==> Parent(pos) < pos && a[Parent(pos)].val <= a[kid].val
    ensures var b := a[pos := a[kid]][kid := a[pos]];
      OrderedAround(b, kid) && b[Parent(kid)].val <= b[kid].val
  {
    var b := a[pos := a[kid]][kid := a[pos]];
    forall i | 0 < i < |b|
      ensures Parent(i) < i
    {
      Family(i);
    }
  }

  // ---- how many turns a walk through the heap can take ----

  lemma Scaled(k: nat, x: nat, y: nat)
    requires x <= y
    ensures k * x <= k * y
  {
  }

  lemma NoTurns(start: nat)
    ensures Pow2(0) * (start + 1) == start + 1
  {
  }

  lemma TurnUp(turns: nat, pos: nat, start: nat)
    requires pos > 0 && Pow2(turns) * (pos + 1) <= start + 1
    ensures Pow2(turns + 1) * (Parent(pos) + 1) <= start + 1
  {
    Scaled(Pow2(turns), 2 * (Parent(pos) + 1), pos + 1);
  }

  lemma TurnDown(turns: nat, start: nat, pos: nat, kid: nat)
    requires Pow2(turns) * (start + 1) <= pos + 1 && (kid == LeftKid(pos) || kid == RightKid(pos))
    ensures Pow2(turns + 1) * (start + 1) <= kid + 1
  {
  }

  lemma TurnsBound(turns: nat, x: nat, y: nat)
    requires Pow2(turns) * (x + 1) <= y
    ensures Pow2(turns) <= y
  {
    Scaled(Pow2(turns), 1, x + 1);
  }

  // ---- items and the entries that follow them ----

  ghost function Refs(a: seq<HeapItem>): set<Entry> {
    set i | 0 <= i < |a| :: a[i].ref
  }

  predicate DistinctRefs(a: seq<HeapItem>) {
    forall i, j :: 0 <= i < j < |a| ==> a[i].ref != a[j].ref
  }

  /** Every item's entry knows the item's position, `except` perhaps one. */
  ghost predicate Tracked(a: seq<HeapItem>, except: int)
    reads Refs(a)`heapIdx
  {
    forall i :: 0 <= i < |a| && i != except ==> a[i].ref.heapIdx == i
  }

  lemma SwappedRefs(a: seq<HeapItem>, i: nat, j: nat)
    requires i < |a| && j < |a|
    ensures Refs(a) <= Refs(a[i := a[j]][j := a[i]])
  {
    var b := a[i := a[j]][j := a[i]];
    forall e | e in Refs(a)
      ensures e in Refs(b)
    {
      var k :| 0 <= k < |a| && a[k].ref == e;
      assert b[if k == i then j else if k == j then i else k].ref == e;
    }
  }

  lemma SwappedTwice(a: seq<HeapItem>, i: nat, j: nat)
    requires i < |a| && j < |a|
    ensures var b := a[i := a[j]][j := a[i]]; b[i := b[j]][j := b[i]] == a
  {
  }

  lemma SwappedDistinct(a: seq<HeapItem>, i: nat, j: nat)
    requires i < |a| && j < |a| && DistinctRefs(a)
    ensures DistinctRefs(a[i := a[j]][j := a[i]])
  {
    var b := a[i := a[j]][j := a[i]];
    forall k, l | 0 <= k < l < |b|
      ensures b[k].ref != b[l].ref
    {
      var k', l' := if k == i then j else if k == j then i else k, if l == i then j else if l == j then i else l;
      assert b[k] == a[k'] && b[l] == a[l'] && k' != l';
    }
  }

  lemma SwappedItems(a: seq<HeapItem>, i: nat, j: nat)
    requires i < |a| && j < |a|
    ensures var b := a[i := a[j]][j := a[i]];
      multiset(b) == multiset(a) && Refs(b) == Refs(a) && (DistinctRefs(a) ==> DistinctRefs(b))
  {
    hide *;
    var b := a[i := a[j]][j := a[i]];
    SwappedRefs(a, i, j);
    SwappedRefs(b, i, j);
    SwappedTwice(a, i, j);
    if DistinctRefs(a) {
      SwappedDistinct(a, i, j);
    }
  }

  /** The vector of timers. */
  class TimerHeap {
    var a: seq<HeapItem>

    constructor ()
      ensures a == []
    {
      a := [];
    }

    /** A loop turn of `heap_up` and `heap_down`: the item at `other` moves into the slot `pos`, while
        `t`, held aside, is next in line for the slot `other`. `b` is the vector with `t` at `pos`. */
    method Shift(pos: nat, other: nat, t: HeapItem, ghost b: seq<HeapItem>)
      requires pos < |a| && other < |a| && pos != other && b == a[pos := t]
      requires DistinctRefs(b) && Tracked(b, pos)
      modifies this, Refs(b)`heapIdx
      ensures |a| == |b|
      ensures var b' := b[pos := b[other]][other := t];
        b' == a[other := t] && Tracked(b', other) && DistinctRefs(b') &&
        multiset(b') == multiset(b) && Refs(b') == Refs(b)
    {
      hide DistinctRefs, Refs;
      RefsHave(b);
      RefsApart(b, other);
      SwappedItems(b, pos, other);
      a := a[pos := a[other]];
      a[pos].ref.heapIdx := pos;
    }

    /** `a[pos] = t; *a[pos].ref = pos`. */
    method Settle(pos: nat, t: HeapItem, ghost b: seq<HeapItem>)
      requires pos < |a| && b == a[pos := t] && DistinctRefs(b) && Tracked(b, pos)
      modifies this, Refs(b)`heapIdx
      ensures a == b && Tracked(a, -1)
    {
      hide DistinctRefs, Refs;
      RefsHave(b);
      RefsApart(b, pos);
      a := a[pos := t];
      a[pos].ref.heapIdx := pos;
    }

    /** `heap_up`: the item at `start` rises to its place, in at most logarithmically many turns. */
    method Up(start: nat) returns (ghost turns: nat)
      requires start < |a| && OrderedAround(a, start) && DistinctRefs(a) && Tracked(a, start)
      requires forall i :: 0 < i < |a| && Parent(i) == start ==> a[start].val <= a[i].val
      modifies this, Refs(a)`heapIdx
      ensures HeapOrdered(a) && DistinctRefs(a) && Tracked(a, -1)
      ensures multiset(a) == old(multiset(a)) && Refs(a) == old(Refs(a)) && Pow2(turns) <= start + 1
    {
      hide HeapOrdered, OrderedAround, DistinctRefs, Refs, Parent, Tracked, Pow2;
      var t, pos := a[start], start;
      ghost var b := a;
      turns := 0;
      NoTurns(start);
      Families(|a|);
      while pos > 0 && a[Parent(pos)].val > t.val
        invariant pos < |a| && b == a[pos := t] && |b| == |old(a)|
        invariant OrderedAround(b, pos) && DistinctRefs(b) && Tracked(b, pos)
        invariant forall i :: 0 < i < |b| && Parent(i) == pos ==> b[pos].val <= b[i].val
        invariant multiset(b) == old(multiset(a)) && Refs(b) == old(Refs(a))
        invariant Pow2(turns) * (pos + 1) <= start + 1
        decreases pos
      {
        var p := Parent(pos);
        TurnUp(turns, pos, start);
        assert b[p] == a[p] && b[pos] == t;
        MovedUp(b, pos);
        Shift(pos, p, t, b);
        b := b[pos := b[p]][p := t];
        pos := p;
        turns := turns + 1;
      }
      TurnsBound(turns, pos, start + 1);
      InPlace(b, pos);
      Settle(pos, t, b);
    }

    /** `heap_down`: the item at `start` sinks to its place, in at most logarithmically many turns. */
    method Down(start: nat) returns (ghost turns: nat)
      requires start < |a| && OrderedAround(a, start) && DistinctRefs(a) && Tracked(a, start)
      requires start > 0 ==> Parent(start) < start && a[Parent(start)].val <= a[start].val
      modifies this, Refs(a)`heapIdx
      ensures HeapOrdered(a) && DistinctRefs(a) && Tracked(a, -1)
      ensures multiset(a) == old(multiset(a)) && Refs(a) == old(Refs(a)) && Pow2(turns) <= |a|
    {
      hide HeapOrdered, OrderedAround, DistinctRefs, Refs, Parent, Tracked, Pow2;
      var t, pos := a[start], start;
      ghost var b := a;
      turns := 0;
      NoTurns(start);
      while true
        invariant pos < |a| && b == a[pos := t] && |b| == |old(a)|
        invariant OrderedAround(b, pos) && DistinctRefs(b) && Tracked(b, pos)
        invariant pos > 0 ==> Parent(pos) < pos && b[Parent(pos)].val <= b[pos].val
        invariant multiset(b) == old(multiset(a)) && Refs(b) == old(Refs(a))
        invariant Pow2(turns) * (start + 1) <= pos + 1
        decreases |a| - pos
      {
        var l := LeftKid(pos);
        var r := RightKid(pos);
        var minPos := pos;
        var minVal := t.val;
        if l < |a| && a[l].val < minVal {
          minPos := l;
          minVal := a[l].val;
        }
        if r < |a| && a[r].val < minVal {
          minPos := r;
        }
        KidChosen(b, pos, minPos);
        if minPos == pos {
          break;
        }
        MovedDown(b, pos, minPos);
        Shift(pos, minPos, t, b);
        b := b[pos := b[minPos]][minPos := t];
        TurnDown(turns, start, pos, minPos);
        pos := minPos;
        turns := turns + 1;
      }
      TurnsBound(turns, start, pos + 1);
      InPlace(b, pos);
      Settle(pos, t, b);
    }

    /** `heap_update`: from a heap with one arbitrary slot, a heap of the same items, in at most as many
        turns as the binary logarithm of their number. */
    method Update(pos: nat) returns (ghost turns: nat)
      requires pos < |a| && OrderedAround(a, pos) && DistinctRefs(a) && Tracked(a, pos)
      modifies this, Refs(a)`heapIdx
      ensures HeapOrdered(a) && DistinctRefs(a) && Tracked(a, -1)
      ensures multiset(a) == old(multiset(a)) && Refs(a) == old(Refs(a)) && Pow2(turns) <= |a|
    {
      hide HeapOrdered, DistinctRefs, Refs, Tracked, Parent, Pow2;
      Families(|a|);
      if pos > 0 && a[Parent(pos)].val > a[pos].val {
        turns := Up(pos);
      } else {
        turns := Down(pos);
      }
    }

    /** What holds between operations. */
    ghost predicate Valid()
      reads this, Refs(a)`heapIdx
    {
      HeapOrdered(a) && DistinctRefs(a) && Tracked(a, -1)
    }

    /** `heap_delete`: exactly the timer at `pos` goes. */
    method Delete(pos: nat)
      requires Valid() && pos < |a|
      modifies this, Refs(a)`heapIdx
      ensures Valid() && Timers(a) == old(Timers(a)) - {old(a[pos].ref)}
    {
      hide HeapOrdered, OrderedAround, DistinctRefs, Refs, Timers, Parent;
      ghost var before, gone := a, a[pos];
      LastTaken(a, pos);
      a := a[pos := a[|a| - 1]];
      a := a[..|a| - 1];
      if pos < |a| {
        ghost var b := a;
        ghost var turns := Update(pos);
        SameTimers(b, a);
      }
    }

    /** `heap_upsert`: exactly the timer of `t.ref` is set. */
    method Upsert(idx: int, t: HeapItem)
      requires Valid()
      requires if 0 <= idx < |a| then a[idx].ref == t.ref else t.ref !in Refs(a)
      modifies this, Refs(a)`heapIdx, t.ref`heapIdx
      ensures Valid() && Timers(a) == old(Timers(a))[t.ref := t.val]
    {
      hide HeapOrdered, OrderedAround, DistinctRefs, Refs, Timers, Parent;
      var pos: nat;
      if 0 <= idx < |a| {
        pos := idx;
        ItemReplaced(a, pos, t);
        a := a[pos := t];
      } else {
        pos := |a|;
        ItemAdded(a, t);
        a := a + [t];
      }
      ghost var b := a;
      ghost var turns := Update(pos);
      SameTimers(b, a);
    }
  }

  /** The timers as a map from entries to deadlines. */
  ghost function Timers(a: seq<HeapItem>): map<Entry, nat> {
    map e | e in Refs(a) :: ValOf(a, e)
  }

  ghost function ValOf(a: seq<HeapItem>, e: Entry): nat
    requires e in Refs(a)
  {
    var i :| 0 <= i < |a| && a[i].ref == e;
    a[i].val
  }

  lemma TimersAt(a: seq<HeapItem>)
    requires DistinctRefs(a)
    ensures forall i :: 0 <= i < |a| ==> a[i].ref in Timers(a) && Timers(a)[a[i].ref] == a[i].val
    ensures Timers(a).Keys == Refs(a)
  {
  }

  /** Two vectors in which the same entries have the same timers. */
  lemma TimersEqual(a: seq<HeapItem>, m: map<Entry, nat>)
    requires DistinctRefs(a)
    requires forall i :: 0 <= i < |a| ==> a[i].ref in m && m[a[i].ref] == a[i].val
    requires forall e :: e in m ==> e in Refs(a)
    ensures Timers(a) == m
  {
    TimersAt(a);
    forall e | e in m
      ensures e in Timers(a) && Timers(a)[e] == m[e]
    {
      var i :| 0 <= i < |a| && a[i].ref == e;
    }
  }

  lemma SameTimers(a: seq<HeapItem>, b: seq<HeapItem>)
    requires DistinctRefs(a) && DistinctRefs(b) && multiset(a) == multiset(b) && Refs(a) == Refs(b)
    ensures Timers(b) == Timers(a)
  {
    hide Timers, ValOf;
    TimersAt(a);
    forall i | 0 <= i < |b|
      ensures b[i].ref in Timers(a) && Timers(a)[b[i].ref] == b[i].val
    {
      assert b[i] in multiset(a);
      var j :| 0 <= j < |a| && a[j] == b[i];
    }
    TimersEqual(b, Timers(a));
  }

  /** The last item has replaced the one at `pos` and the vector is one shorter. */
  lemma LastTaken(a: seq<HeapItem>, pos: nat)
    requires HeapOrdered(a) && DistinctRefs(a) && pos < |a|
    ensures var b := a[pos := a[|a| - 1]][..|a| - 1];
      DistinctRefs(b) && Refs(b) <= Refs(a) && Timers(b) == Timers(a) - {a[pos].ref} &&
      (if pos < |b| then OrderedAround(b, pos) else HeapOrdered(b)) && a[pos].ref !in Refs(b)
  {
    hide HeapOrdered, OrderedAround, Timers, ValOf;
    var n := |a| - 1;
    var b := a[pos := a[n]][..n];
    assert forall i :: 0 <= i < n ==> b[i] == a[if i == pos then n else i];
    HeapWithoutLast(a);
    if pos < n {
      assert b == a[..n][pos := a[n]];
      OneSlotChanged(a[..n], pos, a[n]);
    } else {
      assert b == a[..n];
    }
    TimersAt(a);
    forall e | e in Timers(a) - {a[pos].ref}
      ensures e in Refs(b)
    {
      var i :| 0 <= i < |a| && a[i].ref == e;
      assert b[if i == n then pos else i].ref == e;
    }
    TimersEqual(b, Timers(a) - {a[pos].ref});
  }

  lemma ItemReplaced(a: seq<HeapItem>, pos: nat, t: HeapItem)
    requires HeapOrdered(a) && DistinctRefs(a) && pos < |a| && a[pos].ref == t.ref
    ensures var b := a[pos := t];
      OrderedAround(b, pos) && DistinctRefs(b) && Refs(b) == Refs(a) && Timers(b) == Timers(a)[t.ref := t.val]
  {
    hide HeapOrdered, OrderedAround, Timers, ValOf;
    var b := a[pos := t];
    OneSlotChanged(a, pos, t);
    TimersAt(a);
    assert forall i :: 0 <= i < |a| ==> b[i].ref == a[i].ref;
    TimersEqual(b, Timers(a)[t.ref := t.val]);
  }

  lemma ItemAdded(a: seq<HeapItem>, t: HeapItem)
    requires HeapOrdered(a) && DistinctRefs(a) && t.ref !in Refs(a)
    ensures var b := a + [t];
      OrderedAround(b, |a|) && DistinctRefs(b) && Refs(b) == Refs(a) + {t.ref} && Timers(b) == Timers(a)[t.ref := t.val]
  {
    hide HeapOrdered, OrderedAround, Timers, ValOf;
    var b := a + [t];
    HeapWithOneMore(a, t);
    TimersAt(a);
    assert forall i :: 0 <= i < |a| ==> b[i] == a[i] && a[i].ref in Refs(a);
    forall e | e in Refs(a)
      ensures e in Refs(b)
    {
      var i :| 0 <= i < |a| && a[i].ref == e;
      assert b[i].ref == e;
    }
    assert b[|a|].ref == t.ref;
    TimersEqual(b, Timers(a)[t.ref := t.val]);
  }

  lemma RefsHave(a: seq<HeapItem>)
    ensures forall i :: 0 <= i < |a| ==> a[i].ref in Refs(a)
    ensures forall i :: 0 < i < |a| ==> Parent(i) < i
  {
  }

  lemma RefsApart(a: seq<HeapItem>, i: nat)
    requires DistinctRefs(a) && i < |a|
    ensures forall j :: 0 <= j < |a| && j != i ==> a[j].ref != a[i].ref
  {
  }

  /** The kids of `pos` are the two candidates that `heap_down` looks at. */
  lemma Kids(a: seq<HeapItem>, pos: nat)
    requires OrderedAround(a, pos) && pos < |a|
    ensures forall i :: 0 < i < |a| && Parent(i) == pos ==> i == LeftKid(pos) || i == RightKid(pos)
    ensures Parent(LeftKid(pos)) == pos && Parent(RightKid(pos)) == pos && pos < LeftKid(pos) < RightKid(pos)
    ensures forall i :: 0 < i < |a| && Parent(i) == pos && pos > 0 ==>
      Parent(pos) < pos && a[Parent(pos)].val <= a[i].val
  {
    Families(|a|);
  }

  /** The smallest of a slot and its kids, as `heap_down` picks it. */
  lemma KidChosen(a: seq<HeapItem>, pos: nat, min: nat)
    requires OrderedAround(a, pos) && pos < |a| && min < |a|
    requires (min == pos || min == LeftKid(pos) || min == RightKid(pos))
    requires a[min].val <= a[pos].val && (min != pos ==> a[min].val < a[pos].val)
    requires forall i :: i == LeftKid(pos) || i == RightKid(pos) ==> i < |a| ==> a[min].val <= a[i].val
    ensures forall i :: 0 < i < |a| && Parent(i) == pos ==> a[min].val <= a[i].val
    ensures min != pos ==> pos < min && Parent(min) == pos && a[min].val < a[pos].val
    ensures pos > 0 ==> Parent(pos) < pos && (min != pos ==> a[Parent(pos)].val <= a[min].val)
  {
    hide OrderedAround;
    Kids(a, pos);
    Families(|a|);
  }

  lemma InPlace(a: seq<HeapItem>, pos: nat)
    requires OrderedAround(a, pos) && pos < |a|
    requires pos > 0 ==> Parent(pos) < pos && a[Parent(pos)].val <= a[pos].val
    requires forall i :: 0 < i < |a| && Parent(i) == pos ==> a[pos].val <= a[i].val
    ensures HeapOrdered(a)
  {
    Families(|a|);
  }
}
