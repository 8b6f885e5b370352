/** The expiry of keys: what one pass of `process_timers` does to the database. */
module Sweeps {
  import opened Bytes
  import opened HTables
  import opened HMaps
  import opened ZSets
  import opened Heaps
  import opened Keyspaces
  import opened Stores

  /** `k_max_works`. */
  const MAX_WORKS: nat := 2000

  /** When a key expires. */
  function DeadlineOf(ks: Keyspace, key: Bytes): nat
    requires key in ks && ks[key].deadline.Some?
  {
    ks[key].deadline.value
  }

  /** Keys that are past their deadline, each once, the earliest first. */
  predicate DueInOrder(ks: Keyspace, now: nat, keys: seq<Bytes>) {
    (forall i :: 0 <= i < |keys| ==> keys[i] in ks && ks[keys[i]].deadline.Some? && DeadlineOf(ks, keys[i]) < now) &&
    forall i, j :: 0 <= i < j < |keys| ==> keys[i] != keys[j] && DeadlineOf(ks, keys[i]) <= DeadlineOf(ks, keys[j])
  }

  function Remaining(ks: Keyspace, keys: seq<Bytes>): Keyspace {
    ks - set i | 0 <= i < |keys| :: keys[i]
  }

  /** Whatever is left expires no earlier than anything that was evicted. */
  predicate LaterLeft(ks: Keyspace, keys: seq<Bytes>) {
    forall k, i | k in Remaining(ks, keys) && 0 <= i < |keys| && keys[i] in ks ::
      ks[k].deadline.Some? && ks[keys[i]].deadline.Some? ==> DeadlineOf(ks, keys[i]) <= DeadlineOf(ks, k)
  }

  /** One pass: due keys go, earliest first, at most 2001 of them; unless that many went, none is left. */
  ghost predicate Sweep(now: nat, ks: Keyspace, ks': Keyspace, evicted: seq<Bytes>) {
    DueInOrder(ks, now, evicted) && ks' == Remaining(ks, evicted) && LaterLeft(ks, evicted) &&
    |evicted| <= MAX_WORKS + 1 &&
    (|evicted| <= MAX_WORKS ==> forall k :: k in ks' && ks'[k].deadline.Some? ==> now <= DeadlineOf(ks', k))
  }

  lemma RemainingMore(ks: Keyspace, keys: seq<Bytes>, key: Bytes)
    ensures Remaining(ks, keys + [key]) == Remaining(ks, keys) - {key}
  {
    var more := keys + [key];
    assert forall k :: k in more <==> k in keys || k == key;
    assert (set i | 0 <= i < |keys| :: keys[i]) == set k | k in keys;
    assert (set i | 0 <= i < |more| :: more[i]) == set k | k in more;
  }

  lemma DueMore(ks: Keyspace, now: nat, keys: seq<Bytes>, key: Bytes)
    requires DueInOrder(ks, now, keys) && LaterLeft(ks, keys)
    requires key in Remaining(ks, keys) && ks[key].deadline.Some? && DeadlineOf(ks, key) < now
    ensures DueInOrder(ks, now, keys + [key])
  {
    hide DeadlineOf;
    var more := keys + [key];
    forall i, j | 0 <= i < j < |more|
      ensures more[i] != more[j] && DeadlineOf(ks, more[i]) <= DeadlineOf(ks, more[j])
    {
      if j == |keys| {
        assert more[i] == keys[i] && more[j] == key;
      }
    }
  }

  /** Evicting one more key, the earliest left. */
  lemma OneMoreDue(ks: Keyspace, now: nat, keys: seq<Bytes>, key: Bytes)
    requires DueInOrder(ks, now, keys) && LaterLeft(ks, keys)
    requires key in Remaining(ks, keys) && ks[key].deadline.Some? && DeadlineOf(ks, key) < now
    requires forall k :: k in Remaining(ks, keys) && ks[k].deadline.Some? ==> DeadlineOf(ks, key) <= DeadlineOf(ks, k)
    ensures DueInOrder(ks, now, keys + [key]) && LaterLeft(ks, keys + [key])
    ensures Remaining(ks, keys + [key]) == Remaining(ks, keys) - {key}
  {
    hide DueInOrder, Remaining, DeadlineOf;
    RemainingMore(ks, keys, key);
    DueMore(ks, now, keys, key);
    var more := keys + [key];
    assert forall i :: 0 <= i < |keys| ==> more[i] == keys[i];
    assert more[|keys|] == key;
  }

  /** The second loop of `process_timers`. The dictionary always has the entry that the heap names, so
      the branch for a missing one is dead. */
  method ExpireKeys(store: Store, now: nat) returns (ghost evicted: seq<Bytes>)
    requires store.Valid()
    modifies store.Repr
    ensures store.Valid() && store.Repr == old(store.Repr)
    ensures Sweep(now, old(store.View()), store.View(), evicted)
  {
    hide Store.Valid, Store.View, HMap.Valid, ZSet.Valid, TimerHeap.Valid, DueInOrder, Remaining, LaterLeft;
    ghost var ks := store.View();
    evicted := [];
    NothingDue(ks, now);
    var nworks := 0;
    store.Earliest();
    while store.timers.a != [] && store.timers.a[0].val < now
      invariant store.Valid() && store.Repr == old(store.Repr) && store.View() == Remaining(ks, evicted)
      invariant DueInOrder(ks, now, evicted) && LaterLeft(ks, evicted)
      invariant nworks == |evicted| <= MAX_WORKS
      decreases MAX_WORKS - nworks
    {
      store.Earliest();
      var e := store.timers.a[0].ref;
      ghost var key := e.Key();
      store.ByItself(key);
      StillThere(ks, evicted);
      OneMoreDue(ks, now, evicted, key);
      var found := store.DeleteBy(e.node.hcode, ByNode(e.node), key);
      if !found {
        assert false;
      }
      evicted := evicted + [key];
      nworks := nworks + 1;
      if nworks - 1 >= MAX_WORKS {
        return;
      }
    }
    store.Earliest();
  }

  lemma NothingDue(ks: Keyspace, now: nat)
    ensures DueInOrder(ks, now, []) && LaterLeft(ks, []) && Remaining(ks, []) == ks
  {
  }

  lemma StillThere(ks: Keyspace, keys: seq<Bytes>)
    ensures forall k :: k in Remaining(ks, keys) ==> k in ks && Remaining(ks, keys)[k] == ks[k]
  {
  }
}
