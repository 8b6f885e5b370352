/** The database: dictionary, timer heap and the entries that tie them together. */
module Stores {
  import opened Sequences
  import opened Bytes
  import opened Scores
  import opened HNodes
  import opened HTables
  import opened HMaps
  import opened ZSets
  import opened Entries
  import opened Heaps
  import opened Replies
  import opened Keyspaces

  type Table = map<Bytes, Entry>

  /** Entries and the dictionary's nodes correspond one to one, by key and hash. */
  ghost predicate Catalogued(table: Table, items: set<HNode>)
    reads items`owner
  {
    (forall k :: k in table ==> table[k].Key() == k && table[k].node in items) &&
    (forall k :: k in table ==> table[k].node.hcode == StrHash(k) && table[k].node.owner == table[k]) &&
    forall h :: h in items ==> h.key in table && table[h.key].node == h
  }

  /** Timers and entries are cross-linked: an entry either has no timer or points at its own slot. */
  ghost predicate CrossLinked(a: seq<HeapItem>, entries: set<Entry>)
    reads entries`heapIdx
  {
    Refs(a) <= entries &&
    forall e :: e in entries ==> e.heapIdx == NO_TIMER || (0 <= e.heapIdx < |a| && a[e.heapIdx].ref == e)
  }

  /** Who has a timer. */
  lemma HasTimer(a: seq<HeapItem>, entries: set<Entry>)
    requires CrossLinked(a, entries) && Tracked(a, -1)
    ensures forall e :: e in entries ==> (e in Refs(a) <==> e.heapIdx != NO_TIMER)
  {
    forall e | e in entries
      ensures e in Refs(a) <==> e.heapIdx != NO_TIMER
    {
      if e.heapIdx != NO_TIMER {
        assert a[e.heapIdx].ref == e;
      }
    }
  }

  /** Positions that the heap keeps up to date, and no position elsewhere, are cross-links. */
  lemma LinkedAgain(a: seq<HeapItem>, entries: set<Entry>)
    requires Refs(a) <= entries && Tracked(a, -1)
    requires forall e :: e in entries && e !in Refs(a) ==> e.heapIdx == NO_TIMER
    ensures CrossLinked(a, entries)
  {
    forall e | e in entries && e in Refs(a)
      ensures 0 <= e.heapIdx < |a| && a[e.heapIdx].ref == e
    {
      var i :| 0 <= i < |a| && a[i].ref == e;
    }
  }

  lemma CrossLinkedMore(a: seq<HeapItem>, entries: set<Entry>, e: Entry)
    requires CrossLinked(a, entries) && e.heapIdx == NO_TIMER
    ensures CrossLinked(a, entries + {e})
  {
  }

  /** Each entry's sorted set has memory of its own, apart from `base`, which the entries are in. */
  ghost predicate DisjointTable(table: Table, base: set<object>, dictionary: set<object>, all: set<object>)
    reads set k | k in table :: table[k].zset`Repr
  {
    (forall k :: k in table ==> table[k] in base && table[k] !in dictionary) &&
    (forall k :: k in table ==> table[k].zset in table[k].zset.Repr) &&
    (forall k :: k in table ==> table[k].zset.Repr <= all && table[k].zset.Repr !! base) &&
    forall k, l :: k in table && l in table && k != l ==> table[k].zset.Repr !! table[l].zset.Repr
  }

  lemma DisjointTableMore(table: Table, base: set<object>, dictionary: set<object>, all: set<object>, key: Bytes,
      e: Entry, more: set<object>)
    requires DisjointTable(table, base, dictionary, all) && base <= all && key !in table && e.zset in e.zset.Repr
    requires e !in dictionary && e in more && more !! all && e.zset.Repr !! all && more !! e.zset.Repr
    ensures DisjointTable(table[key := e], base + more, dictionary, all + more + e.zset.Repr)
  {
  }

  ghost function ValueOf(e: Entry): Value
    reads e`str, e.zset`members, e.zset.members.Values`score
  {
    if e.kind.StrKind? then StrValue(e.str) else ZSetValue(e.zset.Scores())
  }

  ghost function RecordOf(e: Entry, deadlines: map<Entry, nat>): Record
    reads e`str, e.zset`members, e.zset.members.Values`score
  {
    Record(ValueOf(e), if e in deadlines then Some(deadlines[e]) else None)
  }

  class Store {
    const db: HMap
    const timers: TimerHeap
    ghost var table: Table
    ghost var base: set<object>
    ghost var Repr: set<object>

    constructor ()
      ensures Valid() && View() == map[] && fresh(Repr)
    {
      hide HMap.Valid, ZSet.Valid;
      db := new HMap();
      timers := new TimerHeap();
      table := map[];
      new;
      base := {this, db, timers} + db.Repr;
      Repr := base;
    }

    /** Each sorted set has memory of its own, apart from `base`. */
    ghost predicate Disjoint()
      reads this`table, this`base, this`Repr, db`Repr, set k | k in table :: table[k].zset`Repr
    {
      this in base && db in base && timers in base && db in db.Repr && this !in db.Repr && timers !in db.Repr &&
      DisjointTable(table, base, db.Repr, Repr)
    }

    /** Everything but the sorted sets is in `base`. */
    ghost predicate Grounded()
      reads this`table, this`base, this`Repr, db`Repr, set k | k in table :: table[k].zset`Repr
    {
      Disjoint() && db.Repr <= base && base <= Repr
    }

    ghost predicate ZSetsValid()
      reads this, Repr
    {
      forall k :: k in table ==> table[k].zset in Repr && table[k].zset.Repr <= Repr && table[k].zset.Valid()
    }

    ghost predicate Valid()
      reads this, Repr
      ensures Valid() ==> this in Repr
    {
      this in Repr && db in Repr && timers in Repr && db.Repr <= Repr &&
      (forall k :: k in table ==> table[k] in Repr && table[k].zset in Repr) &&
      Grounded() && db.Valid() && Catalogued(table, db.items) &&
      Refs(timers.a) <= table.Values && timers.Valid() && CrossLinked(timers.a, table.Values) &&
      ZSetsValid()
    }

    /** The database as a plain map. */
    ghost function View(): (ks: Keyspace)
      requires Valid()
      reads this, Repr
      ensures ks.Keys == table.Keys
    {
      map k | k in table :: RecordOf(table[k], Timers(timers.a))
    }

    /** Sorted sets whose memory nobody touched are still in order. */
    twostate lemma ZSetsKept()
      requires old(ZSetsValid()) && table == old(table) && old(Repr) <= Repr
      requires forall k :: k in table ==> unchanged(old(table[k].zset.Repr))
      ensures ZSetsValid()
    {
      hide ZSet.Valid;
    }

    lemma ViewAt()
      requires Valid()
      ensures forall k :: k in table ==> View()[k] == RecordOf(table[k], Timers(timers.a))
    {
      hide Valid, RecordOf;
    }

    lemma ViewUpdated(ks: Keyspace, key: Bytes)
      requires Valid() && key in table && table.Keys == ks.Keys + {key}
      requires forall k :: k in table && k != key ==> ks[k] == RecordOf(table[k], Timers(timers.a))
      ensures View() == ks[key := RecordOf(table[key], Timers(timers.a))]
    {
      hide Valid, RecordOf;
    }

    lemma ViewIs(ks: Keyspace)
      requires Valid() && ks.Keys == table.Keys && forall k :: k in table ==>
        ks[k] == RecordOf(table[k], Timers(timers.a))
      ensures View() == ks
    {
      hide Valid, RecordOf;
    }

    /** Who owns what. */
    lemma Separate()
      requires Valid()
      ensures this in base && db in base && timers in base && db.Repr <= base <= Repr && timers !in db.Repr
      ensures this !in db.Repr
      ensures forall k :: k in table ==> table[k] in base && table[k] !in db.Repr && table[k].zset.Valid()
      ensures forall k :: k in table ==> table[k].zset.Repr <= Repr && table[k].zset.Repr !! base
      ensures Timers(timers.a).Keys <= table.Values && Disjoint() && ZSetsValid()
      ensures forall k, l :: k in table && l in table && k != l ==> table[k].zset.Repr !! table[l].zset.Repr
    {
      hide HMap.Valid, ZSet.Valid, TimerHeap.Valid, Catalogued, CrossLinked, Refs;
    }

    /** Records whose memory nobody touched still read the same. */
    twostate lemma RecordsKept()
      requires old(ZSetsValid()) && table == old(table) && timers.a == old(timers.a)
      requires forall k :: k in table ==> unchanged(old(table[k].zset.Repr)) && table[k].str == old(table[k].str)
      ensures forall k :: k in table ==>
        RecordOf(table[k], Timers(timers.a)) == old(RecordOf(table[k], Timers(timers.a)))
    {
      hide ZSet.Valid, Timers;
      forall k | k in table
        ensures ValueOf(table[k]) == old(ValueOf(table[k]))
      {
        var z := table[k].zset;
        z.Ownership();
        assert forall name :: name in z.members ==> z.members[name] in z.members.Values;
      }
    }

    /** What commands may touch. */
    lemma Footprint()
      requires Valid()
      ensures this in Repr && db in Repr && db.newer in Repr && db.older in Repr && db.items <= Repr && timers in Repr
      ensures (db.newer.tab != null ==> db.newer.tab in Repr) && (db.older.tab != null ==> db.older.tab in Repr)
      ensures table.Values <= Repr
    {
      hide HMap.Valid, ZSet.Valid, TimerHeap.Valid, Catalogued, CrossLinked, Refs, ZSetsValid;
      db.Footprint();
    }

    /** An entry is what its key and hash find. */
    lemma Found(key: Bytes)
      requires Valid()
      ensures forall h :: h in db.items && h.hcode == StrHash(key) && Matches(ByKey(key), h) ==>
        key in table && h.owner == table[key]
      ensures key in table ==>
        table[key].node in db.items && table[key].node.hcode == StrHash(key) && Matches(ByKey(key), table[key].node)
    {
      hide HMap.Valid, ZSet.Valid, TimerHeap.Valid, CrossLinked, Refs, Grounded, ZSetsValid;
    }

    /** `hm_lookup` on the top-level dictionary, which may migrate some of its nodes. */
    method LookUp(key: Bytes) returns (node: HNode?)
      requires Valid()
      modifies db`migratePos, db`age, db`switches, db.newer, db.older, db.newer.tab, db.older.tab, db.items`next
      ensures db.Valid() && db.items == old(db.items) && db.Repr == old(db.Repr) && ZSetsValid()
      ensures node == null ==> key !in table
      ensures node != null ==> key in table && node.owner == table[key]
      ensures forall k :: k in table ==>
        RecordOf(table[k], Timers(timers.a)) == old(RecordOf(table[k], Timers(timers.a)))
    {
      hide HMap.Valid, ZSet.Valid, TimerHeap.Valid, ZSetsValid, CrossLinked, Timers, Refs, RecordOf, Grounded, Disjoint,
        Catalogued, Matches, View, Valid;
      Pieces();
      db.Footprint();
      Separate();
      Found(key);
      node := db.Lookup(StrHash(key), ByKey(key));
      ZSetsKept();
      RecordsKept();
    }

    /** The lookup every command starts with: the entry of a key. */
    method Find(key: Bytes) returns (e: Entry?)
      requires Valid()
      modifies Repr
      ensures Repr == old(Repr) && table == old(table)
      ensures Valid() && e == (if key in table then table[key] else null)
      ensures View() == old(View())
    {
      hide HMap.Valid, ZSet.Valid, TimerHeap.Valid, ZSetsValid, CrossLinked, Timers, Refs, RecordOf, Disjoint,
        Catalogued, View;
      ghost var ks := View();
      ViewAt();
      Footprint();
      Separate();
      var node := LookUp(key);
      ViewIs(ks);
      if node == null {
        return null;
      }
      return node.owner as Entry;
    }

    /** `ent->str.swap(...)` on the entry of a key. */
    method SetStr(ghost key: Bytes, e: Entry, text: Bytes)
      requires Valid() && key in table && table[key] == e && e.kind.StrKind?
      modifies Repr
      ensures Repr == old(Repr)
      ensures Valid() && View() == old(View())[key := old(View())[key].(value := StrValue(text))]
    {
      hide HMap.Valid, ZSet.Valid, TimerHeap.Valid, ZSetsValid, CrossLinked, Timers, Refs, Grounded, Catalogued, View;
      ghost var ks := View();
      ViewAt();
      Separate();
      Distinguished();
      e.str := text;
      ZSetsKept();
      ViewUpdated(ks, key);
    }

    static lemma ValuesMore(table: Table, key: Bytes, e: Entry)
      requires key !in table
      ensures table[key := e].Values == table.Values + {e}
    {
      var more := table[key := e];
      forall x | x in table.Values + {e}
        ensures x in more.Values
      {
        if x == e {
          assert more[key] == e;
        } else {
          var k :| k in table && table[k] == x;
          assert more[k] == x;
        }
      }
    }

    /** Catching up with an entry that is in the dictionary: `more` is the memory it brought. */
    ghost method Enlist(key: Bytes, e: Entry, more: set<object>)
      requires Disjoint() && this in Repr && db.Repr <= base + more && base <= Repr && ZSetsValid() && key !in table
      requires db.Valid() && Catalogued(table[key := e], db.items)
      requires Refs(timers.a) <= table.Values && timers.Valid() && CrossLinked(timers.a, table.Values)
      requires e.heapIdx == NO_TIMER && e.zset.Valid() && e !in db.Repr && e in more && e !in table.Values
      requires more !! Repr && e.zset.Repr !! Repr && more !! e.zset.Repr
      modifies this`table, this`base, this`Repr
      ensures Valid() && table == old(table)[key := e] && Repr == old(Repr) + more + e.zset.Repr
    {
      hide HMap.Valid, ZSet.Valid, TimerHeap.Valid, Timers, Catalogued, CrossLinked, Refs, ValueOf, RecordOf, View,
        DisjointTable;
      ghost var was := table;
      e.zset.Ownership();
      CrossLinkedMore(timers.a, table.Values, e);
      DisjointTableMore(table, base, db.Repr, Repr, key, e, more);
      OnesOwn();
      assert forall k :: k in was ==> this !in was[k].zset.Repr && was[k].zset.Valid();
      table := table[key := e];
      base := base + more;
      Repr := Repr + more + e.zset.Repr;
      ValuesMore(was, key, e);
      forall k | k in table
        ensures table[k].zset in Repr && table[k].zset.Repr <= Repr && table[k].zset.Valid()
      {
        assert k != key ==> k in was && table[k] == was[k] && was[k].zset.Valid();
      }
    }

    lemma OnesOwn()
      requires Disjoint()
      ensures forall k :: k in table ==>
        table[k] in base && table[k].zset in table[k].zset.Repr && table[k].zset.Repr <= Repr &&
        this !in table[k].zset.Repr
    {
    }

    lemma CataloguedMore(key: Bytes, e: Entry, items: set<HNode>)
      requires Catalogued(table, items) && key !in table && e !in table.Values
      requires e.Key() == key && e.node.hcode == StrHash(key) && e.node.owner == e
      ensures Catalogued(table[key := e], items + {e.node})
    {
    }

    /** `Valid`, taken apart. */
    lemma Pieces()
      requires Valid()
      ensures this in Repr && Disjoint() && db.Repr <= base <= Repr && db.Valid() && Catalogued(table, db.items)
      ensures Refs(timers.a) <= table.Values && timers.Valid() && CrossLinked(timers.a, table.Values) && ZSetsValid()
    {
      hide HMap.Valid, ZSet.Valid, TimerHeap.Valid, ZSetsValid, CrossLinked, Timers, Refs, Disjoint, Catalogued,
        RecordOf;
    }

    /** `hm_insert` of an entry under a key that is not in use. */
    method Hook(ghost key: Bytes, e: Entry)
      requires Valid() && key !in table && e !in Repr && e.node !in Repr
      requires e.Key() == key && e.node.hcode == StrHash(key) && e.node.owner == e
      modifies db, db.newer, db.older, db.newer.tab, db.older.tab, db.items`next, e.node`next
      ensures Disjoint() && ZSetsValid() && db.Valid() && Catalogued(table[key := e], db.items)
      ensures fresh(db.Repr - old(db.Repr) - {e.node})
      ensures forall k :: k in table ==>
        RecordOf(table[k], Timers(timers.a)) == old(RecordOf(table[k], Timers(timers.a)))
    {
      hide HMap.Valid, ZSet.Valid, TimerHeap.Valid, ZSetsValid, CrossLinked, Timers, Refs, Grounded, Disjoint,
        Catalogued, RecordOf, Valid, View;
      ghost var items := db.items;
      Pieces();
      Separate();
      db.Footprint();
      CataloguedMore(key, e, items);
      db.Insert(e.node);
      DisjointKept({e.node});
      ZSetsKept();
      RecordsKept();
    }

    /** `entry_new` and its insertion, before the ghost state has caught up. */
    method Link(key: Bytes, kind: Kind, text: Bytes) returns (e: Entry, ghost more: set<object>)
      requires Valid() && key !in table
      modifies db, db.newer, db.older, db.newer.tab, db.older.tab, db.items`next
      ensures Disjoint() && ZSetsValid() && db.Valid() && Catalogued(table[key := e], db.items)
      ensures db.Repr <= base + more
      ensures fresh(e) && fresh(more) && e in more && fresh(e.zset.Repr) && more !! e.zset.Repr && e !in db.Repr
      ensures e.heapIdx == NO_TIMER && e.zset.Valid() && e.zset.Scores() == map[] && e.kind == kind && e.str == text
      ensures forall k :: k in table ==>
        RecordOf(table[k], Timers(timers.a)) == old(RecordOf(table[k], Timers(timers.a)))
    {
      hide HMap.Valid, ZSet.Valid, TimerHeap.Valid, ZSetsValid, CrossLinked, Timers, Refs, Grounded, Disjoint,
        Catalogued, RecordOf, Valid, View;
      ghost var was := db.Repr;
      Separate();
      e := new Entry(key, kind, text);
      Hook(key, e);
      more := {e, e.node} + (db.Repr - was);
    }

    /** `entry_new` and `hm_insert` under a key that is not in use. */
    method Create(key: Bytes, kind: Kind, text: Bytes) returns (e: Entry)
      requires Valid() && key !in table
      modifies Repr
      ensures Valid() && fresh(Repr - old(Repr))
      ensures key in table && table[key] == e && e.kind == kind
      ensures View() == old(View())[key := Record(if kind.StrKind? then StrValue(text) else ZSetValue(map[]), None)]
    {
      hide HMap.Valid, ZSet.Valid, TimerHeap.Valid, ZSetsValid, CrossLinked, Timers, Refs, Grounded, Disjoint,
        Catalogued, View, RecordOf;
      ghost var ks := View();
      ViewAt();
      Separate();
      ghost var more;
      Footprint();
      ghost var d := Timers(timers.a);
      e, more := Link(key, kind, text);
      NewRecord(e, d);
      Show(key, e, more, ks);
    }

    /** Catching up, in terms of the plain map. */
    ghost method Show(key: Bytes, e: Entry, more: set<object>, ks: Keyspace)
      requires Disjoint() && this in Repr && db.Repr <= base + more && base <= Repr && ZSetsValid() && key !in table
      requires db.Valid() && Catalogued(table[key := e], db.items)
      requires Refs(timers.a) <= table.Values && timers.Valid() && CrossLinked(timers.a, table.Values)
      requires e.heapIdx == NO_TIMER && e.zset.Valid() && e !in db.Repr && e in more && e !in table.Values
      requires more !! Repr && e.zset.Repr !! Repr && more !! e.zset.Repr
      requires ks.Keys == table.Keys && forall k :: k in table ==> ks[k] == RecordOf(table[k], Timers(timers.a))
      modifies this`table, this`base, this`Repr
      ensures Valid() && table == old(table)[key := e] && Repr == old(Repr) + more + e.zset.Repr
      ensures View() == ks[key := RecordOf(e, Timers(timers.a))]
    {
      hide *;
      ghost var was, d := table, Timers(timers.a);
      Enlist(key, e, more);
      assert forall k :: k in was ==> ks[k] == RecordOf(was[k], d);
      ViewUpdated(ks, key);
    }

    static lemma NewRecord(e: Entry, deadlines: map<Entry, nat>)
      requires e !in deadlines && e.zset.Scores() == map[]
      ensures RecordOf(e, deadlines) == Record(if e.kind.StrKind? then StrValue(e.str) else ZSetValue(map[]), None)
    {
    }

    twostate lemma DisjointKept(more: set<object>)
      requires old(Disjoint()) && table == old(table) && base == old(base) && Repr == old(Repr)
      requires forall k :: k in table ==> table[k].zset.Repr == old(table[k].zset.Repr)
      requires db in db.Repr && fresh(db.Repr - old(db.Repr) - more) && more !! old(Repr) && old(base) <= old(Repr)
      ensures Disjoint()
    {
    }

    lemma TimerKnown(e: Entry)
      requires timers.Valid() && CrossLinked(timers.a, table.Values) && e in table.Values
      ensures e in Timers(timers.a) <==> e.heapIdx != NO_TIMER
    {
      hide HeapOrdered, DistinctRefs, CrossLinked, Refs;
      HasTimer(timers.a, table.Values);
    }

    /** `heap_delete` on an entry's timer, and `ent->heap_idx = -1`. */
    method ClearTimer(e: Entry)
      requires timers.Valid() && CrossLinked(timers.a, table.Values) && e in table.Values && e.heapIdx != NO_TIMER
      modifies timers, table.Values`heapIdx
      ensures Refs(timers.a) <= table.Values && timers.Valid() && CrossLinked(timers.a, table.Values)
      ensures Timers(timers.a) == old(Timers(timers.a)) - {e} && e.heapIdx == NO_TIMER
    {
      hide HeapOrdered, DistinctRefs, Timers, Refs;
      HasTimer(timers.a, table.Values);
      TimersAt(timers.a);
      timers.Delete(e.heapIdx);
      TimersAt(timers.a);
      e.heapIdx := NO_TIMER;
      LinkedAgain(timers.a, table.Values);
    }

    method SetTimer(e: Entry, at: nat)
      requires timers.Valid() && CrossLinked(timers.a, table.Values) && e in table.Values
      modifies timers, table.Values`heapIdx
      ensures Refs(timers.a) <= table.Values && timers.Valid() && CrossLinked(timers.a, table.Values)
      ensures Timers(timers.a) == old(Timers(timers.a))[e := at]
    {
      hide HeapOrdered, DistinctRefs, Timers, Refs;
      HasTimer(timers.a, table.Values);
      TimersAt(timers.a);
      timers.Upsert(e.heapIdx, HeapItem(at, e));
      TimersAt(timers.a);
      LinkedAgain(timers.a, table.Values);
    }

    /** The timer half of `entry_set_ttl`. */
    method Retime(e: Entry, ttl: int, now: nat)
      requires timers.Valid() && CrossLinked(timers.a, table.Values) && e in table.Values
      modifies timers, table.Values`heapIdx
      ensures Refs(timers.a) <= table.Values && timers.Valid() && CrossLinked(timers.a, table.Values)
      ensures Timers(timers.a) == if ttl < 0 then old(Timers(timers.a)) - {e} else old(Timers(timers.a))[e := now + ttl]
    {
      hide TimerHeap.Valid, Timers;
      TimerKnown(e);
      if ttl < 0 && e.heapIdx != NO_TIMER {
        ClearTimer(e);
      } else if ttl >= 0 {
        SetTimer(e, now + ttl);
      }
    }

    static lemma Retimed(e: Entry, ttl: int, now: nat, d: map<Entry, nat>, d': map<Entry, nat>)
      requires d' == if ttl < 0 then d - {e} else d[e := now + ttl]
      ensures RecordOf(e, d') == RecordOf(e, d).(deadline := if ttl < 0 then None else Some(now + ttl))
      ensures forall f :: f != e ==> RecordOf(f, d') == RecordOf(f, d)
    {
      hide ValueOf;
    }

    /** `entry_set_ttl`: a negative duration removes the timer. */
    method SetTtl(ghost key: Bytes, e: Entry, ttl: int, now: nat)
      requires Valid() && key in table && table[key] == e
      modifies Repr
      ensures Valid() && Repr == old(Repr)
      ensures View() == old(View())[key := old(View())[key].(deadline := if ttl < 0 then None else Some(now + ttl))]
    {
      hide HMap.Valid, ZSet.Valid, TimerHeap.Valid, ZSetsValid, CrossLinked, Timers, Refs, Grounded, Disjoint,
        Catalogued, View, RecordOf;
      ghost var ks, d := View(), Timers(timers.a);
      ViewAt();
      Separate();
      Distinguished();
      Retime(e, ttl, now);
      ZSetsKept();
      Retimed(e, ttl, now, d, Timers(timers.a));
      ViewUpdated(ks, key);
    }

    /** What the two comparison callbacks find: the entry of `key`, by its bytes or by its node. */
    ghost predicate Selects(hcode: nat, eq: Matcher, key: Bytes)
      reads this`table
    {
      hcode == StrHash(key) && (eq == ByKey(key) || (key in table && eq == ByNode(table[key].node)))
    }

    lemma Selected(hcode: nat, eq: Matcher, key: Bytes)
      requires Valid() && Selects(hcode, eq, key)
      ensures forall h :: h in db.items && h.hcode == hcode && Matches(eq, h) ==>
        key in table && h == table[key].node && h.owner == table[key]
      ensures key in table ==>
        table[key].node in db.items && table[key].node.hcode == hcode && Matches(eq, table[key].node)
      ensures key !in table ==> Catalogued(table - {key}, db.items)
      ensures key in table ==> Catalogued(table - {key}, db.items - {table[key].node})
    {
      hide HMap.Valid, ZSet.Valid, TimerHeap.Valid, CrossLinked, Refs, Grounded, ZSetsValid, StrHash;
      assert Catalogued(table, db.items);
      if key !in table {
        assert table - {key} == table;
      }
    }

    /** `hm_delete` on the top-level dictionary. */
    method Unfile(hcode: nat, eq: Matcher, ghost key: Bytes) returns (e: Entry?)
      requires Valid() && Selects(hcode, eq, key)
      modifies db`migratePos, db`age, db`switches, db`items, db.newer, db.older, db.newer.tab, db.older.tab
      modifies db.items`next
      ensures e == if key in table then table[key] else null
      ensures db.Valid() && Catalogued(table - {key}, db.items) && ZSetsValid()
      ensures Disjoint() && db.Repr <= base <= Repr && this in Repr
      ensures forall k :: k in table ==>
        RecordOf(table[k], Timers(timers.a)) == old(RecordOf(table[k], Timers(timers.a)))
      ensures timers.Valid() && CrossLinked(timers.a, table.Values)
    {
      hide HMap.Valid, ZSet.Valid, TimerHeap.Valid, ZSetsValid, CrossLinked, Timers, Refs, RecordOf, Grounded, Disjoint,
        Catalogued, Matches, View, Valid, Selects;
      Pieces();
      db.Footprint();
      Separate();
      Selected(hcode, eq, key);
      var node := db.Delete(hcode, eq);
      ZSetsKept();
      RecordsKept();
      if node == null {
        return null;
      }
      return node.owner as Entry;
    }

    /** `entry_del`: the timer goes, and a sorted set frees its members. */
    method EntryDel(e: Entry)
      requires timers.Valid() && CrossLinked(timers.a, table.Values) && e in table.Values && e.zset.Valid()
      requires timers !in e.zset.Repr && forall x :: x in table.Values ==> x !in e.zset.Repr
      modifies timers, table.Values`heapIdx, e.zset, e.zset.hmap, e.zset.hmap.newer, e.zset.hmap.older
      ensures timers.Valid() && CrossLinked(timers.a, table.Values)
      ensures Timers(timers.a) == old(Timers(timers.a)) - {e} && e.heapIdx == NO_TIMER
      ensures Refs(timers.a) <= table.Values && e.zset.Repr == old(e.zset.Repr)
    {
      hide HMap.Valid, ZSet.Valid, TimerHeap.Valid, Timers, Refs;
      TimerKnown(e);
      if e.heapIdx != NO_TIMER {
        ClearTimer(e);
      }
      if e.kind.ZSetKind? {
        var freed := e.zset.Clear();
      }
    }

    /** The ghost state forgets a key. */
    ghost method Forget(key: Bytes)
      requires Disjoint() && db.Repr <= base <= Repr && this in Repr && db.Valid()
      requires Catalogued(table - {key}, db.items)
      requires timers.Valid() && CrossLinked(timers.a, table.Values)
      requires key in table ==> table[key].heapIdx == NO_TIMER
      requires forall k, l :: k in table && l in table && k != l ==> table[k] != table[l]
      requires forall k :: k in table && k != key ==> table[k].zset.Valid()
      modifies this`table
      ensures Valid() && table == old(table) - {key}
    {
      hide HMap.Valid, ZSet.Valid, Timers, Catalogued, HeapOrdered, DistinctRefs, View, RecordOf, ValueOf, Refs;
      ghost var was := table;
      HasTimer(timers.a, table.Values);
      ValuesFewer(table, key);
      table := table - {key};
      forall k | k in table
        ensures table[k].zset.Valid()
      {
        assert was[k] == table[k] && old(was[k].zset.Valid());
      }
    }

    static lemma ValuesFewer(table: Table, key: Bytes)
      requires forall k, l :: k in table && l in table && k != l ==> table[k] != table[l]
      ensures (table - {key}).Values == table.Values - if key in table then {table[key]} else {}
    {
      var rest := table - {key};
      forall e | e in table.Values && (key in table ==> e != table[key])
        ensures e in rest.Values
      {
        var k :| k in table && table[k] == e;
        assert rest[k] == e;
      }
    }

    /** `entry_del` on an entry that is out of the dictionary, and the key is forgotten. */
    method Discard(e: Entry, ghost key: Bytes, ghost ks: Keyspace)
      requires Disjoint() && db.Repr <= base <= Repr && this in Repr && db.Valid()
      requires Catalogued(table - {key}, db.items)
      requires timers.Valid() && CrossLinked(timers.a, table.Values) && ZSetsValid()
      requires key in table && table[key] == e
      requires forall k, l :: k in table && l in table && k != l ==> table[k] != table[l]
      requires ks.Keys == table.Keys && forall k :: k in table ==> ks[k] == RecordOf(table[k], Timers(timers.a))
      modifies this`table, timers, table.Values`heapIdx, e.zset, e.zset.hmap, e.zset.hmap.newer, e.zset.hmap.older
      ensures Valid() && View() == ks - {key}
    {
      hide *;
      ghost var was, d := table, Timers(timers.a);
      OthersApart(key);
      e.zset.Open();
      EntryDel(e);
      OthersKept(key);
      DisjointKept({});
      assert forall k :: k in was && k != key ==> ks[k] == RecordOf(was[k], d);
      OtherRecords(was, d, e, key, ks);
      Drop(key, ks);
    }

    /** Forgetting, in terms of the plain map. */
    ghost method Drop(key: Bytes, ks: Keyspace)
      requires Disjoint() && db.Repr <= base <= Repr && this in Repr && db.Valid()
      requires Catalogued(table - {key}, db.items)
      requires timers.Valid() && CrossLinked(timers.a, table.Values)
      requires key in table ==> table[key].heapIdx == NO_TIMER
      requires forall k, l :: k in table && l in table && k != l ==> table[k] != table[l]
      requires forall k :: k in table && k != key ==> table[k].zset.Valid()
      requires ks.Keys == table.Keys && forall k :: k in table && k != key ==>
        ks[k] == RecordOf(table[k], Timers(timers.a))
      modifies this`table
      ensures Valid() && View() == ks - {key}
    {
      hide *;
      ghost var was, d := table, Timers(timers.a);
      Forget(key);
      assert forall k :: k in was && k != key ==> ks[k] == RecordOf(was[k], d);
      ViewIs(ks - {key});
    }

    /** Removed one entry's timer, the other records read the same. */
    static lemma OtherRecords(table: Table, deadlines: map<Entry, nat>, e: Entry, key: Bytes, ks: Keyspace)
      requires forall k :: k in table && k != key ==> k in ks && ks[k] == RecordOf(table[k], deadlines) && table[k] != e
      ensures forall k :: k in table && k != key ==> ks[k] == RecordOf(table[k], deadlines - {e})
    {
      hide ValueOf;
    }

    twostate lemma OthersKept(key: Bytes)
      requires old(ZSetsValid()) && table == old(table)
      requires forall k :: k in table && k != key ==> unchanged(old(table[k].zset.Repr))
      ensures forall k :: k in table && k != key ==> table[k].zset.Valid()
    {
      hide ZSet.Valid;
    }

    lemma OthersApart(key: Bytes)
      requires Disjoint() && key in table && ZSetsValid() && db.Repr <= base
      ensures timers !in db.Repr && forall k :: k in table ==> table[k] !in db.Repr
      ensures forall k :: k in table ==> timers !in table[k].zset.Repr && this !in table[k].zset.Repr
      ensures forall k, l :: k in table && l in table ==> table[l] !in table[k].zset.Repr
      ensures forall k :: k in table && k != key ==> table[k].zset.Repr !! table[key].zset.Repr
      ensures table[key].zset.Valid() && db.Repr !! table[key].zset.Repr
    {
    }

    /** `hm_delete` followed by `entry_del`: a key is gone with its value and its timer. */
    method DeleteBy(hcode: nat, eq: Matcher, ghost key: Bytes) returns (found: bool)
      requires Valid() && Selects(hcode, eq, key)
      modifies Repr
      ensures Valid() && Repr == old(Repr)
      ensures found == (key in old(table)) && View() == old(View()) - {key}
    {
      hide *;
      ghost var ks := View();
      ViewAt();
      Pieces();
      Footprint();
      Distinguished();
      var e := Unfile(hcode, eq, key);
      if e == null {
        NothingGone(key, ks);
        return false;
      }
      ValueFootprint(key);
      Discard(e, key, ks);
      return true;
    }

    /** What freeing a value touches. */
    lemma ValueFootprint(key: Bytes)
      requires key in table && ZSetsValid()
      ensures var z := table[key].zset; z in Repr && z.hmap in Repr && z.hmap.newer in Repr && z.hmap.older in Repr
    {
      hide ZSet.Valid;
      table[key].zset.Open();
      table[key].zset.Ownership();
    }

    lemma NothingGone(key: Bytes, ks: Keyspace)
      requires Disjoint() && db.Repr <= base <= Repr && this in Repr && db.Valid()
      requires Catalogued(table - {key}, db.items)
      requires Refs(timers.a) <= table.Values && timers.Valid() && CrossLinked(timers.a, table.Values) && ZSetsValid()
      requires key !in table
      requires ks.Keys == table.Keys && forall k :: k in table ==> ks[k] == RecordOf(table[k], Timers(timers.a))
      ensures Valid() && View() == ks - {key}
    {
      hide HMap.Valid, ZSet.Valid, TimerHeap.Valid, CrossLinked, Timers, Refs, RecordOf, Catalogued, View;
      assert table - {key} == table && ks - {key} == ks;
      ViewIs(ks);
    }

    lemma Distinguished()
      requires Valid()
      ensures forall k, l :: k in table && l in table && k != l ==> table[k] != table[l]
    {
      hide HMap.Valid, ZSet.Valid, TimerHeap.Valid, CrossLinked, Refs, Grounded, ZSetsValid;
    }

    /** One sorted set has grown by new memory only. */
    twostate lemma DisjointGrown(key: Bytes)
      requires old(Disjoint()) && table == old(table) && base == old(base) && db.Repr == old(db.Repr) && key in table
      requires forall k :: k in table && k != key ==> table[k].zset.Repr == old(table[k].zset.Repr)
      requires table[key].zset in table[key].zset.Repr && fresh(table[key].zset.Repr - old(table[key].zset.Repr))
      requires Repr == old(Repr) + table[key].zset.Repr
      ensures Disjoint()
    {
    }

    /** The ghost state catches up with a change to one sorted set. */
    twostate lemma ZSetChanged(key: Bytes)
      requires old(Valid()) && table == old(table) && base == old(base) && db.Repr == old(db.Repr) && key in table
      requires Repr == old(Repr) + table[key].zset.Repr
      requires table[key].zset.Valid() && fresh(table[key].zset.Repr - old(table[key].zset.Repr))
      requires forall k :: k in table && k != key ==> unchanged(old(table[k].zset.Repr))
      requires db.Valid() && Catalogued(table, db.items) && timers.Valid() && CrossLinked(timers.a, table.Values)
      ensures Valid()
    {
      hide HMap.Valid, ZSet.Valid, TimerHeap.Valid, Refs, Catalogued, Disjoint;
      OthersKept(key);
      DisjointGrown(key);
    }

    /** Sorted sets whose memory nobody touched still read the same. */
    twostate lemma OtherValues(key: Bytes)
      requires old(ZSetsValid()) && table == old(table)
      requires forall k :: k in table && k != key ==>
        unchanged(old(table[k].zset.Repr)) && table[k].str == old(table[k].str)
      ensures forall k :: k in table && k != key ==> ValueOf(table[k]) == old(ValueOf(table[k]))
    {
      hide ZSet.Valid;
      OthersKept(key);
      forall k | k in table && k != key
        ensures ValueOf(table[k]) == old(ValueOf(table[k]))
      {
        table[k].zset.Ownership();
        var z := table[k].zset;
        assert forall name :: name in z.members ==> z.members[name] in z.members.Values;
      }
    }

    /** The same, and every other record reads the same. */
    twostate lemma ZSetShown(key: Bytes)
      requires old(Valid()) && table == old(table) && base == old(base) && db.Repr == old(db.Repr) && key in table
      requires Repr == old(Repr) + table[key].zset.Repr
      requires table[key].zset.Valid() && fresh(table[key].zset.Repr - old(table[key].zset.Repr))
      requires forall k :: k in table && k != key ==>
        unchanged(old(table[k].zset.Repr)) && table[k].str == old(table[k].str)
      requires db.Valid() && Catalogued(table, db.items) && timers.Valid() && CrossLinked(timers.a, table.Values)
      requires timers.a == old(timers.a)
      ensures Valid()
      ensures forall k :: k in table && k != key ==>
        RecordOf(table[k], Timers(timers.a)) == old(RecordOf(table[k], Timers(timers.a)))
    {
      hide HMap.Valid, ZSet.Valid, TimerHeap.Valid, Refs, Catalogued, Disjoint, View, ValueOf;
      ZSetChanged(key);
      OtherValues(key);
    }

    /** `zset_insert` on the sorted set of a key: the rest of the database does not notice. */
    method InsertOnly(ghost key: Bytes, e: Entry, name: Bytes, score: Score) returns (added: bool)
      requires Valid() && key in table && table[key] == e
      modifies e.zset.Repr
      ensures e.zset.Valid() && fresh(e.zset.Repr - old(e.zset.Repr))
      ensures db.Valid() && Catalogued(table, db.items) && timers.Valid() && CrossLinked(timers.a, table.Values)
      ensures added == (name !in old(e.zset.Scores())) && e.zset.Scores() == Rescored(old(e.zset.Scores()), name, score)
    {
      hide HMap.Valid, ZSet.Valid, TimerHeap.Valid, Timers, Refs, Catalogued, Disjoint, ZSetsValid, CrossLinked, Valid;
      Pieces();
      OthersApart(key);
      db.Footprint();
      added := e.zset.Insert(name, score);
    }

    /** The same, and the ghost state catches up. */
    method InsertInto(ghost key: Bytes, e: Entry, name: Bytes, score: Score) returns (added: bool)
      requires Valid() && key in table && table[key] == e
      modifies Repr
      ensures Valid() && fresh(Repr - old(Repr)) && table == old(table) && timers.a == old(timers.a)
      ensures added == (name !in old(e.zset.Scores())) && e.zset.Scores() == Rescored(old(e.zset.Scores()), name, score)
      ensures forall k :: k in table && k != key ==>
        RecordOf(table[k], Timers(timers.a)) == old(RecordOf(table[k], Timers(timers.a)))
    {
      hide *;
      Pieces();
      OthersApart(key);
      InRepr(key);
      added := InsertOnly(key, e, name, score);
      Repr := Repr + e.zset.Repr;
      ZSetShown(key);
    }

    method ZSetInsert(ghost key: Bytes, e: Entry, name: Bytes, score: Score) returns (added: bool)
      requires Valid() && key in table && table[key] == e && e.kind.ZSetKind?
      modifies Repr
      ensures Valid() && fresh(Repr - old(Repr))
      ensures old(View())[key].value.ZSetValue?
      ensures added == (name !in old(View())[key].value.scores)
      ensures var r := old(View())[key];
        View() == old(View())[key := r.(value := ZSetValue(Rescored(r.value.scores, name, score)))]
    {
      hide Valid, View, RecordOf, Timers;
      ghost var ks, d := View(), Timers(timers.a);
      ViewAt();
      ZSetRecord(e, d);
      added := InsertInto(key, e, name, score);
      ZSetRecord(e, d);
      ViewUpdated(ks, key);
    }

    lemma InRepr(key: Bytes)
      requires Disjoint() && key in table
      ensures table[key].zset.Repr <= Repr && this in base && this !in table[key].zset.Repr && this !in db.Repr
    {
    }

    static lemma ZSetRecord(e: Entry, deadlines: map<Entry, nat>)
      requires e.kind.ZSetKind?
      ensures RecordOf(e, deadlines) ==
        Record(ZSetValue(e.zset.Scores()), if e in deadlines then Some(deadlines[e]) else None)
    {
    }

    /** `zset_lookup` and, if it finds the member, `zset_delete`. */
    method RemoveFrom(ghost key: Bytes, e: Entry, name: Bytes) returns (removed: bool)
      requires Valid() && key in table && table[key] == e
      modifies Repr
      ensures Valid() && Repr == old(Repr) && table == old(table) && timers.a == old(timers.a)
      ensures removed == (name in old(e.zset.Scores())) && e.zset.Scores() == old(e.zset.Scores()) - {name}
      ensures forall k :: k in table && k != key ==>
        RecordOf(table[k], Timers(timers.a)) == old(RecordOf(table[k], Timers(timers.a)))
    {
      hide HMap.Valid, ZSet.Valid, TimerHeap.Valid, Timers, Refs, Catalogued, Disjoint, ZSetsValid, CrossLinked, Valid,
        RecordOf;
      Pieces();
      OthersApart(key);
      db.Footprint();
      InRepr(key);
      removed := e.zset.Remove(name);
      assert Repr == Repr + e.zset.Repr;
      ZSetShown(key);
    }

    method ZSetRemove(ghost key: Bytes, e: Entry, name: Bytes) returns (removed: bool)
      requires Valid() && key in table && table[key] == e && e.kind.ZSetKind?
      modifies Repr
      ensures Valid() && Repr == old(Repr)
      ensures old(View())[key].value.ZSetValue?
      ensures removed == (name in old(View())[key].value.scores)
      ensures var r := old(View())[key]; View() == old(View())[key := r.(value := ZSetValue(r.value.scores - {name}))]
    {
      hide Valid, View, RecordOf, Timers;
      ghost var ks, d := View(), Timers(timers.a);
      ViewAt();
      ZSetRecord(e, d);
      removed := RemoveFrom(key, e, name);
      ZSetRecord(e, d);
      ViewUpdated(ks, key);
    }

    /** `zset_lookup` in the sorted set of a key, for the score. */
    method LookIn(ghost key: Bytes, e: Entry, name: Bytes) returns (score: Option<Score>)
      requires Valid() && key in table && table[key] == e
      modifies Repr
      ensures Valid() && Repr == old(Repr) && table == old(table) && timers.a == old(timers.a)
      ensures score == if name in e.zset.Scores() then Some(e.zset.Scores()[name]) else None
      ensures e.zset.Scores() == old(e.zset.Scores())
      ensures forall k :: k in table && k != key ==>
        RecordOf(table[k], Timers(timers.a)) == old(RecordOf(table[k], Timers(timers.a)))
    {
      hide HMap.Valid, ZSet.Valid, TimerHeap.Valid, Timers, Refs, Catalogued, Disjoint, ZSetsValid, CrossLinked, Valid,
        RecordOf;
      Pieces();
      OthersApart(key);
      db.Footprint();
      InRepr(key);
      score := e.zset.ScoreIfPresent(name);
      assert Repr == Repr + e.zset.Repr;
      ZSetShown(key);
    }

    method ZSetScore(ghost key: Bytes, e: Entry, name: Bytes) returns (score: Option<Score>)
      requires Valid() && key in table && table[key] == e && e.kind.ZSetKind?
      modifies Repr
      ensures Valid() && Repr == old(Repr) && View() == old(View())
      ensures View()[key].value.ZSetValue?
      ensures var scores := View()[key].value.scores; score == if name in scores then Some(scores[name]) else None
    {
      hide Valid, View, RecordOf, Timers;
      ghost var ks, d := View(), Timers(timers.a);
      ViewAt();
      ZSetRecord(e, d);
      score := LookIn(key, e, name);
      ZSetRecord(e, d);
      ViewUpdated(ks, key);
    }

    /** `heap_idx` leads to the entry's own timer. */
    lemma TimerSlot(key: Bytes)
      requires Valid() && key in table
      ensures var e := table[key];
        (e.heapIdx == NO_TIMER <==> e !in Timers(timers.a)) &&
        (e.heapIdx != NO_TIMER ==> 0 <= e.heapIdx < |timers.a| && timers.a[e.heapIdx].val == Timers(timers.a)[e])
    {
      hide HMap.Valid, ZSet.Valid, Timers, Catalogued, Grounded, ZSetsValid, HeapOrdered, Refs;
      TimerKnown(table[key]);
      TimersAt(timers.a);
    }

    /** The dictionary's nodes, each once, are the keys, each once. */
    lemma AllKeys(visited: seq<HNode>)
      requires Valid() && Distinct(visited) && forall n :: n in visited <==> n in db.items
      ensures |visited| == |View()|
      ensures forall i :: 0 <= i < |visited| ==> visited[i].key in View()
      ensures forall i, j :: 0 <= i < j < |visited| ==> visited[i].key != visited[j].key
    {
      hide HMap.Valid, ZSet.Valid, TimerHeap.Valid, CrossLinked, Refs, Grounded, ZSetsValid, StrHash;
      assert forall i :: 0 <= i < |visited| ==> visited[i] in visited;
      assert forall k :: k in table ==> table[k].node in visited;
      CountKeys(visited, table.Keys);
    }

    static lemma {:induction false} CountKeys(visited: seq<HNode>, keys: set<Bytes>)
      requires forall i :: 0 <= i < |visited| ==> visited[i].key in keys
      requires forall i, j :: 0 <= i < j < |visited| ==> visited[i].key != visited[j].key
      requires forall k :: k in keys ==> exists i :: 0 <= i < |visited| && visited[i].key == k
      ensures |visited| == |keys|
    {
      if visited == [] {
        assert keys == {};
      } else {
        var last := visited[|visited| - 1].key;
        var rest := visited[..|visited| - 1];
        forall k | k in keys - {last}
          ensures exists i :: 0 <= i < |rest| && rest[i].key == k
        {
          var i :| 0 <= i < |visited| && visited[i].key == k;
          assert rest[i].key == k;
        }
        CountKeys(rest, keys - {last});
      }
    }

    /** The dictionary lists as many nodes as there are keys. */
    lemma DbValid()
      requires Valid()
      ensures db.Valid()
    {
      hide HMap.Valid, ZSet.Valid, TimerHeap.Valid, CrossLinked, Refs, Grounded, ZSetsValid, Catalogued;
    }

    /** A sorted set's memory is the store's. */
    lemma ZSetInside(key: Bytes)
      requires Valid() && key in table
      ensures table[key].zset.Valid() && table[key].zset.Repr <= Repr
    {
      hide Valid, ZSet.Valid;
      Separate();
    }

    /** The root of the heap is the earliest deadline of all keys. */
    lemma Earliest()
      requires Valid()
      ensures timers.a == [] ==> forall k :: k in View() ==> View()[k].deadline == None
      ensures timers.a != [] ==> var e := timers.a[0].ref;
        e in table.Values && e.Key() in table && table[e.Key()] == e &&
        View()[e.Key()].deadline == Some(timers.a[0].val) &&
        forall k :: k in View() && View()[k].deadline.Some? ==> timers.a[0].val <= View()[k].deadline.value
    {
      hide HMap.Valid, ZSet.Valid, Timers, Grounded, ZSetsValid, View, ValueOf, CrossLinked, HeapOrdered, DistinctRefs;
      ViewAt();
      TimersAt(timers.a);
      forall k | k in View() && View()[k].deadline.Some?
        ensures timers.a != [] && timers.a[0].val <= View()[k].deadline.value
      {
        var i :| 0 <= i < |timers.a| && timers.a[i].ref == table[k];
        RootIsLeast(timers.a, i);
      }
      if timers.a != [] {
        assert timers.a[0].ref in Refs(timers.a);
      }
    }

    /** An entry's own node selects its key. */
    lemma ByItself(key: Bytes)
      requires Valid() && key in table
      ensures Selects(table[key].node.hcode, ByNode(table[key].node), key)
    {
      hide HMap.Valid, ZSet.Valid, TimerHeap.Valid, CrossLinked, Refs, Grounded, ZSetsValid;
    }
  }
}
