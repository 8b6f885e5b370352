/** The dictionary: two tables and a cursor, migrating a bounded number of nodes per operation. */
module HMaps {
  import opened Sequences
  import opened HNodes
  import opened HTables

  const REHASHING_WORK: nat := 128
  const MAX_LOAD_FACTOR: nat := 8

  /** What is left in the old table after one more operation. */
  function Left(olderSize: nat): nat {
    if olderSize > REHASHING_WORK then olderSize - REHASHING_WORK else 0
  }

  /** Migration outruns growth. While an old table of `n` buckets is being emptied, the nodes it
      still holds, plus 128 for every node inserted since the switch (one more counted), never
      exceed the `8n` it started with; and the load factor stays below 8. */
  predicate Outruns(olderLive: bool, olderSize: nat, total: nat, olderBuckets: nat,
                    newerLive: bool, newerBuckets: nat)
  {
    (olderLive ==>
      newerLive && newerBuckets == 2 * olderBuckets &&
      olderSize + REHASHING_WORK * (total + 1 - MAX_LOAD_FACTOR * olderBuckets) <= MAX_LOAD_FACTOR * olderBuckets) &&
    (newerLive ==> total < MAX_LOAD_FACTOR * newerBuckets)
  }

  /** Another node while a migration is under way: one more in total, 128 fewer in the old table. */
  lemma OutrunsInserting(olderSize: nat, total: nat, olderBuckets: nat, newerBuckets: nat,
                         olderLive': bool, olderSize': nat, olderBuckets': nat)
    requires Outruns(true, olderSize, total, olderBuckets, true, newerBuckets) && olderBuckets > 0
    requires olderSize' == Left(olderSize)
    requires olderLive' ==> olderSize' > 0 && olderBuckets' == olderBuckets
    ensures Outruns(olderLive', olderSize', total + 1, olderBuckets', true, newerBuckets)
  {
  }

  /** The switch itself: the old table starts with exactly `8n` nodes. */
  lemma OutrunsSwitching(total: nat, olderBuckets: nat, olderLive': bool, olderSize': nat, olderBuckets': nat)
    requires total == MAX_LOAD_FACTOR * olderBuckets && olderBuckets > 0
    requires olderSize' == Left(total)
    requires olderLive' ==> olderSize' > 0 && olderBuckets' == olderBuckets
    ensures Outruns(olderLive', olderSize', total, olderBuckets', true, 2 * olderBuckets)
  {
  }

  lemma OutrunsIdle(olderSize: nat, total: nat, olderBuckets: nat, newerBuckets: nat)
    requires total < MAX_LOAD_FACTOR * newerBuckets
    ensures Outruns(false, olderSize, total, olderBuckets, true, newerBuckets)
  {
  }

  /** What `age` operations leave of a migration from `n` buckets. */
  predicate Ages(olderSize: nat, age: nat, olderBuckets: nat) {
    olderSize > 0 ==> olderSize + REHASHING_WORK * age <= MAX_LOAD_FACTOR * olderBuckets
  }

  lemma FourIsPowerOfTwo()
    ensures PowerOfTwo(4)
  {
    assert And(0, 1) == 0 && And(1, 2) == 0 && And(3, 4) == 0;
  }

  lemma NoMigration()
    ensures Outruns(false, 0, 0, 1, false, 1) && Ages(0, 0, 1)
  {
  }

  /** `struct HMap`. `items` is what both tables hold together. */
  class HMap {
    const newer: HTab
    const older: HTab
    var migratePos: nat
    ghost var items: set<HNode>
    /** How many times a full table has become the old one, and how many operations there were since. */
    ghost var switches: nat
    ghost var age: nat
    ghost var Repr: set<object>

    constructor ()
      ensures Valid() && items == {} && fresh(Repr)
    {
      hide Table, And, PowerOfTwo, Outruns, Ages;
      newer := new HTab();
      older := new HTab();
      migratePos := 0;
      switches, age := 0, 0;
      items := {};
      Repr := {this, newer, older};
      new;
      NoMigration();
    }

    /** Both tables are well formed, share no node and no memory, and everything the cursor has
        passed is empty. */
    ghost predicate Sound()
      reads this, Repr
    {
      this in Repr && newer in Repr && older in Repr && newer != older &&
      (newer.tab != null ==> newer.tab in Repr) && (older.tab != null ==> older.tab in Repr) &&
      newer.items <= Repr && older.items <= Repr &&
      newer.Valid() && older.Valid() &&
      items == newer.items + older.items && newer.items !! older.items &&
      (older.tab != null ==> newer.tab != null && newer.tab != older.tab && older.mask >= 3) &&
      (newer.tab != null ==> newer.mask >= 3) &&
      forall b :: 0 <= b < migratePos && b < |older.chains| ==> older.chains[b] == []
    }

    /** `hm_size`. */
    function Size(): nat
      reads this, newer, older
    {
      newer.size + older.size
    }

    /** See `Outruns` and `Ages`. */
    ghost predicate Bounded()
      reads this, newer, older
    {
      Outruns(older.tab != null, older.size, Size(), older.mask + 1, newer.tab != null, newer.mask + 1) &&
      Ages(older.size, age, older.mask + 1)
    }

    ghost predicate Valid()
      reads this, Repr
      ensures Valid() ==> this in Repr
    {
      Sound() && Bounded()
    }

    lemma Footprint()
      requires Valid()
      ensures this in Repr && newer in Repr && older in Repr && items <= Repr
      ensures (newer.tab != null ==> newer.tab in Repr) && (older.tab != null ==> older.tab in Repr)
    {
      hide Table, HTab.Valid, Outruns;
    }

    /** A migration from `n` buckets ends before `n / 16` operations, whichever they are, and before
        `n / 16` more nodes than it began with; the table of `2n` buckets is then little more than half
        way to its own limit. */
    lemma MigrationFinishesEarly()
      requires Valid() && older.size > 0
      ensures var n := older.mask + 1; 16 * age < n && 16 * (Size() - MAX_LOAD_FACTOR * n) < n
      ensures newer.mask + 1 == 2 * (older.mask + 1) && 2 * Size() < MAX_LOAD_FACTOR * (newer.mask + 1) + older.mask + 1
    {
      hide Table, And, HTab.Valid;
      older.SizeOfItems();
      newer.SizeOfItems();
    }

    /** The load factor stays below 8. */
    lemma Roomy()
      requires Valid()
      ensures Size() < MAX_LOAD_FACTOR * (newer.mask + 1)
    {
      hide Table, And, HTab.Valid;
      older.SizeOfItems();
      newer.SizeOfItems();
    }

    /** One turn of the migration loop: skip an empty slot, or move the first node of a slot. */
    method MigrateStep() returns (moved: bool)
      requires Sound() && older.size > 0
      modifies this`migratePos, newer`size, newer`items, newer`chains, older`size, older`items, older`chains,
        newer.tab, older.tab, older.items`next
      ensures Sound() && items == old(items) && older.items <= old(older.items)
      ensures newer.size == old(newer.size) + (if moved then 1 else 0)
      ensures older.size == old(older.size) - (if moved then 1 else 0)
      ensures migratePos == old(migratePos) + (if moved then 0 else 1) && old(migratePos) <= older.mask
    {
      hide Table, And, Removed, HTab.Valid, Nexts;
      NonEmptySlot();
      var head := older.tab[migratePos];
      if head == null {
        migratePos := migratePos + 1;
        return false;
      }
      ghost var chain := older.chains[migratePos];
      var node := older.Detach(Head(migratePos), migratePos, 0);
      newer.Insert(node);
      return true;
    }

    /** While nodes remain, the cursor has not run off the old table. */
    lemma NonEmptySlot()
      requires Sound() && older.size > 0
      ensures older.tab != null && migratePos <= older.mask && older.tab.Length == older.mask + 1 == |older.chains|
      ensures older.tab[migratePos] == if |older.chains[migratePos]| > 0 then older.chains[migratePos][0] else null
    {
      hide Table, And;
      var n :| n in older.items;
      TableShape(older.tab[..], older.chains, older.mask, older.items, Nexts(older.items));
      TableMember(older.tab[..], older.chains, older.mask, older.items, Nexts(older.items), n);
      assert And(n.hcode, older.mask) >= migratePos;
      TableAt(older.tab[..], older.chains, older.mask, older.items, Nexts(older.items), migratePos, 0);
    }

    /** `hm_help_rehashing`: move up to 128 nodes, and drop the old table once it is empty. */
    method HelpRehashing()
      requires Sound()
      modifies this`migratePos, newer`size, newer`items, newer`chains, older, newer.tab, older.tab, older.items`next
      ensures Sound() && items == old(items) && Size() == old(Size())
      ensures older.size == Left(old(older.size))
      ensures if older.size > 0 then older.tab == old(older.tab) && older.mask == old(older.mask) else older.tab == null
    {
      hide Table, And, HTab.Valid, Nexts;
      var nwork := 0;
      while nwork < REHASHING_WORK && older.size > 0
        invariant Sound() && items == old(items) && Size() == old(Size())
        invariant nwork <= REHASHING_WORK && older.size + nwork == old(older.size)
        invariant older.tab == old(older.tab) && older.mask == old(older.mask)
        invariant older.items <= old(older.items)
        decreases older.size, older.mask + 1 - migratePos
      {
        var moved := MigrateStep();
        if moved {
          nwork := nwork + 1;
        }
      }
      if older.size == 0 && older.tab != null {
        DropOlder();
      }
      EmptyOlder();
    }

    lemma EmptyOlder()
      requires Sound()
      ensures older.tab == null ==> older.size == 0
    {
      older.SizeOfItems();
    }

    /** `hmap->older = HTab{}`. */
    method DropOlder()
      requires Sound() && older.size == 0
      modifies older
      ensures Sound() && items == old(items) && older.tab == null && older.size == 0
    {
      hide Table, And, HTab.Valid;
      older.SizeOfItems();
      older.Reset();
    }

    /** `hm_trigger_rehashing`: the full table becomes the old one, and one twice its size is opened. */
    method TriggerRehashing()
      requires Sound() && newer.tab != null && older.tab == null
      modifies this`migratePos, this`Repr, newer, older
      ensures Sound() && items == old(items) && fresh(Repr - old(Repr))
      ensures older.tab == old(newer.tab) && older.size == old(newer.size) && older.mask == old(newer.mask)
      ensures older.items == old(newer.items)
      ensures newer.tab != null && fresh(newer.tab) && newer.size == 0 && newer.mask + 1 == 2 * (old(newer.mask) + 1)
    {
      hide Table, And, HTab.Valid, PowerOfTwo;
      newer.SizeOfItems();
      older.SizeOfItems();
      newer.PowerOfSize();
      older.Assign(newer);
      newer.Init((newer.mask + 1) * 2);
      migratePos := 0;
      Repr := Repr + {newer.tab};
    }

    /** One more operation. */
    ghost method Tick(toAge: nat, toSwitches: nat)
      requires Sound()
      modifies this`age, this`switches
      ensures Sound() && age == toAge && switches == toSwitches
    {
      hide Table, And, HTab.Valid;
      age, switches := toAge, toSwitches;
    }

    /** The share of migration that every operation starts with. */
    method Help()
      requires Valid()
      modifies this`migratePos, this`age, this`switches, newer`size, newer`items, newer`chains, older, newer.tab
      modifies older.tab, items`next
      ensures Valid() && items == old(items) && Size() == old(Size()) < MAX_LOAD_FACTOR * (newer.mask + 1)
      ensures older.size == Left(old(older.size)) && age == old(age) + 1 && switches == old(switches)
      ensures newer.tab == old(newer.tab) && newer.mask == old(newer.mask)
      ensures (older.size > 0 ==> older.mask == old(older.mask))
      ensures older.tab == old(older.tab) || older.tab == null
    {
      hide Table, And, HTab.Valid, Nexts, Matches;
      Roomy();
      HelpRehashing();
      Tick(age + 1, switches);
    }

    /** `hm_lookup`: a member with this hash that `eq` accepts, if there is one in either table. */
    method Lookup(hcode: nat, eq: Matcher) returns (node: HNode?)
      requires Valid()
      modifies this`migratePos, this`age, this`switches, newer`size, newer`items, newer`chains, older, newer.tab
      modifies older.tab, items`next
      ensures Valid() && items == old(items) && Size() == old(Size()) < MAX_LOAD_FACTOR * (newer.mask + 1)
      ensures older.size == Left(old(older.size)) && age == old(age) + 1 && switches == old(switches)
      ensures older.size > 0 ==> older.mask == old(older.mask)
      ensures node == null ==> forall n :: n in items && n.hcode == hcode ==> !Matches(eq, n)
      ensures node != null ==> node in items && node.hcode == hcode && Matches(eq, node)
    {
      hide Table, And, HTab.Valid, Nexts, Matches, Bounded;
      Help();
      ghost var b, i;
      var from: Link;
      from, b, i := newer.Lookup(hcode, eq);
      if from != NoLink {
        newer.LinkTarget(from, b, i);
        return newer.Target(from);
      }
      from, b, i := older.Lookup(hcode, eq);
      if from != NoLink {
        older.LinkTarget(from, b, i);
        return older.Target(from);
      }
      return null;
    }

    /** The first table of an empty dictionary. */
    method OpenFirst()
      requires Sound() && newer.tab == null
      modifies this`Repr, newer
      ensures Sound() && fresh(Repr - old(Repr)) && newer.tab != null && fresh(newer.tab)
      ensures newer.size == old(newer.size) && newer.items == old(newer.items) && newer.mask == 3
    {
      hide Table, And, HTab.Valid, Nexts;
      newer.SizeOfItems();
      FourIsPowerOfTwo();
      newer.Init(4);
      newer.SizeOfItems();
      Repr := Repr + {newer.tab};
    }

    /** The first half of `hm_insert`: open the first table if need be, and link the node into the newer one. */
    method Place(node: HNode)
      requires Valid() && node !in items
      modifies this`items, this`Repr, newer, newer.tab, node`next
      ensures Sound() && items == old(items) + {node} && fresh(Repr - old(Repr) - {node})
      ensures newer.tab != null && (newer.tab == old(newer.tab) || fresh(newer.tab)) && newer.tab in Repr
      ensures newer.size == old(newer.size) + 1 && newer.items == old(newer.items) + {node}
      ensures newer.mask == if old(newer.tab) == null then 3 else old(newer.mask)
    {
      hide Table, And, HTab.Valid, Nexts, Bounded;
      if newer.tab == null {
        OpenFirst();
      }
      newer.Insert(node);
      items, Repr := items + {node}, Repr + {node};
    }

    /** What the bound says right after `Place`, of the sizes before it. */
    lemma BoundBefore()
      requires Valid()
      ensures Outruns(older.tab != null, older.size, Size(), older.mask + 1, newer.tab != null, newer.mask + 1)
      ensures older.tab == null ==>
        older.size == 0 && (newer.tab != null ==> newer.size < MAX_LOAD_FACTOR * (newer.mask + 1))
      ensures newer.tab == null ==> newer.size == 0 && older.tab == null
    {
      hide Table, HTab.Valid;
      newer.SizeOfItems();
      older.SizeOfItems();
    }

    /** The switch of tables, and the share of migration that follows it. */
    method Switch()
      requires Sound() && newer.tab != null && older.tab == null && newer.size == MAX_LOAD_FACTOR * (newer.mask + 1)
      modifies this`migratePos, this`Repr, this`age, this`switches, newer, older, newer.tab, older.tab, items`next
      ensures Valid() && items == old(items) && Size() == old(Size()) && fresh(Repr - old(Repr))
      ensures newer.tab != null && age == 1 && switches == old(switches) + 1
    {
      hide Table, And, HTab.Valid, Nexts, Outruns;
      ghost var total, buckets := newer.size, newer.mask + 1;
      EmptyOlder();
      TriggerRehashing();
      HelpRehashing();
      Tick(1, switches + 1);
      OutrunsSwitching(total, buckets, older.tab != null, older.size, older.mask + 1);
    }

    /** `hm_insert`: into the newer table, opening a bigger one when the load factor is reached. */
    method Insert(node: HNode)
      requires Valid() && node !in items
      modifies this, newer, older, newer.tab, older.tab, items`next, node`next
      ensures Valid() && items == old(items) + {node} && Size() == old(Size()) + 1
      ensures newer.tab != null && fresh(Repr - old(Repr) - {node})
      ensures Size() < MAX_LOAD_FACTOR * (newer.mask + 1)
      ensures old(older.tab) != null ==> switches == old(switches)
      ensures switches == old(switches) ==> older.size == Left(old(older.size))
      ensures if switches == old(switches) then age == old(age) + 1 else switches == old(switches) + 1 && age == 1
      ensures switches == old(switches) && older.size > 0 ==> older.mask == old(older.mask)
    {
      hide Table, And, HTab.Valid, Nexts, Outruns;
      ghost var total, olderSize, olderBuckets, newerBuckets := Size(), older.size, older.mask + 1, newer.mask + 1;
      ghost var migrating := older.tab != null;
      BoundBefore();
      Place(node);
      if older.tab == null {
        var threshold := (newer.mask + 1) * MAX_LOAD_FACTOR;
        if newer.size >= threshold {
          Switch();
          Roomy();
          return;
        }
      }
      HelpRehashing();
      Tick(age + 1, switches);
      if migrating {
        OutrunsInserting(olderSize, total, olderBuckets, newerBuckets, older.tab != null, older.size, older.mask + 1);
      } else {
        OutrunsIdle(older.size, Size(), older.mask + 1, newer.mask + 1);
      }
      Roomy();
    }

    /** Detach from one of the two tables. */
    method DetachFrom(table: HTab, from: Link, ghost b: nat, ghost i: nat) returns (node: HNode)
      requires Valid() && (table == newer || table == older) && table.LinkTo(from, b, i)
      modifies this`items, table`size, table`items, table`chains, table.tab, table.items`next
      ensures Valid() && Size() + 1 == old(Size()) && node == old(table.chains)[b][i] && node in old(items)
      ensures items == old(items) - {node}
      ensures table.size + 1 == old(table.size)
    {
      hide Table, And, HTab.Valid, Nexts, Matches, Removed;
      assert table == older ==> b >= migratePos;
      node := table.Detach(from, b, i);
      items := items - {node};
    }

    /** `hm_delete`: detach and return a member with this hash that `eq` accepts. */
    method Delete(hcode: nat, eq: Matcher) returns (node: HNode?)
      requires Valid()
      modifies this`migratePos, this`items, this`age, this`switches, newer`size, newer`items, newer`chains, older
      modifies newer.tab, older.tab, items`next
      ensures Valid() && Size() < MAX_LOAD_FACTOR * (newer.mask + 1)
      ensures age == old(age) + 1 && switches == old(switches) && (older.size > 0 ==> older.mask == old(older.mask))
      ensures node == null ==> items == old(items) && forall n :: n in items && n.hcode == hcode ==> !Matches(eq, n)
      ensures node != null ==>
        node in old(items) && node.hcode == hcode && Matches(eq, node) && items == old(items) - {node}
      ensures Size() == old(Size()) - (if node == null then 0 else 1) && older.size <= Left(old(older.size))
    {
      hide Table, And, HTab.Valid, Nexts, Matches, Bounded;
      Help();
      ghost var b, i;
      var from: Link;
      from, b, i := newer.Lookup(hcode, eq);
      if from != NoLink {
        node := DetachFrom(newer, from, b, i);
        return;
      }
      from, b, i := older.Lookup(hcode, eq);
      if from != NoLink {
        node := DetachFrom(older, from, b, i);
        return;
      }
      return null;
    }

    /** `hm_foreach`: the nodes of both tables, each at most once, until the callback stops it. */
    method Foreach(f: HNode -> bool) returns (ok: bool, visited: seq<HNode>)
      requires Valid()
      ensures Walked(visited, f, ok) && (forall n :: n in visited ==> n in items)
      ensures ok ==> |visited| == Size() && forall n :: n in items ==> n in visited
    {
      hide Table, And, HTab.Valid, Nexts;
      ok, visited := newer.Foreach(f);
      if ok {
        var more;
        ok, more := older.Foreach(f);
        DistinctConcat(visited, more);
        visited := visited + more;
      }
    }

    /** `hm_clear`. */
    method Clear()
      requires Valid()
      modifies this`migratePos, this`items, newer, older
      ensures Valid() && items == {}
    {
      hide Table, And;
      newer.Reset();
      older.Reset();
      migratePos := 0;
      items := {};
    }
  }

  /** Anything one can ask of a dictionary. */
  datatype Operation = LookUp(hcode: nat, eq: Matcher) | TakeOut(hcode: nat, eq: Matcher) | PutIn(node: HNode)

  function NodesIn(ops: seq<Operation>): set<HNode> {
    set i | 0 <= i < |ops| && ops[i].PutIn? :: ops[i].node
  }

  method PerformOne(m: HMap, op: Operation)
    requires m.Valid() && (op.PutIn? ==> op.node !in m.items)
    modifies m.Repr, if op.PutIn? then {op.node} else {}
    ensures m.Valid() && m.Size() < MAX_LOAD_FACTOR * (m.newer.mask + 1)
    ensures m.items <= old(m.items) + (if op.PutIn? then {op.node} else {})
    ensures fresh(m.Repr - old(m.Repr) - if op.PutIn? then {op.node} else {})
    ensures if m.switches == old(m.switches) then m.age == old(m.age) + 1 else m.switches == old(m.switches) + 1
    ensures m.switches == old(m.switches) ==>
      m.older.size <= Left(old(m.older.size)) && (m.older.size > 0 ==> m.older.mask == old(m.older.mask))
  {
    hide HMap.Valid;
    m.Footprint();
    match op
    case LookUp(hcode, eq) =>
      var node := m.Lookup(hcode, eq);
    case TakeOut(hcode, eq) =>
      var node := m.Delete(hcode, eq);
    case PutIn(node) =>
      m.Insert(node);
  }

  /** Any operations one after the other; the nodes put in are new and different from each other. A
      migration from `n` buckets is over once `n / 16` operations have been performed: the old table is
      empty, unless the next full one has already taken its place. */
  method Perform(m: HMap, ops: seq<Operation>)
    requires m.Valid() && NodesIn(ops) !! m.items
    requires forall i, j :: 0 <= i < j < |ops| && ops[i].PutIn? && ops[j].PutIn? ==> ops[i].node != ops[j].node
    modifies m.Repr, NodesIn(ops)
    ensures m.Valid() && m.Size() < MAX_LOAD_FACTOR * (m.newer.mask + 1)
    ensures old(m.switches) <= m.switches
    ensures m.switches == old(m.switches) && 16 * |ops| >= old(m.older.mask) + 1 ==> m.older.size == 0
  {
    hide HMap.Valid;
    m.Roomy();
    var i := 0;
    while i < |ops|
      invariant 0 <= i <= |ops| && m.Valid() && m.Size() < MAX_LOAD_FACTOR * (m.newer.mask + 1)
      invariant fresh(m.Repr - old(m.Repr) - NodesIn(ops))
      invariant forall k :: i <= k < |ops| && ops[k].PutIn? ==> ops[k].node !in m.items
      invariant old(m.switches) <= m.switches
      invariant m.switches == old(m.switches) ==>
        m.age == old(m.age) + i && (m.older.size > 0 ==> m.older.mask == old(m.older.mask))
    {
      PerformOne(m, ops[i]);
      i := i + 1;
    }
    if m.older.size > 0 {
      m.MigrationFinishesEarly();
    }
  }
}
