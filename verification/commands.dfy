/** The command handlers: each one answers as the plain map does, in one tagged value. */
module Commands {
  import opened Bytes
  import opened Scores
  import opened HNodes
  import opened HTables
  import opened HMaps
  import opened ZNodes
  import opened Trees
  import opened ZSets
  import opened Listings
  import opened Entries
  import opened Heaps
  import opened Replies
  import opened Keyspaces
  import opened Codecs
  import opened Buffers
  import opened Stores

  /** What a found entry says about the plain map. */
  lemma EntryShown(store: Store, key: Bytes)
    requires store.Valid() && key in store.table
    ensures var e := store.table[key]; var r := store.View()[key];
      (e.kind.StrKind? ==> r.value == StrValue(e.str)) &&
      (e.kind.ZSetKind? ==> r.value == ZSetValue(e.zset.Scores())) &&
      r.deadline == if e in Timers(store.timers.a) then Some(Timers(store.timers.a)[e]) else None
    ensures store.table[key].zset.Valid()
  {
    hide Store.Valid, Store.View, Timers;
    store.ViewAt();
    store.Separate();
  }

  method DoGet(store: Store, args: seq<Bytes>, out: Buffer) returns (ghost reply: Reply)
    requires store.Valid() && out !in store.Repr && |args| == 2
    modifies store.Repr, out
    ensures store.Valid() && fresh(store.Repr - old(store.Repr))
    ensures out.data == old(out.data) + Encode(reply)
    ensures store.View() == old(store.View()) && reply == GetReply(store.View(), args[1])
  {
    hide Store.Valid, Store.View, Encode, Ascii, ValueOf, ZSet.Valid;
    var e := store.Find(args[1]);
    if e == null {
      reply := Nil;
      out.OutNil();
      return;
    }
    EntryShown(store, args[1]);
    if e.kind != StrKind {
      reply := BadType("not a string value");
      out.OutErr(ERR_BAD_TYP, Ascii("not a string value"));
      return;
    }
    reply := Str(e.str);
    out.OutStr(e.str);
  }

  method DoSet(store: Store, args: seq<Bytes>, out: Buffer) returns (ghost reply: Reply)
    requires store.Valid() && out !in store.Repr && |args| == 3
    modifies store.Repr, out
    ensures store.Valid() && fresh(store.Repr - old(store.Repr))
    ensures out.data == old(out.data) + Encode(reply)
    ensures store.View() == SetState(old(store.View()), args[1], args[2])
    ensures reply == SetReply(old(store.View()), args[1])
  {
    hide Store.Valid, Store.View, Encode, Ascii, ValueOf, ZSet.Valid;
    var e := store.Find(args[1]);
    if e != null {
      EntryShown(store, args[1]);
      if e.kind != StrKind {
        reply := BadType("a non-string value exists");
        out.OutErr(ERR_BAD_TYP, Ascii("a non-string value exists"));
        return;
      }
      store.SetStr(args[1], e, args[2]);
    } else {
      e := store.Create(args[1], StrKind, args[2]);
    }
    reply := Nil;
    out.OutNil();
  }

  method DoDel(store: Store, args: seq<Bytes>, out: Buffer) returns (ghost reply: Reply)
    requires store.Valid() && out !in store.Repr && |args| == 2
    modifies store.Repr, out
    ensures store.Valid() && fresh(store.Repr - old(store.Repr))
    ensures out.data == old(out.data) + Encode(reply)
    ensures store.View() == old(store.View()) - {args[1]} && reply == Int(if args[1] in old(store.View()) then 1 else 0)
  {
    hide Store.Valid, Store.View, Encode, Ascii, ValueOf, ZSet.Valid;
    var found := store.DeleteBy(StrHash(args[1]), ByKey(args[1]), args[1]);
    reply := Int(if found then 1 else 0);
    out.OutInt(if found then 1 else 0);
  }

  /** PEXPIRE. */
  method DoExpire(nums: Numbers, now: nat, store: Store, args: seq<Bytes>, out: Buffer) returns (ghost reply: Reply)
    requires store.Valid() && out !in store.Repr && |args| == 3
    modifies store.Repr, out
    ensures store.Valid() && fresh(store.Repr - old(store.Repr))
    ensures out.data == old(out.data) + Encode(reply)
    ensures match nums.toInt(args[2])
      case None => store.View() == old(store.View()) && reply == BadArg("expect int64")
      case Some(ttl) =>
        store.View() == ExpireState(old(store.View()), args[1], now, ttl) &&
        reply == Int(if args[1] in old(store.View()) then 1 else 0)
  {
    hide Store.Valid, Store.View, Encode, Ascii, ValueOf, ZSet.Valid;
    var ttl := nums.toInt(args[2]);
    if ttl.None? {
      reply := BadArg("expect int64");
      out.OutErr(ERR_BAD_ARG, Ascii("expect int64"));
      return;
    }
    var e := store.Find(args[1]);
    if e != null {
      store.SetTtl(args[1], e, ttl.value, now);
    }
    reply := Int(if e != null then 1 else 0);
    out.OutInt(if e != null then 1 else 0);
  }

  /** PTTL. */
  method DoTtl(now: nat, store: Store, args: seq<Bytes>, out: Buffer) returns (ghost reply: Reply)
    requires store.Valid() && out !in store.Repr && |args| == 2
    modifies store.Repr, out
    ensures store.Valid() && fresh(store.Repr - old(store.Repr))
    ensures out.data == old(out.data) + Encode(reply)
    ensures store.View() == old(store.View()) && reply == TtlReply(store.View(), args[1], now)
  {
    hide Store.Valid, Store.View, Encode, Ascii, ValueOf, ZSet.Valid;
    var e := store.Find(args[1]);
    if e == null {
      reply := Int(-2);
      out.OutInt(-2);
      return;
    }
    EntryShown(store, args[1]);
    store.TimerSlot(args[1]);
    if e.heapIdx == NO_TIMER {
      reply := Int(-1);
      out.OutInt(-1);
      return;
    }
    var expireAt := store.timers.a[e.heapIdx].val;
    reply := Int(if expireAt > now then expireAt - now else 0);
    out.OutInt(if expireAt > now then expireAt - now else 0);
  }

  /** The second half of ZADD: the sorted set is there or is created, and gets its member. */
  method AddScored(store: Store, key: Bytes, e: Entry?, name: Bytes, score: Score) returns (added: bool)
    requires store.Valid() && e == (if key in store.table then store.table[key] else null)
    requires (e != null ==> e.kind == ZSetKind)
    modifies store.Repr
    ensures store.Valid() && fresh(store.Repr - old(store.Repr))
    ensures store.View() == ZAddState(old(store.View()), key, score, name)
    ensures ZAddReply(old(store.View()), key, name) == Int(if added then 1 else 0)
  {
    hide Store.Valid, Store.View, ValueOf, ZSet.Valid, Rescored;
    ghost var ks := store.View();
    var target := e;
    if target == null {
      target := store.Create(key, ZSetKind, []);
    }
    added := store.ZSetInsert(key, target, name, score);
    FirstScore(name, score);
  }

  lemma FirstScore(name: Bytes, score: Score)
    ensures Rescored(map[], name, score) == map[name := score]
  {
  }

  method DoZAdd(nums: Numbers, store: Store, args: seq<Bytes>, out: Buffer) returns (ghost reply: Reply)
    requires store.Valid() && out !in store.Repr && |args| == 4
    modifies store.Repr, out
    ensures store.Valid() && fresh(store.Repr - old(store.Repr))
    ensures out.data == old(out.data) + Encode(reply)
    ensures match nums.toDbl(args[2])
      case None => store.View() == old(store.View()) && reply == BadArg("expect float")
      case Some(score) =>
        store.View() == ZAddState(old(store.View()), args[1], score, args[3]) &&
        reply == ZAddReply(old(store.View()), args[1], args[3])
  {
    hide Store.Valid, Store.View, Encode, Ascii, ValueOf, ZSet.Valid;
    var score := nums.toDbl(args[2]);
    if score.None? {
      reply := BadArg("expect float");
      out.OutErr(ERR_BAD_ARG, Ascii("expect float"));
      return;
    }
    var e := store.Find(args[1]);
    if e != null {
      EntryShown(store, args[1]);
      if e.kind != ZSetKind {
        reply := BadType("expect zset");
        out.OutErr(ERR_BAD_TYP, Ascii("expect zset"));
        return;
      }
    }
    var added := AddScored(store, args[1], e, args[3], score.value);
    reply := Int(if added then 1 else 0);
    out.OutInt(if added then 1 else 0);
  }

  /** `expect_zset`: the key's sorted set; null for a missing key, which reads as an empty set; not ok
      for a string. */
  method ExpectZSet(store: Store, key: Bytes) returns (ok: bool, e: Entry?)
    requires store.Valid()
    modifies store.Repr
    ensures store.Valid() && store.Repr == old(store.Repr) && store.View() == old(store.View())
    ensures ok == ScoresAt(store.View(), key).Some?
    ensures ok && e == null ==> key !in store.View()
    ensures ok && e != null ==> key in store.table && store.table[key] == e && e.kind.ZSetKind?
    ensures ok && e != null ==> e.zset.Valid() && ScoresAt(store.View(), key) == Some(e.zset.Scores())
  {
    hide Store.Valid, Store.View, ValueOf, ZSet.Valid;
    e := store.Find(key);
    if e == null {
      return true, null;
    }
    EntryShown(store, key);
    return e.kind == ZSetKind, e;
  }

  method DoZRem(store: Store, args: seq<Bytes>, out: Buffer) returns (ghost reply: Reply)
    requires store.Valid() && out !in store.Repr && |args| == 3
    modifies store.Repr, out
    ensures store.Valid() && fresh(store.Repr - old(store.Repr))
    ensures out.data == old(out.data) + Encode(reply)
    ensures store.View() == ZRemState(old(store.View()), args[1], args[2])
    ensures reply == ZRemReply(old(store.View()), args[1], args[2])
  {
    hide Store.Valid, Store.View, Encode, Ascii, ValueOf, ZSet.Valid;
    var ok, e := ExpectZSet(store, args[1]);
    if !ok {
      reply := BadType("expect zset");
      out.OutErr(ERR_BAD_TYP, Ascii("expect zset"));
      return;
    }
    var removed := false;
    if e != null {
      removed := store.ZSetRemove(args[1], e, args[2]);
    }
    reply := Int(if removed then 1 else 0);
    out.OutInt(if removed then 1 else 0);
  }

  lemma ScoreSaid(ks: Keyspace, key: Bytes, name: Bytes)
    ensures key !in ks ==> ScoresAt(ks, key) == Some(map[])
    ensures key in ks && ks[key].value.ZSetValue? ==> ScoresAt(ks, key) == Some(ks[key].value.scores)
    ensures var at := ScoresAt(ks, key);
      ZScoreReply(ks, key, name) ==
        if at.None? then BadType("expect zset") else if name in at.value then Dbl(at.value[name]) else Nil
  {
  }

  /** The lookups of ZSCORE: not ok for a string; no score without the key or the name. */
  method FindScore(store: Store, key: Bytes, name: Bytes) returns (ok: bool, score: Option<Score>)
    requires store.Valid()
    modifies store.Repr
    ensures store.Valid() && store.Repr == old(store.Repr) && store.View() == old(store.View())
    ensures ok == ScoresAt(store.View(), key).Some?
    ensures ok ==>
      var scores := ScoresAt(store.View(), key).value; score == if name in scores then Some(scores[name]) else None
  {
    hide *;
    var e;
    ok, e := ExpectZSet(store, key);
    ScoreSaid(store.View(), key, name);
    score := None;
    if ok && e != null {
      score := store.ZSetScore(key, e, name);
    }
  }

  method DoZScore(store: Store, args: seq<Bytes>, out: Buffer) returns (ghost reply: Reply)
    requires store.Valid() && out !in store.Repr && |args| == 3
    modifies store.Repr, out
    ensures store.Valid() && fresh(store.Repr - old(store.Repr))
    ensures out.data == old(out.data) + Encode(reply)
    ensures store.View() == old(store.View()) && reply == ZScoreReply(store.View(), args[1], args[2])
  {
    hide Store.Valid, Store.View, Encode, Ascii, ZScoreReply, ScoresAt;
    var ok, score := FindScore(store, args[1], args[2]);
    ScoreSaid(store.View(), args[1], args[2]);
    if !ok {
      reply := BadType("expect zset");
      out.OutErr(ERR_BAD_TYP, Ascii("expect zset"));
    } else if score.Some? {
      reply := Dbl(score.value);
      out.OutDbl(score.value);
    } else {
      reply := Nil;
      out.OutNil();
    }
  }

  lemma OneMore(items: seq<Reply>, r: Reply)
    ensures EncodeAll(items + [r]) == EncodeAll(items) + Encode(r)
  {
    hide Encode;
    assert (items + [r])[..|items|] == items;
  }

  /** Another member in the output: two more items. */
  lemma OnePairMore(list: seq<ZKey>, k: ZKey, data: Bytes)
    ensures data + EncodeAll(Pairs(list)) + Encode(Str(k.name)) + Encode(Dbl(k.score)) ==
      data + EncodeAll(Pairs(list + [k]))
    ensures |Pairs(list + [k])| == |Pairs(list)| + 2
  {
    hide Encode, EncodeAll;
    assert (list + [k])[..|list|] == list;
    var items := Pairs(list);
    OneMore(items, Str(k.name));
    OneMore(items + [Str(k.name)], Dbl(k.score));
    assert items + [Str(k.name)] + [Dbl(k.score)] == Pairs(list + [k]);
  }

  lemma SliceGrows(all: seq<ZKey>, at: nat, j: nat)
    requires at + j < |all|
    ensures all[at..at + j] + [all[at + j]] == all[at..at + j + 1]
  {
  }

  /** One member in the output, and on to the next. */
  method EmitMember(z: ZSet, node: ZNode, out: Buffer, ghost at: nat) returns (next: ZNode?)
    requires z.Valid() && out !in z.Repr && at < |InOrder(z.tree)| && node == InOrder(z.tree)[at]
    modifies out
    ensures z.Valid() && z.Listing() == old(z.Listing()) && InOrder(z.tree) == old(InOrder(z.tree))
    ensures at < |z.Listing()|
    ensures out.data == old(out.data) + Encode(Str(z.Listing()[at].name)) + Encode(Dbl(z.Listing()[at].score))
    ensures next == if at + 1 < |InOrder(z.tree)| then InOrder(z.tree)[at + 1] else null
  {
    hide ZSet.Valid, ZSet.Listing, InOrder, Encode, At;
    z.AtPlace(at);
    out.OutStr(node.Name());
    out.OutDbl(node.score);
    next := z.Offset(node, 1);
  }

  /** The output loop of ZQUERY: name and score of one member after the other, until the members or
      the limit run out. */
  method EmitRange(z: ZSet, first: ZNode?, limit: int, out: Buffer, ghost at: int)
    returns (n: int, ghost list: seq<ZKey>)
    requires z.Valid() && out !in z.Repr && limit > 0
    requires first == if 0 <= at < |InOrder(z.tree)| then InOrder(z.tree)[at] else null
    modifies out
    ensures z.Valid() && z.Listing() == old(z.Listing()) && |z.Listing()| == |InOrder(z.tree)|
    ensures list == if first == null then [] else
      z.Listing()[at..if at + (limit + 1) / 2 < |z.Listing()| then at + (limit + 1) / 2 else |z.Listing()|]
    ensures n == |Pairs(list)| && out.data == old(out.data) + EncodeAll(Pairs(list))
  {
    hide *;
    z.ListingIsSorted();
    n, list := 0, [];
    NoPairs();
    ghost var all, s, before := z.Listing(), InOrder(z.tree), out.data;
    ghost var j: nat := 0;
    var node := first;
    while node != null && n < limit
      invariant z.Valid() && z.Listing() == all && InOrder(z.tree) == s && |all| == |s|
      invariant n == 2 * j && |Pairs(list)| == n && 2 * j < limit + 2
      invariant first == null ==> node == null && list == []
      invariant first != null ==> 0 <= at && at + j <= |s| && list == all[at..at + j]
      invariant first != null ==> node == if at + j < |s| then s[at + j] else null
      invariant out.data == before + EncodeAll(Pairs(list))
      decreases limit - n
    {
      OnePairMore(list, all[at + j], before);
      SliceGrows(all, at, j);
      node := EmitMember(z, node, out, at + j);
      list := list + [all[at + j]];
      n := n + 2;
      j := j + 1;
    }
  }

  lemma NoPairs()
    ensures Pairs([]) == [] && EncodeAll([]) == []
  {
  }

  /** An array whose elements follow its header. */
  lemma ArrIs(items: seq<Reply>, data: Bytes)
    ensures data + ([TAG_ARR] + Le(|items|, 4)) + EncodeAll(items) == data + Encode(Arr(items))
  {
  }

  /** The callback of KEYS, for one node after the other. */
  method EmitKeys(nodes: seq<HNode>, out: Buffer) returns (ghost items: seq<Reply>)
    modifies out
    ensures |items| == |nodes| && forall k :: 0 <= k < |nodes| ==> items[k] == Str(nodes[k].key)
    ensures out.data == old(out.data) + EncodeAll(items)
  {
    hide *;
    ghost var before := out.data;
    items := [];
    NoPairs();
    var i := 0;
    while i < |nodes|
      invariant 0 <= i <= |nodes| && |items| == i && out.data == before + EncodeAll(items)
      invariant forall k :: 0 <= k < i ==> items[k] == Str(nodes[k].key)
    {
      OneMore(items, Str(nodes[i].key));
      out.OutStr(nodes[i].key);
      items := items + [Str(nodes[i].key)];
      i := i + 1;
    }
  }

  /** KEYS: the count first, then every key. */
  method DoKeys(store: Store, out: Buffer) returns (ghost reply: Reply)
    requires store.Valid() && out !in store.Repr
    modifies out
    ensures store.Valid() && store.View() == old(store.View())
    ensures out.data == old(out.data) + Encode(reply) && IsKeysReply(store.View(), reply)
  {
    hide Store.Valid, Store.View, Encode, EncodeAll, HMap.Valid, ZSet.Valid;
    ghost var before := out.data;
    store.DbValid();
    var every := (n: HNode) => true;
    var ok, nodes := store.db.Foreach(every);
    NeverStopped(nodes, every, ok);
    store.AllKeys(nodes);
    out.OutArr(store.db.Size());
    ghost var items := EmitKeys(nodes, out);
    ArrIs(items, before);
    reply := Arr(items);
  }

  /** ZQUERY. */
  method DoZQuery(nums: Numbers, store: Store, args: seq<Bytes>, out: Buffer) returns (ghost reply: Reply)
    requires store.Valid() && out !in store.Repr && |args| == 6
    modifies store.Repr, out
    ensures store.Valid() && fresh(store.Repr - old(store.Repr))
    ensures out.data == old(out.data) + Encode(reply) && store.View() == old(store.View())
    ensures if nums.toDbl(args[2]).None? then reply == BadArg("expect fp number")
      else if nums.toInt(args[4]).None? || nums.toInt(args[5]).None? then reply == BadArg("expect int")
      else IsZQueryReply(store.View(), args[1], ZKey(nums.toDbl(args[2]).value, args[3]),
                         nums.toInt(args[4]).value, nums.toInt(args[5]).value, reply)
  {
    hide Store.Valid, Store.View, Encode, EncodeAll, Ascii, ValueOf, ZSet.Valid, IsZQueryReply;
    var score := nums.toDbl(args[2]);
    if score.None? {
      reply := BadArg("expect fp number");
      out.OutErr(ERR_BAD_ARG, Ascii("expect fp number"));
      return;
    }
    var offset, limit := nums.toInt(args[4]), nums.toInt(args[5]);
    if offset.None? || limit.None? {
      reply := BadArg("expect int");
      out.OutErr(ERR_BAD_ARG, Ascii("expect int"));
      return;
    }
    reply := RangeOf(store, args[1], ZKey(score.value, args[3]), offset.value, limit.value, out);
  }

  lemma NothingToShow(ks: Keyspace, key: Bytes, from: ZKey, offset: int, limit: int)
    requires ScoresAt(ks, key).Some? && (limit <= 0 || key !in ks)
    ensures IsZQueryReply(ks, key, from, offset, limit, Arr([]))
  {
    hide IsListing;
    forall list | IsListing(ScoresAt(ks, key).value, list)
      ensures Window(list, from, offset, limit) == []
    {
      if key !in ks {
        NoEntries(list);
      }
    }
  }

  lemma NoEntries(list: seq<ZKey>)
    requires IsListing(map[], list)
    ensures list == []
  {
    BothNonempty(map[], list, []);
  }

  lemma ListedQuery(ks: Keyspace, key: Bytes, from: ZKey, offset: int, limit: int, scores: ScoreMap, list: seq<ZKey>)
    requires ScoresAt(ks, key) == Some(scores) && IsListing(scores, list)
    ensures IsZQueryReply(ks, key, from, offset, limit, Arr(Pairs(Window(list, from, offset, limit))))
  {
    hide IsListing, Window, Pairs;
    forall other | IsListing(scores, other)
      ensures other == list
    {
      ListingUnique(scores, list, other);
    }
  }

  /** Seek, move by rank, and output: the window of the sorted list. */
  method QueryZSet(z: ZSet, from: ZKey, offset: int, limit: int, out: Buffer) returns (n: nat, ghost list: seq<ZKey>)
    requires z.Valid() && out !in z.Repr && limit > 0
    modifies out
    ensures z.Valid() && z.Listing() == old(z.Listing()) && z.Scores() == old(z.Scores())
    ensures list == Window(z.Listing(), from, offset, limit)
    ensures n == |Pairs(list)| && out.data == old(out.data) + EncodeAll(Pairs(list))
  {
    hide ZSet.Valid, ZSet.Listing, InOrder, Encode, EncodeAll, Pairs, At, CountBelow;
    ghost var k := CountBelow(z.Listing(), from);
    var znode;
    ghost var turns;
    znode, turns := z.SeekGe(from.score, from.name);
    ghost var at := if znode == null then -1 else k + offset;
    if znode != null {
      z.AtPlace(k);
    }
    znode := z.Offset(znode, offset);
    n, list := EmitRange(z, znode, limit, out, at);
  }

  lemma Patched(before: Bytes, items: seq<Reply>)
    ensures var data := before + ([TAG_ARR] + Le(0, 4)) + EncodeAll(items);
      data[..|before| + 1] + Le(|items|, 4) + data[|before| + 5..] == before + Encode(Arr(items))
    ensures |before| + 5 <= |before + ([TAG_ARR] + Le(0, 4)) + EncodeAll(items)|
    ensures (before + ([TAG_ARR] + Le(0, 4)) + EncodeAll(items))[|before|] == TAG_ARR
  {
    hide Le, EncodeAll;
    var data := before + ([TAG_ARR] + Le(0, 4)) + EncodeAll(items);
    assert data[..|before| + 1] == before + [TAG_ARR];
    assert data[|before| + 5..] == EncodeAll(items);
  }

  /** ZQUERY after its arguments have been parsed. */
  method RangeOf(store: Store, key: Bytes, from: ZKey, offset: int, limit: int, out: Buffer)
    returns (ghost reply: Reply)
    requires store.Valid() && out !in store.Repr
    modifies store.Repr, out
    ensures store.Valid() && store.Repr == old(store.Repr)
    ensures out.data == old(out.data) + Encode(reply) && store.View() == old(store.View())
    ensures IsZQueryReply(store.View(), key, from, offset, limit, reply)
  {
    hide Store.Valid, Store.View, Encode, EncodeAll, Ascii, ValueOf, ZSet.Valid, ZSet.Listing, InOrder, IsZQueryReply,
      Pairs, Window, IsListing;
    var ok, e := ExpectZSet(store, key);
    ghost var ks, before := store.View(), out.data;
    if !ok {
      reply := BadType("expect zset");
      WrongTypeQuery(ks, key, from, offset, limit);
      out.OutErr(ERR_BAD_TYP, Ascii("expect zset"));
      return;
    }
    NoPairs();
    if limit <= 0 {
      reply := Arr([]);
      NothingToShow(ks, key, from, offset, limit);
      ArrIs([], before);
      out.OutArr(0);
      return;
    }
    var ctx := out.OutBeginArr();
    var n := 0;
    ghost var list: seq<ZKey> := [];
    if e != null {
      store.ZSetInside(key);
      e.zset.ListingIsSorted();
      n, list := QueryZSet(e.zset, from, offset, limit, out);
      ListedQuery(ks, key, from, offset, limit, e.zset.Scores(), e.zset.Listing());
    } else {
      NothingToShow(ks, key, from, offset, limit);
    }
    reply := Arr(Pairs(list));
    Patched(before, Pairs(list));
    out.OutEndArr(ctx, n);
  }

  lemma WrongTypeQuery(ks: Keyspace, key: Bytes, from: ZKey, offset: int, limit: int)
    requires ScoresAt(ks, key).None?
    ensures IsZQueryReply(ks, key, from, offset, limit, BadType("expect zset"))
  {
  }

  /** `do_request`: one tagged value in answer to any request, and the state the plain map would have. */
  method DoRequest(nums: Numbers, now: nat, store: Store, args: seq<Bytes>, out: Buffer) returns (ghost reply: Reply)
    requires store.Valid() && out !in store.Repr
    modifies store.Repr, out
    ensures store.Valid() && fresh(store.Repr - old(store.Repr))
    ensures out.data == old(out.data) + Encode(reply)
    ensures Step(nums, now, args, old(store.View()), store.View(), reply)
  {
    hide Store.Valid, Store.View, Encode, Ascii, GetReply, SetState, SetReply, ZAddState, ZAddReply, ZRemState,
      ZRemReply, ZScoreReply, IsZQueryReply, ExpireState, TtlReply, IsKeysReply;
    if |args| == 2 && args[0] == Ascii("get") {
      reply := DoGet(store, args, out);
    } else if |args| == 3 && args[0] == Ascii("set") {
      reply := DoSet(store, args, out);
    } else if |args| == 2 && args[0] == Ascii("del") {
      reply := DoDel(store, args, out);
    } else if |args| == 1 && args[0] == Ascii("keys") {
      reply := DoKeys(store, out);
    } else if |args| == 4 && args[0] == Ascii("zadd") {
      reply := DoZAdd(nums, store, args, out);
    } else if |args| == 3 && args[0] == Ascii("zrem") {
      reply := DoZRem(store, args, out);
    } else if |args| == 3 && args[0] == Ascii("zscore") {
      reply := DoZScore(store, args, out);
    } else if |args| == 6 && args[0] == Ascii("zquery") {
      reply := DoZQuery(nums, store, args, out);
    } else if |args| == 3 && args[0] == Ascii("pexpire") {
      reply := DoExpire(nums, now, store, args, out);
    } else if |args| == 2 && args[0] == Ascii("pttl") {
      reply := DoTtl(now, store, args, out);
    } else {
      reply := Err(ERR_UNKNOWN, Ascii("unknown command."));
      out.OutErr(ERR_UNKNOWN, Ascii("unknown command."));
    }
  }
}
