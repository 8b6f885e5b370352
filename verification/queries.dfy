/** Range queries by rank: which members a reply of ZQUERY has, counted in the order of the values. */
module Queries {
  import opened Sequences
  import opened Bytes
  import opened Scores
  import opened Listings
  import opened Replies
  import opened Keyspaces

  /** The members before a key: with a lower score, or with one of equal value and a smaller name. */
  function Preceding(scores: ScoreMap, key: ZKey): set<Bytes> {
    set name | name in scores && Precedes(ZKey(scores[name], name), key)
  }

  function Names(list: seq<ZKey>): (s: seq<Bytes>)
    ensures |s| == |list| && forall i :: 0 <= i < |list| ==> s[i] == list[i].name
  {
    seq(|list|, i requires 0 <= i < |list| => list[i].name)
  }

  lemma NamesDiffer(scores: ScoreMap, list: seq<ZKey>)
    requires IsListing(scores, list)
    ensures Distinct(Names(list))
  {
    forall i, j | 0 <= i < j < |list|
      ensures list[i].name != list[j].name
    {
      ZLessTotal(list[i], list[j]);
      SameName(scores, list[i], list[j]);
    }
  }

  /** A listing is as long as the sorted set is large. */
  lemma ListedAll(scores: ScoreMap, list: seq<ZKey>)
    requires IsListing(scores, list)
    ensures |list| == |scores|
  {
    hide Increasing;
    NamesDiffer(scores, list);
    forall name | name in scores
      ensures name in Names(list)
    {
      var i :| 0 <= i < |list| && list[i] == ZKey(scores[name], name);
      assert Names(list)[i] == name;
    }
    assert forall name :: name in Names(list) ==> name in scores;
    DistinctCount(Names(list), scores.Keys);
  }

  /** In the listing, a key's place is the number of members before it. */
  lemma PlaceIsRank(scores: ScoreMap, list: seq<ZKey>, key: ZKey)
    requires IsListing(scores, list)
    ensures CountBelow(list, key) == |Preceding(scores, key)|
  {
    hide Increasing, Precedes, CountBelow;
    var k := CountBelow(list, key);
    var front := Names(list)[..k];
    NamesDiffer(scores, list);
    forall name
      ensures name in front <==> name in Preceding(scores, key)
    {
      if name in scores {
        var i :| 0 <= i < |list| && list[i] == ZKey(scores[name], name);
        CountBelowSplits(list, key, i);
        ZLessByValue(list[i], key);
        NameIn(scores, list, i, k);
      } else {
        assert forall i :: 0 <= i < k ==> front[i] == list[i].name;
      }
    }
    DistinctCount(front, Preceding(scores, key));
  }

  lemma NameIn(scores: ScoreMap, list: seq<ZKey>, i: nat, k: nat)
    requires IsListing(scores, list) && i < |list| && k <= |list|
    ensures list[i].name in Names(list)[..k] <==> i < k
  {
    NamesDiffer(scores, list);
    if i < k {
      assert Names(list)[..k][i] == list[i].name;
    }
  }

  /** The entry at place `i` has `i` members before it. */
  lemma RankAt(scores: ScoreMap, list: seq<ZKey>, i: nat)
    requires IsListing(scores, list) && i < |list|
    ensures |Preceding(scores, list[i])| == i
  {
    ZLessTotal(list[i], list[i]);
    CountBelowIs(list, list[i], i);
    PlaceIsRank(scores, list, list[i]);
  }

  lemma {:induction false} PairsAt(list: seq<ZKey>, i: nat)
    requires i < |list|
    ensures Pairs(list)[2 * i] == Str(list[i].name) && Pairs(list)[2 * i + 1] == Dbl(list[i].score)
  {
    if i < |list| - 1 {
      PairsAt(list[..|list| - 1], i);
    }
  }

  /** How many members a query gives: from the target place on, at most half the limit rounded up; none if
      the limit is not positive, nothing is left from the key on, or the target place is outside. */
  function Shown(total: nat, below: nat, offset: int, limit: int): (n: nat)
    requires below <= total
  {
    if limit <= 0 || below == total || below + offset < 0 || below + offset >= total then 0
    else if (limit + 1) / 2 < total - below - offset then (limit + 1) / 2
    else total - below - offset
  }

  /** A range query that is accepted, and the sorted set that it reads: an empty one under a missing key. */
  predicate Ranges(nums: Numbers, args: seq<Bytes>, ks: Keyspace, scores: ScoreMap, from: ZKey, offset: int,
      limit: int) {
    |args| == 6 && args[0] == Ascii("zquery") && nums.toDbl(args[2]) == Some(from.score) && args[3] == from.name &&
    nums.toInt(args[4]).Some? && nums.toInt(args[4]).value == offset &&
    nums.toInt(args[5]).Some? && nums.toInt(args[5]).value == limit &&
    if args[1] in ks then ks[args[1]].value == ZSetValue(scores) else scores == map[]
  }

  lemma RangeReply(nums: Numbers, now: nat, args: seq<Bytes>, ks: Keyspace, ks': Keyspace, reply: Reply,
      scores: ScoreMap, from: ZKey, offset: int, limit: int) returns (list: seq<ZKey>)
    requires Ranges(nums, args, ks, scores, from, offset, limit) && Step(nums, now, args, ks, ks', reply)
    ensures ks' == ks && IsListing(scores, list) && reply == Arr(Pairs(Window(list, from, offset, limit)))
  {
    hide IsListing, Window, Pairs;
    assert ZKey(from.score, from.name) == from;
    list := ListingExists(scores);
  }

  /** The reply to a range query, without any list: names and scores alternate, each score is its name's, and
      the `i`-th of them has as many members before it as the key has, plus `offset`, plus `i`. */
  lemma QueryByRank(nums: Numbers, now: nat, args: seq<Bytes>, ks: Keyspace, ks': Keyspace, reply: Reply,
      scores: ScoreMap, from: ZKey, offset: int, limit: int)
    requires Ranges(nums, args, ks, scores, from, offset, limit) && Step(nums, now, args, ks, ks', reply)
    ensures ks' == ks && |Preceding(scores, from)| <= |scores| && reply.Arr?
    ensures |reply.items| == 2 * Shown(|scores|, |Preceding(scores, from)|, offset, limit)
    ensures forall i :: 0 <= i < |reply.items| / 2 ==>
      reply.items[2 * i].Str? && reply.items[2 * i].text in scores &&
      reply.items[2 * i + 1] == Dbl(scores[reply.items[2 * i].text]) &&
      |Preceding(scores, ZKey(scores[reply.items[2 * i].text], reply.items[2 * i].text))| ==
        |Preceding(scores, from)| + offset + i
  {
    hide IsListing, Preceding, Pairs, CountBelow, Step, Ranges;
    var list := RangeReply(nums, now, args, ks, ks', reply, scores, from, offset, limit);
    var below, page := CountBelow(list, from), Window(list, from, offset, limit);
    ListedAll(scores, list);
    PlaceIsRank(scores, list, from);
    forall i | 0 <= i < |page|
      ensures Pairs(page)[2 * i] == Str(list[below + offset + i].name)
      ensures Pairs(page)[2 * i + 1] == Dbl(list[below + offset + i].score)
      ensures list[below + offset + i].name in scores
      ensures scores[list[below + offset + i].name] == list[below + offset + i].score
      ensures |Preceding(scores, list[below + offset + i])| == below + offset + i
    {
      PairsAt(page, i);
      Entry(scores, list, below + offset + i);
      RankAt(scores, list, below + offset + i);
    }
  }

  lemma Entry(scores: ScoreMap, list: seq<ZKey>, i: nat)
    requires IsListing(scores, list) && i < |list|
    ensures list[i].name in scores && scores[list[i].name] == list[i].score
    ensures list[i] == ZKey(scores[list[i].name], list[i].name)
  {
  }

  /** The scores of a reply never fall, and names rise between scores of equal value; from a place not before
      the key on, none is below the key. */
  lemma QueryInOrder(nums: Numbers, now: nat, args: seq<Bytes>, ks: Keyspace, ks': Keyspace, reply: Reply,
      scores: ScoreMap, from: ZKey, offset: int, limit: int)
    requires Ranges(nums, args, ks, scores, from, offset, limit) && Step(nums, now, args, ks, ks', reply)
    ensures reply.Arr? && forall i :: 0 <= i < |reply.items| / 2 ==>
      reply.items[2 * i].Str? && reply.items[2 * i + 1].Dbl?
    ensures forall i, j :: 0 <= i < j < |reply.items| / 2 ==>
      Precedes(ZKey(reply.items[2 * i + 1].score, reply.items[2 * i].text),
             ZKey(reply.items[2 * j + 1].score, reply.items[2 * j].text))
    ensures offset >= 0 ==> forall i :: 0 <= i < |reply.items| / 2 ==>
      !Precedes(ZKey(reply.items[2 * i + 1].score, reply.items[2 * i].text), from)
  {
    hide IsListing, Pairs, CountBelow, Precedes, Step, Ranges;
    var list := RangeReply(nums, now, args, ks, ks', reply, scores, from, offset, limit);
    var below, page := CountBelow(list, from), Window(list, from, offset, limit);
    forall i | 0 <= i < |page|
      ensures Pairs(page)[2 * i] == Str(page[i].name) && Pairs(page)[2 * i + 1] == Dbl(page[i].score)
      ensures page[i] == list[below + offset + i]
      ensures offset >= 0 ==> !Precedes(page[i], from)
    {
      PairsAt(page, i);
      Sorted(scores, list, from, below + offset + i, below + offset + i);
    }
    forall i, j | 0 <= i < j < |page|
      ensures Precedes(page[i], page[j])
    {
      Sorted(scores, list, from, below + offset + i, below + offset + j);
    }
  }

  lemma Sorted(scores: ScoreMap, list: seq<ZKey>, from: ZKey, i: nat, j: nat)
    requires IsListing(scores, list) && i <= j < |list|
    ensures i < j ==> Precedes(list[i], list[j])
    ensures i >= CountBelow(list, from) ==> !Precedes(list[i], from)
  {
    hide Precedes;
    ZLessByValue(list[i], list[j]);
    CountBelowSplits(list, from, i);
    ZLessByValue(list[i], from);
  }
}
