/** Sorted sets as plain sorted lists: what range queries mean. */
module Listings {
  import opened Scores

  /** Strictly increasing by `zless`. */
  predicate Increasing(list: seq<ZKey>) {
    forall i, j :: 0 <= i < j < |list| ==> ZLess(list[i], list[j])
  }

  /** The members of a sorted set, sorted by (score, name), each exactly once. */
  predicate IsListing(scores: ScoreMap, list: seq<ZKey>) {
    Increasing(list) &&
    (forall i :: 0 <= i < |list| ==> list[i].name in scores && scores[list[i].name] == list[i].score) &&
    (forall name :: name in scores ==> ZKey(scores[name], name) in list)
  }

  /** How many entries at the front are below `key`. */
  function CountBelow(list: seq<ZKey>, key: ZKey): (k: nat)
    ensures k <= |list|
  {
    if list == [] || !ZLess(list[0], key) then 0 else 1 + CountBelow(list[1..], key)
  }

  /** A range query: from the first entry not below `key`, move `offset` places, take `limit` items of
      output where an entry counts for two. Leaving the list, or a limit of zero, gives nothing. */
  function Window(list: seq<ZKey>, key: ZKey, offset: int, limit: int): seq<ZKey> {
    var i := CountBelow(list, key);
    if limit <= 0 || i == |list| || !(0 <= i + offset < |list|) then []
    else list[i + offset..if i + offset + (limit + 1) / 2 < |list| then i + offset + (limit + 1) / 2 else |list|]
  }

  lemma {:induction false} CountBelowIs(list: seq<ZKey>, key: ZKey, k: nat)
    requires k <= |list| && forall i :: 0 <= i < k ==> ZLess(list[i], key)
    requires k < |list| ==> !ZLess(list[k], key)
    ensures CountBelow(list, key) == k
  {
    if k > 0 {
      CountBelowIs(list[1..], key, k - 1);
    }
  }

  /** In a sorted list the entries below `key` are exactly the first `CountBelow` ones. */
  lemma {:induction false} CountBelowSplits(list: seq<ZKey>, key: ZKey, i: nat)
    requires Increasing(list) && i < |list|
    ensures ZLess(list[i], key) <==> i < CountBelow(list, key)
  {
    if i > 0 {
      ZLessTotal(list[0], key);
      if ZLess(list[i], key) {
        ZLessTransitive(list[0], list[i], key);
      }
      CountBelowSplits(list[1..], key, i - 1);
    }
  }

  /** Turning pages: `n` members from `offset` and `m` more from where they end are the `n + m` members from
      `offset`, unless the first page starts before the list and the second one inside it. */
  lemma WindowPages(list: seq<ZKey>, key: ZKey, offset: int, n: nat, m: nat)
    ensures var start := CountBelow(list, key) + offset;
      Window(list, key, offset, 2 * n) + Window(list, key, offset + n, 2 * m) ==
        Window(list, key, offset, 2 * (n + m)) <==>
      !(m > 0 && CountBelow(list, key) < |list| && start < 0 <= start + n < |list|)
  {
    hide CountBelow;
  }

  /** An instance where they are not: from one place before the list, the two pages show a member that the
      long one does not. */
  lemma PagesLost(a: ZKey, b: ZKey)
    requires ZLess(a, b)
    ensures Window([a, b], a, -1, 2) + Window([a, b], a, -1 + 1, 2) == [a] && Window([a, b], a, -1, 4) == []
  {
    ZLessTotal(a, a);
    CountBelowIs([a, b], a, 0);
  }

  lemma SameFirst(scores: ScoreMap, a: seq<ZKey>, b: seq<ZKey>)
    requires IsListing(scores, a) && IsListing(scores, b) && a != [] && b != []
    ensures a[0] == b[0] && a[0].name in scores
  {
    hide Increasing, ZLess;
    FirstIsLeast(scores, a, b);
    FirstIsLeast(scores, b, a);
    ZLessTotal(a[0], b[0]);
  }

  lemma FirstAndRest(a: seq<ZKey>)
    requires a != []
    ensures a == [a[0]] + a[1..]
  {
  }

  /** A sorted set has one listing only. */
  lemma {:induction false} ListingUnique(scores: ScoreMap, a: seq<ZKey>, b: seq<ZKey>)
    requires IsListing(scores, a) && IsListing(scores, b)
    ensures a == b
    decreases |a|
  {
    hide *;
    BothNonempty(scores, a, b);
    if a != [] {
      SameFirst(scores, a, b);
      ListingTail(scores, a);
      ListingTail(scores, b);
      ListingUnique(scores - {a[0].name}, a[1..], b[1..]);
      FirstAndRest(a);
      FirstAndRest(b);
    }
  }

  lemma BothNonempty(scores: ScoreMap, a: seq<ZKey>, b: seq<ZKey>)
    requires IsListing(scores, a) && IsListing(scores, b)
    ensures a == [] <==> b == []
  {
    if b != [] {
      assert ZKey(scores[b[0].name], b[0].name) in a;
    }
    if a != [] {
      assert ZKey(scores[a[0].name], a[0].name) in b;
    }
  }

  lemma SameName(scores: ScoreMap, x: ZKey, y: ZKey)
    requires x.name in scores && scores[x.name] == x.score && y.name in scores && scores[y.name] == y.score
    ensures x.name == y.name ==> x == y
  {
  }

  lemma FirstIsLeast(scores: ScoreMap, a: seq<ZKey>, b: seq<ZKey>)
    requires IsListing(scores, a) && IsListing(scores, b) && a != [] && b != []
    ensures !ZLess(b[0], a[0])
  {
    assert ZKey(scores[b[0].name], b[0].name) in a;
    var i :| 0 <= i < |a| && a[i] == b[0];
    ZLessTotal(a[0], b[0]);
  }

  lemma ListingTail(scores: ScoreMap, a: seq<ZKey>)
    requires IsListing(scores, a) && a != []
    ensures IsListing(scores - {a[0].name}, a[1..])
  {
    var rest := scores - {a[0].name};
    forall i | 0 <= i < |a[1..]|
      ensures a[1..][i].name in rest && rest[a[1..][i].name] == a[1..][i].score
    {
      ZLessTotal(a[0], a[i + 1]);
      SameName(scores, a[0], a[i + 1]);
    }
    forall name | name in rest
      ensures ZKey(rest[name], name) in a[1..]
    {
      var i :| 0 <= i < |a| && a[i] == ZKey(scores[name], name);
      assert a[1..][i - 1] == a[i];
    }
  }

  lemma InsertedAt(list: seq<ZKey>, key: ZKey, k: nat, i: nat)
    requires k <= |list| && i <= |list|
    ensures (list[..k] + [key] + list[k..])[i] == if i < k then list[i] else if i == k then key else list[i - 1]
  {
  }

  lemma InsertedOrder(list: seq<ZKey>, key: ZKey, i: nat)
    requires Increasing(list) && i < |list| && list[i].name != key.name
    ensures if i < CountBelow(list, key) then ZLess(list[i], key) else ZLess(key, list[i])
  {
    hide *;
    CountBelowSplits(list, key, i);
    ZLessTotal(list[i], key);
  }

  lemma InsertedIncreasing(list: seq<ZKey>, key: ZKey)
    requires Increasing(list) && forall i :: 0 <= i < |list| ==> list[i].name != key.name
    ensures var k := CountBelow(list, key); Increasing(list[..k] + [key] + list[k..])
  {
    hide ZLess, CountBelow;
    var k := CountBelow(list, key);
    var more := list[..k] + [key] + list[k..];
    forall i, j | 0 <= i < j < |more|
      ensures ZLess(more[i], more[j])
    {
      InsertedAt(list, key, k, i);
      InsertedAt(list, key, k, j);
      if i == k {
        InsertedOrder(list, key, j - 1);
      } else if j == k {
        InsertedOrder(list, key, i);
      }
    }
  }

  /** Every sorted set has a listing. */
  lemma {:induction false} ListingExists(scores: ScoreMap) returns (list: seq<ZKey>)
    ensures IsListing(scores, list)
    decreases |scores|
  {
    if scores == map[] {
      list := [];
    } else {
      var name :| name in scores;
      var rest, key := scores - {name}, ZKey(scores[name], name);
      assert |rest| < |scores| by {
        assert scores == rest[name := scores[name]];
      }
      var tail := ListingExists(rest);
      hide IsListing;
      InsertedListing(scores, tail, key);
      var k := CountBelow(tail, key);
      list := tail[..k] + [key] + tail[k..];
    }
  }

  lemma InsertedListing(scores: ScoreMap, tail: seq<ZKey>, key: ZKey)
    requires key.name in scores && scores[key.name] == key.score && IsListing(scores - {key.name}, tail)
    ensures var k := CountBelow(tail, key); IsListing(scores, tail[..k] + [key] + tail[k..])
  {
    hide Increasing, CountBelow, ZLess;
    assert forall i :: 0 <= i < |tail| ==> tail[i].name != key.name;
    InsertedIncreasing(tail, key);
    var k := CountBelow(tail, key);
    var list := tail[..k] + [key] + tail[k..];
    InsertedMembers(tail, key, k);
    forall i | 0 <= i < |list|
      ensures list[i].name in scores && scores[list[i].name] == list[i].score
    {
      assert list[i] in list;
    }
    forall name | name in scores
      ensures ZKey(scores[name], name) in list
    {
      if name != key.name {
        assert name in scores - {key.name};
      }
    }
  }

  lemma InsertedMembers(tail: seq<ZKey>, key: ZKey, k: nat)
    requires k <= |tail|
    ensures forall x :: x in tail[..k] + [key] + tail[k..] <==> x == key || x in tail
  {
    assert tail == tail[..k] + tail[k..];
  }
}
