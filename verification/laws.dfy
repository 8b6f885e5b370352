/** What a client may rely on from one reply to the next, with every number and message written out. */
module Laws {
  import opened Sequences
  import opened Bytes
  import opened Scores
  import opened Replies
  import opened Keyspaces
  import opened Sweeps
  import opened Runs

  lemma Words()
    ensures Ascii("del") != Ascii("get") && Ascii("pttl") != Ascii("get") && Ascii("pttl") != Ascii("del")
    ensures Ascii("zrem") != Ascii("set") && Ascii("zscore") != Ascii("set") && Ascii("pexpire") != Ascii("set")
    ensures Ascii("zscore") != Ascii("zrem") && Ascii("pexpire") != Ascii("zrem") && Ascii("pexpire") != Ascii("zscore")
  {
    assert Ascii("del")[0] == 'd' as int && Ascii("get")[0] == 'g' as int;
    assert |Ascii("pttl")| == |Ascii("zrem")| == 4 && |Ascii("set")| == 3 && |Ascii("zscore")| == 6;
    assert |Ascii("get")| == |Ascii("del")| == 3 && |Ascii("pexpire")| == 7;
  }

  /** A string under the key. */
  predicate HoldsString(ks: Keyspace, key: Bytes) {
    key in ks && ks[key].value.StrValue?
  }

  predicate HoldsZSet(ks: Keyspace, key: Bytes) {
    key in ks && ks[key].value.ZSetValue?
  }

  lemma GetReplies(nums: Numbers, now: nat, key: Bytes, ks: Keyspace, ks': Keyspace, reply: Reply)
    requires Step(nums, now, [Ascii("get"), key], ks, ks', reply)
    ensures ks' == ks && (reply == Nil <==> key !in ks)
    ensures HoldsString(ks, key) ==> reply == Str(ks[key].value.text)
    ensures HoldsZSet(ks, key) ==> reply == Err(3, Ascii("not a string value"))
  {
    hide Ascii;
    Words();
  }

  lemma SetReplies(nums: Numbers, now: nat, key: Bytes, text: Bytes, ks: Keyspace, ks': Keyspace, reply: Reply)
    requires Step(nums, now, [Ascii("set"), key, text], ks, ks', reply)
    ensures HoldsZSet(ks, key) ==> ks' == ks && reply == Err(3, Ascii("a non-string value exists"))
    ensures !HoldsZSet(ks, key) ==> reply == Nil && HoldsString(ks', key) && ks'[key].value.text == text
    ensures key in ks' && ks'[key].deadline == if key in ks then ks[key].deadline else None
    ensures ks' - {key} == ks - {key}
  {
    hide Ascii;
    Words();
  }

  lemma DelReplies(nums: Numbers, now: nat, key: Bytes, ks: Keyspace, ks': Keyspace, reply: Reply)
    requires Step(nums, now, [Ascii("del"), key], ks, ks', reply)
    ensures reply == Int(if key in ks then 1 else 0) && |ks'| == |ks| - reply.val
    ensures key !in ks' && ks' - {key} == ks - {key}
  {
    hide Ascii;
    Words();
    KeyGone(ks, key);
  }

  lemma KeyGone(ks: Keyspace, key: Bytes)
    ensures |ks - {key}| == |ks| - (if key in ks then 1 else 0)
  {
    if key in ks {
      assert ks == (ks - {key})[key := ks[key]];
    } else {
      assert ks - {key} == ks;
    }
  }

  /** KEYS lists what GET finds, and nothing twice. */
  lemma KeysReplies(nums: Numbers, now: nat, ks: Keyspace, ks': Keyspace, reply: Reply, key: Bytes)
    requires Step(nums, now, [Ascii("keys")], ks, ks', reply)
    ensures ks' == ks && reply.Arr? && (Str(key) in reply.items <==> key in ks)
    ensures forall i, j :: 0 <= i < j < |reply.items| ==> reply.items[i] != reply.items[j]
  {
    hide Ascii;
    var texts := seq(|reply.items|, i requires 0 <= i < |reply.items| && reply.items[i].Str? => reply.items[i].text);
    var listed := set k | k in texts;
    DistinctCount(texts, listed);
    AllListed(listed, ks.Keys);
    if key in ks {
      assert key in texts;
      var i :| 0 <= i < |texts| && texts[i] == key;
      assert reply.items[i] == Str(key);
    }
  }

  lemma AllListed(a: set<Bytes>, b: set<Bytes>)
    requires a <= b && |a| == |b|
    ensures a == b
  {
    assert b == a + (b - a);
  }

  /** Any other request is refused, and changes nothing. */
  lemma OthersRefused(nums: Numbers, now: nat, args: seq<Bytes>, ks: Keyspace, ks': Keyspace, reply: Reply)
    requires Step(nums, now, args, ks, ks', reply)
    requires |args| == 1 ==> args[0] != Ascii("keys")
    requires |args| == 2 ==> args[0] != Ascii("get") && args[0] != Ascii("del") && args[0] != Ascii("pttl")
    requires |args| == 3 ==>
      args[0] != Ascii("set") && args[0] != Ascii("zrem") && args[0] != Ascii("zscore") && args[0] != Ascii("pexpire")
    requires |args| == 4 ==> args[0] != Ascii("zadd")
    requires |args| == 6 ==> args[0] != Ascii("zquery")
    ensures ks' == ks && reply == Err(1, Ascii("unknown command."))
  {
    hide Ascii;
  }

  // ---- timers ----

  /** -2 without the key, -1 without a timer. */
  lemma TtlReplies(nums: Numbers, now: nat, key: Bytes, ks: Keyspace, ks': Keyspace, reply: Reply)
    requires Step(nums, now, [Ascii("pttl"), key], ks, ks', reply)
    ensures ks' == ks && (key !in ks ==> reply == Int(-2))
    ensures key in ks && ks[key].deadline == None ==> reply == Int(-1)
    ensures key in ks && ks[key].deadline.Some? ==>
      var left := ks[key].deadline.value - now; reply == Int(if left > 0 then left else 0)
  {
    hide Ascii;
    Words();
  }

  lemma ExpireReplies(nums: Numbers, now: nat, key: Bytes, arg: Bytes, ks: Keyspace, ks': Keyspace, reply: Reply)
    requires Step(nums, now, [Ascii("pexpire"), key, arg], ks, ks', reply)
    ensures nums.toInt(arg).None? ==> ks' == ks && reply == Err(4, Ascii("expect int64"))
    ensures nums.toInt(arg).Some? && key !in ks ==> ks' == ks && reply == Int(0)
    ensures nums.toInt(arg).Some? && key in ks ==>
      reply == Int(1) && key in ks' && ks' - {key} == ks - {key} && ks'[key].value == ks[key].value &&
      ks'[key].deadline == if nums.toInt(arg).value < 0 then None else Some(now + nums.toInt(arg).value)
  {
    hide Ascii;
    Words();
  }

  /** A request for another key or for none, or a pass that is not later than `t`, if that matters. */
  predicate LeavesTimer(e: Event, key: Bytes, t: Option<nat>) {
    match e
    case Asked(_, args, _) => |args| < 2 || args[1] != key
    case Swept(now, _) => t.Some? ==> now <= t.value
  }

  /** After `pexpire` at `t`, for however long nothing concerns the key, `pttl` counts down to zero at t + ttl;
      after one with a negative number it says -1. */
  lemma ExpireThenTtl(nums: Numbers, states: seq<Keyspace>, events: seq<Event>, t: nat, key: Bytes, arg: Bytes,
      u: nat, reply: Reply)
    requires Run(nums, states, events) && |events| >= 2 && nums.toInt(arg).Some?
    requires events[0] == Asked(t, [Ascii("pexpire"), key, arg], Int(1))
    requires events[|events| - 1] == Asked(u, [Ascii("pttl"), key], reply)
    requires var ttl := nums.toInt(arg).value;
      forall i :: 0 < i < |events| - 1 ==> LeavesTimer(events[i], key, if ttl < 0 then None else Some(t + ttl))
    ensures var ttl := nums.toInt(arg).value;
      reply == Int(if ttl < 0 then -1 else if t + ttl - u > 0 then t + ttl - u else 0)
  {
    hide Run, Step, Ascii;
    FirstStep(nums, states, events);
    ExpireReplies(nums, t, key, arg, states[0], states[1], Int(1));
    BetweenNothing(nums, states, events, key);
    TtlReplies(nums, u, key, states[|events| - 1], states[|events|], reply);
  }

  lemma FirstStep(nums: Numbers, states: seq<Keyspace>, events: seq<Event>)
    requires Run(nums, states, events) && events != []
    ensures |states| == |events| + 1 && Follows(nums, states[0], events[0], states[1])
  {
  }

  /** After `pexpire` at `t`, a pass up to t + ttl leaves the key, and a later one evicts it unless it reaches
      the cap with keys that are due no later; with a negative number no pass evicts it. */
  lemma ExpireThenPass(nums: Numbers, states: seq<Keyspace>, events: seq<Event>, t: nat, key: Bytes, arg: Bytes,
      u: nat, evicted: seq<Bytes>)
    requires Run(nums, states, events) && |events| >= 2 && nums.toInt(arg).Some?
    requires events[0] == Asked(t, [Ascii("pexpire"), key, arg], Int(1))
    requires events[|events| - 1] == Swept(u, evicted)
    requires var ttl := nums.toInt(arg).value;
      forall i :: 0 < i < |events| - 1 ==> LeavesTimer(events[i], key, if ttl < 0 then None else Some(t + ttl))
    ensures key in states[0] && key in states[|events| - 1] && (key in evicted <==> key !in states[|events|])
    ensures var ttl := nums.toInt(arg).value;
      if ttl < 0 || u <= t + ttl
        then key !in evicted && states[|events|][key].value == states[0][key].value
        else key in evicted || |evicted| > 2000
  {
    hide Run, Step, Ascii, Sweep;
    FirstStep(nums, states, events);
    ExpireReplies(nums, t, key, arg, states[0], states[1], Int(1));
    BetweenNothing(nums, states, events, key);
    PassReplies(u, states[|events| - 1], states[|events|], evicted, key);
  }

  /** What a pass means for one key. */
  lemma PassReplies(now: nat, ks: Keyspace, ks': Keyspace, evicted: seq<Bytes>, key: Bytes)
    requires Sweep(now, ks, ks', evicted)
    ensures |evicted| <= 2001 && (key in ks' <==> key in ks && key !in evicted) && (key in ks' ==> ks'[key] == ks[key])
    ensures key in evicted ==> key in ks && ks[key].deadline.Some? && ks[key].deadline.value < now
    ensures key in ks' && ks'[key].deadline.Some? && ks'[key].deadline.value < now ==>
      |evicted| == 2001 && forall i :: 0 <= i < |evicted| ==>
        evicted[i] in ks && ks[evicted[i]].deadline.Some? && ks[evicted[i]].deadline.value <= ks[key].deadline.value
  {
    assert key in evicted ==> exists i :: 0 <= i < |evicted| && evicted[i] == key;
  }

  // ---- sorted sets ----

  lemma ScoreReplies(nums: Numbers, now: nat, key: Bytes, name: Bytes, ks: Keyspace, ks': Keyspace, reply: Reply)
    requires Step(nums, now, [Ascii("zscore"), key, name], ks, ks', reply)
    ensures ks' == ks && (HoldsString(ks, key) ==> reply == Err(3, Ascii("expect zset")))
    ensures !HoldsString(ks, key) ==> (reply == Nil <==> !HasMember(ks, key, name))
    ensures HasMember(ks, key, name) ==> reply == Dbl(ks[key].value.scores[name])
  {
    hide Ascii;
    Words();
  }

  predicate HasMember(ks: Keyspace, key: Bytes, name: Bytes) {
    HoldsZSet(ks, key) && name in ks[key].value.scores
  }

  /** The sorted set that a key stands for, an empty one if it is missing. */
  function Members(ks: Keyspace, key: Bytes): ScoreMap {
    if HoldsZSet(ks, key) then ks[key].value.scores else map[]
  }

  /** One name in a sorted set gets a score; one of equal value stays as it was. */
  lemma Added(scores: ScoreMap, name: Bytes, score: Score)
    ensures var more := Rescored(scores, name, score);
      more - {name} == scores - {name} && |more| == |scores| + (if name in scores then 0 else 1) && name in more &&
      SameValue(more[name], score) && (more[name] == score || (name in scores && more[name] == scores[name]))
  {
    if name !in scores {
      assert scores[name := score] - {name} == scores;
    } else {
      assert scores[name := score].Keys == scores.Keys;
    }
  }

  /** What `zadd` does to the map. */
  lemma AddChanges(nums: Numbers, now: nat, key: Bytes, arg: Bytes, name: Bytes, ks: Keyspace, ks': Keyspace,
      reply: Reply)
    requires Step(nums, now, [Ascii("zadd"), key, arg, name], ks, ks', reply)
    ensures nums.toDbl(arg).None? ==> ks' == ks && reply == Err(4, Ascii("expect float"))
    ensures nums.toDbl(arg).Some? && HoldsString(ks, key) ==> ks' == ks && reply == Err(3, Ascii("expect zset"))
    ensures nums.toDbl(arg).Some? && !HoldsString(ks, key) ==>
      reply == Int(if HasMember(ks, key, name) then 0 else 1) && HoldsZSet(ks', key) &&
      Members(ks', key) == Rescored(Members(ks, key), name, nums.toDbl(arg).value)
    ensures ks' - {key} == ks - {key}
    ensures key in ks' ==> ks'[key].deadline == if key in ks then ks[key].deadline else None
  {
    hide Ascii;
  }

  /** On a sorted set or a missing key, `zadd` counts the name exactly if `zscore` would have found none just
      before; the set grows by that, and its other members, other keys and the timer stay. */
  lemma AddReplies(nums: Numbers, now: nat, key: Bytes, arg: Bytes, name: Bytes, ks: Keyspace, ks': Keyspace,
      reply: Reply, before: nat, said: Reply)
    requires Step(nums, now, [Ascii("zadd"), key, arg, name], ks, ks', reply)
    requires Step(nums, before, [Ascii("zscore"), key, name], ks, ks, said)
    ensures nums.toDbl(arg).None? ==> ks' == ks && reply == Err(4, Ascii("expect float"))
    ensures nums.toDbl(arg).Some? && HoldsString(ks, key) ==> ks' == ks && reply == Err(3, Ascii("expect zset"))
    ensures nums.toDbl(arg).Some? && !HoldsString(ks, key) ==>
      reply == Int(if said == Nil then 1 else 0) && HoldsZSet(ks', key) &&
      |Members(ks', key)| == |Members(ks, key)| + reply.val && Members(ks', key) - {name} == Members(ks, key) - {name}
    ensures ks' - {key} == ks - {key}
    ensures key in ks' ==> ks'[key].deadline == if key in ks then ks[key].deadline else None
  {
    hide Ascii, Step, Rescored;
    ScoreReplies(nums, before, key, name, ks, ks, said);
    AddChanges(nums, now, key, arg, name, ks, ks', reply);
    if nums.toDbl(arg).Some? {
      Added(Members(ks, key), name, nums.toDbl(arg).value);
    }
  }

  /** After `zadd`, for however long nothing concerns the key, `zscore` says a score of the value that was added:
      that very one, unless the name had one of equal value, which stays. */
  lemma AddThenScore(nums: Numbers, states: seq<Keyspace>, events: seq<Event>, t: nat, key: Bytes, arg: Bytes,
      name: Bytes, count: int, u: nat, reply: Reply)
    requires Run(nums, states, events) && |events| >= 2
    requires events[0] == Asked(t, [Ascii("zadd"), key, arg, name], Int(count))
    requires events[|events| - 1] == Asked(u, [Ascii("zscore"), key, name], reply)
    requires forall i :: 0 < i < |events| - 1 ==> Spares(events[i], states[1], key)
    ensures nums.toDbl(arg).Some? && reply.Dbl? && SameValue(reply.score, nums.toDbl(arg).value)
    ensures count == 1 ==> reply.score == nums.toDbl(arg).value
  {
    hide Run, Step, Ascii, Rescored, Spares;
    FirstStep(nums, states, events);
    AddChanges(nums, t, key, arg, name, states[0], states[1], Int(count));
    Added(Members(states[0], key), name, nums.toDbl(arg).value);
    BetweenNothing(nums, states, events, key);
    ScoreReplies(nums, u, key, name, states[|events| - 1], states[|events|], reply);
  }

  lemma Dropped(scores: ScoreMap, name: Bytes)
    ensures |scores| == |scores - {name}| + (if name in scores then 1 else 0)
  {
    if name in scores {
      assert scores == (scores - {name})[name := scores[name]];
    } else {
      assert scores - {name} == scores;
    }
  }

  lemma RemChanges(nums: Numbers, now: nat, key: Bytes, name: Bytes, ks: Keyspace, ks': Keyspace, reply: Reply)
    requires Step(nums, now, [Ascii("zrem"), key, name], ks, ks', reply)
    ensures HoldsString(ks, key) ==> ks' == ks && reply == Err(3, Ascii("expect zset"))
    ensures !HoldsString(ks, key) ==>
      reply == Int(if HasMember(ks, key, name) then 1 else 0) && Members(ks', key) == Members(ks, key) - {name}
    ensures (HoldsZSet(ks', key) <==> HoldsZSet(ks, key)) && (key in ks' <==> key in ks)
    ensures ks' - {key} == ks - {key} && (key in ks ==> ks'[key].deadline == ks[key].deadline)
  {
    hide Ascii;
    Words();
  }

  /** `zrem` counts the name exactly if `zscore` would have found it just before; the set shrinks by that, and
      stays even when empty. */
  lemma RemReplies(nums: Numbers, now: nat, key: Bytes, name: Bytes, ks: Keyspace, ks': Keyspace, reply: Reply,
      before: nat, said: Reply)
    requires Step(nums, now, [Ascii("zrem"), key, name], ks, ks', reply)
    requires Step(nums, before, [Ascii("zscore"), key, name], ks, ks, said)
    ensures HoldsString(ks, key) ==> ks' == ks && reply == Err(3, Ascii("expect zset"))
    ensures !HoldsString(ks, key) ==>
      reply == Int(if said == Nil then 0 else 1) && |Members(ks', key)| == |Members(ks, key)| - reply.val &&
      Members(ks', key) == Members(ks, key) - {name}
    ensures (HoldsZSet(ks', key) <==> HoldsZSet(ks, key)) && (key in ks' <==> key in ks)
    ensures ks' - {key} == ks - {key} && (key in ks ==> ks'[key].deadline == ks[key].deadline)
  {
    hide Ascii, Step;
    ScoreReplies(nums, before, key, name, ks, ks, said);
    RemChanges(nums, now, key, name, ks, ks', reply);
    Dropped(Members(ks, key), name);
  }

  /** After `zrem`, for however long nothing concerns the key, `zscore` finds nothing. */
  lemma RemThenScore(nums: Numbers, states: seq<Keyspace>, events: seq<Event>, t: nat, key: Bytes, name: Bytes,
      count: int, u: nat, reply: Reply)
    requires Run(nums, states, events) && |events| >= 2
    requires events[0] == Asked(t, [Ascii("zrem"), key, name], Int(count))
    requires events[|events| - 1] == Asked(u, [Ascii("zscore"), key, name], reply)
    requires forall i :: 0 < i < |events| - 1 ==> Spares(events[i], states[1], key)
    ensures reply == Nil
  {
    hide Run, Step, Ascii, Spares;
    FirstStep(nums, states, events);
    RemChanges(nums, t, key, name, states[0], states[1], Int(count));
    BetweenNothing(nums, states, events, key);
    ScoreReplies(nums, u, key, name, states[|events| - 1], states[|events|], reply);
  }

  /** What `zquery` refuses, in this order. */
  lemma QueryRefused(nums: Numbers, now: nat, args: seq<Bytes>, ks: Keyspace, ks': Keyspace, reply: Reply)
    requires |args| == 6 && args[0] == Ascii("zquery") && Step(nums, now, args, ks, ks', reply)
    ensures nums.toDbl(args[2]).None? ==> ks' == ks && reply == Err(4, Ascii("expect fp number"))
    ensures nums.toDbl(args[2]).Some? && (nums.toInt(args[4]).None? || nums.toInt(args[5]).None?) ==>
      ks' == ks && reply == Err(4, Ascii("expect int"))
    ensures nums.toDbl(args[2]).Some? && nums.toInt(args[4]).Some? && nums.toInt(args[5]).Some? ==>
      HoldsString(ks, args[1]) ==> ks' == ks && reply == Err(3, Ascii("expect zset"))
  {
    hide Ascii;
  }

  // ---- a key that is gone ----

  /** After `del`, for however long no request names the key, neither `get` nor `pttl` finds it. */
  lemma DelThenGone(nums: Numbers, states: seq<Keyspace>, events: seq<Event>, t: nat, key: Bytes, count: Reply,
      u: nat, word: string, reply: Reply)
    requires Run(nums, states, events) && |events| >= 2
    requires events[0] == Asked(t, [Ascii("del"), key], count)
    requires events[|events| - 1] == Asked(u, [Ascii(word), key], reply) && word in {"get", "pttl", "del"}
    requires forall i :: 0 < i < |events| - 1 && events[i].Asked? ==> |events[i].args| < 2 || events[i].args[1] != key
    ensures reply == if word == "get" then Nil else if word == "pttl" then Int(-2) else Int(0)
  {
    hide Run, Step, Ascii;
    FirstStep(nums, states, events);
    DelReplies(nums, t, key, states[0], states[1], count);
    BetweenNothing(nums, states, events, key);
    if word == "get" {
      GetReplies(nums, u, key, states[|events| - 1], states[|events|], reply);
    } else if word == "pttl" {
      TtlReplies(nums, u, key, states[|events| - 1], states[|events|], reply);
    } else {
      DelReplies(nums, u, key, states[|events| - 1], states[|events|], reply);
    }
  }
}
