/** The database as a plain map, and what each command does to it. */
module Keyspaces {
  import opened Bytes
  import opened Scores
  import opened Listings
  import opened Replies

  datatype Value = StrValue(text: Bytes) | ZSetValue(scores: ScoreMap)

  /** A key's value, and when it expires. */
  datatype Record = Record(value: Value, deadline: Option<nat>)

  type Keyspace = map<Bytes, Record>

  function BadType(msg: string): Reply {
    Err(ERR_BAD_TYP, Ascii(msg))
  }

  function BadArg(msg: string): Reply {
    Err(ERR_BAD_ARG, Ascii(msg))
  }

  function GetReply(ks: Keyspace, key: Bytes): Reply {
    if key !in ks then Nil
    else match ks[key].value
      case StrValue(text) => Str(text)
      case ZSetValue(_) => BadType("not a string value")
  }

  function SetReply(ks: Keyspace, key: Bytes): Reply {
    if key in ks && ks[key].value.ZSetValue? then BadType("a non-string value exists") else Nil
  }

  /** A string replaces a string and keeps its timer; a new key has none; a sorted set stays. */
  function SetState(ks: Keyspace, key: Bytes, text: Bytes): Keyspace {
    if key !in ks then ks[key := Record(StrValue(text), None)]
    else if ks[key].value.ZSetValue? then ks
    else ks[key := ks[key].(value := StrValue(text))]
  }

  function ZAddReply(ks: Keyspace, key: Bytes, name: Bytes): Reply {
    if key !in ks then Int(1)
    else match ks[key].value
      case StrValue(_) => BadType("expect zset")
      case ZSetValue(scores) => Int(if name in scores then 0 else 1)
  }

  function ZAddState(ks: Keyspace, key: Bytes, score: Score, name: Bytes): Keyspace {
    if key !in ks then ks[key := Record(ZSetValue(map[name := score]), None)]
    else match ks[key].value
      case StrValue(_) => ks
      case ZSetValue(scores) => ks[key := ks[key].(value := ZSetValue(Rescored(scores, name, score)))]
  }

  /** The sorted set under a key; a missing key reads as an empty one, a string as none. */
  function ScoresAt(ks: Keyspace, key: Bytes): Option<ScoreMap> {
    if key !in ks then Some(map[])
    else match ks[key].value
      case StrValue(_) => None
      case ZSetValue(scores) => Some(scores)
  }

  function ZRemReply(ks: Keyspace, key: Bytes, name: Bytes): Reply {
    match ScoresAt(ks, key)
    case None => BadType("expect zset")
    case Some(scores) => Int(if name in scores then 1 else 0)
  }

  /** The key stays even when its last member goes. */
  function ZRemState(ks: Keyspace, key: Bytes, name: Bytes): Keyspace {
    if key in ks && ks[key].value.ZSetValue? then
      ks[key := ks[key].(value := ZSetValue(ks[key].value.scores - {name}))]
    else ks
  }

  function ZScoreReply(ks: Keyspace, key: Bytes, name: Bytes): Reply {
    match ScoresAt(ks, key)
    case None => BadType("expect zset")
    case Some(scores) => if name in scores then Dbl(scores[name]) else Nil
  }

  /** Names and scores, alternating. */
  function Pairs(list: seq<ZKey>): (items: seq<Reply>)
    ensures |items| == 2 * |list|
  {
    if list == [] then [] else Pairs(list[..|list| - 1]) + [Str(list[|list| - 1].name), Dbl(list[|list| - 1].score)]
  }

  ghost predicate IsZQueryReply(ks: Keyspace, key: Bytes, from: ZKey, offset: int, limit: int, reply: Reply) {
    match ScoresAt(ks, key)
    case None => reply == BadType("expect zset")
    case Some(scores) =>
      forall list :: IsListing(scores, list) ==> reply == Arr(Pairs(Window(list, from, offset, limit)))
  }

  function ExpireState(ks: Keyspace, key: Bytes, now: nat, ttl: int): Keyspace {
    if key in ks then ks[key := ks[key].(deadline := if ttl < 0 then None else Some(now + ttl))] else ks
  }

  function TtlReply(ks: Keyspace, key: Bytes, now: nat): Reply {
    if key !in ks then Int(-2)
    else match ks[key].deadline
      case None => Int(-1)
      case Some(at) => Int(if at > now then at - now else 0)
  }

  /** Every key once, in some order. */
  predicate IsKeysReply(ks: Keyspace, reply: Reply) {
    reply.Arr? && |reply.items| == |ks| &&
    (forall i :: 0 <= i < |reply.items| ==> reply.items[i].Str? && reply.items[i].text in ks) &&
    (forall i, j :: 0 <= i < j < |reply.items| ==> reply.items[i] != reply.items[j])
  }

  predicate Is(args: seq<Bytes>, n: nat, word: string) {
    |args| == n && n > 0 && args[0] == Ascii(word)
  }

  /** What a request may do: the state after it and its reply. */
  ghost predicate Step(nums: Numbers, now: nat, args: seq<Bytes>, ks: Keyspace, ks': Keyspace, reply: Reply) {
    if Is(args, 2, "get") then ks' == ks && reply == GetReply(ks, args[1])
    else if Is(args, 3, "set") then ks' == SetState(ks, args[1], args[2]) && reply == SetReply(ks, args[1])
    else if Is(args, 2, "del") then ks' == ks - {args[1]} && reply == Int(if args[1] in ks then 1 else 0)
    else if Is(args, 1, "keys") then ks' == ks && IsKeysReply(ks, reply)
    else if Is(args, 4, "zadd") then
      match nums.toDbl(args[2])
      case None => ks' == ks && reply == BadArg("expect float")
      case Some(score) => ks' == ZAddState(ks, args[1], score, args[3]) && reply == ZAddReply(ks, args[1], args[3])
    else if Is(args, 3, "zrem") then ks' == ZRemState(ks, args[1], args[2]) && reply == ZRemReply(ks, args[1], args[2])
    else if Is(args, 3, "zscore") then ks' == ks && reply == ZScoreReply(ks, args[1], args[2])
    else if Is(args, 6, "zquery") then
      ks' == ks &&
      if nums.toDbl(args[2]).None? then reply == BadArg("expect fp number")
      else if nums.toInt(args[4]).None? || nums.toInt(args[5]).None? then reply == BadArg("expect int")
      else IsZQueryReply(ks, args[1], ZKey(nums.toDbl(args[2]).value, args[3]),
                         nums.toInt(args[4]).value, nums.toInt(args[5]).value, reply)
    else if Is(args, 3, "pexpire") then
      match nums.toInt(args[2])
      case None => ks' == ks && reply == BadArg("expect int64")
      case Some(ttl) => ks' == ExpireState(ks, args[1], now, ttl) && reply == Int(if args[1] in ks then 1 else 0)
    else if Is(args, 2, "pttl") then ks' == ks && reply == TtlReply(ks, args[1], now)
    else ks' == ks && reply == Err(ERR_UNKNOWN, Ascii("unknown command."))
  }
}
