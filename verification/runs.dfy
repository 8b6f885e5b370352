/** Runs of the database: any sequence of requests and expiry passes, and what holds over all of them. */
module Runs {
  import opened Sequences
  import opened Bytes
  import opened Scores
  import opened Listings
  import opened Replies
  import opened Keyspaces
  import opened Codecs
  import opened Sweeps

  /** One thing that happens to the database: a request and its reply, or an expiry pass. */
  datatype Event =
    | Asked(now: nat, args: seq<Bytes>, reply: Reply)
    | Swept(now: nat, evicted: seq<Bytes>)

  ghost predicate Follows(nums: Numbers, ks: Keyspace, e: Event, ks': Keyspace) {
    match e
    case Asked(now, args, reply) => Step(nums, now, args, ks, ks', reply)
    case Swept(now, evicted) => Sweep(now, ks, ks', evicted)
  }

  /** `states[i]` is the database before `events[i]`. */
  ghost predicate Run(nums: Numbers, states: seq<Keyspace>, events: seq<Event>) {
    |states| == |events| + 1 &&
    forall i :: 0 <= i < |events| ==> Follows(nums, states[i], events[i], states[i + 1])
  }

  lemma NothingYet(nums: Numbers, ks: Keyspace)
    ensures Run(nums, [ks], [])
  {
  }

  /** A run goes on where it ended. */
  lemma RunOn(nums: Numbers, states: seq<Keyspace>, events: seq<Event>, more: seq<Keyspace>, later: seq<Event>)
    requires Run(nums, states, events) && Run(nums, more, later) && states[|events|] == more[0]
    ensures Run(nums, states + more[1..], events + later)
    ensures (states + more[1..])[|events + later|] == more[|later|] && (states + more[1..])[0] == states[0]
  {
    hide Follows;
    var n, all := |events|, states + more[1..];
    assert forall i :: n <= i <= n + |later| ==> all[i] == more[i - n];
    assert forall i :: 0 <= i <= n ==> all[i] == states[i];
    forall i | 0 <= i < |events + later|
      ensures Follows(nums, all[i], (events + later)[i], all[i + 1])
    {
      if i < n {
        assert Follows(nums, states[i], events[i], states[i + 1]);
      } else {
        assert Follows(nums, more[i - n], later[i - n], more[i - n + 1]);
      }
    }
  }

  /** Any stretch of a run is a run. */
  lemma RunPart(nums: Numbers, states: seq<Keyspace>, events: seq<Event>, i: nat, j: nat)
    requires Run(nums, states, events) && i <= j <= |events|
    ensures Run(nums, states[i..j + 1], events[i..j])
  {
    hide Follows;
    forall k | 0 <= k < j - i
      ensures Follows(nums, states[i..j + 1][k], events[i..j][k], states[i..j + 1][k + 1])
    {
      assert Follows(nums, states[i + k], events[i + k], states[i + k + 1]);
    }
  }

  /** The clock never goes back. */
  predicate Ticking(events: seq<Event>) {
    forall i, j :: 0 <= i < j < |events| ==> events[i].now <= events[j].now
  }

  /** `strtod` yields 64-bit doubles. */
  ghost predicate Sane(nums: Numbers) {
    forall s :: nums.toDbl(s).Some? ==> nums.toDbl(s).value.magnitude < 0x8000_0000_0000_0000
  }

  predicate OrderlyRecord(r: Record, now: nat) {
    (r.deadline.Some? ==> r.deadline.value < now + TWO_63) &&
    (r.value.ZSetValue? ==> OrderlyScores(r.value.scores))
  }

  /** Every deadline and every score fits the fields that replies have for them. */
  predicate Orderly(ks: Keyspace, now: nat) {
    forall k :: k in ks ==> OrderlyRecord(ks[k], now)
  }

  lemma {:induction false} PairsFit(list: seq<ZKey>)
    requires forall i :: 0 <= i < |list| ==> list[i].score.magnitude < 0x8000_0000_0000_0000
    ensures Fits(Arr(Pairs(list)))
  {
    if list != [] {
      PairsFit(list[..|list| - 1]);
    }
  }

  lemma QueryFits(ks: Keyspace, now: nat, key: Bytes, from: ZKey, offset: int, limit: int, reply: Reply)
    requires Orderly(ks, now) && IsZQueryReply(ks, key, from, offset, limit, reply)
    ensures Fits(reply)
  {
    var at := ScoresAt(ks, key);
    if at.Some? {
      var list := ListingExists(at.value);
      assert OrderlyScores(at.value);
      PairsFit(Window(list, from, offset, limit));
    }
  }

  predicate OrderlyScores(scores: ScoreMap) {
    forall name :: name in scores ==> scores[name].magnitude < 0x8000_0000_0000_0000
  }

  lemma KeysFit(ks: Keyspace, reply: Reply)
    requires IsKeysReply(ks, reply)
    ensures Fits(reply)
  {
  }

  /** No request leads out of the orderly states. */
  lemma StateOrderly(nums: Numbers, now: nat, args: seq<Bytes>, ks: Keyspace, ks': Keyspace, reply: Reply)
    requires Sane(nums) && Orderly(ks, now) && Step(nums, now, args, ks, ks', reply)
    ensures Orderly(ks', now)
  {
    hide Ascii, IsZQueryReply, IsKeysReply;
  }

  /** Every reply from an orderly state is one that the wire can carry. */
  lemma ReplyFits(nums: Numbers, now: nat, args: seq<Bytes>, ks: Keyspace, ks': Keyspace, reply: Reply)
    requires Sane(nums) && Orderly(ks, now) && Step(nums, now, args, ks, ks', reply)
    ensures Fits(reply)
  {
    hide Ascii, IsZQueryReply, IsKeysReply;
    if Is(args, 1, "keys") {
      KeysFit(ks, reply);
    } else if Is(args, 6, "zquery") && nums.toDbl(args[2]).Some? && nums.toInt(args[4]).Some? &&
      nums.toInt(args[5]).Some? {
      QueryFits(ks, now, args[1], ZKey(nums.toDbl(args[2]).value, args[3]),
                nums.toInt(args[4]).value, nums.toInt(args[5]).value, reply);
    }
  }

  lemma SweepOrderly(now: nat, ks: Keyspace, ks': Keyspace, evicted: seq<Bytes>)
    requires Orderly(ks, now) && Sweep(now, ks, ks', evicted)
    ensures Orderly(ks', now)
  {
    hide OrderlyRecord;
  }

  lemma OrderlyLater(ks: Keyspace, now: nat, later: nat)
    requires Orderly(ks, now) && now <= later
    ensures Orderly(ks, later)
  {
  }

  /** With a clock that never goes back, every reply of a run that starts orderly, say empty, fits the
      wire format. */
  lemma {:induction false} RunOrderly(nums: Numbers, states: seq<Keyspace>, events: seq<Event>, i: nat)
    requires Sane(nums) && Run(nums, states, events) && Ticking(events) && i < |events|
    requires Orderly(states[0], events[0].now)
    ensures Orderly(states[i + 1], events[i].now)
    ensures events[i].Asked? ==> Fits(events[i].reply)
  {
    hide Step, Sweep, Orderly, Fits;
    var e := events[i];
    if i > 0 {
      RunOrderly(nums, states, events, i - 1);
      OrderlyLater(states[i], events[i - 1].now, e.now);
    }
    assert Follows(nums, states[i], e, states[i + 1]);
    match e
    case Asked(now, args, reply) =>
      StateOrderly(nums, now, args, states[i], states[i + 1], reply);
      ReplyFits(nums, now, args, states[i], states[i + 1], reply);
    case Swept(now, evicted) =>
      SweepOrderly(now, states[i], states[i + 1], evicted);
  }

  /** Requests decide: the state after one is a function of the state before it, and so is the reply,
      except for the order in which KEYS lists the keys. */
  lemma StepDecides(nums: Numbers, now: nat, args: seq<Bytes>, ks: Keyspace, a: Keyspace, b: Keyspace, x: Reply,
      y: Reply)
    requires Step(nums, now, args, ks, a, x) && Step(nums, now, args, ks, b, y)
    ensures a == b && (x == y || (Is(args, 1, "keys") && IsKeysReply(ks, x) && IsKeysReply(ks, y)))
  {
    hide Is, Ascii, IsKeysReply, GetReply, SetState, SetReply, ZAddState, ZAddReply, ZRemState, ZRemReply,
      ZScoreReply, IsZQueryReply, ExpireState, TtlReply;
    if |args| == 6 && nums.toDbl(args[2]).Some? && nums.toInt(args[4]).Some? && nums.toInt(args[5]).Some? {
      QueryDecides(ks, args[1], ZKey(nums.toDbl(args[2]).value, args[3]),
                   nums.toInt(args[4]).value, nums.toInt(args[5]).value, x, y);
    }
    LongEnough(args, 6, "zquery");
  }

  lemma LongEnough(args: seq<Bytes>, n: nat, word: string)
    ensures Is(args, n, word) ==> |args| == n
  {
  }

  lemma QueryDecides(ks: Keyspace, key: Bytes, from: ZKey, offset: int, limit: int, x: Reply, y: Reply)
    ensures IsZQueryReply(ks, key, from, offset, limit, x) && IsZQueryReply(ks, key, from, offset, limit, y) ==> x == y
  {
    if ScoresAt(ks, key).Some? {
      var list := ListingExists(ScoresAt(ks, key).value);
    }
  }

  /** The event does not concern the key: another key's request, or a pass before the key is due. */
  predicate Spares(e: Event, ks: Keyspace, key: Bytes) {
    match e
    case Asked(_, args, _) => |args| < 2 || args[1] != key
    case Swept(now, _) => key in ks && ks[key].deadline.Some? ==> now <= ks[key].deadline.value
  }

  predicate SameAt(ks: Keyspace, ks': Keyspace, key: Bytes) {
    (key in ks <==> key in ks') && (key in ks ==> ks[key] == ks'[key])
  }

  lemma SparedOnce(nums: Numbers, ks: Keyspace, e: Event, ks': Keyspace, key: Bytes)
    requires Follows(nums, ks, e, ks') && Spares(e, ks, key)
    ensures SameAt(ks, ks', key)
  {
    hide Ascii, IsZQueryReply, IsKeysReply;
    if e.Swept? {
      assert key !in e.evicted;
    }
  }

  /** What does not concern a key, for however long, leaves it as it is, missing or not. */
  lemma {:induction false} Spared(nums: Numbers, states: seq<Keyspace>, events: seq<Event>, key: Bytes, n: nat)
    requires Run(nums, states, events) && n <= |events|
    requires forall i :: 0 <= i < n ==> Spares(events[i], states[0], key)
    ensures SameAt(states[0], states[n], key)
  {
    hide Follows;
    if n > 0 {
      Spared(nums, states, events, key, n - 1);
      assert Follows(nums, states[n - 1], events[n - 1], states[n]);
      assert Spares(events[n - 1], states[n - 1], key);
      SparedOnce(nums, states[n - 1], events[n - 1], states[n], key);
    }
  }

  /** A run whose first event may concern the key and whose last one may ask for it, and nothing between. */
  lemma BetweenNothing(nums: Numbers, states: seq<Keyspace>, events: seq<Event>, key: Bytes)
    requires Run(nums, states, events) && |events| >= 2
    requires forall i :: 0 < i < |events| - 1 ==> Spares(events[i], states[1], key)
    ensures Follows(nums, states[0], events[0], states[1])
    ensures Follows(nums, states[|events| - 1], events[|events| - 1], states[|events|])
    ensures SameAt(states[1], states[|events| - 1], key)
  {
    hide Follows, Spares;
    var states', events' := states[1..], events[1..];
    RunPart(nums, states, events, 1, |events|);
    assert states[1..|events| + 1] == states' && events[1..|events|] == events';
    Spared(nums, states', events', key, |events| - 2);
  }

  /** A new string is what `get` returns until something concerns its key. */
  lemma SetThenGet(nums: Numbers, states: seq<Keyspace>, events: seq<Event>, key: Bytes, text: Bytes)
    requires Run(nums, states, events) && |events| >= 2
    requires events[0].Asked? && events[0].args == [Ascii("set"), key, text] && events[0].reply == Nil
    requires events[|events| - 1].Asked? && events[|events| - 1].args == [Ascii("get"), key]
    requires forall i :: 0 < i < |events| - 1 ==> Spares(events[i], states[1], key)
    ensures events[|events| - 1].reply == Str(text)
  {
    hide Run, Spares;
    BetweenNothing(nums, states, events, key);
  }

  /** The keys past their deadline. */
  function Due(ks: Keyspace, now: nat): set<Bytes> {
    set k | k in ks && ks[k].deadline.Some? && ks[k].deadline.value < now
  }

  /** A pass evicts all due keys, or 2001 of them. */
  lemma SweepCount(now: nat, ks: Keyspace, ks': Keyspace, evicted: seq<Bytes>)
    requires Sweep(now, ks, ks', evicted)
    ensures |evicted| == Min(|Due(ks, now)|, MAX_WORKS + 1)
    ensures Due(ks', now) == Due(ks, now) - set k | k in evicted
  {
    hide LaterLeft;
    var due, gone := Due(ks, now), set k | k in evicted;
    assert forall i :: 0 <= i < |evicted| ==> evicted[i] in due;
    DistinctCount(evicted, gone);
    SubsetCount(gone, due);
    if |evicted| <= MAX_WORKS {
      NoneLeft(now, ks, ks', evicted);
      assert gone == due;
    }
  }

  lemma NoneLeft(now: nat, ks: Keyspace, ks': Keyspace, evicted: seq<Bytes>)
    requires Sweep(now, ks, ks', evicted) && |evicted| <= MAX_WORKS
    ensures forall k :: k in Due(ks, now) ==> k in evicted
  {
    forall k | k in Due(ks, now)
      ensures k in evicted
    {
      assert k in Remaining(ks, evicted) <==> k !in evicted;
    }
  }

  /** The announced cap of 2000 is exceeded exactly if more keys than that are due. */
  lemma CapExceeded(now: nat, ks: Keyspace, ks': Keyspace, evicted: seq<Bytes>)
    requires Sweep(now, ks, ks', evicted)
    ensures |evicted| > MAX_WORKS <==> |Due(ks, now)| > MAX_WORKS
  {
    hide *;
    SweepCount(now, ks, ks', evicted);
    MinOver(|Due(ks, now)|);
  }

  lemma MinOver(n: nat)
    ensures Min(n, MAX_WORKS + 1) > MAX_WORKS <==> n > MAX_WORKS
  {
  }

  /** Different keys of two bytes each. */
  function KeyAt(i: nat): Bytes
    requires i < 65536
  {
    [i / 256, i % 256]
  }

  /** The first `n` of these keys, all of them with deadline 0. */
  function Filled(n: nat): Keyspace
    requires n <= 65536
  {
    if n == 0 then map[] else Filled(n - 1)[KeyAt(n - 1) := Record(StrValue([]), Some(0))]
  }

  lemma {:induction false} FilledWith(n: nat, i: nat)
    requires n <= 65536 && i < 65536
    ensures KeyAt(i) in Filled(n) <==> i < n
  {
    if n > 0 {
      FilledWith(n - 1, i);
    }
  }

  lemma {:induction false} FilledDue(n: nat)
    requires n <= 65536
    ensures |Due(Filled(n), 1)| == n && Due(Filled(n), 1) == Filled(n).Keys
  {
    if n > 0 {
      FilledDue(n - 1);
      FilledWith(n - 1, n - 1);
      assert Due(Filled(n), 1) == Due(Filled(n - 1), 1) + {KeyAt(n - 1)};
    }
  }

  /** SET and then PEXPIRE 0 of one more key. */
  lemma FillOne(nums: Numbers, zero: Bytes, n: nat) returns (states: seq<Keyspace>, events: seq<Event>)
    requires nums.toInt(zero) == Some(0) && n < 65536
    ensures Run(nums, states, events) && |events| == 2 && states[0] == Filled(n) && states[2] == Filled(n + 1)
    ensures forall e <- events :: e.Asked? && e.now == 0
  {
    FilledWith(n, n);
    var key := KeyAt(n);
    var kept := Filled(n)[key := Record(StrValue([]), None)];
    states := [Filled(n), kept, Filled(n + 1)];
    events := [Asked(0, [Ascii("set"), key, []], Nil), Asked(0, [Ascii("pexpire"), key, zero], Int(1))];
    NotThree();
    assert kept[key := Record(StrValue([]), Some(0))] == Filled(n + 1);
    assert Follows(nums, states[0], events[0], states[1]);
    assert Follows(nums, states[1], events[1], states[2]);
  }

  lemma NotThree()
    ensures Ascii("pexpire") != Ascii("set") && Ascii("pexpire") != Ascii("zrem") && Ascii("pexpire") != Ascii("zscore")
  {
  }

  /** A run of requests that fills an empty database so. */
  lemma {:induction false} FilledRun(nums: Numbers, zero: Bytes, n: nat)
    returns (states: seq<Keyspace>, events: seq<Event>)
    requires nums.toInt(zero) == Some(0) && n <= 65536
    ensures Run(nums, states, events) && states[0] == map[] && states[|events|] == Filled(n)
    ensures forall e <- events :: e.Asked? && e.now == 0
  {
    hide Run, Ascii;
    if n == 0 {
      states, events := [map[]], [];
      NothingYet(nums, map[]);
    } else {
      states, events := FilledRun(nums, zero, n - 1);
      var more, later := FillOne(nums, zero, n - 1);
      RunOn(nums, states, events, more, later);
      states, events := states + more[1..], events + later;
    }
  }

  /** The announced cap of 2000 fails: requests to an empty server at time 0 lead to a database from
      which the next pass, at time 1, evicts 2001 keys. */
  lemma OverTheCap(nums: Numbers, zero: Bytes) returns (states: seq<Keyspace>, events: seq<Event>)
    requires nums.toInt(zero) == Some(0)
    ensures Run(nums, states, events) && states[0] == map[] && forall e <- events :: e.Asked? && e.now == 0
    ensures forall ks', evicted :: Sweep(1, states[|events|], ks', evicted) ==> |evicted| == 2001 > MAX_WORKS
  {
    hide Run, Sweep, Due, Filled;
    states, events := FilledRun(nums, zero, 2001);
    FilledDue(2001);
    forall ks', evicted | Sweep(1, Filled(2001), ks', evicted)
      ensures |evicted| == 2001
    {
      SweepCount(1, Filled(2001), ks', evicted);
    }
  }

  // ---- passes that follow one another ----

  /** Passes alone leave an empty database empty. */
  lemma {:induction false} OnlyPasses(nums: Numbers, states: seq<Keyspace>, events: seq<Event>, n: nat)
    requires Run(nums, states, events) && states[0] == map[] && n <= |events|
    requires forall i :: 0 <= i < n ==> events[i].Swept?
    ensures states[n] == map[]
  {
    hide Step;
    if n > 0 {
      OnlyPasses(nums, states, events, n - 1);
      assert Follows(nums, states[n - 1], events[n - 1], states[n]);
    }
  }

  lemma DueAfterPass(now: nat, ks: Keyspace, ks': Keyspace, evicted: seq<Bytes>)
    requires Sweep(now, ks, ks', evicted)
    ensures |Due(ks', now)| == |Due(ks, now)| - Min(|Due(ks, now)|, MAX_WORKS + 1)
  {
    hide Sweep;
    SweepCount(now, ks, ks', evicted);
    var due, gone := Due(ks, now), set k | k in evicted;
    SweepGone(now, ks, ks', evicted);
    assert due == gone + (due - gone);
  }

  /** Whatever is evicted was due, each key once. */
  lemma SweepGone(now: nat, ks: Keyspace, ks': Keyspace, evicted: seq<Bytes>)
    requires Sweep(now, ks, ks', evicted)
    ensures (set k | k in evicted) <= Due(ks, now) && |set k | k in evicted| == |evicted|
  {
    hide LaterLeft;
    var gone := set k | k in evicted;
    assert forall i :: 0 <= i < |evicted| ==> evicted[i] in Due(ks, now);
    DistinctCount(evicted, gone);
  }

  /** Passes at one time, one after the other: each but the last evicts 2001 keys, so that nothing is due
      once there have been as many passes as there are times 2001 due keys, rounded up. */
  lemma {:induction false} Passes(nums: Numbers, states: seq<Keyspace>, events: seq<Event>, now: nat, n: nat)
    requires Run(nums, states, events) && n <= |events|
    requires forall i :: 0 <= i < n ==> events[i].Swept? && events[i].now == now
    ensures var due := |Due(states[0], now)|;
      |Due(states[n], now)| == if due <= n * (MAX_WORKS + 1) then 0 else due - n * (MAX_WORKS + 1)
  {
    hide Sweep, Due, Step;
    if n > 0 {
      Passes(nums, states, events, now, n - 1);
      assert Follows(nums, states[n - 1], events[n - 1], states[n]);
      DueAfterPass(now, states[n - 1], states[n], events[n - 1].evicted);
    }
  }
}
