/**
 The fixed-window rate limiter: one counter for each (bucket, identity, window),
 kept in process memory or in Redis with an expiry.
 */
module RateLimit {
  import opened Common
  import opened Decimal
  import Division

  datatype Limit = Limit(requests: int, window: int)

  datatype Outcome = Admitted | TooMany(retryAfter: int) | DivisionByZero

  /** Python's // and %. */
  function FloorDiv(a: int, b: int): int
    requires b != 0
  {
    if b > 0 then a / b else (-a) / (-b)
  }

  function FloorMod(a: int, b: int): int
    requires b != 0
  {
    a - b * FloorDiv(a, b)
  }

  /** `clock`: what time.time() returned; `at`: when Redis runs the commands. */
  datatype Call = Call(bucket: string, identity: string, limit: Limit, clock: real, at: real)

  function Now(c: Call): int {
    c.clock.Floor
  }

  function Window(c: Call): int
    requires c.limit.window != 0
  {
    FloorDiv(Now(c), c.limit.window)
  }

  /** `digest` is the SHA-256 hex digest of the trimmed, lower-cased identity. */
  function Key(c: Call, digest: string -> string): string
    requires c.limit.window != 0
  {
    "ecoevent:rl:" + c.bucket + ":" + digest(c.identity) + ":" + IntText(Window(c))
  }

  function Verdict(c: Call, count: int): Outcome
    requires c.limit.window != 0
  {
    if count > c.limit.requests then TooMany(c.limit.window - FloorMod(Now(c), c.limit.window)) else Admitted
  }

  /** Python's laws of // and %. */
  lemma FloorLaws(a: int, b: int)
    requires b != 0
    ensures a == b * FloorDiv(a, b) + FloorMod(a, b)
    ensures if b > 0 then 0 <= FloorMod(a, b) < b else b < FloorMod(a, b) <= 0
  {
    if b < 0 {
      assert -a == (-b) * ((-a) / (-b)) + (-a) % (-b);
    }
  }

  /** The key of a login two minutes after the epoch, in windows of one. */
  lemma AKey(digest: string -> string, c: Call)
    requires c.bucket == "login" && c.limit.window == 60 && 120.0 <= c.clock < 121.0
    ensures Key(c, digest) == "ecoevent:rl:" + "login" + ":" + digest(c.identity) + ":" + "2"
  {
  }

  // ---------------------------------------------------------------------
  // The two stores.
  // ---------------------------------------------------------------------

  type Memory = map<string, (int, int)>

  datatype Entry = Entry(count: int, expires: Option<real>)
  type Redis = map<string, Entry>

  function MemoryCount(m: Memory, key: string, window: int): int {
    var (count, oldWindow) := if key in m then m[key] else (0, window);
    if oldWindow == window then count + 1 else 1
  }

  /** Keys whose time to live has passed are gone. */
  function Purge(r: Redis, at: real): Redis {
    map k | k in r && (r[k].expires.Some? ==> at < r[k].expires.value) :: r[k]
  }

  function Incr(r: Redis, key: string): Redis {
    r[key := if key in r then r[key].(count := r[key].count + 1) else Entry(1, None)]
  }

  /** EXPIRE with a non-positive time deletes the key. */
  function Expire(r: Redis, key: string, at: real, seconds: int): Redis {
    if key !in r then r
    else if seconds <= 0 then r - {key}
    else r[key := r[key].(expires := Some(at + seconds as real))]
  }

  function RedisCount(r: Redis, key: string, at: real): int {
    Incr(Purge(r, at), key)[key].count
  }

  function RedisAfter(r: Redis, key: string, at: real, limit: Limit): Redis {
    var counted := Incr(Purge(r, at), key);
    if counted[key].count == 1 then Expire(counted, key, at, limit.window + 1) else counted
  }

  /** EXPIRE sets the deadline of its key, or deletes it when the time is not positive, and touches no other key. */
  lemma ExpireRule(r: Redis, key: string, at: real, seconds: int, other: string)
    requires key in r
    ensures var after := Expire(r, key, at, seconds);
            && (key in after <==> seconds >= 1)
            && (key in after ==> after[key] == Entry(r[key].count, Some(at + seconds as real)))
            && (other != key ==> (other in after <==> other in r) && (other in r ==> after[other] == r[other]))
  {
  }

  class RateLimiter {
    const digest: string -> string
    const useRedis: bool
    var memory: Memory
    var redis: Redis

    constructor (digest: string -> string, useRedis: bool)
      ensures this.digest == digest && this.useRedis == useRedis
      ensures memory == map[] && redis == map[]
    {
      this.digest := digest;
      this.useRedis := useRedis;
      memory, redis := map[], map[];
    }

    /** RateLimiter.check; a raised HTTP 429 is the outcome TooMany. */
    method Check(c: Call) returns (outcome: Outcome)
      modifies this`memory, this`redis
      ensures c.limit.window == 0 ==> outcome == DivisionByZero && memory == old(memory) && redis == old(redis)
      ensures c.limit.window != 0 && useRedis ==>
                && outcome == Verdict(c, RedisCount(old(redis), Key(c, digest), c.at))
                && redis == RedisAfter(old(redis), Key(c, digest), c.at, c.limit)
                && memory == old(memory)
      ensures c.limit.window != 0 && !useRedis ==>
                && outcome == Verdict(c, MemoryCount(old(memory), Key(c, digest), Window(c)))
                && memory == old(memory)[Key(c, digest) := (MemoryCount(old(memory), Key(c, digest), Window(c)), Window(c))]
                && redis == old(redis)
    {
      if c.limit.window == 0 {
        return DivisionByZero;
      }
      var window := Window(c);
      var key := Key(c, digest);
      var count: int;
      if useRedis {
        redis := Purge(redis, c.at);
        redis := Incr(redis, key);
        count := redis[key].count;
        if count == 1 {
          redis := Expire(redis, key, c.at, c.limit.window + 1);
        }
      } else {
        var oldWindow: int;
        if key in memory {
          count, oldWindow := memory[key].0, memory[key].1;
        } else {
          count, oldWindow := 0, window;
        }
        count := if oldWindow == window then count + 1 else 1;
        memory := memory[key := (count, window)];
      }
      if count > c.limit.requests {
        var retryAfter := c.limit.window - FloorMod(Now(c), c.limit.window);
        return TooMany(retryAfter);
      }
      return Admitted;
    }
  }

  // ---------------------------------------------------------------------
  // Whole traces.
  // ---------------------------------------------------------------------

  /** A positive window, and a digest of 64 characters. */
  predicate Keyed(c: Call, digest: string -> string) {
    c.limit.window > 0 && |digest(c.identity)| == 64
  }

  predicate Hashed(calls: seq<Call>, digest: string -> string) {
    forall i :: 0 <= i < |calls| ==> Keyed(calls[i], digest)
  }

  /** Every call for c's bucket is made under c's limit. */
  predicate SharesLimit(calls: seq<Call>, c: Call) {
    forall i :: 0 <= i < |calls| && calls[i].bucket == c.bucket ==> calls[i].limit == c.limit
  }

  /** Windows of one second and calls at the same instant are covered. */
  lemma TheSmallestTraces(calls: seq<Call>, digest: string -> string)
    requires forall i :: 0 <= i < |calls| ==> calls[i].limit.window >= 1 && |digest(calls[i].identity)| == 64
    requires forall i, j :: 0 <= i < |calls| && 0 <= j < |calls| ==> calls[i].at == calls[j].at
    ensures Hashed(calls, digest) && Ordered(calls)
  {
  }

  /** Calls for other buckets may have any limit. */
  lemma LimitsArePerBucket(calls: seq<Call>, c: Call)
    requires forall i :: 0 <= i < |calls| ==> calls[i].limit == c.limit || calls[i].bucket != c.bucket
    ensures SharesLimit(calls, c)
  {
  }

  function MemoryAfter(calls: seq<Call>, digest: string -> string): Memory
    requires Hashed(calls, digest)
  {
    if calls == [] then map[]
    else
      var c, m := calls[|calls| - 1], MemoryAfter(calls[..|calls| - 1], digest);
      m[Key(c, digest) := (MemoryCount(m, Key(c, digest), Window(c)), Window(c))]
  }

  function RedisAfterAll(calls: seq<Call>, digest: string -> string): Redis
    requires Hashed(calls, digest)
  {
    if calls == [] then map[]
    else
      var c := calls[|calls| - 1];
      RedisAfter(RedisAfterAll(calls[..|calls| - 1], digest), Key(c, digest), c.at, c.limit)
  }

  /** The outcome of the last call of a trace, by each store. */
  function MemoryOutcome(calls: seq<Call>, digest: string -> string): Outcome
    requires calls != [] && Hashed(calls, digest)
  {
    var c := calls[|calls| - 1];
    Verdict(c, MemoryCount(MemoryAfter(calls[..|calls| - 1], digest), Key(c, digest), Window(c)))
  }

  function RedisOutcome(calls: seq<Call>, digest: string -> string): Outcome
    requires calls != [] && Hashed(calls, digest)
  {
    var c := calls[|calls| - 1];
    Verdict(c, RedisCount(RedisAfterAll(calls[..|calls| - 1], digest), Key(c, digest), c.at))
  }

  /** The reference count: how many calls of the trace fall in the given bucket, identity digest and window. */
  function Occurrences(calls: seq<Call>, bucket: string, id: string, window: int, digest: string -> string): nat
    requires Hashed(calls, digest)
  {
    if calls == [] then 0
    else
      var c := calls[|calls| - 1];
      Occurrences(calls[..|calls| - 1], bucket, id, window, digest)
      + if c.bucket == bucket && digest(c.identity) == id && Window(c) == window then 1 else 0
  }

  lemma SplitAtLastColon(a: string, b: string, a': string, b': string)
    requires a + ":" + b == a' + ":" + b'
    requires ':' !in b && ':' !in b'
    ensures a == a' && b == b'
  {
    var s := a + ":" + b;
    LastColon(a, b);
    LastColon(a', b');
    assert |a| == |a'|;
    assert a == s[..|a|] && a' == s[..|a'|];
    assert b == s[|a| + 1..] && b' == s[|a'| + 1..];
  }

  lemma LastColon(a: string, b: string)
    requires ':' !in b
    ensures var s := a + ":" + b;
            |s| == |a| + 1 + |b| && s[|a|] == ':' && forall k :: |a| < k < |s| ==> s[k] != ':'
  {
    var s := a + ":" + b;
    assert forall k :: |a| < k < |s| ==> s[k] == b[k - |a| - 1];
  }

  /** Behind a common start and before ends of one length, the middles agree. */
  lemma SameMiddle(start: string, a: string, b: string, end: string, end': string)
    requires start + a + ":" + end == start + b + ":" + end' && |end| == |end'|
    ensures a == b && end == end'
  {
    var s := start + a + ":" + end;
    assert |a| == |b|;
    assert a == s[|start|..|start| + |a|] && b == s[|start|..|start| + |b|];
    assert end == s[|start| + |a| + 1..] && end' == s[|start| + |b| + 1..];
  }

  /** Keys identify bucket, digest and window even when the bucket itself contains ':'. */
  lemma KeysAreInjective(c: Call, d: Call, digest: string -> string)
    requires Keyed(c, digest) && Keyed(d, digest)
    ensures Key(c, digest) == Key(d, digest) <==> SameCounter(c, d, digest)
  {
    if Key(c, digest) == Key(d, digest) {
      var start := "ecoevent:rl:";
      hide IntText;
      SplitAtLastColon(start + c.bucket + ":" + digest(c.identity), IntText(Window(c)),
                       start + d.bucket + ":" + digest(d.identity), IntText(Window(d)));
      IntTextInjective(Window(c), Window(d));
      SameMiddle(start, c.bucket, d.bucket, digest(c.identity), digest(d.identity));
    }
  }

  predicate SameCounter(c: Call, d: Call, digest: string -> string)
    requires c.limit.window > 0 && d.limit.window > 0
  {
    c.bucket == d.bucket && digest(c.identity) == digest(d.identity) && Window(c) == Window(d)
  }

  /** Earlier calls that share c's counter. */
  function Earlier(calls: seq<Call>, c: Call, digest: string -> string): nat
    requires Keyed(c, digest) && Hashed(calls, digest)
  {
    Occurrences(calls, c.bucket, digest(c.identity), Window(c), digest)
  }

  /** c's memory entry counts exactly the calls that share it, and stores the window its key names. */
  ghost predicate MemoryTracks(calls: seq<Call>, c: Call, digest: string -> string)
    requires Keyed(c, digest) && Hashed(calls, digest)
  {
    var m, k, n := MemoryAfter(calls, digest), Key(c, digest), Earlier(calls, c, digest);
    if n == 0 then k !in m else k in m && m[k] == (n, Window(c))
  }

  lemma MemoryStep(calls: seq<Call>, c: Call, d: Call, digest: string -> string)
    requires Keyed(c, digest) && Keyed(d, digest) && Hashed(calls, digest)
    requires MemoryTracks(calls, c, digest) && MemoryTracks(calls, d, digest)
    ensures Hashed(calls + [d], digest) && MemoryTracks(calls + [d], c, digest)
  {
    var all := calls + [d];
    assert all[..|all| - 1] == calls;
    KeysAreInjective(c, d, digest);
    var m, key := MemoryAfter(calls, digest), Key(d, digest);
    assert MemoryAfter(all, digest) == m[key := (MemoryCount(m, key, Window(d)), Window(d))];
    assert Earlier(all, c, digest) == Earlier(calls, c, digest) + if SameCounter(d, c, digest) then 1 else 0;
  }

  lemma {:induction false} MemoryCounts(calls: seq<Call>, c: Call, digest: string -> string)
    requires Hashed(calls, digest) && Keyed(c, digest)
    ensures MemoryTracks(calls, c, digest)
  {
    if calls != [] {
      var d, rest := calls[|calls| - 1], calls[..|calls| - 1];
      MemoryCounts(rest, c, digest);
      MemoryCounts(rest, d, digest);
      MemoryStep(rest, c, d, digest);
      assert rest + [d] == calls;
    }
  }

  /** The k-th call for a bucket, identity and window is admitted if and only if k is within the limit. */
  lemma MemoryAdmission(calls: seq<Call>, digest: string -> string)
    requires calls != [] && Hashed(calls, digest)
    ensures var c := calls[|calls| - 1];
            MemoryOutcome(calls, digest) == Admitted <==> Earlier(calls, c, digest) <= c.limit.requests
  {
    var c, rest := calls[|calls| - 1], calls[..|calls| - 1];
    MemoryCounts(rest, c, digest);
  }

  // ---------------------------------------------------------------------
  // Redis against memory.
  // ---------------------------------------------------------------------

  predicate Ordered(calls: seq<Call>) {
    forall i, j :: 0 <= i < j < |calls| ==> calls[i].at <= calls[j].at
  }

  function Deadline(start: real, c: Call): real {
    start + (c.limit.window + 1) as real
  }

  /** The call with which the current life of c's counter began: the first call that shares the counter,
      and after that each sharing call that comes at or after the deadline of the life before it. */
  function LifeStart(calls: seq<Call>, c: Call, digest: string -> string): (start: Option<nat>)
    requires Keyed(c, digest) && Hashed(calls, digest)
    ensures start.Some? ==> start.value < |calls|
  {
    if calls == [] then None
    else
      var n := |calls| - 1;
      var d, start := calls[n], LifeStart(calls[..n], c, digest);
      if !SameCounter(d, c, digest) then start
      else if start.None? || d.at >= Deadline(calls[start.value].at, c) then Some(n)
      else start
  }

  /** A life of a counter: when it ends, and its sharing calls so far. */
  datatype Life = Life(deadline: real, count: nat)

  function LifeOf(calls: seq<Call>, c: Call, digest: string -> string): Option<Life>
    requires Keyed(c, digest) && Hashed(calls, digest)
  {
    match LifeStart(calls, c, digest)
    case None => None
    case Some(s) => Some(Life(Deadline(calls[s].at, c), Earlier(calls[s..], c, digest)))
  }

  /** The sharing calls of the current life, none once its deadline has passed at `at`. */
  function LiveCalls(calls: seq<Call>, c: Call, at: real, digest: string -> string): nat
    requires Keyed(c, digest) && Hashed(calls, digest)
  {
    match LifeOf(calls, c, digest)
    case None => 0
    case Some(life) => if at < life.deadline then life.count else 0
  }

  /** The entry under key k after a call at `now`: present until the deadline of its life, and exact while it is present. */
  ghost predicate EntryIs(r: Redis, k: string, now: real, life: Option<Life>) {
    match life
    case None => k !in r
    case Some(l) => l.count >= 1 && (now < l.deadline ==> k in r) && (k in r ==> r[k] == Entry(l.count, Some(l.deadline)))
  }

  function LastAt(calls: seq<Call>): real {
    if calls == [] then 0.0 else calls[|calls| - 1].at
  }

  /** The Redis entry c would use. */
  ghost predicate EntryTracks(calls: seq<Call>, c: Call, digest: string -> string)
    requires Keyed(c, digest) && Hashed(calls, digest)
  {
    EntryIs(RedisAfterAll(calls, digest), Key(c, digest), LastAt(calls), LifeOf(calls, c, digest))
  }

  predicate Alive(r: Redis, k: string, at: real) {
    k in r && (r[k].expires.Some? ==> at < r[k].expires.value)
  }

  /** A call counts its own key ... */
  lemma EntryAfter(r: Redis, key: string, at: real, limit: Limit)
    requires limit.window > 0
    requires Alive(r, key, at) ==> r[key].count >= 1
    ensures var after := RedisAfter(r, key, at, limit);
            key in after && after[key] == if Alive(r, key, at) then r[key].(count := r[key].count + 1)
                                          else Entry(1, Some(at + (limit.window + 1) as real))
  {
  }

  /** ... and leaves every other entry, unless that has expired. */
  lemma EntryAfterOther(r: Redis, key: string, at: real, limit: Limit, k: string)
    requires k != key
    ensures var after := RedisAfter(r, key, at, limit);
            (k in after <==> Alive(r, k, at)) && (k in after ==> after[k] == r[k])
  {
  }

  lemma CountOne(calls: seq<Call>, c: Call, d: Call, digest: string -> string)
    requires Keyed(c, digest) && Keyed(d, digest) && Hashed(calls, digest)
    ensures Hashed(calls + [d], digest)
    ensures Earlier(calls + [d], c, digest) == Earlier(calls, c, digest) + if SameCounter(d, c, digest) then 1 else 0
  {
    assert (calls + [d])[..|calls|] == calls;
  }

  lemma CountSuffix(calls: seq<Call>, c: Call, d: Call, from: nat, digest: string -> string)
    requires Keyed(c, digest) && Keyed(d, digest) && Hashed(calls, digest) && from <= |calls|
    ensures Hashed(calls + [d], digest)
    ensures Earlier((calls + [d])[from..], c, digest)
         == (if from < |calls| then Earlier(calls[from..], c, digest) else 0) + if SameCounter(d, c, digest) then 1 else 0
  {
    hide SameCounter, Keyed;
    assert (calls + [d])[from..] == calls[from..] + [d];
    CountOne(calls[from..], c, d, digest);
  }

  /** One more call continues a life or begins one. */
  lemma LifeStep(calls: seq<Call>, c: Call, d: Call, digest: string -> string)
    requires Keyed(c, digest) && Keyed(d, digest) && Hashed(calls, digest)
    ensures Hashed(calls + [d], digest)
    ensures var start := LifeStart(calls, c, digest);
            LifeStart(calls + [d], c, digest)
              == if !SameCounter(d, c, digest) then start
                 else if start.None? || d.at >= Deadline(calls[start.value].at, c) then Some(|calls|) else start
  {
    assert (calls + [d])[..|calls|] == calls;
  }

  /** What a call at `at` makes of a life it shares. */
  function NextLife(life: Option<Life>, at: real, window: int): Life {
    if life.None? || at >= life.value.deadline then Life(at + (window + 1) as real, 1)
    else Life(life.value.deadline, life.value.count + 1)
  }

  lemma LifeOfStep(calls: seq<Call>, c: Call, d: Call, digest: string -> string)
    requires Keyed(c, digest) && Keyed(d, digest) && Hashed(calls, digest)
    ensures Hashed(calls + [d], digest)
    ensures LifeOf(calls + [d], c, digest)
         == if SameCounter(d, c, digest) then Some(NextLife(LifeOf(calls, c, digest), d.at, c.limit.window)) else LifeOf(calls, c, digest)
  {
    LifeStep(calls, c, d, digest);
    var after := LifeStart(calls + [d], c, digest);
    hide LifeStart, Occurrences, SameCounter;
    if after.Some? { CountSuffix(calls, c, d, after.value, digest); }
  }

  lemma EntrySame(r: Redis, k: string, before: real, at: real, limit: Limit, life: Option<Life>)
    requires EntryIs(r, k, before, life) && limit.window > 0 && (life.Some? ==> before <= at)
    ensures EntryIs(RedisAfter(r, k, at, limit), k, at, Some(NextLife(life, at, limit.window)))
  {
    EntryAfter(r, k, at, limit);
    hide RedisAfter;
  }

  lemma EntryOther(r: Redis, key: string, k: string, before: real, at: real, limit: Limit, life: Option<Life>)
    requires EntryIs(r, k, before, life) && k != key && (life.Some? ==> before <= at)
    ensures EntryIs(RedisAfter(r, key, at, limit), k, at, life)
  {
    EntryAfterOther(r, key, at, limit, k);
    hide RedisAfter;
  }

  lemma EntryStep(calls: seq<Call>, c: Call, d: Call, digest: string -> string)
    requires Keyed(c, digest) && Keyed(d, digest) && Hashed(calls, digest)
    requires d.bucket == c.bucket ==> d.limit == c.limit
    requires calls != [] ==> calls[|calls| - 1].at <= d.at
    requires EntryTracks(calls, c, digest)
    ensures Hashed(calls + [d], digest) && EntryTracks(calls + [d], c, digest)
  {
    KeysAreInjective(c, d, digest);
    LifeOfStep(calls, c, d, digest);
    var r, life := RedisAfterAll(calls, digest), LifeOf(calls, c, digest);
    assert RedisAfterAll(calls + [d], digest) == RedisAfter(r, Key(d, digest), d.at, d.limit) by {
      assert (calls + [d])[..|calls|] == calls;
    }
    hide Key, RedisAfter, LifeOf, RedisAfterAll, EntryIs, NextLife;
    assert calls == [] ==> life.None? by { NoLifeYet(c, digest); }
    if SameCounter(d, c, digest) {
      EntrySame(r, Key(c, digest), LastAt(calls), d.at, d.limit, life);
    } else {
      EntryOther(r, Key(d, digest), Key(c, digest), LastAt(calls), d.at, d.limit, life);
    }
  }

  lemma NoLifeYet(c: Call, digest: string -> string)
    requires Keyed(c, digest)
    ensures LifeOf([], c, digest) == None
  {
  }

  lemma PrefixIsATrace(calls: seq<Call>, c: Call, digest: string -> string)
    requires calls != [] && Hashed(calls, digest) && SharesLimit(calls, c) && Ordered(calls)
    ensures var rest, d := calls[..|calls| - 1], calls[|calls| - 1];
            && Hashed(rest, digest) && SharesLimit(rest, c) && Ordered(rest) && Keyed(d, digest)
            && (d.bucket == c.bucket ==> d.limit == c.limit) && (rest != [] ==> rest[|rest| - 1].at <= d.at)
  {
  }

  lemma {:induction false} RedisEntry(calls: seq<Call>, c: Call, digest: string -> string)
    requires Hashed(calls, digest) && Keyed(c, digest) && SharesLimit(calls, c) && Ordered(calls)
    ensures EntryTracks(calls, c, digest)
  {
    if calls != [] {
      hide EntryTracks, SharesLimit, Ordered, Hashed, Keyed, LastAt;
      PrefixIsATrace(calls, c, digest);
      var d, rest := calls[|calls| - 1], calls[..|calls| - 1];
      assert calls == rest + [d];
      RedisEntry(rest, c, digest);
      EntryStep(rest, c, d, digest);
    }
  }

  /** Redis counts exactly the calls of the counter's current life. */
  lemma RedisCountsTheLife(calls: seq<Call>, digest: string -> string)
    requires calls != [] && Hashed(calls, digest) && Ordered(calls) && SharesLimit(calls, calls[|calls| - 1])
    ensures var c, rest := calls[|calls| - 1], calls[..|calls| - 1];
            RedisCount(RedisAfterAll(rest, digest), Key(c, digest), c.at) == LiveCalls(rest, c, c.at, digest) + 1
  {
    var c, rest := calls[|calls| - 1], calls[..|calls| - 1];
    RedisEntry(rest, c, digest);
    assert rest != [] ==> rest[|rest| - 1].at <= c.at;
    CountOfEntry(RedisAfterAll(rest, digest), Key(c, digest), c.at);
    hide RedisCount, RedisAfterAll, Key, LifeStart, Occurrences;
  }

  lemma CountOfEntry(r: Redis, key: string, at: real)
    ensures RedisCount(r, key, at) == if Alive(r, key, at) then r[key].count + 1 else 1
  {
  }

  lemma {:induction false} LaterCallsAreFewer(calls: seq<Call>, c: Call, from: nat, digest: string -> string)
    requires Keyed(c, digest) && Hashed(calls, digest) && from <= |calls|
    ensures Earlier(calls[from..], c, digest) <= Earlier(calls, c, digest)
    decreases |calls| - from
  {
    if from == 0 {
      assert calls[0..] == calls;
    } else if from == |calls| {
      assert calls[from..] == [];
    } else {
      var n := |calls| - 1;
      LaterCallsAreFewer(calls[..n], c, from, digest);
      assert calls[from..][..n - from] == calls[..n][from..];
    }
  }

  /** The two stores decide differently exactly when memory rejects the call and the calls of the
      counter's current life are still within the limit; Redis is never the stricter one. */
  lemma DecisionsDifferExactly(calls: seq<Call>, digest: string -> string)
    requires calls != [] && Hashed(calls, digest) && Ordered(calls) && SharesLimit(calls, calls[|calls| - 1])
    ensures var c, rest := calls[|calls| - 1], calls[..|calls| - 1];
            && (RedisOutcome(calls, digest) != MemoryOutcome(calls, digest) <==>
                  MemoryOutcome(calls, digest).TooMany? && LiveCalls(rest, c, c.at, digest) + 1 <= c.limit.requests)
            && (MemoryOutcome(calls, digest) == Admitted ==> RedisOutcome(calls, digest) == Admitted)
            && (RedisOutcome(calls, digest) == Admitted <==> LiveCalls(rest, c, c.at, digest) + 1 <= c.limit.requests)
  {
    var c, rest := calls[|calls| - 1], calls[..|calls| - 1];
    RedisCountsTheLife(calls, digest);
    MemoryCounts(rest, c, digest);
    LifeWithinTrace(rest, c, c.at, digest);
    hide RedisCount, RedisAfterAll, Key, LiveCalls, Occurrences, MemoryAfter;
  }

  lemma LifeWithinTrace(calls: seq<Call>, c: Call, at: real, digest: string -> string)
    requires Keyed(c, digest) && Hashed(calls, digest)
    ensures LiveCalls(calls, c, at, digest) <= Earlier(calls, c, digest)
  {
    var start := LifeStart(calls, c, digest);
    if start.Some? { LaterCallsAreFewer(calls, c, start.value, digest); }
    hide Occurrences, LifeStart;
  }

  // ---------------------------------------------------------------------
  // When the counts agree.
  // ---------------------------------------------------------------------

  /** When the first call sharing c's counter reached Redis. */
  function FirstAt(calls: seq<Call>, c: Call, digest: string -> string): Option<real>
    requires Keyed(c, digest) && Hashed(calls, digest)
  {
    if calls == [] then None
    else
      var d, first := calls[|calls| - 1], FirstAt(calls[..|calls| - 1], c, digest);
      if first.Some? then first
      else if SameCounter(d, c, digest) then Some(d.at)
      else None
  }

  /** The last call reaches Redis before the counter it shares can have expired. */
  predicate OnTime(calls: seq<Call>, digest: string -> string)
    requires calls != [] && Hashed(calls, digest)
  {
    var c := calls[|calls| - 1];
    var first := FirstAt(calls[..|calls| - 1], c, digest);
    first.Some? ==> c.at < Deadline(first.value, c)
  }

  /** The current life is the first, with every sharing call, or began after the first one's deadline, with fewer. */
  ghost predicate FirstOrLater(calls: seq<Call>, c: Call, digest: string -> string)
    requires Keyed(c, digest) && Hashed(calls, digest)
  {
    var first, start, n := FirstAt(calls, c, digest), LifeStart(calls, c, digest), Earlier(calls, c, digest);
    if start.None? then first.None? && n == 0
    else
      var at, live := calls[start.value].at, Earlier(calls[start.value..], c, digest);
      && first.Some? && n >= 1
      && ((at == first.value && live == n) || (at >= Deadline(first.value, c) && live < n))
  }

  lemma FirstOrLaterStep(calls: seq<Call>, c: Call, d: Call, digest: string -> string)
    requires Keyed(c, digest) && Keyed(d, digest) && Hashed(calls, digest) && FirstOrLater(calls, c, digest)
    ensures Hashed(calls + [d], digest) && FirstOrLater(calls + [d], c, digest)
  {
    var all := calls + [d];
    assert all[..|all| - 1] == calls;
    LifeStep(calls, c, d, digest);
    CountOne(calls, c, d, digest);
    var after := LifeStart(all, c, digest);
    if after.Some? { CountSuffix(calls, c, d, after.value, digest); }
    assert FirstAt(all, c, digest) == if FirstAt(calls, c, digest).Some? then FirstAt(calls, c, digest)
                                      else if SameCounter(d, c, digest) then Some(d.at) else None;
    hide LifeStart, Occurrences, FirstAt, SameCounter;
  }

  lemma {:induction false} FirstLifeOrLater(calls: seq<Call>, c: Call, digest: string -> string)
    requires Keyed(c, digest) && Hashed(calls, digest)
    ensures FirstOrLater(calls, c, digest)
  {
    if calls != [] {
      hide FirstOrLater;
      var d, rest := calls[|calls| - 1], calls[..|calls| - 1];
      FirstLifeOrLater(rest, c, digest);
      FirstOrLaterStep(rest, c, d, digest);
      assert rest + [d] == calls;
    }
  }

  /** Every sharing call is live at `at` exactly when the first one's deadline has not passed. */
  lemma AllLive(calls: seq<Call>, c: Call, at: real, digest: string -> string)
    requires Keyed(c, digest) && Hashed(calls, digest)
    requires forall i :: 0 <= i < |calls| ==> calls[i].at <= at
    ensures var first := FirstAt(calls, c, digest);
            LiveCalls(calls, c, at, digest) == Earlier(calls, c, digest) <==> (first.Some? ==> at < Deadline(first.value, c))
  {
    FirstLifeOrLater(calls, c, digest);
    hide Occurrences, LifeStart, FirstAt, SameCounter;
    var start := LifeStart(calls, c, digest);
    if start.Some? { assert calls[start.value].at <= at; }
  }

  /** Redis counts a call as the memory store does if and only if the call is on time. */
  lemma RedisCountsExactly(calls: seq<Call>, digest: string -> string)
    requires calls != [] && Hashed(calls, digest) && Ordered(calls) && SharesLimit(calls, calls[|calls| - 1])
    ensures var c, rest := calls[|calls| - 1], calls[..|calls| - 1];
            RedisCount(RedisAfterAll(rest, digest), Key(c, digest), c.at)
              == MemoryCount(MemoryAfter(rest, digest), Key(c, digest), Window(c))
            <==> OnTime(calls, digest)
  {
    var c, rest := calls[|calls| - 1], calls[..|calls| - 1];
    RedisCountsTheLife(calls, digest);
    MemoryCounts(rest, c, digest);
    AllLive(rest, c, c.at, digest);
    hide RedisCount, RedisAfterAll, Key, Occurrences, MemoryAfter, LifeOf, FirstAt, LiveCalls, Deadline, Ordered, SharesLimit;
  }

  lemma {:induction false} FirstIsInTheWindow(calls: seq<Call>, c: Call, digest: string -> string)
    requires Hashed(calls, digest) && Keyed(c, digest) && SharesLimit(calls, c)
    requires forall i :: 0 <= i < |calls| ==> calls[i].clock <= calls[i].at
    ensures FirstAt(calls, c, digest).Some? ==> FirstAt(calls, c, digest).value >= (c.limit.window * Window(c)) as real
  {
    if calls != [] {
      var d, rest := calls[|calls| - 1], calls[..|calls| - 1];
      FirstIsInTheWindow(rest, c, digest);
      if SameCounter(d, c, digest) {
        assert Now(d) == c.limit.window * Window(d) + Now(d) % c.limit.window;
      }
    }
  }

  /** When Redis answers within one second of the clock reading, no counter expires inside
      its own window: the reason for keeping it one second longer than the window. */
  lemma ASecondOfLatencyIsOnTime(calls: seq<Call>, digest: string -> string)
    requires calls != [] && Hashed(calls, digest) && SharesLimit(calls, calls[|calls| - 1])
    requires forall i :: 0 <= i < |calls| ==> calls[i].clock <= calls[i].at <= calls[i].clock + 1.0
    ensures OnTime(calls, digest)
  {
    var c, rest := calls[|calls| - 1], calls[..|calls| - 1];
    FirstIsInTheWindow(rest, c, digest);
    assert Now(c) == c.limit.window * Window(c) + Now(c) % c.limit.window;
    assert Now(c) < c.limit.window * Window(c) + c.limit.window;
    assert c.clock < (c.limit.window * Window(c) + c.limit.window) as real;
  }

  /** The Redis store makes the decision of the memory store at every call of every such trace. */
  lemma RedisRefinesMemory(calls: seq<Call>, digest: string -> string)
    requires calls != [] && Hashed(calls, digest) && SharesLimit(calls, calls[|calls| - 1]) && Ordered(calls)
    requires forall i :: 0 <= i < |calls| ==> calls[i].clock <= calls[i].at <= calls[i].clock + 1.0
    ensures RedisOutcome(calls, digest) == MemoryOutcome(calls, digest)
  {
    ASecondOfLatencyIsOnTime(calls, digest);
    RedisCountsExactly(calls, digest);
  }

  /** A slower answer can admit a call over the limit: here 1.5 seconds late. */
  lemma ALateCallIsForgotten(digest: string -> string, bucket: string, who: string)
    requires |digest(who)| == 64
    ensures var limit := Limit(1, 10);
            var calls := [Call(bucket, who, limit, 0.0, 0.0), Call(bucket, who, limit, 9.5, 11.0)];
            && Hashed(calls, digest) && SharesLimit(calls, calls[1]) && Ordered(calls)
            && MemoryOutcome(calls, digest) == TooMany(1) && RedisOutcome(calls, digest) == Admitted
  {
    var limit := Limit(1, 10);
    var first, second := Call(bucket, who, limit, 0.0, 0.0), Call(bucket, who, limit, 9.5, 11.0);
    var calls := [first, second];
    assert calls[..1] == [first] && [first][..0] == [];
    assert Now(second) == 9 && Window(first) == Window(second) == 0;
    assert Key(first, digest) == Key(second, digest);
    var k := Key(first, digest);
    assert MemoryAfter([first], digest) == map[k := (1, 0)];
    assert RedisAfterAll([first], digest) == map[k := Entry(1, Some(11.0))];
  }

  // ---------------------------------------------------------------------
  // How many calls get through.
  // ---------------------------------------------------------------------

  function AdmittedInWindow(calls: seq<Call>, bucket: string, id: string, window: int, digest: string -> string): nat
    requires Hashed(calls, digest)
  {
    if calls == [] then 0
    else
      var c := calls[|calls| - 1];
      AdmittedInWindow(calls[..|calls| - 1], bucket, id, window, digest)
      + if c.bucket == bucket && digest(c.identity) == id && Window(c) == window && MemoryOutcome(calls, digest) == Admitted
        then 1 else 0
  }

  /** Admitted calls of one identity with from <= clock < to. */
  function AdmittedBetween(calls: seq<Call>, bucket: string, id: string, from: real, to: real, digest: string -> string): nat
    requires Hashed(calls, digest)
  {
    if calls == [] then 0
    else
      var c := calls[|calls| - 1];
      AdmittedBetween(calls[..|calls| - 1], bucket, id, from, to, digest)
      + if c.bucket == bucket && digest(c.identity) == id && from <= c.clock < to && MemoryOutcome(calls, digest) == Admitted
        then 1 else 0
  }

  /** An interval holds its first instant and not its last. */
  lemma AdmittedBetweenStep(calls: seq<Call>, c: Call, from: real, to: real, digest: string -> string)
    requires Hashed(calls, digest) && Keyed(c, digest)
    ensures Hashed(calls + [c], digest)
    ensures AdmittedBetween(calls + [c], c.bucket, digest(c.identity), from, to, digest)
         == AdmittedBetween(calls, c.bucket, digest(c.identity), from, to, digest)
            + if MemoryOutcome(calls + [c], digest) == Admitted && (c.clock == from || from < c.clock) && c.clock < to then 1 else 0
  {
    assert (calls + [c])[..|calls|] == calls;
  }

  /** A window admits min(calls made, limit), whatever the order of the clock readings. */
  lemma {:induction false} WindowAdmitsTheLimit(calls: seq<Call>, bucket: string, id: string, window: int, n: int, digest: string -> string)
    requires Hashed(calls, digest)
    requires forall i :: 0 <= i < |calls| && calls[i].bucket == bucket ==> calls[i].limit.requests == n
    ensures var made, limit := Occurrences(calls, bucket, id, window, digest), if n < 0 then 0 else n;
            AdmittedInWindow(calls, bucket, id, window, digest) == if made < limit then made else limit
  {
    if calls != [] {
      WindowAdmitsTheLimit(calls[..|calls| - 1], bucket, id, window, n, digest);
      MemoryAdmission(calls, digest);
    }
  }

  lemma WindowsOfAnInterval(c: Call, from: real)
    requires c.limit.window > 0 && from <= c.clock < from + c.limit.window as real
    ensures var w := FloorDiv(from.Floor, c.limit.window); w <= Window(c) <= w + 1
  {
    var width, a, now := c.limit.window, from.Floor, Now(c);
    assert a <= now <= a + width;
    Division.Monotone(a, now, width);
    Division.Monotone(now, a + width, width);
    assert (a + width) / width == a / width + 1 by { Division.NextMultiple(a, width); }
  }

  /** Any interval as long as the window admits at most twice the limit, on every trace. */
  lemma IntervalAdmitsTwiceTheLimit(calls: seq<Call>, bucket: string, id: string, limit: Limit, from: real, digest: string -> string)
    requires Hashed(calls, digest) && limit.requests >= 0 && limit.window > 0
    requires forall i :: 0 <= i < |calls| && calls[i].bucket == bucket ==> calls[i].limit == limit
    ensures AdmittedBetween(calls, bucket, id, from, from + limit.window as real, digest) <= 2 * limit.requests
  {
    hide AdmittedInWindow, AdmittedBetween, Occurrences;
    var w := FloorDiv(from.Floor, limit.window);
    IntervalWithinTwoWindows(calls, bucket, id, limit, from, digest);
    WindowAdmitsTheLimit(calls, bucket, id, w, limit.requests, digest);
    WindowAdmitsTheLimit(calls, bucket, id, w + 1, limit.requests, digest);
  }

  lemma {:induction false} IntervalWithinTwoWindows(calls: seq<Call>, bucket: string, id: string, limit: Limit, from: real, digest: string -> string)
    requires Hashed(calls, digest) && limit.window > 0
    requires forall i :: 0 <= i < |calls| && calls[i].bucket == bucket ==> calls[i].limit == limit
    ensures AdmittedBetween(calls, bucket, id, from, from + limit.window as real, digest)
         <= AdmittedInWindow(calls, bucket, id, FloorDiv(from.Floor, limit.window), digest)
          + AdmittedInWindow(calls, bucket, id, FloorDiv(from.Floor, limit.window) + 1, digest)
  {
    if calls != [] {
      var c := calls[|calls| - 1];
      IntervalWithinTwoWindows(calls[..|calls| - 1], bucket, id, limit, from, digest);
      if c.bucket == bucket && from <= c.clock < from + limit.window as real {
        WindowsOfAnInterval(c, from);
      }
    }
  }

  /** Retry-After is the time to the next window, neither later nor sooner; a caller that waits
      it out and is the first of that window gets through. */
  lemma RetryAfterReachesTheNextWindow(calls: seq<Call>, digest: string -> string)
    requires calls != [] && Hashed(calls, digest)
    ensures var c, outcome := calls[|calls| - 1], MemoryOutcome(calls, digest);
            outcome.TooMany? ==>
              var wait := outcome.retryAfter;
              var retry := c.(clock := c.clock + wait as real);
              && 1 <= wait <= c.limit.window
              && (forall t :: Now(c) <= t < Now(c) + wait ==> FloorDiv(t, c.limit.window) == Window(c))
              && Window(retry) == Window(c) + 1
              && (Earlier(calls, retry, digest) == 0 && c.limit.requests >= 1 ==>
                    Hashed(calls + [retry], digest) && MemoryOutcome(calls + [retry], digest) == Admitted)
  {
    if MemoryOutcome(calls, digest).TooMany? {
      RetryAdmitted(calls, digest, MemoryOutcome(calls, digest).retryAfter);
    }
  }

  lemma RetryAdmitted(calls: seq<Call>, digest: string -> string, wait: int)
    requires calls != [] && Hashed(calls, digest)
    requires var c := calls[|calls| - 1]; wait == c.limit.window - FloorMod(Now(c), c.limit.window)
    ensures var c := calls[|calls| - 1];
            var retry := c.(clock := c.clock + wait as real);
            && 1 <= wait <= c.limit.window
            && (forall t :: Now(c) <= t < Now(c) + wait ==> FloorDiv(t, c.limit.window) == Window(c))
            && Window(retry) == Window(c) + 1
            && (Earlier(calls, retry, digest) == 0 && c.limit.requests >= 1 ==>
                  Hashed(calls + [retry], digest) && MemoryOutcome(calls + [retry], digest) == Admitted)
  {
    hide FloorDiv, FloorMod, MemoryOutcome, Occurrences;
    var c := calls[|calls| - 1];
    var retry := c.(clock := c.clock + wait as real);
    WaitLength(Now(c), c.limit.window);
    assert Now(retry) == Now(c) + wait;
    var all := calls + [retry];
    assert all[..|all| - 1] == calls && Keyed(retry, digest);
    MemoryAdmission(all, digest);
    CountOne(calls, retry, retry, digest);
  }

  lemma WaitLength(now: int, n: int)
    requires n > 0
    ensures var wait := n - FloorMod(now, n);
            && 1 <= wait <= n && FloorDiv(now + wait, n) == FloorDiv(now, n) + 1
            && forall t :: now <= t < now + wait ==> FloorDiv(t, n) == FloorDiv(now, n)
  {
    var q, r := now / n, now % n;
    assert now == n * q + r;
    Division.Unique(n, q + 1, 0);
    assert now + (n - r) == n * (q + 1);
    forall t | now <= t < now + (n - r) ensures t / n == q {
      Division.Unique(n, q, t - n * q);
    }
  }
}
