/** The fixed-window rate limiter (builtin/limiter/limiter.go). */
module Limiter {
  // 64 shards that drop expired buckets when they grow, against one map that never drops anything.
  // A call of allow is one atomic step.

  import opened Words

  const Shards := 64
  const ShardCapacity := 2048
  const FnvOffset := 14695981039346656037
  const FnvPrime := 1099511628211

  type Key = seq<byte>

  datatype Bucket = Bucket(count: int, resetTime: int)
  type Entries = map<Key, Bucket>

  datatype Config = Config(rate: int, windowSecs: int) {
    predicate Valid() { rate >= 1 && windowSecs >= 1 }
  }

  datatype Answer = Answer(granted: bool, remaining: int, resetInSecs: int)
  datatype Step = Step(entries: Entries, answer: Answer)

  // ----- the specification: one map, nothing dropped -----

  function NewBucket(cfg: Config, now: int): Bucket { Bucket(1, now + cfg.windowSecs) }
  function FirstAnswer(cfg: Config): Answer { Answer(true, cfg.rate - 1, cfg.windowSecs) }

  /** One more request in a running window. */
  function CountIn(cfg: Config, b: Bucket, now: int): Answer {
    var resetIn := if b.resetTime - now > 0 then b.resetTime - now else 0;
    if b.count + 1 > cfg.rate then Answer(false, 0, resetIn) else Answer(true, cfg.rate - (b.count + 1), resetIn)
  }

  function Allow(cfg: Config, m: Entries, key: Key, now: int): Step {
    if key !in m || now >= m[key].resetTime then Step(m[key := NewBucket(cfg, now)], FirstAnswer(cfg))
    else Step(m[key := m[key].(count := m[key].count + 1)], CountIn(cfg, m[key], now))
  }

  // ----- the implementation -----

  /** FNV-1a over the bytes, in 64-bit arithmetic. */
  function Hash(key: Key, n: nat): (h: nat)
    requires n <= |key|
    ensures h < TwoTo64
  {
    if n == 0 then FnvOffset else Xor(Hash(key, n - 1), key[n - 1]) * FnvPrime % TwoTo64
  }

  function ShardOf(key: Key): (i: nat)
    ensures i < Shards
  {
    Hash(key, |key|) % Shards
  }

  predicate Expired(b: Bucket, now: int) { now >= b.resetTime }

  function DropExpired(m: Entries, now: int): Entries {
    map k | k in m && !Expired(m[k], now) :: m[k]
  }

  /** allow on the key's own shard. */
  function AllowInShard(cfg: Config, m: Entries, key: Key, now: int): Step {
    if key !in m then
      var kept := if |m| > ShardCapacity then DropExpired(m, now) else m;
      Step(kept[key := NewBucket(cfg, now)], FirstAnswer(cfg))
    else if Expired(m[key], now) then Step(m[key := NewBucket(cfg, now)], FirstAnswer(cfg))
    else Step(m[key := m[key].(count := m[key].count + 1)], CountIn(cfg, m[key], now))
  }

  class RateLimiter {
    const cfg: Config
    var shards: seq<Entries>

    ghost predicate Valid()
      reads this
    {
      cfg.Valid() && |shards| == Shards
    }

    constructor (c: Config)
      requires c.Valid()
      ensures Valid() && cfg == c && forall i | 0 <= i < Shards :: shards[i] == map[]
    {
      cfg := c;
      shards := seq(Shards, _ => map[]);
    }

    method GetShard(key: Key) returns (i: nat)
      ensures i == ShardOf(key)
    {
      var hash := FnvOffset;
      for n := 0 to |key|
        invariant hash == Hash(key, n)
      {
        hash := Xor(hash, key[n]);
        hash := hash * FnvPrime % TwoTo64;
      }
      i := hash % Shards;
    }

    method AllowRequest(key: Key, now: int) returns (r: Answer)
      requires Valid()
      modifies this
      ensures Valid()
      ensures var i := ShardOf(key); var s := AllowInShard(cfg, old(shards)[i], key, now);
        shards == old(shards)[i := s.entries] && r == s.answer
    {
      var idx := GetShard(key);
      var entries := shards[idx];
      if key !in entries {
        if |entries| > ShardCapacity { entries := DropExpired(entries, now); }
        shards := shards[idx := entries[key := Bucket(1, now + cfg.windowSecs)]];
        return Answer(true, cfg.rate - 1, cfg.windowSecs);
      }
      var b := entries[key];
      if now >= b.resetTime {
        shards := shards[idx := entries[key := Bucket(1, now + cfg.windowSecs)]];
        return Answer(true, cfg.rate - 1, cfg.windowSecs);
      }
      var count := b.count + 1;
      shards := shards[idx := entries[key := b.(count := count)]];
      var resetInSecs := if b.resetTime - now > 0 then b.resetTime - now else 0;
      if count > cfg.rate { return Answer(false, 0, resetInSecs); }
      r := Answer(true, cfg.rate - count, resetInSecs);
    }
  }

  // ----- the shards behave as the one map -----

  /** A bucket that a shard no longer has is expired. */
  ghost predicate Represents(shards: seq<Entries>, m: Entries, now: int) {
    && |shards| == Shards
    && (forall k | k in m :: if k in shards[ShardOf(k)] then shards[ShardOf(k)][k] == m[k] else Expired(m[k], now))
    && (forall i, k | 0 <= i < Shards && k in shards[i] :: i == ShardOf(k) && k in m)
  }

  lemma {:induction false} SameAnswer(cfg: Config, shards: seq<Entries>, m: Entries, before: int, key: Key, now: int)
    requires Represents(shards, m, before) && before <= now
    ensures var i := ShardOf(key); var s := AllowInShard(cfg, shards[i], key, now); var t := Allow(cfg, m, key, now);
      s.answer == t.answer && Represents(shards[i := s.entries], t.entries, now)
  {
    var i := ShardOf(key);
    var s := AllowInShard(cfg, shards[i], key, now);
    assert key in shards[i] ==> key in m;
    assert forall k | k in s.entries && k != key :: k in shards[i] && s.entries[k] == shards[i][k];
    assert forall k | k in shards[i] && k !in s.entries :: Expired(shards[i][k], now);
  }

  // ----- runs -----

  datatype Call = Call(key: Key, now: int)

  ghost predicate Monotone(calls: seq<Call>) {
    forall i, j | 0 <= i <= j < |calls| :: calls[i].now <= calls[j].now
  }

  /** The single map after n calls, and the answer to the n-th. */
  function MapAfter(cfg: Config, calls: seq<Call>, n: nat): Entries
    requires n <= |calls|
  {
    if n == 0 then map[] else Allow(cfg, MapAfter(cfg, calls, n - 1), calls[n - 1].key, calls[n - 1].now).entries
  }

  function AnswerTo(cfg: Config, calls: seq<Call>, n: nat): Answer
    requires n < |calls|
  {
    Allow(cfg, MapAfter(cfg, calls, n), calls[n].key, calls[n].now).answer
  }

  /** The sharded limiter answers every call of every run as the single map does. */
  method Serve(cfg: Config, calls: seq<Call>) returns (answers: seq<Answer>)
    requires cfg.Valid() && Monotone(calls)
    ensures |answers| == |calls| && forall i | 0 <= i < |calls| :: answers[i] == AnswerTo(cfg, calls, i)
  {
    var limiter := new RateLimiter(cfg);
    answers := [];
    ghost var clock := if calls == [] then 0 else calls[0].now;
    for n := 0 to |calls|
      invariant limiter.Valid() && limiter.cfg == cfg && fresh(limiter)
      invariant Represents(limiter.shards, MapAfter(cfg, calls, n), clock)
      invariant forall j | n <= j < |calls| :: clock <= calls[j].now
      invariant |answers| == n && forall i | 0 <= i < n :: answers[i] == AnswerTo(cfg, calls, i)
    {
      var r := ServeOne(limiter, cfg, calls, n, clock);
      clock := calls[n].now;
      answers := answers + [r];
    }
  }

  method ServeOne(limiter: RateLimiter, cfg: Config, calls: seq<Call>, n: nat, ghost clock: int) returns (r: Answer)
    requires limiter.Valid() && limiter.cfg == cfg && n < |calls| && clock <= calls[n].now
    requires Represents(limiter.shards, MapAfter(cfg, calls, n), clock)
    modifies limiter
    ensures limiter.Valid() && r == AnswerTo(cfg, calls, n)
    ensures Represents(limiter.shards, MapAfter(cfg, calls, n + 1), calls[n].now)
  {
    SameAnswer(cfg, limiter.shards, MapAfter(cfg, calls, n), clock, calls[n].key, calls[n].now);
    r := limiter.AllowRequest(calls[n].key, calls[n].now);
  }

  // ----- how much is granted -----

  /** The granted calls of a key among the first n, at times from lo until before hi. */
  function Granted(cfg: Config, calls: seq<Call>, n: nat, key: Key, lo: int, hi: int): nat
    requires n <= |calls|
  {
    if n == 0 then 0 else
      Granted(cfg, calls, n - 1, key, lo, hi)
      + (if calls[n - 1].key == key && lo <= calls[n - 1].now < hi && AnswerTo(cfg, calls, n - 1).granted then 1 else 0)
  }

  lemma {:induction false} GrantedSplit(cfg: Config, calls: seq<Call>, n: nat, key: Key, lo: int, mid: int, hi: int)
    requires n <= |calls| && lo <= mid <= hi
    ensures Granted(cfg, calls, n, key, lo, hi) == Granted(cfg, calls, n, key, lo, mid) + Granted(cfg, calls, n, key, mid, hi)
  {
    if n > 0 { GrantedSplit(cfg, calls, n - 1, key, lo, mid, hi); }
  }

  lemma {:induction false} GrantedWithin(cfg: Config, calls: seq<Call>, n: nat, key: Key, lo: int, hi: int, a: int, b: int)
    requires n <= |calls| && a <= lo && hi <= b
    ensures Granted(cfg, calls, n, key, lo, hi) <= Granted(cfg, calls, n, key, a, b)
  {
    if n > 0 { GrantedWithin(cfg, calls, n - 1, key, lo, hi, a, b); }
  }

  lemma {:induction false} GrantedNone(cfg: Config, calls: seq<Call>, n: nat, key: Key, lo: int, hi: int)
    requires n <= |calls| && forall i | 0 <= i < n && calls[i].key == key :: !(lo <= calls[i].now < hi)
    ensures Granted(cfg, calls, n, key, lo, hi) == 0
  {
    if n > 0 { GrantedNone(cfg, calls, n - 1, key, lo, hi); }
  }

  function Min(a: int, b: int): int { if a <= b then a else b }

  /** About one key after n calls, b being its bucket and lo any time:
      every call so far came before the reset, the clock has reached the window's start, the window
      granted as many as it counted up to the rate, and the window before it no more than the rate. */
  ghost predicate WindowHolds(cfg: Config, calls: seq<Call>, n: nat, key: Key, lo: int, b: Bucket)
    requires n <= |calls|
  {
    var s := b.resetTime - cfg.windowSecs;
    && b.count >= 1
    && (forall i | 0 <= i < n && calls[i].key == key :: calls[i].now < b.resetTime)
    && (forall j | n <= j < |calls| :: s <= calls[j].now)
    && Granted(cfg, calls, n, key, s, b.resetTime) == Min(b.count, cfg.rate)
    && (s - cfg.windowSecs <= lo <= s ==> Granted(cfg, calls, n, key, lo, s) <= cfg.rate)
  }

  /** Nothing of this key was called yet. */
  ghost predicate Unseen(calls: seq<Call>, n: nat, key: Key)
    requires n <= |calls|
  {
    forall i | 0 <= i < n :: calls[i].key != key
  }

  lemma {:induction false} WindowKept(cfg: Config, calls: seq<Call>, n: nat, key: Key, lo: int)
    requires cfg.Valid() && Monotone(calls) && n <= |calls|
    ensures var m := MapAfter(cfg, calls, n); if key in m then WindowHolds(cfg, calls, n, key, lo, m[key]) else Unseen(calls, n, key)
  {
    if n > 0 {
      WindowKept(cfg, calls, n - 1, key, lo);
      var m, c := MapAfter(cfg, calls, n - 1), calls[n - 1];
      if c.key != key {
        if key in m { OtherKey(cfg, calls, n, key, lo, m[key]); }
      } else if key in m && c.now < m[key].resetTime {
        SameWindow(cfg, calls, n, key, lo, m[key]);
      } else if key in m {
        NewWindow(cfg, calls, n, key, lo, m[key]);
      } else {
        FirstWindow(cfg, calls, n, key, lo);
      }
    }
  }

  lemma {:induction false} OtherKey(cfg: Config, calls: seq<Call>, n: nat, key: Key, lo: int, b: Bucket)
    requires 0 < n <= |calls| && calls[n - 1].key != key && WindowHolds(cfg, calls, n - 1, key, lo, b)
    ensures WindowHolds(cfg, calls, n, key, lo, b)
  {
  }

  lemma {:induction false} SameWindow(cfg: Config, calls: seq<Call>, n: nat, key: Key, lo: int, b: Bucket)
    requires cfg.Valid() && 0 < n <= |calls| && calls[n - 1].key == key && WindowHolds(cfg, calls, n - 1, key, lo, b)
    requires var m := MapAfter(cfg, calls, n - 1); key in m && m[key] == b && calls[n - 1].now < b.resetTime
    ensures WindowHolds(cfg, calls, n, key, lo, b.(count := b.count + 1))
  {
  }

  lemma {:induction false} NewWindow(cfg: Config, calls: seq<Call>, n: nat, key: Key, lo: int, b: Bucket)
    requires cfg.Valid() && Monotone(calls) && 0 < n <= |calls| && calls[n - 1].key == key && WindowHolds(cfg, calls, n - 1, key, lo, b)
    requires var m := MapAfter(cfg, calls, n - 1); key in m && m[key] == b && calls[n - 1].now >= b.resetTime
    ensures WindowHolds(cfg, calls, n, key, lo, NewBucket(cfg, calls[n - 1].now))
  {
    var now, s := calls[n - 1].now, b.resetTime - cfg.windowSecs;
    GrantedNone(cfg, calls, n - 1, key, now, now + cfg.windowSecs);
    if now - cfg.windowSecs <= lo <= now {
      GrantedNone(cfg, calls, n - 1, key, b.resetTime, now);
      GrantedSplit(cfg, calls, n - 1, key, s, b.resetTime, now);
      GrantedWithin(cfg, calls, n - 1, key, lo, now, s, now);
    }
  }

  lemma {:induction false} FirstWindow(cfg: Config, calls: seq<Call>, n: nat, key: Key, lo: int)
    requires cfg.Valid() && Monotone(calls) && 0 < n <= |calls| && calls[n - 1].key == key && Unseen(calls, n - 1, key)
    requires key !in MapAfter(cfg, calls, n - 1)
    ensures WindowHolds(cfg, calls, n, key, lo, NewBucket(cfg, calls[n - 1].now))
  {
    var now := calls[n - 1].now;
    GrantedNone(cfg, calls, n - 1, key, now, now + cfg.windowSecs);
    GrantedNone(cfg, calls, n - 1, key, lo, now);
  }

  /** A window grants at most the rate, and exactly the rate once that many were asked for. */
  lemma {:induction false} WindowGrants(cfg: Config, calls: seq<Call>, n: nat, key: Key)
    requires cfg.Valid() && Monotone(calls) && n <= |calls| && key in MapAfter(cfg, calls, n)
    ensures var b := MapAfter(cfg, calls, n)[key];
      Granted(cfg, calls, n, key, b.resetTime - cfg.windowSecs, b.resetTime) == Min(b.count, cfg.rate)
  {
    WindowKept(cfg, calls, n, key, 0);
  }

  /** In any stretch of time as long as the window, at most twice the rate is granted. */
  lemma {:induction false} TwiceTheRate(cfg: Config, calls: seq<Call>, n: nat, key: Key, lo: int)
    requires cfg.Valid() && Monotone(calls) && n <= |calls|
    ensures Granted(cfg, calls, n, key, lo, lo + cfg.windowSecs) <= 2 * cfg.rate
  {
    if n > 0 {
      TwiceTheRate(cfg, calls, n - 1, key, lo);
      var c := calls[n - 1];
      if c.key == key && lo <= c.now < lo + cfg.windowSecs { Overlap(cfg, calls, n, key, lo); }
    }
  }

  lemma {:induction false} Overlap(cfg: Config, calls: seq<Call>, n: nat, key: Key, lo: int)
    requires cfg.Valid() && Monotone(calls) && 0 < n <= |calls|
    requires calls[n - 1].key == key && lo <= calls[n - 1].now < lo + cfg.windowSecs
    ensures Granted(cfg, calls, n, key, lo, lo + cfg.windowSecs) <= 2 * cfg.rate
  {
    WindowKept(cfg, calls, n, key, lo);
    var b := MapAfter(cfg, calls, n)[key];
    var s, hi := b.resetTime - cfg.windowSecs, lo + cfg.windowSecs;
    var top := if b.resetTime > hi then b.resetTime else hi;
    GrantedNone(cfg, calls, n, key, b.resetTime, top);
    GrantedSplit(cfg, calls, n, key, s, b.resetTime, top);
    if lo >= s {
      GrantedWithin(cfg, calls, n, key, lo, hi, s, top);
    } else {
      LastInWindow(cfg, calls, n, key);
      GrantedSplit(cfg, calls, n, key, lo, s, hi);
      GrantedWithin(cfg, calls, n, key, s, hi, s, top);
    }
  }

  /** The latest call of a key lies in its window. */
  lemma {:induction false} LastInWindow(cfg: Config, calls: seq<Call>, n: nat, key: Key)
    requires cfg.Valid() && Monotone(calls) && 0 < n <= |calls| && calls[n - 1].key == key
    ensures var m := MapAfter(cfg, calls, n); key in m && m[key].resetTime - cfg.windowSecs <= calls[n - 1].now < m[key].resetTime
  {
    WindowKept(cfg, calls, n - 1, key, 0);
  }

  // ----- the answers, from the calls alone -----

  /** The call opens a window: no earlier window of its key still runs. */
  ghost predicate Opens(cfg: Config, calls: seq<Call>, n: nat)
    requires n < |calls|
    decreases n
  {
    forall j | 0 <= j < n && calls[j].key == calls[n].key && Opens(cfg, calls, j) :: calls[j].now + cfg.windowSecs <= calls[n].now
  }

  /** A key's bucket is that of the last window it opened. */
  lemma {:induction false} LastOpened(cfg: Config, calls: seq<Call>, n: nat, key: Key) returns (i: nat)
    requires cfg.Valid() && Monotone(calls) && n <= |calls| && key in MapAfter(cfg, calls, n)
    ensures i < n && calls[i].key == key && Opens(cfg, calls, i)
    ensures calls[i].now + cfg.windowSecs == MapAfter(cfg, calls, n)[key].resetTime
    ensures forall j | i < j < n && calls[j].key == key :: !Opens(cfg, calls, j)
    decreases n
  {
    var m, c := MapAfter(cfg, calls, n - 1), calls[n - 1];
    if c.key == key && key !in m {
      WindowKept(cfg, calls, n - 1, key, 0);
      i := n - 1;
    } else {
      i := LastOpened(cfg, calls, n - 1, key);
      if c.key == key && c.now >= m[key].resetTime {
        OpensNext(cfg, calls, n - 1, i);
        i := n - 1;
      }
    }
  }

  lemma {:induction false} OpensNext(cfg: Config, calls: seq<Call>, n: nat, i: nat)
    requires Monotone(calls) && i < n < |calls| && calls[i].now + cfg.windowSecs <= calls[n].now
    requires forall j | i < j < n && calls[j].key == calls[n].key :: !Opens(cfg, calls, j)
    ensures Opens(cfg, calls, n)
  {
  }

  /** A call is granted exactly while its window has granted fewer than the rate; it is told how many
      are left after it, and when the window ends. */
  lemma {:induction false} AnswersExactly(cfg: Config, calls: seq<Call>, n: nat) returns (i: nat)
    requires cfg.Valid() && Monotone(calls) && n < |calls|
    ensures i <= n && calls[i].key == calls[n].key && Opens(cfg, calls, i)
    ensures forall j | i < j <= n && calls[j].key == calls[n].key :: !Opens(cfg, calls, j)
    ensures var start, end, now := calls[i].now, calls[i].now + cfg.windowSecs, calls[n].now;
      var before := Granted(cfg, calls, n, calls[n].key, start, end);
      && start <= now < end
      && AnswerTo(cfg, calls, n) == Answer(before < cfg.rate, if before < cfg.rate then cfg.rate - before - 1 else 0, end - now)
  {
    var key, m := calls[n].key, MapAfter(cfg, calls, n);
    i := LastOpened(cfg, calls, n + 1, key);
    LastInWindow(cfg, calls, n + 1, key);
    WindowKept(cfg, calls, n, key, 0);
    if key !in m || calls[n].now >= m[key].resetTime {
      GrantedNone(cfg, calls, n, key, calls[n].now, calls[n].now + cfg.windowSecs);
    }
  }
}
