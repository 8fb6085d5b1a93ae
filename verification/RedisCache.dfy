/** The best-effort Redis client: every call may fail, a failure opens a circuit breaker, and the
    cached lookup built on it is never a request failure. One cache family. */
module RedisCache {
  import opened Results

  const COOLDOWN := 10.0

  /** What became of a command: a lost reply leaves it unknown whether Redis carried it out. */
  datatype Wire = Works | FailsUnapplied | FailsApplied

  datatype Entry<T> = Entry(value: T, stored: real, ttl: real)

  type Entries<T> = map<(nat, string), Entry<T>>

  predicate Live<T>(e: Entry<T>, now: real) {
    now < e.stored + e.ttl
  }

  /** What Redis answers to GET: expired entries are gone. */
  function Fetch<T>(entries: Entries<T>, version: nat, key: string, now: real): Option<Entry<T>> {
    if (version, key) in entries && Live(entries[(version, key)], now) then Some(entries[(version, key)]) else None
  }

  // --- the breaker ------------------------------------------------------------------------------

  /** A command sent at `at` whose outcome is known at `done`. A bump ignores the breaker. */
  datatype Call = Call(at: real, done: real, wire: Wire, bump: bool)

  predicate Attempted(down: real, c: Call) {
    c.bump || c.at >= down
  }

  function DownAfter(down: real, c: Call): real {
    if Attempted(down, c) && !c.wire.Works? then c.done + COOLDOWN else down
  }

  /** The command is sent and its reply comes back. */
  predicate Answers(down: real, c: Call) {
    Attempted(down, c) && c.wire.Works?
  }

  /** A lookup finds a live, readable entry under the version it was told. */
  predicate Hits<T>(down: real, entries: Entries<T>, version: nat, key: string, readable: T -> bool, ask: Call,
                    get: Call) {
    && Answers(down, ask)
    && Answers(DownAfter(down, ask), get)
    && Fetch(entries, version, key, get.at).Some?
    && readable(entries[(version, key)].value)
  }

  class RedisServer<T> {
    var version: nat
    var entries: Entries<T>

    constructor ()
      ensures version == 0 && entries == map[]
    {
      version := 0;
      entries := map[];
    }
  }

  class RedisCache<T> {
    const redis: RedisServer<T>
    var downUntil: real

    constructor (redis: RedisServer<T>)
      ensures this.redis == redis && downUntil == 0.0
    {
      this.redis := redis;
      downUntil := 0.0;
    }

    method Failed(done: real)
      modifies this
      ensures downUntil == done + 10.0
    {
      downUntil := done + COOLDOWN;
    }

    method Version(c: Call) returns (v: Option<nat>)
      requires !c.bump
      modifies this
      ensures downUntil == DownAfter(old(downUntil), c)
      ensures v == if old(downUntil) <= c.at && c.wire == Works then Some(redis.version) else None
      ensures downUntil == if old(downUntil) <= c.at && c.wire != Works then c.done + 10.0 else old(downUntil)
    {
      if c.at < downUntil {
        return None;
      }
      if !c.wire.Works? {
        Failed(c.done);
        return None;
      }
      return Some(redis.version);
    }

    method Get(c: Call, version: nat, key: string) returns (hit: Option<Entry<T>>)
      requires !c.bump
      modifies this
      ensures downUntil == DownAfter(old(downUntil), c)
      ensures old(downUntil) <= c.at && c.wire == Works && (version, key) in redis.entries
              && c.at < redis.entries[(version, key)].stored + redis.entries[(version, key)].ttl
              <==> hit.Some?
      ensures hit.Some? ==> hit.value == redis.entries[(version, key)]
      ensures downUntil == if old(downUntil) <= c.at && c.wire != Works then c.done + 10.0 else old(downUntil)
    {
      if c.at < downUntil {
        return None;
      }
      if !c.wire.Works? {
        Failed(c.done);
        return None;
      }
      return Fetch(redis.entries, version, key, c.at);
    }

    method Set(c: Call, version: nat, key: string, value: T, ttl: real)
      requires !c.bump
      modifies this, redis
      ensures downUntil == DownAfter(old(downUntil), c)
      ensures redis.version == old(redis.version)
      ensures redis.entries ==
              if old(downUntil) <= c.at && c.wire != FailsUnapplied
              then old(redis.entries)[(version, key) := Entry(value, c.at, ttl)]
              else old(redis.entries)
      ensures downUntil == if old(downUntil) <= c.at && c.wire != Works then c.done + 10.0 else old(downUntil)
    {
      if c.at < downUntil {
        return;
      }
      if !c.wire.FailsUnapplied? {
        redis.entries := redis.entries[(version, key) := Entry(value, c.at, ttl)];
      }
      if !c.wire.Works? {
        Failed(c.done);
      }
    }

    /** Always attempted; the breaker opens when the reply does not come. */
    method Bump(c: Call)
      requires c.bump
      modifies this, redis
      ensures downUntil == DownAfter(old(downUntil), c)
      ensures redis.entries == old(redis.entries)
      ensures redis.version == if c.wire == FailsUnapplied then old(redis.version) else old(redis.version) + 1
      ensures downUntil == if c.wire != Works then c.done + 10.0 else old(downUntil)
    {
      if !c.wire.FailsUnapplied? {
        redis.version := redis.version + 1;
      }
      if !c.wire.Works? {
        Failed(c.done);
      }
    }

    /** The one caching pattern, run with nobody in between. `load` is the loader's answer, `readable`
        whether a stored value still has the expected shape. */
    method CachedJson(key: string, ttl: real, load: Result<T, string>, readable: T -> bool,
                      ask: Call, get: Call, put: Call)
      returns (answer: Result<T, string>)
      requires !ask.bump && !get.bump && !put.bump
      modifies this, redis
      ensures redis.version == old(redis.version)
      // An entry is served exactly when both questions are asked and answered and the entry is there,
      // alive, and readable; then nothing changes. Otherwise it is the loader's answer.
      ensures if && old(downUntil) <= ask.at && ask.wire == Works && old(downUntil) <= get.at && get.wire == Works
                 && (redis.version, key) in old(redis.entries)
                 && var e := old(redis.entries)[(redis.version, key)];
                    get.at < e.stored + e.ttl && readable(e.value)
              then answer == Ok(old(redis.entries)[(redis.version, key)].value)
                   && redis.entries == old(redis.entries) && downUntil == old(downUntil)
              else answer == load
      // And an answer that is loaded is stored when all goes well, and never without a version.
      ensures old(downUntil) <= ask.at && ask.wire == Works && old(downUntil) <= get.at && get.wire == Works
              && old(downUntil) <= put.at && put.wire == Works && load.Ok?
              && ((redis.version, key) in old(redis.entries) ==>
                    !readable(old(redis.entries)[(redis.version, key)].value))
              ==> redis.entries == old(redis.entries)[(redis.version, key) := Entry(load.value, put.at, ttl)]
      ensures ask.at < old(downUntil) || ask.wire != Works || load.Err? ==> redis.entries == old(redis.entries)
      ensures answer == if Hits(old(downUntil), old(redis.entries), redis.version, key, readable, ask, get)
                        then Ok(old(redis.entries)[(redis.version, key)].value) else load
      // The store only ever changes by recording this answer under the version that was read, and it
      // does so exactly when the version is known, nothing usable was found, and the command arrives.
      ensures redis.entries ==
              if && Answers(old(downUntil), ask) && load.Ok?
                 && !Hits(old(downUntil), old(redis.entries), redis.version, key, readable, ask, get)
                 && Attempted(DownAfter(DownAfter(old(downUntil), ask), get), put) && !put.wire.FailsUnapplied?
              then old(redis.entries)[(redis.version, key) := Entry(load.value, put.at, ttl)]
              else old(redis.entries)
      // Each command that is sent and fails opens the breaker for the ones after it.
      ensures downUntil ==
              var asked := DownAfter(old(downUntil), ask);
              if !Answers(old(downUntil), ask) then asked
              else
                var got := DownAfter(asked, get);
                if Hits(old(downUntil), old(redis.entries), redis.version, key, readable, ask, get) || load.Err?
                then got
                else DownAfter(got, put)
    {
      var version := Version(ask);
      if version.None? {
        return load;
      }
      var hit := Get(get, version.value, key);
      if hit.Some? && readable(hit.value.value) {
        return Ok(hit.value.value);
      }
      answer := load;
      if load.Ok? {
        Set(put, version.value, key, load.value, ttl);
      }
    }
  }

  // --- how often the breaker lets a failure through ---------------------------------------------

  ghost predicate Sequential(calls: seq<Call>) {
    && (forall i | 0 <= i < |calls| :: calls[i].at <= calls[i].done)
    && (forall i, j | 0 <= i < j < |calls| :: calls[i].done <= calls[j].at)
  }

  /** The breaker before call `n`, starting from `down`. */
  function Down(down: real, calls: seq<Call>, n: nat): real
    requires n <= |calls|
  {
    if n == 0 then down else DownAfter(Down(down, calls, n - 1), calls[n - 1])
  }

  /** Call `i` is a get, set or version call that was sent and failed. */
  predicate FailedRead(down: real, calls: seq<Call>, i: nat)
    requires i < |calls|
  {
    !calls[i].bump && Attempted(Down(down, calls, i), calls[i]) && !calls[i].wire.Works?
  }

  lemma {:induction false} DownLasts(down: real, calls: seq<Call>, i: nat, j: nat)
    requires Sequential(calls) && i < j <= |calls| && FailedRead(down, calls, i)
    ensures Down(down, calls, j) >= calls[i].done + COOLDOWN
    decreases j
  {
    if i < j - 1 {
      DownLasts(down, calls, i, j - 1);
    }
  }

  /** Failed calls are at least one cooldown apart. */
  lemma FailuresAreSpaced(down: real, calls: seq<Call>, i: nat, j: nat)
    requires Sequential(calls) && i < j < |calls|
    requires FailedRead(down, calls, i) && FailedRead(down, calls, j)
    ensures calls[j].at >= calls[i].done + 10.0
  {
    DownLasts(down, calls, i, j);
  }

  /** Any failing calls, named one by one, take their time. */
  lemma {:induction false} ManyFailuresTakeLong(down: real, calls: seq<Call>, failed: seq<nat>)
    requires Sequential(calls) && failed != []
    requires forall i | 0 <= i < |failed| :: failed[i] < |calls| && FailedRead(down, calls, failed[i])
    requires forall i, j | 0 <= i < j < |failed| :: failed[i] < failed[j]
    ensures calls[failed[|failed| - 1]].done >= calls[failed[0]].done + (|failed| - 1) as real * 10.0
    decreases |failed|
  {
    if |failed| > 1 {
      var n := |failed| - 1;
      ManyFailuresTakeLong(down, calls, failed[..n]);
      FailuresAreSpaced(down, calls, failed[n - 1], failed[n]);
    }
  }

  function FailureCount(down: real, calls: seq<Call>, n: nat): nat
    requires n <= |calls|
  {
    if n == 0 then 0 else FailureCount(down, calls, n - 1) + if FailedRead(down, calls, n - 1) then 1 else 0
  }

  /** The last of the failed calls among the first `n` came at least this late. */
  lemma {:induction false} FailuresTakeTime(down: real, calls: seq<Call>, n: nat, t: real) returns (last: nat)
    requires Sequential(calls) && n <= |calls| && FailureCount(down, calls, n) > 0
    requires forall i | 0 <= i < n :: FailedRead(down, calls, i) ==> t <= calls[i].done
    ensures last < n && FailedRead(down, calls, last)
    ensures calls[last].done >= t + (FailureCount(down, calls, n) - 1) as real * COOLDOWN
    decreases n
  {
    if FailedRead(down, calls, n - 1) {
      last := n - 1;
      if FailureCount(down, calls, n - 1) > 0 {
        var before := FailuresTakeTime(down, calls, n - 1, t);
        FailuresAreSpaced(down, calls, before, last);
      }
    } else {
      last := FailuresTakeTime(down, calls, n - 1, t);
    }
  }

  /** However many calls there are, the failures in any stretch of time are bounded by its length. */
  lemma FailuresAreFew(down: real, calls: seq<Call>, t: real, length: real)
    requires Sequential(calls) && length > 0.0
    requires forall i | 0 <= i < |calls| :: FailedRead(down, calls, i) ==> t <= calls[i].done < t + length
    ensures FailureCount(down, calls, |calls|) as real < length / COOLDOWN + 1.0
  {
    if FailureCount(down, calls, |calls|) > 0 {
      var last := FailuresTakeTime(down, calls, |calls|, t);
    }
  }
}
