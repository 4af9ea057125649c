/** The rate limiter's objects: the in-process limiter, the Redis server running the
    script, and the wrapper that prefers Redis and falls back. */
module RateLimit {
  import opened Common
  import opened SlidingWindow
  import opened RedisWindow

  type Key = string

  /** What a caller of `check` gets: permission, the seconds to wait, or an exception. */
  datatype Reply = Allowed | Denied(retryAfter: int) | Raised

  function LocalReply(d: Decision, ticks: int): Reply
    requires ticks > 0
  {
    match d
    case Admit => Allowed
    case Reject(r) => Denied(LocalRetry(r, ticks))
    case Fault => Raised
  }

  /** The in-process limiter. The ghost field remembers every check made against each key
      since it was last reset; the deque is always what that run leaves. */
  class SlidingWindowLimiter {
    const window: int
    const ticks: int
    var hits: map<Key, seq<int>>
    ghost var runs: map<Key, seq<Attempt>>

    ghost predicate Valid()
      reads this
    {
      && ticks > 0
      && hits.Keys == runs.Keys
      && forall k :: k in hits ==> hits[k] == Hits(runs[k], window)
    }

    ghost function Run(key: Key): seq<Attempt>
      reads this
    {
      if key in runs then runs[key] else []
    }

    constructor (windowSeconds: int, ticksPerSecond: int)
      requires ticksPerSecond > 0
      ensures Valid() && runs == map[] && window == windowSeconds * ticksPerSecond && ticks == ticksPerSecond
    {
      window := windowSeconds * ticksPerSecond;
      ticks := ticksPerSecond;
      hits, runs := map[], map[];
    }

    /** The trimming loop: what is left has neither lost a hit past the cutoff nor kept one up to it. */
    method PopExpired(deque: seq<int>, cutoff: int) returns (live: seq<int>)
      ensures live == Trim(deque, cutoff)
      ensures live != [] ==> live[0] > cutoff
      ensures exists n :: 0 <= n <= |deque| && live == deque[n..] && forall i :: 0 <= i < n ==> deque[i] <= cutoff
    {
      live := deque;
      ghost var n := 0;
      while live != [] && live[0] <= cutoff
        invariant 0 <= n <= |deque| && live == deque[n..] && forall i :: 0 <= i < n ==> deque[i] <= cutoff
        invariant Trim(live, cutoff) == Trim(deque, cutoff)
        decreases |live|
      {
        live := live[1..];
        n := n + 1;
      }
    }

    method Check(key: Key, limit: int, now: int) returns (reply: Reply)
      requires Valid()
      modifies this
      ensures Valid()
      ensures runs == old(runs)[key := old(Run(key)) + [Attempt(now, limit)]]
      ensures reply == LocalReply(Verdict(old(Run(key)), Attempt(now, limit), window), ticks)
    {
      var cutoff := now - window;
      var live := PopExpired(if key in hits then hits[key] else [], cutoff);
      ghost var a := Attempt(now, limit);
      OneMoreCheck(Run(key), a, live, window);
      runs := runs[key := Run(key) + [a]];
      if |live| >= limit {
        hits := hits[key := live];
        if live == [] {
          return Raised;
        }
        var remaining := window - (now - live[0]);
        return Denied(LocalRetry(remaining, ticks));
      }
      hits := hits[key := live + [now]];
      return Allowed;
    }

    /** Clear one key, or all of them. */
    method Reset(key: Option<Key>)
      requires Valid()
      modifies this
      ensures Valid()
      ensures forall k :: Run(k) == if key.None? || key.value == k then [] else old(Run(k))
    {
      if key.None? {
        hits, runs := map[], map[];
      } else {
        hits, runs := hits - {key.value}, runs - {key.value};
      }
    }
  }

  /** The shared Redis server: each key holds what a run of script executions leaves. */
  class RedisServer {
    var keys: map<Key, ZKey>
    ghost var runs: map<Key, seq<Call>>
    ghost const window: int

    ghost predicate Valid()
      reads this
    {
      forall k :: Lookup(k) == KeyAfter(Run(k), window)
    }

    function Lookup(key: Key): Option<ZKey>
      reads this
    {
      if key in keys then Some(keys[key]) else None
    }

    ghost function Run(key: Key): seq<Call>
      reads this
    {
      if key in runs then runs[key] else []
    }

    constructor (ghost window: int)
      ensures Valid() && runs == map[] && this.window == window
    {
      keys, runs := map[], map[];
      this.window := window;
    }

    /** Run the script against a key. */
    method Eval(key: Key, window: int, c: Call) returns (d: Decision)
      requires Valid() && window == this.window
      modifies this
      ensures Valid()
      ensures d == Script(KeyAfter(old(Run(key)), window), c, window).0
      ensures runs == old(runs)[key := old(Run(key)) + [c]]
    {
      var (decision, after) := Script(Lookup(key), c, window);
      d := decision;
      ghost var run := Run(key) + [c];
      assert run[..|run| - 1] == Run(key);
      runs := runs[key := run];
      keys := if after.None? then keys - {key} else keys[key := after.value];
      assert Lookup(key) == after && Run(key) == run;
      assert forall k :: k != key ==> Lookup(k) == old(Lookup(k)) && Run(k) == old(Run(k));
    }
  }

  const MILLIS := 1000

  /** What the environment brings to a check: the script call it would make, with the limit in
      force, and how Redis treats it. */
  datatype Ask = Ask(call: Call, fate: Fate)

  /** What one process's checks of a key rest on: whether Redis is wired up, the script executions
      on the shared key, and the checks the in-process limiter made. */
  datatype Budget = Budget(wired: bool, shared: seq<Call>, local: seq<Attempt>)

  /** Redis's decision, or Fault when it gives none: the in-process limiter then decides. */
  function Answer(b: Budget, ask: Ask, windowSeconds: int): Decision {
    if b.wired && ask.fate.Answered?
    then Script(KeyAfter(b.shared, windowSeconds * MILLIS), ask.call, windowSeconds * MILLIS).0
    else Fault
  }

  /** The script execution a check makes on the shared key, whether or not its reply arrives. */
  function SharedAfter(b: Budget, ask: Ask): seq<Call> {
    if b.wired && !ask.fate.Unreached? then b.shared + [ask.call] else b.shared
  }

  /** Another process runs the script on the shared key. */
  function Joined(b: Budget, call: Call): Budget {
    if b.wired then b.(shared := b.shared + [call]) else b
  }

  /** One check at `now`: the reply and what it leaves. */
  function Charge(b: Budget, now: int, ask: Ask, windowSeconds: int, ticks: Ticks): (Reply, Budget) {
    var a := Attempt(now, ask.call.limit);
    var after := b.(shared := SharedAfter(b, ask));
    match Answer(b, ask, windowSeconds)
    case Admit => (Allowed, after)
    case Reject(r) => (Denied(RedisRetry(r, MILLIS)), after)
    case Fault => (LocalReply(Verdict(b.local, a, windowSeconds * ticks), ticks), after.(local := b.local + [a]))
  }

  /** Every allowed check is one hit in the history that decided it, and a refused check is none
      there; the other history stands, except that a script whose reply was lost may still have
      taken one shared slot. */
  lemma ChargeRecords(b: Budget, now: int, ask: Ask, windowSeconds: int, ticks: Ticks)
    ensures var (reply, b') := Charge(b, now, ask, windowSeconds, ticks);
      var shared, shared' := ScriptLog(b.shared, windowSeconds * MILLIS), ScriptLog(b'.shared, windowSeconds * MILLIS);
      var local, local' := Log(b.local, windowSeconds * ticks), Log(b'.local, windowSeconds * ticks);
      if Answer(b, ask, windowSeconds) != Fault
      then shared' == shared + (if reply.Allowed? then [ask.call.now] else []) && b'.local == b.local
      else local' == local + (if reply.Allowed? then [now] else [])
           && (shared' == shared || (b.wired && ask.fate.LostReply? && shared' == shared + [ask.call.now]))
  {
    if b.wired && !ask.fate.Unreached? {
      ScriptLogSnoc(b.shared, ask.call, windowSeconds * MILLIS);
    }
    var a := Attempt(now, ask.call.limit);
    assert (b.local + [a])[..|b.local|] == b.local;
  }

  /** The limiter callers use: Redis when it is wired up and answers, the in-process one otherwise. */
  class MessageRateLimiter {
    const local: SlidingWindowLimiter
    const windowSeconds: int
    var redis: RedisServer?

    ghost predicate Valid()
      reads this, local, redis
    {
      && local.Valid()
      && local.window == windowSeconds * local.ticks
      && (redis != null ==> redis.Valid() && redis.window == windowSeconds * MILLIS)
    }

    constructor (windowSeconds: int, ticksPerSecond: int)
      requires ticksPerSecond > 0
      ensures Valid() && fresh(local) && redis == null && local.runs == map[]
    {
      local := new SlidingWindowLimiter(windowSeconds, ticksPerSecond);
      this.windowSeconds := windowSeconds;
      redis := null;
    }

    method UseRedis(client: RedisServer?)
      requires Valid() && (client != null ==> client.Valid() && client.window == windowSeconds * MILLIS)
      modifies this
      ensures Valid() && redis == client
    {
      redis := client;
    }

    /** The histories a check of this key rests on. */
    ghost function Holdings(key: Key): Budget
      reads this, local, redis
    {
      Budget(redis != null, if redis != null then redis.Run(key) else [], local.Run(key))
    }

    /** Try Redis: its decision, or Fault if it is not wired up, fails, or the script errs. */
    method Consult(key: Key, ask: Ask) returns (answer: Decision)
      requires Valid()
      modifies redis
      ensures Valid() && redis == old(redis)
      ensures answer == Answer(old(Holdings(key)), ask, windowSeconds)
      ensures Holdings(key) == old(Holdings(key)).(shared := SharedAfter(old(Holdings(key)), ask))
      ensures forall k :: k != key ==> Holdings(k) == old(Holdings(k))
    {
      answer := Fault;
      if redis != null && ask.fate != Unreached {
        var decision := redis.Eval(key, windowSeconds * MILLIS, ask.call);
        if ask.fate == Answered {
          answer := decision;
        }
      }
    }

    /** Another process's script execution on the same Redis server. */
    method RunElsewhere(key: Key, call: Call)
      requires Valid()
      modifies redis
      ensures Valid() && redis == old(redis)
      ensures Holdings(key) == Joined(old(Holdings(key)), call)
      ensures forall k :: k != key ==> Holdings(k) == old(Holdings(k))
    {
      if redis != null {
        var _ := redis.Eval(key, windowSeconds * MILLIS, call);
      }
    }

    /** One check at `now` by the process's own clock. A script error counts as a failure, so the
        in-process limiter then decides. */
    method Check(key: Key, now: int, ask: Ask) returns (reply: Reply)
      requires Valid()
      modifies local, redis
      ensures Valid() && redis == old(redis)
      ensures (reply, Holdings(key)) == Charge(old(Holdings(key)), now, ask, windowSeconds, local.ticks)
      ensures forall k :: k != key ==> Holdings(k) == old(Holdings(k))
    {
      var answer := Consult(key, ask);
      if answer.Admit? {
        return Allowed;
      }
      if answer.Reject? {
        return Denied(RedisRetry(answer.remaining, MILLIS));
      }
      reply := local.Check(key, ask.call.limit, now);
    }
  }
}
