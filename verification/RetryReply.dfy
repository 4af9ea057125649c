/** What a reply of the limiter tells its caller, by either backend: permission, or the seconds after
    which a slot is free and before which none is. */
module RetryReply {
  import opened Common
  import opened SlidingWindow
  import opened RedisWindow
  import opened RateLimit
  import Sessions

  /** Redis decides the check: it is wired up and answers. */
  predicate ByRedis(b: Budget, ask: Ask) {
    b.wired && ask.fate.Answered?
  }

  predicate SameLimit(calls: seq<Call>, limit: int) {
    forall i :: 0 <= i < |calls| ==> calls[i].limit == limit
  }

  // --- The script's history is the deque's -----------------------------------------

  lemma ScriptLogStep(run: seq<Call>, c: Call, window: int)
    requires Proper(run + [c]) && window > 0 && ScriptLog(run, window) == Log(AsAttempts(run), window)
    ensures ScriptLog(run + [c], window) == Log(AsAttempts(run + [c]), window)
  {
    var a := Attempt(c.now, c.limit);
    SameDecisions(run, c, window);
    ScriptLogSnoc(run, c, window);
    assert AsAttempts(run + [c]) == AsAttempts(run) + [a];
    assert (AsAttempts(run) + [a])[..|run|] == AsAttempts(run);
  }

  lemma {:induction false} ScriptLogIsLog(run: seq<Call>, window: int)
    requires Proper(run) && window > 0
    ensures ScriptLog(run, window) == Log(AsAttempts(run), window)
  {
    if run != [] {
      var n := |run| - 1;
      assert run == run[..n] + [run[n]];
      ScriptLogIsLog(run[..n], window);
      ScriptLogStep(run[..n], run[n], window);
    }
  }

  lemma AttemptsTimely(run: seq<Call>, c: Call)
    requires Proper(run + [c])
    ensures Timely(AsAttempts(run)) && SlidingWindow.After(AsAttempts(run), c.now)
  {
    ProperPrefix(run, c);
  }

  // --- How many seconds ---------------------------------------------------------------

  lemma RoundedWithin(r: int, seconds: int, ticks: Ticks)
    requires 0 < r <= seconds * ticks
    ensures 1 <= RedisRetry(r, ticks) <= seconds
    ensures 1 <= LocalRetry(r, ticks) <= seconds + 1
  {
    RetryRounding(r, ticks);
    FitsIn(RedisRetry(r, ticks) - 1, seconds, r - 1, ticks);
    FitsIn(LocalRetry(r, ticks) - 1, seconds + 1, r, ticks);
  }

  /** `k` whole seconds within `x` ticks, which are less than `n` seconds. */
  lemma FitsIn(k: int, n: int, x: int, ticks: Ticks)
    requires k * ticks <= x < n * ticks
    ensures k < n
  {
    assert (k - n) * ticks == k * ticks - n * ticks;
    AtLeastOnce(k - n + 1, ticks);
    assert (k - n + 1) * ticks == (k - n) * ticks + ticks;
  }

  /** Whatever the limits were, a rejected caller is told at least one second, by Redis at most the
      window, and in process at most one second more. */
  lemma ToldSeconds(b: Budget, now: int, ask: Ask, windowSeconds: int, ticks: Ticks)
    requires windowSeconds > 0 && Charge(b, now, ask, windowSeconds, ticks).0.Denied?
    requires Proper(b.shared + [ask.call])
    requires Timely(b.local) && SlidingWindow.After(b.local, now)
    ensures var s := Charge(b, now, ask, windowSeconds, ticks).0.retryAfter;
      1 <= s <= windowSeconds + 1 && (Answer(b, ask, windowSeconds).Reject? ==> s <= windowSeconds)
  {
    var a := Attempt(ask.call.now, ask.call.limit);
    AtLeastOnce(windowSeconds, ticks);
    if Answer(b, ask, windowSeconds).Reject? {
      SameDecisions(b.shared, ask.call, windowSeconds * MILLIS);
      AttemptsTimely(b.shared, ask.call);
      VerdictByHistory(AsAttempts(b.shared), a, windowSeconds * MILLIS);
      RoundedWithin(Answer(b, ask, windowSeconds).remaining, windowSeconds, MILLIS);
    } else {
      var own := Attempt(now, ask.call.limit);
      VerdictByHistory(b.local, own, windowSeconds * ticks);
      RoundedWithin(Verdict(b.local, own, windowSeconds * ticks).remaining, windowSeconds, ticks);
    }
  }

  // --- When the caller comes back --------------------------------------------------------

  /** A later check of the key, decided by Redis like this one: the limit has been the same
      throughout, and the script has admitted nothing in between. */
  ghost predicate LaterByRedis(b: Budget, ask: Ask, later: Budget, again: Ask, limit: int, windowSeconds: int) {
    && ByRedis(b, ask) && ByRedis(later, again)
    && Proper(later.shared + [again.call]) && SameLimit(later.shared + [again.call], limit)
    && b.shared + [ask.call] <= later.shared
    && ScriptLog(later.shared, windowSeconds * MILLIS) == ScriptLog(b.shared, windowSeconds * MILLIS)
  }

  /** The same in process, by the process's own clock. */
  ghost predicate LaterInProcess(b: Budget, now: int, ask: Ask, later: Budget, then_: int, again: Ask, limit: int,
                                 window: int)
  {
    && !ByRedis(b, ask) && !ByRedis(later, again) && ask.call.limit == limit && again.call.limit == limit
    && Timely(later.local) && SlidingWindow.After(later.local, then_) && ConstantLimit(later.local, limit)
    && b.local + [Attempt(now, limit)] <= later.local
    && Log(later.local, window) == Log(b.local, window)
  }

  lemma ProperCut(run: seq<Call>, k: nat)
    requires Proper(run) && k <= |run|
    ensures Proper(run[..k])
  {
  }

  lemma SameAttempts(run: seq<Call>, k: nat, limit: int)
    requires k < |run| && SameLimit(run, limit)
    ensures ConstantLimit(AsAttempts(run), limit)
    ensures AsAttempts(run)[..k] == AsAttempts(run[..k])
    ensures AsAttempts(run)[k] == Attempt(run[k].now, limit)
  {
  }

  lemma CutDecides(run: seq<Call>, k: nat, limit: int, window: int)
    requires Proper(run) && window > 0 && k < |run| && SameLimit(run, limit)
    ensures Script(KeyAfter(run[..k], window), run[k], window).0
         == Verdict(AsAttempts(run)[..k], AsAttempts(run)[k], window)
  {
    ProperCut(run, k + 1);
    assert run[..k + 1] == run[..k] + [run[k]];
    SameDecisions(run[..k], run[k], window);
    SameAttempts(run, k, limit);
  }

  lemma CutLogs(run: seq<Call>, k: nat, limit: int, window: int)
    requires Proper(run) && window > 0 && k < |run| && SameLimit(run, limit)
    requires ScriptLog(run, window) == ScriptLog(run[..k], window)
    ensures Log(AsAttempts(run), window) == Log(AsAttempts(run)[..k], window)
  {
    ProperCut(run, k);
    SameAttempts(run, k, limit);
    ScriptLogIsLog(run, window);
    ScriptLogIsLog(run[..k], window);
  }

  /** The script's remainder is exact over a run of executions with a constant limit: when nothing has
      been admitted since it rejected, it admits exactly from the remainder on. */
  lemma ScriptRetryIsExact(run: seq<Call>, k: nat, c: Call, limit: int, window: int)
    requires Proper(run + [c]) && window > 0 && k < |run| && SameLimit(run, limit) && c.limit == limit && limit >= 1
    requires Script(KeyAfter(run[..k], window), run[k], window).0.Reject?
    requires ScriptLog(run, window) == ScriptLog(run[..k], window)
    ensures var r := Script(KeyAfter(run[..k], window), run[k], window).0.remaining;
      && 0 < r <= window
      && (Script(KeyAfter(run, window), c, window).0.Admit? <==> c.now >= run[k].now + r)
  {
    var attempts := AsAttempts(run);
    ProperPrefix(run, c);
    CutDecides(run, k, limit, window);
    CutLogs(run, k, limit, window);
    SameDecisions(run, c, window);
    SameAttempts(run, k, limit);
    AttemptsTimely(run, c);
    RetryIsExact(attempts, k, c.now, limit, window);
    VerdictByHistory(attempts[..k], attempts[k], window);
  }

  lemma LaterRun(b: Budget, ask: Ask, later: Budget, again: Ask, limit: int, windowSeconds: int)
    requires LaterByRedis(b, ask, later, again, limit, windowSeconds)
    ensures var k := |b.shared|;
      && k < |later.shared| && later.shared[..k] == b.shared && later.shared[k] == ask.call
      && SameLimit(later.shared, limit) && again.call.limit == limit
  {
    var all := later.shared + [again.call];
    assert all[|all| - 1] == again.call && forall i :: 0 <= i < |later.shared| ==> all[i] == later.shared[i];
    assert (b.shared + [ask.call])[|b.shared|] == ask.call;
  }

  /** The seconds Redis reports are honest: a caller told `s` is allowed at every time from `s` seconds
      after its rejection on, and at none up to a second before that. */
  lemma RedisReplyIsHonest(b: Budget, now: int, ask: Ask, later: Budget, then_: int, again: Ask, limit: int,
                           windowSeconds: int, ticks: Ticks, s: int)
    requires windowSeconds > 0 && limit >= 1 && LaterByRedis(b, ask, later, again, limit, windowSeconds)
    requires Charge(b, now, ask, windowSeconds, ticks).0 == Denied(s)
    ensures 1 <= s <= windowSeconds
    ensures var reply := Charge(later, then_, again, windowSeconds, ticks).0;
      && (again.call.now >= ask.call.now + s * MILLIS ==> reply == Allowed)
      && (again.call.now <= ask.call.now + (s - 1) * MILLIS ==> reply != Allowed)
  {
    LaterRun(b, ask, later, again, limit, windowSeconds);
    RedisDecides(b, ask, later, again, limit, windowSeconds);
    var r := Answer(b, ask, windowSeconds).remaining;
    RetryRounding(r, MILLIS);
    RoundedWithin(r, windowSeconds, MILLIS);
  }

  /** With a limit of at least one, Redis gives a decision both times. */
  lemma RedisDecides(b: Budget, ask: Ask, later: Budget, again: Ask, limit: int, windowSeconds: int)
    requires windowSeconds > 0 && limit >= 1 && LaterByRedis(b, ask, later, again, limit, windowSeconds)
    ensures !Answer(b, ask, windowSeconds).Fault? && !Answer(later, again, windowSeconds).Fault?
    ensures var first, second := Answer(b, ask, windowSeconds), Answer(later, again, windowSeconds);
      first.Reject? ==>
        && 0 < first.remaining <= windowSeconds * MILLIS
        && (second.Admit? <==> again.call.now >= ask.call.now + first.remaining)
  {
    LaterRun(b, ask, later, again, limit, windowSeconds);
    if Answer(b, ask, windowSeconds).Reject? {
      ScriptRetryIsExact(later.shared, |b.shared|, again.call, limit, windowSeconds * MILLIS);
    }
  }

  /** And so are those the process reports itself, by its own clock. */
  lemma LocalReplyIsHonest(b: Budget, now: int, ask: Ask, later: Budget, then_: int, again: Ask, limit: int,
                           windowSeconds: int, ticks: Ticks, s: int)
    requires windowSeconds > 0 && limit >= 1
    requires LaterInProcess(b, now, ask, later, then_, again, limit, windowSeconds * ticks)
    requires Charge(b, now, ask, windowSeconds, ticks).0 == Denied(s)
    ensures 1 <= s <= windowSeconds + 1
    ensures var reply := Charge(later, then_, again, windowSeconds, ticks).0;
      && (then_ >= now + s * ticks ==> reply == Allowed)
      && (then_ < now + (s - 1) * ticks ==> reply != Allowed)
  {
    var window, k := windowSeconds * ticks, |b.local|;
    var run := later.local;
    AtLeastOnce(windowSeconds, ticks);
    assert run[..k] == b.local && run[k] == Attempt(now, limit);
    RetrySecondsSuffice(run, k, then_, limit, window, ticks);
    VerdictByHistory(run[..k], run[k], window);
    RoundedWithin(Verdict(run[..k], run[k], window).remaining, windowSeconds, ticks);
  }

  // --- What a sender is told ---------------------------------------------------------------

  /** A send past its gate ends in one of three ways. It is accepted exactly when the limiter allows
      it. It fails exactly when the in-process limiter decides, with a limit of at most zero and
      nothing admitted in its window. Otherwise it is rate limited, and told the limiter's seconds. */
  lemma SendEnds(b: Budget, now: int, ask: Ask, windowSeconds: int, ticks: Ticks)
    requires windowSeconds > 0 && Timely(b.local) && SlidingWindow.After(b.local, now)
    ensures var v := Sessions.Send(None, b, now, ask, windowSeconds, ticks).0;
      var reply := Charge(b, now, ask, windowSeconds, ticks).0;
      && (v == Sessions.Accepted <==> reply == Allowed)
      && (v == Sessions.Failed <==>
           && Answer(b, ask, windowSeconds) == Fault && ask.call.limit <= 0
           && CountEnding(Log(b.local, windowSeconds * ticks), now, windowSeconds * ticks) == 0)
      && (v != Sessions.Accepted && v != Sessions.Failed ==> v.RateLimited? && reply == Denied(v.retryAfter))
  {
    AtLeastOnce(windowSeconds, ticks);
    VerdictByHistory(b.local, Attempt(now, ask.call.limit), windowSeconds * ticks);
  }

  /** The promise of `retry_after`: with the limit unchanged and nothing admitted in between, a sender
      who is told `s` seconds and waits them gets in, by whichever backend decides both sends, and one
      who comes more than a second too early does not. */
  lemma RetryAfterIsHonest(b: Budget, now: int, ask: Ask, later: Budget, then_: int, again: Ask, limit: int,
                           windowSeconds: int, ticks: Ticks, s: int)
    requires windowSeconds > 0 && limit >= 1
    requires LaterByRedis(b, ask, later, again, limit, windowSeconds)
          || LaterInProcess(b, now, ask, later, then_, again, limit, windowSeconds * ticks)
    requires Sessions.Send(None, b, now, ask, windowSeconds, ticks).0 == Sessions.RateLimited(s)
    ensures var v := Sessions.Send(None, later, then_, again, windowSeconds, ticks).0;
      var waited := if ByRedis(b, ask) then again.call.now - ask.call.now else then_ - now;
      var second := if ByRedis(b, ask) then MILLIS else ticks;
      && (waited >= s * second ==> v == Sessions.Accepted)
      && (waited < (s - 1) * second ==> v != Sessions.Accepted)
      && 1 <= s <= windowSeconds + 1
  {
    if ByRedis(b, ask) {
      RedisReplyIsHonest(b, now, ask, later, then_, again, limit, windowSeconds, ticks, s);
    } else {
      LocalReplyIsHonest(b, now, ask, later, then_, again, limit, windowSeconds, ticks, s);
    }
  }
}
