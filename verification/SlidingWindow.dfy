/** The sliding-window admission rule as a function of one key's deque, and what a
    whole run of checks against that key guarantees.

    Times are integer clock ticks. The number of ticks in a second is a parameter,
    so no resolution of the clock is ruled out. */
module SlidingWindow {
  import opened Common

  /** The three ways a check can end. `remaining` is the number of ticks until the
      oldest hit ages out. `Fault` is the IndexError of reading the oldest hit of an
      empty deque, which a limit of zero or less provokes. */
  datatype Decision = Admit | Reject(remaining: int) | Fault

  datatype Attempt = Attempt(now: int, limit: int)

  /** Drop hits from the front while they are at or before the cutoff. */
  function Trim(hits: seq<int>, cutoff: int): seq<int> {
    if hits != [] && hits[0] <= cutoff then Trim(hits[1..], cutoff) else hits
  }

  function Decide(live: seq<int>, a: Attempt, window: int): Decision {
    if |live| < a.limit then Admit
    else if live == [] then Fault
    else Reject(window - (a.now - live[0]))
  }

  /** What a decision leaves of the trimmed deque: an admitted check appends its hit. */
  function Settle(live: seq<int>, a: Attempt, window: int): seq<int> {
    if Decide(live, a, window).Admit? then live + [a.now] else live
  }

  /** One key's deque after a run of checks. */
  function Hits(run: seq<Attempt>, window: int): seq<int> {
    if run == [] then [] else
    var a := run[|run| - 1];
    Settle(Trim(Hits(run[..|run| - 1], window), a.now - window), a, window)
  }

  /** The decision an attempt gets right after a run of checks. */
  function Verdict(run: seq<Attempt>, a: Attempt, window: int): Decision {
    Decide(Trim(Hits(run, window), a.now - window), a, window)
  }

  /** Every hit admitted by a run of checks: the untrimmed history. */
  function Log(run: seq<Attempt>, window: int): seq<int> {
    if run == [] then [] else
    var a := run[|run| - 1];
    var before := run[..|run| - 1];
    Log(before, window) + (if Verdict(before, a, window).Admit? then [a.now] else [])
  }

  predicate Timely(run: seq<Attempt>) {
    forall i, j :: 0 <= i < j < |run| ==> run[i].now <= run[j].now
  }

  predicate After(run: seq<Attempt>, now: int) {
    forall i :: 0 <= i < |run| ==> run[i].now <= now
  }

  predicate LimitsAtMost(run: seq<Attempt>, bound: int) {
    forall i :: 0 <= i < |run| ==> run[i].limit <= bound
  }

  predicate ConstantLimit(run: seq<Attempt>, limit: int) {
    forall i :: 0 <= i < |run| ==> run[i].limit == limit
  }

  lemma {:induction false} TrimIsWithin(hits: seq<int>, lo: int, hi: int)
    requires Ascending(hits) && AtMost(hits, hi)
    ensures Trim(hits, lo) == Within(hits, lo, hi)
  {
    if hits != [] {
      TrimIsWithin(hits[1..], lo, hi);
      if hits[0] > lo {
        assert Trim(hits[1..], lo) == hits[1..];
      }
    }
  }

  /** One more check, from the trimmed deque it decides on. */
  lemma OneMoreCheck(run: seq<Attempt>, a: Attempt, live: seq<int>, window: int)
    requires live == Trim(Hits(run, window), a.now - window)
    ensures Verdict(run, a, window) == Decide(live, a, window)
    ensures Hits(run + [a], window) == Settle(live, a, window)
  {
    assert (run + [a])[..|run|] == run;
  }

  lemma {:induction false} LogAscends(run: seq<Attempt>, window: int)
    requires Timely(run)
    ensures Ascending(Log(run, window))
    ensures run != [] ==> AtMost(Log(run, window), run[|run| - 1].now)
    ensures run == [] ==> Log(run, window) == []
  {
    if run != [] {
      LogAscends(run[..|run| - 1], window);
    }
  }

  lemma TrimWindow(live: seq<int>, last: int, now: int, window: int)
    requires Ascending(live) && AtMost(live, last) && last <= now
    ensures Trim(live, now - window) == Within(live, now - window, now)
  {
    TrimIsWithin(live, now - window, now);
  }

  /** Trimming a window that ended earlier leaves the later window. */
  lemma TrimAgain(log: seq<int>, live: seq<int>, last: int, now: int, window: int)
    requires Ascending(log) && AtMost(log, last) && last <= now && live == Within(log, last - window, last)
    ensures Trim(live, now - window) == Within(log, now - window, now)
  {
    WindowIsOrderly(log, live, last, window);
    TrimWindow(live, last, now, window);
    WindowOfWindow(log, live, last, now, window);
  }

  lemma WindowIsOrderly(log: seq<int>, live: seq<int>, last: int, window: int)
    requires Ascending(log) && live == Within(log, last - window, last)
    ensures Ascending(live) && AtMost(live, last)
  {
    WithinOrderly(log, last - window, last);
  }

  lemma WindowOfWindow(log: seq<int>, live: seq<int>, last: int, now: int, window: int)
    requires AtMost(log, last) && last <= now && live == Within(log, last - window, last)
    ensures Within(live, now - window, now) == Within(log, now - window, now)
  {
    WithinNested(log, last - window, last, now - window, now);
  }

  /** What the next check finds after trimming is the window of the full history, whether
      or not hits were trimmed away earlier: lazy trimming refines the untrimmed log. */
  lemma {:induction false} NextLive(run: seq<Attempt>, now: int, window: int)
    requires Timely(run) && After(run, now) && window > 0
    ensures Trim(Hits(run, window), now - window) == Within(Log(run, window), now - window, now)
    decreases run, 1
  {
    if run != [] {
      LogAscends(run, window);
      DequeIsWindowOfLog(run, window);
      TrimAgain(Log(run, window), Hits(run, window), run[|run| - 1].now, now, window);
    }
  }

  /** After any run, the deque holds exactly the admitted hits that lie in the window
      ending at the last check. */
  lemma {:induction false} DequeIsWindowOfLog(run: seq<Attempt>, window: int)
    requires Timely(run) && run != [] && window > 0
    ensures var last := run[|run| - 1].now;
      Hits(run, window) == Within(Log(run, window), last - window, last)
    decreases run, 0
  {
    var a := run[|run| - 1];
    var before := run[..|run| - 1];
    NextLive(before, a.now, window);
    SettleExtends(Log(before, window), Trim(Hits(before, window), a.now - window), a, window);
  }

  lemma SettleExtends(log: seq<int>, live: seq<int>, a: Attempt, window: int)
    requires live == Within(log, a.now - window, a.now) && window > 0
    ensures Settle(live, a, window)
         == Within(log + (if Decide(live, a, window).Admit? then [a.now] else []), a.now - window, a.now)
  {
    WithinAppend(log, a.now, a.now - window, a.now);
    if !Decide(live, a, window).Admit? {
      assert log + [] == log;
    }
  }

  lemma VerdictOnLog(run: seq<Attempt>, a: Attempt, window: int)
    requires Timely(run) && After(run, a.now) && window > 0
    ensures Verdict(run, a, window) == Decide(Within(Log(run, window), a.now - window, a.now), a, window)
  {
    NextLive(run, a.now, window);
  }

  /** The decision in terms of the history alone: a check is admitted exactly when fewer
      than `limit` hits were admitted in the window ending now. */
  lemma VerdictByHistory(run: seq<Attempt>, a: Attempt, window: int)
    requires Timely(run) && After(run, a.now) && window > 0
    ensures Verdict(run, a, window).Admit? <==> CountEnding(Log(run, window), a.now, window) < a.limit
    ensures Verdict(run, a, window).Fault?
       <==> a.limit <= 0 && CountEnding(Log(run, window), a.now, window) == 0
    ensures Verdict(run, a, window).Reject? ==> 0 < Verdict(run, a, window).remaining <= window
  {
    NextLive(run, a.now, window);
    WithinMembers(Log(run, window), a.now - window, a.now);
  }

  /** Window bound: whatever the sequence of limits, as long as each is at most `bound`,
      no window of the configured length ever holds more than `bound` admissions. */
  lemma {:induction false} WindowBound(run: seq<Attempt>, bound: nat, window: int)
    requires Timely(run) && LimitsAtMost(run, bound) && window > 0
    ensures Bounded(Log(run, window), bound, window)
  {
    if run != [] {
      var a := run[|run| - 1];
      var before := run[..|run| - 1];
      var log := Log(before, window);
      WindowBound(before, bound, window);
      LogAtMost(before, a.now, window);
      VerdictByHistory(before, a, window);
      forall t
        ensures CountEnding(Log(run, window), t, window) <= bound
      {
        assert CountEnding(log, t, window) <= bound;
        if !Verdict(before, a, window).Admit? {
          assert Log(run, window) == log;
        }
        WithinAppend(log, a.now, t - window, t);
        if t >= a.now {
          WithinGrows(log, t - window, t, a.now - window, a.now);
          assert CountEnding(log, a.now, window) == |Within(log, a.now - window, a.now)|;
        }
      }
    }
  }

  /** The bound after a change: if every check later than `from` has a limit of at most `bound`, no
      window that lies wholly after `from` holds more than `bound` admissions. */
  lemma {:induction false} LateBound(run: seq<Attempt>, from: int, bound: nat, t: int, window: int)
    requires Timely(run) && window > 0 && t - window >= from
    requires forall i :: 0 <= i < |run| && run[i].now > from ==> run[i].limit <= bound
    ensures CountEnding(Log(run, window), t, window) <= bound
  {
    if run != [] {
      var a, before := run[|run| - 1], run[..|run| - 1];
      LateBound(before, from, bound, t, window);
      if Verdict(before, a, window).Admit? && t - window < a.now <= t {
        LogAtMost(before, a.now, window);
        VerdictByHistory(before, a, window);
        WithinAppend(Log(before, window), a.now, t - window, t);
        WithinGrows(Log(before, window), t - window, t, a.now - window, a.now);
      } else {
        NoNewHit(run, t, window);
      }
    }
  }

  lemma NoNewHit(run: seq<Attempt>, t: int, window: int)
    requires run != []
    requires var a, before := run[|run| - 1], run[..|run| - 1];
      !(Verdict(before, a, window).Admit? && t - window < a.now <= t)
    ensures CountEnding(Log(run, window), t, window) == CountEnding(Log(run[..|run| - 1], window), t, window)
  {
    var a, log := run[|run| - 1], Log(run[..|run| - 1], window);
    WithinAppend(log, a.now, t - window, t);
    assert log + [] == log;
  }

  // --- Greedy optimality ---------------------------------------------------

  /** The attempt times chosen by a mask: any other selection of the same attempts. */
  function Chosen(run: seq<Attempt>, mask: seq<bool>): seq<int>
    requires |mask| == |run|
  {
    if run == [] then [] else
    var n := |run| - 1;
    Chosen(run[..n], mask[..n]) + (if mask[n] then [run[n].now] else [])
  }

  lemma {:induction false} ChosenAscends(run: seq<Attempt>, mask: seq<bool>)
    requires |mask| == |run| && Timely(run)
    ensures Ascending(Chosen(run, mask))
    ensures run != [] ==> AtMost(Chosen(run, mask), run[|run| - 1].now)
  {
    if run != [] {
      var n := |run| - 1;
      ChosenAscends(run[..n], mask[..n]);
    }
  }

  /** `a` stays ahead of `b`: it has at least as many entries and its k-th is never later. */
  predicate Ahead(a: seq<int>, b: seq<int>) {
    |b| <= |a| && forall k :: 0 <= k < |b| ==> a[k] <= b[k]
  }

  /** Greedy optimality: with a constant limit, no selection of the attempts that respects
      the window bound admits more of them, and the limiter's k-th admission is never later
      than the k-th of that selection. */
  lemma {:induction false} GreedyIsOptimal(run: seq<Attempt>, mask: seq<bool>, limit: nat, window: int)
    requires |mask| == |run| && Timely(run) && ConstantLimit(run, limit) && limit >= 1 && window > 0
    requires Bounded(Chosen(run, mask), limit, window)
    ensures Ahead(Log(run, window), Chosen(run, mask))
  {
    if run != [] {
      var n := |run| - 1;
      var before, now := run[..n], run[n].now;
      var log, rival := Log(before, window), Chosen(before, mask[..n]);
      if mask[n] {
        BoundedPrefix(rival, now, limit, window);
      } else {
        assert Chosen(run, mask) == rival;
      }
      GreedyIsOptimal(before, mask[..n], limit, window);
      LogAscends(before, window);
      ChosenAscends(before, mask[..n]);
      if mask[n] && |rival| == |log| {
        assert Chosen(run, mask) == rival + [now];
        AdmitsWhenRivalDoes(before, rival, now, limit, window);
      }
    }
  }

  /** If the limiter is level with a rival that may still take `now`, the limiter takes it too. */
  lemma AdmitsWhenRivalDoes(run: seq<Attempt>, rival: seq<int>, now: int, limit: nat, window: int)
    requires Timely(run) && After(run, now) && window > 0 && limit >= 1
    requires Ascending(rival) && AtMost(rival, now)
    requires Ahead(Log(run, window), rival) && |rival| == |Log(run, window)|
    requires Bounded(rival + [now], limit, window)
    ensures Verdict(run, Attempt(now, limit), window).Admit?
  {
    var log := Log(run, window);
    LogAscends(run, window);
    VerdictByHistory(run, Attempt(now, limit), window);
    WithinSize(log, now - window, now);
    if |log| >= limit {
      var j := |log| - limit;
      assert rival[j] <= now - window by {
        assert CountEnding(rival + [now], now, window) <= limit;
        if rival[j] > now - window {
          WithinKeepsSuffix(rival + [now], j, now - window, now);
          assert false;
        }
      }
      WithinDropsPrefix(log, j, now - window, now);
    }
  }

  // --- Retry-after ---------------------------------------------------------

  /** With a constant limit the reported remainder is exact: after check `k` of a run was
      rejected, and none was admitted since, the next attempt is admitted if and only if it
      comes at or after the rejected check's time plus the remainder it was given. */
  lemma RetryIsExact(run: seq<Attempt>, k: nat, t: int, limit: int, window: int)
    requires Timely(run) && After(run, t) && k < |run| && window > 0
    requires ConstantLimit(run, limit) && limit >= 1
    requires Verdict(run[..k], run[k], window).Reject?
    requires Log(run, window) == Log(run[..k], window)
    ensures Verdict(run, Attempt(t, limit), window).Admit?
       <==> t >= run[k].now + Verdict(run[..k], run[k], window).remaining
  {
    var now, before := run[k].now, run[..k];
    assert run[k] == Attempt(now, limit);
    assert Timely(before) && After(before, now) && ConstantLimit(before, limit);
    RejectedIsFull(before, now, limit, window);
    LogAtMost(before, now, window);
    NextLive(run, t, window);
    SlotFrees(Log(before, window), now, t, limit, window);
  }

  /** A full window frees its first slot exactly when its oldest hit ages out. */
  lemma SlotFrees(log: seq<int>, now: int, t: int, limit: int, window: int)
    requires Ascending(log) && AtMost(log, now) && now <= t
    requires |Within(log, now - window, now)| == limit && limit >= 1
    ensures |Within(log, t - window, t)| < limit <==> t >= Within(log, now - window, now)[0] + window
  {
    var live := Within(log, now - window, now);
    WithinMembers(log, now - window, now);
    WithinNested(log, now - window, now, t - window, t);
    if t >= live[0] + window {
      WithinDropsPrefix(live, 0, t - window, t);
    } else {
      WithinKeepsSuffix(live, 0, t - window, t);
    }
  }

  /** With a constant limit, a rejecting deque holds exactly `limit` hits and the remainder
      counts down to the oldest of them. */
  lemma RejectedIsFull(run: seq<Attempt>, now: int, limit: int, window: int)
    requires Timely(run) && After(run, now) && ConstantLimit(run, limit) && limit >= 1 && window > 0
    requires Verdict(run, Attempt(now, limit), window).Reject?
    ensures var live := Within(Log(run, window), now - window, now);
      && |live| == limit
      && Verdict(run, Attempt(now, limit), window).remaining == live[0] + window - now
  {
    LiveAtMost(run, now, limit, window);
    VerdictOnLog(run, Attempt(now, limit), window);
    RejectsWhenFull(Within(Log(run, window), now - window, now), Attempt(now, limit), window);
  }

  lemma RejectsWhenFull(live: seq<int>, a: Attempt, window: int)
    requires |live| <= a.limit && Decide(live, a, window).Reject?
    ensures |live| == a.limit && live != [] && Decide(live, a, window).remaining == live[0] + window - a.now
  {
  }

  lemma LiveAtMost(run: seq<Attempt>, now: int, limit: nat, window: int)
    requires Timely(run) && ConstantLimit(run, limit) && window > 0
    ensures |Within(Log(run, window), now - window, now)| <= limit
  {
    WindowBound(run, limit, window);
    assert CountEnding(Log(run, window), now, window) <= limit;
  }

  lemma LogAtMost(run: seq<Attempt>, now: int, window: int)
    requires Timely(run) && After(run, now)
    ensures Ascending(Log(run, window)) && AtMost(Log(run, window), now)
  {
    LogAscends(run, window);
  }

  /** When limits vary, the remainder measured from the oldest hit can be too short. From a
      deque trimmed at `now` and rejected against `limit`, an attempt at `t` with nothing
      admitted in between is admitted exactly when the limit-th newest hit has aged out. */
  lemma RetryUnderAnyLimit(live: seq<int>, now: int, limit: int, t: int, window: int)
    requires Ascending(live) && AtMost(live, now) && 1 <= limit <= |live| && now <= t && window > 0
    ensures Decide(Trim(live, t - window), Attempt(t, limit), window).Admit?
       <==> t >= live[|live| - limit] + window
  {
    TrimIsWithin(live, t - window, t);
    var j := |live| - limit;
    if t >= live[j] + window {
      WithinDropsPrefix(live, j, t - window, t);
    } else {
      WithinKeepsSuffix(live, j, t - window, t);
    }
  }

  /** Every attempt from `due` on that is checked against `limit`, with nothing admitted in between,
      is admitted. */
  ghost predicate WaitSuffices(live: seq<int>, limit: int, due: int, window: int) {
    forall t :: t >= due ==> Decide(Trim(live, t - window), Attempt(t, limit), window).Admit?
  }

  /** By `due`, fewer than `limit` of these hits are left in the window. */
  predicate FreeBy(live: seq<int>, limit: int, due: int, window: int) {
    limit > |live| || (1 <= limit && live[|live| - limit] + window <= due)
  }

  lemma WaitSufficesFrom(live: seq<int>, now: int, limit: int, due: int, window: int)
    requires Ascending(live) && AtMost(live, now) && now <= due && window > 0
    ensures WaitSuffices(live, limit, due, window) <==> FreeBy(live, limit, due, window)
  {
    if limit > |live| {
      forall t | t >= due ensures Decide(Trim(live, t - window), Attempt(t, limit), window).Admit? {
        TrimIsWithin(live, t - window, t);
        WithinSize(live, t - window, t);
      }
    } else if limit >= 1 {
      RetryUnderAnyLimit(live, now, limit, due, window);
      if FreeBy(live, limit, due, window) {
        forall t | t >= due ensures Decide(Trim(live, t - window), Attempt(t, limit), window).Admit? {
          RetryUnderAnyLimit(live, now, limit, t, window);
        }
      }
    } else {
      assert !Decide(Trim(live, due - window), Attempt(due, limit), window).Admit?;
    }
  }

  /** Seconds as the in-process limiter rounds them: the truncated remainder plus one, at least one. */
  function LocalRetry(remaining: int, ticks: int): int
    requires ticks > 0
  {
    Max((if remaining >= 0 then remaining / ticks else -(-remaining / ticks)) + 1, 1)
  }

  /** Seconds as the Redis path rounds them: the remainder rounded up, at least one. */
  function RedisRetry(remaining: int, ticks: int): int
    requires ticks > 0
  {
    Max(-(-remaining / ticks), 1)
  }

  lemma CeilingBounds(r: int, ticks: int)
    requires ticks > 0 && r > 0
    ensures -(-r / ticks) == (r - 1) / ticks + 1
    ensures r / ticks == (r - 1) / ticks + (if r % ticks == 0 then 1 else 0)
  {
    var q, m := (r - 1) / ticks, (r - 1) % ticks;
    assert r == q * ticks + (m + 1);
    assert r - 1 == q * ticks + m;
    if m + 1 == ticks {
      assert r == (q + 1) * ticks;
      QuotientIs(r, ticks, q + 1, 0);
      QuotientIs(-r, ticks, -(q + 1), 0);
    } else {
      QuotientIs(r, ticks, q, m + 1);
      assert -r == -(q + 1) * ticks + (ticks - (m + 1));
      QuotientIs(-r, ticks, -(q + 1), ticks - (m + 1));
    }
  }

  /** Both roundings cover the remainder and overshoot it by at most one second; they differ
      by one second exactly when the remainder is a whole number of seconds. */
  lemma {:induction false} RetryRounding(r: int, ticks: int)
    requires ticks > 0 && r > 0
    ensures (LocalRetry(r, ticks) - 1) * ticks <= r < LocalRetry(r, ticks) * ticks
    ensures (RedisRetry(r, ticks) - 1) * ticks < r <= RedisRetry(r, ticks) * ticks
    ensures LocalRetry(r, ticks) == RedisRetry(r, ticks) + (if r % ticks == 0 then 1 else 0)
  {
    CeilingBounds(r, ticks);
    var q, m := (r - 1) / ticks, (r - 1) % ticks;
    assert r - 1 == q * ticks + m;
    assert RedisRetry(r, ticks) == q + 1;
    assert (q + 1) * ticks == q * ticks + ticks;
    assert (q + 2) * ticks == q * ticks + 2 * ticks;
    if r % ticks == 0 {
      assert r == (r / ticks) * ticks == (q + 1) * ticks;
    } else {
      assert LocalRetry(r, ticks) == q + 1;
      if r == (q + 1) * ticks {
        QuotientIs(r, ticks, q + 1, 0);
        assert false;
      }
    }
  }

  /** A client that waits the reported seconds, by either backend, is admitted; one that comes
      back a second before the in-process figure, or earlier, is not. */
  lemma {:induction false} RetrySecondsSuffice(run: seq<Attempt>, k: nat, t: int, limit: int, window: int, ticks: int)
    requires Timely(run) && After(run, t) && k < |run| && window > 0 && ticks > 0
    requires ConstantLimit(run, limit) && limit >= 1
    requires Verdict(run[..k], run[k], window).Reject?
    requires Log(run, window) == Log(run[..k], window)
    ensures var r := Verdict(run[..k], run[k], window).remaining;
      && (t >= run[k].now + LocalRetry(r, ticks) * ticks ==> Verdict(run, Attempt(t, limit), window).Admit?)
      && (t >= run[k].now + RedisRetry(r, ticks) * ticks ==> Verdict(run, Attempt(t, limit), window).Admit?)
      && (t < run[k].now + (LocalRetry(r, ticks) - 1) * ticks ==> !Verdict(run, Attempt(t, limit), window).Admit?)
  {
    var before := run[..k];
    assert Timely(before) && After(before, run[k].now);
    VerdictByHistory(before, run[k], window);
    RetryIsExact(run, k, t, limit, window);
    RetryRounding(Verdict(before, run[k], window).remaining, ticks);
  }

  /** The promise of the reported seconds, for a deque that rejects against any limit and a caller
      that is checked against any, perhaps another, limit when it comes back: a slot is free from
      the reported time on exactly when enough of the hits found now have aged out by then. */
  lemma RetrySufficesExactly(live: seq<int>, now: int, limit: int, next: int, window: int, ticks: int)
    requires Ascending(live) && AtMost(live, now) && 1 <= limit <= |live| && now - window < live[0]
    requires window > 0 && ticks > 0
    ensures var r := Decide(live, Attempt(now, limit), window).remaining;
      var local, redis := now + LocalRetry(r, ticks) * ticks, now + RedisRetry(r, ticks) * ticks;
      && (WaitSuffices(live, next, local, window) <==> FreeBy(live, next, local, window))
      && (WaitSuffices(live, next, redis, window) <==> FreeBy(live, next, redis, window))
  {
    var r := Decide(live, Attempt(now, limit), window).remaining;
    RetryRounding(r, ticks);
    WaitSufficesFrom(live, now, next, now + LocalRetry(r, ticks) * ticks, window);
    WaitSufficesFrom(live, now, next, now + RedisRetry(r, ticks) * ticks, window);
  }

  /** Lowering it after the report breaks the promise too: with hits at 0 and 5 and a limit of 2, a
      check at 10 is told 51 seconds; the limit is then lowered to 1, and it is rejected at 61. */
  lemma RetryTooShortBeforeLimitDrop()
    ensures var run := [Attempt(0, 2), Attempt(5, 2), Attempt(10, 2)];
      && Verdict(run[..2], run[2], 60) == Reject(50)
      && LocalRetry(50, 1) == 51
      && Verdict(run, Attempt(10 + 51, 1), 60).Reject?
  {
    var run := [Attempt(0, 2), Attempt(5, 2), Attempt(10, 2)];
    assert Hits(run[..0], 60) == [];
    assert run[..1][..0] == run[..0];
    assert Hits(run[..1], 60) == [0];
    assert run[..2][..1] == run[..1];
    assert Hits(run[..2], 60) == [0, 5];
    assert Trim([0, 5], 10 - 60) == [0, 5];
    assert Hits(run, 60) == [0, 5];
    assert [0, 5][1..] == [5];
    assert Trim([5], 61 - 60) == [5];
    assert Trim([0, 5], 61 - 60) == [5];
  }

  /** Lowering the limit breaks the promise: with hits at 0 and 5, a limit lowered to 1 and a
      window of 60 one-tick seconds, a check at 10 is told to retry after 51 seconds and is
      still rejected then. */
  lemma RetryTooShortAfterLimitDrop()
    ensures var run := [Attempt(0, 2), Attempt(5, 2), Attempt(10, 1)];
      && Verdict(run[..2], run[2], 60) == Reject(50)
      && LocalRetry(50, 1) == 51
      && Verdict(run, Attempt(10 + 51, 1), 60).Reject?
  {
    var run := [Attempt(0, 2), Attempt(5, 2), Attempt(10, 1)];
    assert Hits(run[..0], 60) == [];
    assert run[..1][..0] == run[..0];
    assert Hits(run[..1], 60) == [0];
    assert run[..2][..1] == run[..1];
    assert Hits(run[..2], 60) == [0, 5];
    assert Trim([0, 5], 10 - 60) == [0, 5];
    assert Hits(run, 60) == [0, 5];
    assert [0, 5][1..] == [5];
    assert Trim([5], 61 - 60) == [5];
    assert Trim([0, 5], 61 - 60) == [5];
  }
}
