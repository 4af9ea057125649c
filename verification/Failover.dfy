/** One key's checks across a cluster of instances that share Redis and fall back to their
    own limiters, under any schedule of Redis failures. All clocks are one clock here. */
module Failover {
  import opened Common
  import opened SlidingWindow
  import opened RedisWindow
  import RateLimit

  datatype Check = Check(instance: nat, now: int, limit: int, fate: Fate)

  function Asked(c: Check): Attempt {
    Attempt(c.now, c.limit)
  }

  /** The checks whose script ran, in order: what the shared sorted set has seen. */
  function RedisRun(calls: seq<Check>): seq<Attempt> {
    if calls == [] then [] else
    var n := |calls| - 1;
    RedisRun(calls[..n]) + (if calls[n].fate.Unreached? then [] else [Asked(calls[n])])
  }

  /** Redis settles a check when it answers without a script error. */
  predicate Settled(before: seq<Check>, c: Check, window: int) {
    c.fate.Answered? && !Verdict(RedisRun(before), Asked(c), window).Fault?
  }

  /** The checks that reached one instance's own limiter, in order. */
  function LocalRun(calls: seq<Check>, instance: nat, window: int): seq<Attempt> {
    if calls == [] then [] else
    var n := |calls| - 1;
    LocalRun(calls[..n], instance, window)
    + (if calls[n].instance == instance && !Settled(calls[..n], calls[n], window) then [Asked(calls[n])] else [])
  }

  /** The decision the caller gets. */
  function Outcome(before: seq<Check>, c: Check, window: int): Decision {
    if Settled(before, c, window) then Verdict(RedisRun(before), Asked(c), window)
    else Verdict(LocalRun(before, c.instance, window), Asked(c), window)
  }

  /** The times of all checks that were allowed, cluster-wide. */
  function Allowed(calls: seq<Check>, window: int): seq<int> {
    if calls == [] then [] else
    var n := |calls| - 1;
    Allowed(calls[..n], window) + (if Outcome(calls[..n], calls[n], window).Admit? then [calls[n].now] else [])
  }

  predicate Schedule(calls: seq<Check>, instances: nat, bound: int) {
    && (forall i, j :: 0 <= i < j < |calls| ==> calls[i].now <= calls[j].now)
    && (forall i :: 0 <= i < |calls| ==> calls[i].instance < instances && calls[i].limit <= bound)
  }

  function Sum(n: nat, f: nat -> nat): nat {
    if n == 0 then 0 else Sum(n - 1, f) + f(n - 1)
  }

  /** Each instance's own hits in the window. */
  function LocalHits(calls: seq<Check>, t: int, window: int): nat -> nat {
    i => CountEnding(Log(LocalRun(calls, i, window), window), t, window)
  }

  /** Hits in the window over the first `instances` local histories. */
  function LocalCount(calls: seq<Check>, instances: nat, t: int, window: int): nat {
    Sum(instances, LocalHits(calls, t, window))
  }

  function Latest(calls: seq<Check>): int {
    if calls == [] then 0 else calls[|calls| - 1].now
  }

  predicate Orderly(run: seq<Attempt>, now: int, bound: int) {
    Timely(run) && After(run, now) && LimitsAtMost(run, bound)
  }

  lemma OrderlyAppend(run: seq<Attempt>, last: int, a: Attempt, bound: int)
    requires Orderly(run, last, bound) && last <= a.now && a.limit <= bound
    ensures Orderly(run, a.now, bound) && Orderly(run + [a], a.now, bound)
  {
  }

  lemma OrderlyLater(run: seq<Attempt>, last: int, now: int, bound: int)
    requires Orderly(run, last, bound) && last <= now
    ensures Orderly(run, now, bound)
  {
  }

  lemma {:induction false} SharedIsOrderly(calls: seq<Check>, now: int, instances: nat, bound: int)
    requires Schedule(calls, instances, bound)
    requires calls != [] ==> calls[|calls| - 1].now <= now
    ensures Orderly(RedisRun(calls), now, bound)
  {
    if calls != [] {
      var n := |calls| - 1;
      SharedIsOrderly(calls[..n], calls[n].now, instances, bound);
      OrderlyAppend(RedisRun(calls[..n]), calls[n].now, Asked(calls[n]), bound);
      assert RedisRun(calls[..n]) + [] == RedisRun(calls[..n]);
      OrderlyLater(RedisRun(calls), calls[n].now, now, bound);
    }
  }

  lemma {:induction false} LocalIsOrderly(calls: seq<Check>, now: int, instances: nat, bound: int, instance: nat,
                                          window: int)
    requires Schedule(calls, instances, bound)
    requires calls != [] ==> calls[|calls| - 1].now <= now
    ensures Orderly(LocalRun(calls, instance, window), now, bound)
  {
    if calls != [] {
      var n := |calls| - 1;
      var local := LocalRun(calls[..n], instance, window);
      LocalIsOrderly(calls[..n], calls[n].now, instances, bound, instance, window);
      OrderlyAppend(local, calls[n].now, Asked(calls[n]), bound);
      assert local + [] == local;
      OrderlyLater(LocalRun(calls, instance, window), calls[n].now, now, bound);
    }
  }

  lemma RunsAreOrderly(calls: seq<Check>, now: int, instances: nat, bound: int, instance: nat, window: int)
    requires Schedule(calls, instances, bound)
    requires calls != [] ==> calls[|calls| - 1].now <= now
    ensures Orderly(RedisRun(calls), now, bound)
    ensures Orderly(LocalRun(calls, instance, window), now, bound)
  {
    SharedIsOrderly(calls, now, instances, bound);
    LocalIsOrderly(calls, now, instances, bound, instance, window);
  }

  /** A history grows by at most the new hit, and does grow by it when the check was admitted. */
  lemma LogStep(run: seq<Attempt>, a: Attempt, t: int, window: int)
    ensures CountEnding(Log(run + [a], window), t, window)
         == CountEnding(Log(run, window), t, window)
          + (if Verdict(run, a, window).Admit? && t - window < a.now <= t then 1 else 0)
  {
    assert (run + [a])[..|run|] == run;
    WithinAppend(Log(run, window), a.now, t - window, t);
    if !Verdict(run, a, window).Admit? {
      assert Log(run + [a], window) == Log(run, window);
    }
  }

  lemma LocalRunStep(calls: seq<Check>, c: Check, instance: nat, window: int)
    ensures LocalRun(calls + [c], instance, window) == LocalRun(calls, instance, window)
      + if c.instance == instance && !Settled(calls, c, window) then [Asked(c)] else []
  {
    assert (calls + [c])[..|calls|] == calls;
  }

  lemma InstanceStep(calls: seq<Check>, c: Check, instance: nat, t: int, window: int)
    ensures CountEnding(Log(LocalRun(calls + [c], instance, window), window), t, window)
         == CountEnding(Log(LocalRun(calls, instance, window), window), t, window)
          + (if c.instance == instance && !Settled(calls, c, window)
                && Outcome(calls, c, window).Admit? && t - window < c.now <= t then 1 else 0)
  {
    LocalRunStep(calls, c, instance, window);
    if c.instance == instance && !Settled(calls, c, window) {
      LogStep(LocalRun(calls, instance, window), Asked(c), t, window);
    } else {
      assert LocalRun(calls + [c], instance, window) == LocalRun(calls, instance, window);
    }
  }

  lemma {:induction false} SumStep(n: nat, f: nat -> nat, g: nat -> nat, at: nat, gain: nat)
    requires forall i: nat :: g(i) == f(i) + (if i == at then gain else 0)
    ensures Sum(n, g) == Sum(n, f) + (if at < n then gain else 0)
  {
    if n > 0 {
      SumStep(n - 1, f, g, at, gain);
    }
  }

  /** Only the instance that decided a check locally counts it; the other histories stand. */
  lemma LocalCountStep(calls: seq<Check>, c: Check, instances: nat, t: int, window: int)
    ensures LocalCount(calls + [c], instances, t, window)
         == LocalCount(calls, instances, t, window)
          + (if c.instance < instances && !Settled(calls, c, window)
                && Outcome(calls, c, window).Admit? && t - window < c.now <= t then 1 else 0)
  {
    var gain :=
      if !Settled(calls, c, window) && Outcome(calls, c, window).Admit? && t - window < c.now <= t then 1 else 0;
    var f, g := LocalHits(calls, t, window), LocalHits(calls + [c], t, window);
    forall i: nat ensures g(i) == f(i) + (if i == c.instance then gain else 0) {
      InstanceStep(calls, c, i, t, window);
    }
    SumStep(instances, f, g, c.instance, gain);
  }

  lemma RedisStep(calls: seq<Check>, c: Check, t: int, window: int)
    ensures CountEnding(Log(RedisRun(calls + [c]), window), t, window)
         >= CountEnding(Log(RedisRun(calls), window), t, window)
          + (if Settled(calls, c, window) && Outcome(calls, c, window).Admit? && t - window < c.now <= t then 1 else 0)
  {
    assert (calls + [c])[..|calls|] == calls;
    if c.fate.Unreached? {
      assert RedisRun(calls + [c]) == RedisRun(calls);
    } else {
      LogStep(RedisRun(calls), Asked(c), t, window);
    }
  }

  lemma AllowedStep(calls: seq<Check>, c: Check, t: int, window: int)
    ensures CountEnding(Allowed(calls + [c], window), t, window)
         == CountEnding(Allowed(calls, window), t, window)
          + (if Outcome(calls, c, window).Admit? && t - window < c.now <= t then 1 else 0)
  {
    assert (calls + [c])[..|calls|] == calls;
    WithinAppend(Allowed(calls, window), c.now, t - window, t);
    if !Outcome(calls, c, window).Admit? {
      assert Allowed(calls + [c], window) == Allowed(calls, window);
    }
  }

  /** Every allowed check is a hit in the shared history or in one instance's own. */
  lemma {:induction false} AllowedAreRecorded(calls: seq<Check>, instances: nat, t: int, window: int)
    requires forall i :: 0 <= i < |calls| ==> calls[i].instance < instances
    ensures CountEnding(Allowed(calls, window), t, window)
         <= CountEnding(Log(RedisRun(calls), window), t, window) + LocalCount(calls, instances, t, window)
  {
    if calls == [] {
    } else {
      var n := |calls| - 1;
      var before, c := calls[..n], calls[n];
      assert calls == before + [c];
      AllowedAreRecorded(before, instances, t, window);
      LocalCountStep(before, c, instances, t, window);
      RedisStep(before, c, t, window);
      AllowedStep(before, c, t, window);
    }
  }

  lemma {:induction false} SumBound(n: nat, f: nat -> nat, bound: nat)
    requires forall i: nat :: f(i) <= bound
    ensures Sum(n, f) <= n * bound
  {
    if n > 0 {
      SumBound(n - 1, f, bound);
      assert n * bound == (n - 1) * bound + bound;
    }
  }

  lemma LocalCountBound(calls: seq<Check>, instances: nat, bound: nat, t: int, window: int)
    requires Schedule(calls, instances, bound) && window > 0
    ensures LocalCount(calls, instances, t, window) <= instances * bound
  {
    var f := LocalHits(calls, t, window);
    forall i: nat ensures f(i) <= bound {
      RunsAreOrderly(calls, Latest(calls), instances, bound, i, window);
      WindowBound(LocalRun(calls, i, window), bound, window);
      assert CountEnding(Log(LocalRun(calls, i, window), window), t, window) <= bound;
    }
    SumBound(instances, f, bound);
  }

  /** Failover bound: whatever fails and when, `instances` instances together allow at most
      (instances + 1) * bound checks of one key in any window. With one instance: twice the bound. */
  lemma FailoverBound(calls: seq<Check>, instances: nat, bound: nat, window: int)
    requires Schedule(calls, instances, bound) && window > 0
    ensures Bounded(Allowed(calls, window), (instances + 1) * bound, window)
  {
    RunsAreOrderly(calls, Latest(calls), instances, bound, 0, window);
    WindowBound(RedisRun(calls), bound, window);
    forall t
      ensures CountEnding(Allowed(calls, window), t, window) <= (instances + 1) * bound
    {
      assert CountEnding(Log(RedisRun(calls), window), t, window) <= bound;
      AllowedAreRecorded(calls, instances, t, window);
      LocalCountBound(calls, instances, bound, t, window);
    }
  }

  /** Without failures the limit is the cluster's: one budget shared by every instance. */
  lemma HealthyBound(calls: seq<Check>, instances: nat, bound: nat, window: int)
    requires Schedule(calls, instances, bound) && window > 0
    requires forall i :: 0 <= i < |calls| ==> calls[i].fate.Answered?
    ensures Bounded(Allowed(calls, window), bound, window)
  {
    AllHealthy(calls, window);
    RunsAreOrderly(calls, Latest(calls), instances, bound, 0, window);
    WindowBound(RedisRun(calls), bound, window);
  }

  /** A check whose script erred has a limit that lets nothing through. */
  lemma {:induction false} AllHealthy(calls: seq<Check>, window: int)
    requires forall i :: 0 <= i < |calls| ==> calls[i].fate.Answered?
    ensures Allowed(calls, window) == Log(RedisRun(calls), window)
  {
    if calls != [] {
      var n := |calls| - 1;
      AllHealthy(calls[..n], window);
      assert RedisRun(calls)[..|RedisRun(calls)| - 1] == RedisRun(calls[..n]);
    }
  }

  lemma AllLocalStep(before: seq<Check>, c: Check, instances: nat, t: int, window: int)
    requires CountEnding(Allowed(before, window), t, window) <= LocalCount(before, instances, t, window)
    requires !c.fate.Answered? && c.instance < instances
    ensures CountEnding(Allowed(before + [c], window), t, window) <= LocalCount(before + [c], instances, t, window)
  {
    AllowedStep(before, c, t, window);
    LocalCountStep(before, c, instances, t, window);
  }

  lemma {:induction false} AllLocal(calls: seq<Check>, instances: nat, t: int, window: int)
    requires forall i :: 0 <= i < |calls| ==> !calls[i].fate.Answered? && calls[i].instance < instances
    ensures CountEnding(Allowed(calls, window), t, window) <= LocalCount(calls, instances, t, window)
  {
    if calls != [] {
      var n := |calls| - 1;
      AllLocal(calls[..n], instances, t, window);
      AllLocalStep(calls[..n], calls[n], instances, t, window);
      assert calls == calls[..n] + [calls[n]];
    }
  }

  /** Without an answer from Redis every process has a budget of its own: the limit itself if there
      is only one. */
  lemma LocalBound(calls: seq<Check>, instances: nat, bound: nat, window: int)
    requires Schedule(calls, instances, bound) && window > 0
    requires forall i :: 0 <= i < |calls| ==> !calls[i].fate.Answered?
    ensures Bounded(Allowed(calls, window), instances * bound, window)
  {
    forall t
      ensures CountEnding(Allowed(calls, window), t, window) <= instances * bound
    {
      AllLocal(calls, instances, t, window);
      LocalCountBound(calls, instances, bound, t, window);
    }
  }

  // --- The cluster is made of limiter objects ----------------------------------

  /** What one instance's limiter holds after the cluster's checks so far. */
  ghost predicate Stands(b: RateLimit.Budget, calls: seq<Check>, instance: nat, window: int) {
    AsAttempts(b.shared) == RedisRun(calls) && b.local == LocalRun(calls, instance, window)
  }

  lemma SharedGrows(b: RateLimit.Budget, calls: seq<Check>, c: Check, ask: RateLimit.Ask)
    requires AsAttempts(b.shared) == RedisRun(calls) && (b.wired || ask.fate.Unreached?)
    requires ask.fate == c.fate && ask.call.now == c.now && ask.call.limit == c.limit
    ensures AsAttempts(RateLimit.SharedAfter(b, ask)) == RedisRun(calls + [c])
  {
    assert (calls + [c])[..|calls|] == calls;
    assert AsAttempts(b.shared + [ask.call]) == AsAttempts(b.shared) + [Asked(c)];
  }

  /** Redis's answer is the verdict on the shared history, if it settles the check. */
  lemma AnswerSettles(b: RateLimit.Budget, calls: seq<Check>, c: Check, ask: RateLimit.Ask, windowSeconds: int)
    requires windowSeconds > 0 && AsAttempts(b.shared) == RedisRun(calls)
    requires Proper(b.shared + [ask.call]) && (b.wired || ask.fate.Unreached?)
    requires ask.fate == c.fate && ask.call.now == c.now && ask.call.limit == c.limit
    ensures var window := windowSeconds * RateLimit.MILLIS;
      RateLimit.Answer(b, ask, windowSeconds)
        == if Settled(calls, c, window) then Verdict(RedisRun(calls), Asked(c), window) else Fault
  {
    SameDecisions(b.shared, ask.call, windowSeconds * RateLimit.MILLIS);
  }

  /** A check of the limiter object, script and all, is allowed exactly when the cluster model
      allows it, and leaves what the model says. */
  lemma ChargeIsOutcome(b: RateLimit.Budget, calls: seq<Check>, c: Check, ask: RateLimit.Ask, windowSeconds: int)
    requires windowSeconds > 0 && Stands(b, calls, c.instance, windowSeconds * RateLimit.MILLIS)
    requires Proper(b.shared + [ask.call]) && (b.wired || ask.fate.Unreached?)
    requires ask.fate == c.fate && ask.call.now == c.now && ask.call.limit == c.limit
    ensures var window := windowSeconds * RateLimit.MILLIS;
      var (reply, b') := RateLimit.Charge(b, c.now, ask, windowSeconds, RateLimit.MILLIS);
      && (reply.Allowed? <==> Outcome(calls, c, window).Admit?)
      && Stands(b', calls + [c], c.instance, window)
  {
    AnswerSettles(b, calls, c, ask, windowSeconds);
    SharedGrows(b, calls, c, ask);
    LocalRunStep(calls, c, c.instance, windowSeconds * RateLimit.MILLIS);
    assert b.local + [] == b.local;
  }

  // --- The failover bound is attained ---------------------------------------

  function Repeat<T>(x: T, n: nat): seq<T> {
    seq(n, i => x)
  }

  /** At instant 0, perhaps `limit` checks answered by Redis, then `limit` that each of the first
      `instances` instances must decide alone, Redis treating them as `f`. */
  function Flood(instances: nat, limit: nat, f: Fate, shared: bool): seq<Check> {
    if instances == 0 then if shared then Repeat(Check(0, 0, limit, Answered), limit) else []
    else Flood(instances - 1, limit, f, shared) + Repeat(Check(instances - 1, 0, limit, f), limit)
  }

  /** How many budgets a flood uses up. */
  function Budgets(instances: nat, shared: bool): nat {
    instances + (if shared then 1 else 0)
  }

  lemma RepeatSnoc<T>(x: T, n: nat)
    ensures Repeat(x, n + 1) == Repeat(x, n) + [x]
  {
  }

  lemma RepeatSum<T>(x: T, m: nat, n: nat)
    ensures Repeat(x, m + n) == Repeat(x, m) + Repeat(x, n)
  {
  }

  /** A deque below its limit at a single instant has admitted everything it was asked. */
  lemma {:induction false} BurstHits(n: nat, limit: nat, window: int)
    requires n <= limit && window > 0
    ensures Hits(Repeat(Attempt(0, limit), n), window) == Repeat(0, n)
    ensures n < limit ==> Verdict(Repeat(Attempt(0, limit), n), Attempt(0, limit), window).Admit?
  {
    if n > 0 {
      var run := Repeat(Attempt(0, limit), n);
      RepeatSnoc(Attempt(0, limit), n - 1);
      assert run[..n - 1] == Repeat(Attempt(0, limit), n - 1);
      BurstHits(n - 1, limit, window);
      RepeatSnoc(0, n - 1);
    }
    assert Trim(Repeat(0, n), -window) == Repeat(0, n);
  }

  lemma LocalBurstStep(calls: seq<Check>, c: Check, n: nat, other: nat, window: int)
    requires c == Check(c.instance, 0, c.limit, c.fate) && !c.fate.Answered? && n < c.limit && window > 0
    requires LocalRun(calls, c.instance, window) == Repeat(Attempt(0, c.limit), n)
    ensures LocalRun(calls + [c], c.instance, window) == Repeat(Attempt(0, c.limit), n + 1)
    ensures other != c.instance ==> LocalRun(calls + [c], other, window) == LocalRun(calls, other, window)
    ensures Allowed(calls + [c], window) == Allowed(calls, window) + [0]
  {
    assert (calls + [c])[..|calls|] == calls;
    RepeatSnoc(Attempt(0, c.limit), n);
    BurstHits(n, c.limit, window);
  }

  /** A burst of checks decided alone by an instance that has seen none is allowed in full. */
  lemma {:induction false} LocalBurst(calls: seq<Check>, c: Check, n: nat, other: nat, window: int)
    requires c == Check(c.instance, 0, c.limit, c.fate) && !c.fate.Answered? && n <= c.limit && window > 0
    requires LocalRun(calls, c.instance, window) == []
    ensures LocalRun(calls + Repeat(c, n), c.instance, window) == Repeat(Attempt(0, c.limit), n)
    ensures other != c.instance ==> LocalRun(calls + Repeat(c, n), other, window) == LocalRun(calls, other, window)
    ensures Allowed(calls + Repeat(c, n), window) == Allowed(calls, window) + Repeat(0, n)
  {
    if n == 0 {
      assert calls + Repeat(c, n) == calls;
      assert Allowed(calls, window) + Repeat(0, n) == Allowed(calls, window);
    } else {
      var before := calls + Repeat(c, n - 1);
      LocalBurst(calls, c, n - 1, other, window);
      LocalBurstStep(before, c, n - 1, other, window);
      BurstSnoc(calls, c, n - 1);
      BurstSnoc(Allowed(calls, window), 0, n - 1);
    }
  }

  lemma BurstSnoc<T>(s: seq<T>, x: T, n: nat)
    ensures s + Repeat(x, n + 1) == (s + Repeat(x, n)) + [x]
  {
  }

  lemma {:induction false} SharedBurst(n: nat, limit: nat, other: nat, window: int)
    requires n <= limit && window > 0
    ensures RedisRun(Repeat(Check(0, 0, limit, Answered), n)) == Repeat(Attempt(0, limit), n)
    ensures LocalRun(Repeat(Check(0, 0, limit, Answered), n), other, window) == []
    ensures Allowed(Repeat(Check(0, 0, limit, Answered), n), window) == Repeat(0, n)
  {
    if n > 0 {
      var c := Check(0, 0, limit, Answered);
      SharedBurst(n - 1, limit, other, window);
      RepeatSnoc(c, n - 1);
      assert Repeat(c, n)[..n - 1] == Repeat(c, n - 1);
      BurstHits(n - 1, limit, window);
      RepeatSnoc(0, n - 1);
      RepeatSnoc(Attempt(0, limit), n - 1);
    }
  }

  function Times(n: nat, limit: nat): nat {
    if n == 0 then 0 else Times(n - 1, limit) + limit
  }

  lemma {:induction false} TimesIsProduct(n: nat, limit: nat)
    ensures Times(n, limit) == n * limit
  {
    if n > 0 {
      TimesIsProduct(n - 1, limit);
      assert n * limit == (n - 1) * limit + limit;
    }
  }

  /** After the flood, every instance it did not use is still unused. */
  ghost predicate Flooded(calls: seq<Check>, instances: nat, limit: nat, used: nat, window: int) {
    && Allowed(calls, window) == Repeat(0, Times(used, limit))
    && forall other: nat :: other >= instances ==> LocalRun(calls, other, window) == []
  }

  lemma {:induction false} FloodAllowed(instances: nat, limit: nat, f: Fate, shared: bool, window: int)
    requires window > 0 && !f.Answered?
    ensures Flooded(Flood(instances, limit, f, shared), instances, limit, Budgets(instances, shared), window)
    decreases instances
  {
    if instances == 0 {
      if shared {
        FloodStart(limit, window);
      }
    } else {
      var flood, c := Flood(instances - 1, limit, f, shared), Check(instances - 1, 0, limit, f);
      FloodAllowed(instances - 1, limit, f, shared, window);
      FloodStep(flood, c, limit, Budgets(instances - 1, shared), window);
    }
  }

  lemma FloodStart(limit: nat, window: int)
    requires window > 0
    ensures Flooded(Repeat(Check(0, 0, limit, Answered), limit), 0, limit, 1, window)
  {
    forall other: nat
      ensures LocalRun(Repeat(Check(0, 0, limit, Answered), limit), other, window) == []
    {
      SharedBurst(limit, limit, other, window);
    }
    SharedBurst(limit, limit, 0, window);
    assert Times(1, limit) == limit;
  }

  lemma OthersUnused(flood: seq<Check>, c: Check, limit: nat, window: int)
    requires c == Check(c.instance, 0, limit, c.fate) && !c.fate.Answered? && window > 0
    requires forall other: nat :: other >= c.instance ==> LocalRun(flood, other, window) == []
    ensures forall other: nat :: other >= c.instance + 1 ==> LocalRun(flood + Repeat(c, limit), other, window) == []
  {
    forall other: nat | other >= c.instance + 1
      ensures LocalRun(flood + Repeat(c, limit), other, window) == []
    {
      LocalBurst(flood, c, limit, other, window);
    }
  }

  lemma FloodGrows(flood: seq<Check>, c: Check, used: nat, limit: nat, window: int)
    requires c == Check(c.instance, 0, limit, c.fate) && !c.fate.Answered? && window > 0
    requires LocalRun(flood, c.instance, window) == [] && Allowed(flood, window) == Repeat(0, Times(used, limit))
    ensures Allowed(flood + Repeat(c, limit), window) == Repeat(0, Times(used + 1, limit))
  {
    LocalBurst(flood, c, limit, c.instance, window);
    RepeatSum(0, Times(used, limit), limit);
  }

  lemma FloodStep(flood: seq<Check>, c: Check, limit: nat, used: nat, window: int)
    requires c == Check(c.instance, 0, limit, c.fate) && !c.fate.Answered? && window > 0
    requires Flooded(flood, c.instance, limit, used, window)
    ensures Flooded(flood + Repeat(c, limit), c.instance + 1, limit, used + 1, window)
  {
    OthersUnused(flood, c, limit, window);
    FloodGrows(flood, c, used, limit, window);
  }

  predicate FatesIn(calls: seq<Check>, allowed: set<Fate>) {
    forall i :: 0 <= i < |calls| ==> calls[i].fate in allowed
  }

  lemma {:induction false} FloodShape(instances: nat, limit: nat, f: Fate, shared: bool)
    ensures forall i :: 0 <= i < |Flood(instances, limit, f, shared)| ==>
      var c := Flood(instances, limit, f, shared)[i];
      && c.now == 0 && c.limit == limit && c.instance < Max(instances, 1)
      && (c.fate == f || (shared && c.fate.Answered?))
  {
    if instances > 0 {
      FloodShape(instances - 1, limit, f, shared);
    }
  }

  lemma BurstCount(n: nat, window: int)
    requires window > 0
    ensures CountEnding(Repeat(0, n), 0, window) == n
  {
    WithinAll(Repeat(0, n), -window, 0);
  }

  lemma FloodFits(used: nat, instances: nat, limit: nat, f: Fate, shared: bool, allowed: set<Fate>)
    requires 1 <= used <= instances && f in allowed && (shared ==> Answered in allowed)
    ensures Schedule(Flood(used, limit, f, shared), instances, limit)
    ensures FatesIn(Flood(used, limit, f, shared), allowed)
  {
    FloodShape(used, limit, f, shared);
  }

  /** All of a flood is allowed at one instant. */
  lemma FloodCounts(used: nat, limit: nat, f: Fate, shared: bool, window: int)
    requires window > 0 && !f.Answered?
    ensures CountEnding(Allowed(Flood(used, limit, f, shared), window), 0, window) == Budgets(used, shared) * limit
  {
    FloodAllowed(used, limit, f, shared, window);
    TimesIsProduct(Budgets(used, shared), limit);
    BurstCount(Times(Budgets(used, shared), limit), window);
  }

  /** The bound is tight: for every number of instances and every limit some failures let
      (instances + 1) * limit checks through at a single instant. */
  lemma FailoverBoundIsTight(instances: nat, limit: nat, window: int)
    requires instances >= 1 && window > 0
    ensures Schedule(Flood(instances, limit, Unreached, true), instances, limit)
    ensures CountEnding(Allowed(Flood(instances, limit, Unreached, true), window), 0, window) == (instances + 1) * limit
  {
    FloodFits(instances, instances, limit, Unreached, true, {Unreached, Answered});
    FloodCounts(instances, limit, Unreached, true, window);
  }

  // --- When the limit is one budget ---------------------------------------------

  /** A schedule of the cluster with these fates that breaks the limit itself. */
  lemma OverLimit(instances: nat, limit: nat, allowed: set<Fate>, window: int) returns (calls: seq<Check>)
    requires instances >= 1 && limit >= 1 && window > 0
    requires !(allowed <= {Answered}) && !(instances == 1 && Answered !in allowed)
    ensures Schedule(calls, instances, limit) && FatesIn(calls, allowed)
    ensures CountEnding(Allowed(calls, window), 0, window) > limit
  {
    var f: Fate :| f in allowed && f !in {Answered};
    var shared := Answered in allowed;
    calls := FloodOver(if shared then 1 else 2, instances, limit, f, shared, allowed, window);
  }

  lemma FloodOver(used: nat, instances: nat, limit: nat, f: Fate, shared: bool, allowed: set<Fate>, window: int)
    returns (calls: seq<Check>)
    requires 1 <= used <= instances && limit >= 1 && window > 0 && !f.Answered? && Budgets(used, shared) >= 2
    requires f in allowed && (shared ==> Answered in allowed)
    ensures Schedule(calls, instances, limit) && FatesIn(calls, allowed)
    ensures CountEnding(Allowed(calls, window), 0, window) > limit
  {
    calls := Flood(used, limit, f, shared);
    FloodFits(used, instances, limit, f, shared, allowed);
    FloodCounts(used, limit, f, shared, window);
    TwiceIsMore(Budgets(used, shared), limit);
  }

  lemma TwiceIsMore(k: nat, limit: nat)
    requires k >= 2 && limit >= 1
    ensures k * limit > limit
  {
    assert k * limit == (k - 2) * limit + 2 * limit;
  }

  /** The limit is never exceeded, whatever schedule with these fates. */
  ghost predicate OneBudget(instances: nat, limit: nat, allowed: set<Fate>, window: int) {
    forall calls: seq<Check> :: Schedule(calls, instances, limit) && FatesIn(calls, allowed) ==>
      Bounded(Allowed(calls, window), limit, window)
  }

  /** The exact condition: the limit is one budget for the cluster exactly when Redis answers every
      check, or it answers none and there is a single instance. */
  lemma OneBudgetExactly(instances: nat, limit: nat, allowed: set<Fate>, window: int)
    requires instances >= 1 && limit >= 1 && window > 0
    ensures OneBudget(instances, limit, allowed, window)
       <==> allowed <= {Answered} || (instances == 1 && Answered !in allowed)
  {
    if allowed <= {Answered} || (instances == 1 && Answered !in allowed) {
      forall calls: seq<Check> | Schedule(calls, instances, limit) && FatesIn(calls, allowed)
        ensures Bounded(Allowed(calls, window), limit, window)
      {
        if allowed <= {Answered} {
          HealthyBound(calls, instances, limit, window);
        } else {
          LocalBound(calls, instances, limit, window);
        }
      }
    } else {
      var calls := OverLimit(instances, limit, allowed, window);
      assert CountEnding(Allowed(calls, window), 0, window) > limit;
    }
  }
}
