/** When a lowered message limit takes hold: the cache in front of the setting and the window in
    front of the messages, together. */
module LimitChange {
  import opened Common
  import opened SlidingWindow
  import Cache = SettingsCache

  /** Attempt by attempt, the limit is what a lookup of the setting answered, and the lookup began at
      most `delay` before the attempt. */
  ghost predicate LookedUp(cfg: Cache.Settings, events: seq<Cache.Event>, key: Cache.Key, run: seq<Attempt>,
                           asked: seq<nat>, delay: nat)
  {
    && |asked| == |run|
    && forall i :: 0 <= i < |run| ==> LimitFrom(cfg, events, key, run[i], asked[i], delay)
  }

  predicate LimitFrom(cfg: Cache.Settings, events: seq<Cache.Event>, key: Cache.Key, a: Attempt, p: nat, delay: nat) {
    && Cache.Answers(cfg, events, p, key)
    && Cache.LastAnswer(cfg, Cache.EMPTY, events[..p + 1]) == Some(a.limit)
    && Cache.BeganAt(cfg, events, p) >= a.now - delay
  }

  /** When the change has taken hold for every attempt: one lifetime and one lookup after it. */
  function TakesHoldAt(cfg: Cache.Settings, changedAt: int, delay: nat): int {
    changedAt + Max(cfg.lifetime, 0) + delay
  }

  /** After the setting is changed to `limit` and left alone, every check later than one cache
      lifetime and one lookup is made against it. */
  lemma LateChecksUseIt(cfg: Cache.Settings, events: seq<Cache.Event>, n: nat, key: Cache.Key, limit: int,
                        run: seq<Attempt>, asked: seq<nat>, delay: nat, i: nat)
    requires Cache.Ordered(events) && Cache.SettledAt(cfg, events, n, key, limit)
    requires LookedUp(cfg, events, key, run, asked, delay) && i < |run|
    requires run[i].now > TakesHoldAt(cfg, events[n].now, delay)
    ensures run[i].limit == limit
  {
    assert LimitFrom(cfg, events, key, run[i], asked[i], delay);
    Cache.UpdateTakesHold(cfg, events, n, key, limit, asked[i]);
  }

  /** And no window that lies wholly after that holds more admissions than the new limit, whatever
      was admitted before, under every interleaving of lookups, fills and invalidations. */
  lemma LoweredLimitTakesHold(cfg: Cache.Settings, events: seq<Cache.Event>, n: nat, key: Cache.Key, limit: nat,
                              run: seq<Attempt>, asked: seq<nat>, delay: nat, t: int, window: int)
    requires Cache.Ordered(events) && Cache.SettledAt(cfg, events, n, key, limit)
    requires LookedUp(cfg, events, key, run, asked, delay) && Timely(run) && window > 0
    requires t - window >= TakesHoldAt(cfg, events[n].now, delay)
    ensures CountEnding(Log(run, window), t, window) <= limit
  {
    var from := TakesHoldAt(cfg, events[n].now, delay);
    forall i | 0 <= i < |run| && run[i].now > from ensures run[i].limit <= limit {
      LateChecksUseIt(cfg, events, n, key, limit, run, asked, delay, i);
    }
    LateBound(run, from, limit, t, window);
  }
}
