/** The settings cache: a hit answers at once; a miss reads the database and fills the cache
    in a later step, so calls, updates and invalidations interleave freely. */
module SettingsCache {
  import opened Common

  /** A settings key and a call's identity; both are only compared. */
  type Key = int
  type CallId = int

  datatype Cached = Cached(value: int, expiresAt: int)

  /** A call that missed at `startedAt`; `read` is what it got from the database, once it has. */
  datatype Miss = Miss(key: Key, startedAt: int, read: Option<int>)

  /** The cache lifetime in ticks, and the caller's fixed default per key for an absent row. */
  datatype Settings = Settings(lifetime: int, fallback: Key -> int)

  datatype State = State(cache: map<Key, Cached>, rows: map<Key, int>, misses: map<CallId, Miss>)

  datatype Event =
    | Begin(call: CallId, key: Key, now: int)
    | Read(call: CallId, now: int)
    | Finish(call: CallId, now: int)
    | Update(key: Key, row: Option<int>, now: int)
    | Invalidate(which: Option<Key>, now: int)

  /** What the database, or the default, holds for a key. */
  function Holds(cfg: Settings, st: State, key: Key): int {
    if key in st.rows then st.rows[key] else cfg.fallback(key)
  }

  predicate Hit(st: State, key: Key, now: int) {
    key in st.cache && st.cache[key].expiresAt > now
  }

  predicate Ready(st: State, call: CallId) {
    call in st.misses && st.misses[call].read.Some?
  }

  /** One step, and the value a call returns in it, if one does. */
  function Step(cfg: Settings, st: State, e: Event): (State, Option<int>) {
    match e
    case Begin(call, key, now) =>
      if Hit(st, key, now) then (st, Some(st.cache[key].value))
      else (st.(misses := st.misses[call := Miss(key, now, None)]), None)
    case Read(call, _) =>
      if call !in st.misses || st.misses[call].read.Some? then (st, None)
      else
        var m := st.misses[call];
        (st.(misses := st.misses[call := m.(read := Some(Holds(cfg, st, m.key)))]), None)
    case Finish(call, _) =>
      if !Ready(st, call) then (st, None)
      else
        var m := st.misses[call];
        (st.(cache := st.cache[m.key := Cached(m.read.value, m.startedAt + cfg.lifetime)],
             misses := st.misses - {call}), m.read)
    case Update(key, row, _) =>
      (st.(rows := if row.Some? then st.rows[key := row.value] else st.rows - {key}), None)
    case Invalidate(which, _) =>
      (st.(cache := if which.None? then map[] else st.cache - {which.value}), None)
  }

  function After(cfg: Settings, st: State, events: seq<Event>): State {
    if events == [] then st else Step(cfg, After(cfg, st, events[..|events| - 1]), events[|events| - 1]).0
  }

  /** What the last event of a sequence returned to its caller. */
  function LastAnswer(cfg: Settings, st: State, events: seq<Event>): Option<int>
    requires events != []
  {
    Step(cfg, After(cfg, st, events[..|events| - 1]), events[|events| - 1]).1
  }

  predicate InOrder(events: seq<Event>, start: int) {
    && (forall i, j :: 0 <= i < j < |events| ==> events[i].now <= events[j].now)
    && (forall i :: 0 <= i < |events| ==> start <= events[i].now)
  }

  const EMPTY: State := State(map[], map[], map[])

  // --- Bounded staleness ---------------------------------------------------------

  /** The database, or the default, held `value` for `key` at some event at or after `since`. */
  ghost predicate HeldSince(cfg: Settings, st: State, events: seq<Event>, key: Key, value: int, since: int) {
    exists n :: 0 <= n < |events| && since <= events[n].now && Holds(cfg, After(cfg, st, events[..n]), key) == value
  }

  lemma HeldLater(cfg: Settings, st: State, events: seq<Event>, e: Event, key: Key, value: int, since: int)
    requires HeldSince(cfg, st, events, key, value, since)
    ensures HeldSince(cfg, st, events + [e], key, value, since)
  {
    var n :| 0 <= n < |events| && since <= events[n].now && Holds(cfg, After(cfg, st, events[..n]), key) == value;
    assert (events + [e])[..n] == events[..n];
    assert (events + [e])[n] == events[n];
  }

  /** Some event happened at `at`. */
  predicate Occurred(events: seq<Event>, at: int) {
    exists n :: 0 <= n < |events| && events[n].now == at
  }

  /** A cached value was held no earlier than one lifetime before it expires. */
  ghost predicate EntryGrounded(cfg: Settings, events: seq<Event>, key: Key, entry: Cached) {
    HeldSince(cfg, EMPTY, events, key, entry.value, entry.expiresAt - cfg.lifetime)
  }

  /** A call began at some event, and what it has read was held no earlier. */
  ghost predicate MissGrounded(cfg: Settings, events: seq<Event>, m: Miss) {
    Occurred(events, m.startedAt) && (m.read.Some? ==> HeldSince(cfg, EMPTY, events, m.key, m.read.value, m.startedAt))
  }

  ghost predicate Grounded(cfg: Settings, events: seq<Event>) {
    var st := After(cfg, EMPTY, events);
    && (forall k :: k in st.cache ==> EntryGrounded(cfg, events, k, st.cache[k]))
    && (forall c :: c in st.misses ==> MissGrounded(cfg, events, st.misses[c]))
  }

  lemma MissLater(cfg: Settings, events: seq<Event>, e: Event, m: Miss)
    requires MissGrounded(cfg, events, m)
    ensures MissGrounded(cfg, events + [e], m)
  {
    var n :| 0 <= n < |events| && events[n].now == m.startedAt;
    assert (events + [e])[n] == events[n];
    if m.read.Some? {
      HeldLater(cfg, EMPTY, events, e, m.key, m.read.value, m.startedAt);
    }
  }

  lemma MissesStep(cfg: Settings, events: seq<Event>, e: Event, c: CallId)
    requires Grounded(cfg, events) && InOrder(events + [e], (events + [e])[0].now)
    requires c in Step(cfg, After(cfg, EMPTY, events), e).0.misses
    ensures MissGrounded(cfg, events + [e], Step(cfg, After(cfg, EMPTY, events), e).0.misses[c])
  {
    var st, all := After(cfg, EMPTY, events), events + [e];
    var m := Step(cfg, st, e).0.misses[c];
    assert all[..|events|] == events && all[|events|] == e;
    if c in st.misses {
      MissLater(cfg, events, e, st.misses[c]);
    }
    if e.Read? && e.call == c && st.misses[c].read.None? {
      var n :| 0 <= n < |events| && events[n].now == m.startedAt;
      assert all[n] == events[n] && all[n].now <= all[|events|].now;
      assert Holds(cfg, After(cfg, EMPTY, all[..|events|]), m.key) == m.read.value;
    }
  }

  lemma CacheStep(cfg: Settings, events: seq<Event>, e: Event, key: Key)
    requires Grounded(cfg, events)
    requires key in Step(cfg, After(cfg, EMPTY, events), e).0.cache
    ensures EntryGrounded(cfg, events + [e], key, Step(cfg, After(cfg, EMPTY, events), e).0.cache[key])
  {
    var st := After(cfg, EMPTY, events);
    var entry := Step(cfg, st, e).0.cache[key];
    if e.Finish? && Ready(st, e.call) && st.misses[e.call].key == key {
      assert MissGrounded(cfg, events, st.misses[e.call]);
    } else {
      assert EntryGrounded(cfg, events, key, st.cache[key]);
    }
    HeldLater(cfg, EMPTY, events, e, key, entry.value, entry.expiresAt - cfg.lifetime);
  }

  lemma GroundedStep(cfg: Settings, events: seq<Event>, e: Event)
    requires Grounded(cfg, events) && InOrder(events + [e], (events + [e])[0].now)
    ensures Grounded(cfg, events + [e])
  {
    var st := After(cfg, EMPTY, events);
    assert (events + [e])[..|events|] == events;
    forall k | k in Step(cfg, st, e).0.cache
      ensures EntryGrounded(cfg, events + [e], k, Step(cfg, st, e).0.cache[k])
    {
      CacheStep(cfg, events, e, k);
    }
    forall c | c in Step(cfg, st, e).0.misses
      ensures MissGrounded(cfg, events + [e], Step(cfg, st, e).0.misses[c])
    {
      MissesStep(cfg, events, e, c);
    }
  }

  lemma {:induction false} AlwaysGrounded(cfg: Settings, events: seq<Event>)
    requires events != [] ==> InOrder(events, events[0].now)
    ensures Grounded(cfg, events)
  {
    if events != [] {
      var n := |events| - 1;
      AlwaysGrounded(cfg, events[..n]);
      assert events == events[..n] + [events[n]];
      GroundedStep(cfg, events[..n], events[n]);
    }
  }

  /** Bounded staleness: under every interleaving, a cache hit returns a value that the database,
      or the default, held less than one lifetime earlier. */
  lemma HitIsRecent(cfg: Settings, events: seq<Event>, call: CallId, key: Key, now: int)
    requires InOrder(events + [Begin(call, key, now)], (events + [Begin(call, key, now)])[0].now)
    requires LastAnswer(cfg, EMPTY, events + [Begin(call, key, now)]).Some?
    ensures HeldSince(cfg, EMPTY, events, key, LastAnswer(cfg, EMPTY, events + [Begin(call, key, now)]).value,
                      now - cfg.lifetime + 1)
  {
    var all := events + [Begin(call, key, now)];
    assert all[..|events|] == events && forall i :: 0 <= i < |events| ==> all[i] == events[i];
    AlwaysGrounded(cfg, events);
    var entry := After(cfg, EMPTY, events).cache[key];
    assert EntryGrounded(cfg, events, key, entry);
    var since := entry.expiresAt - cfg.lifetime;
    var n :|
      0 <= n < |events| && since <= events[n].now && Holds(cfg, After(cfg, EMPTY, events[..n]), key) == entry.value;
    assert now - cfg.lifetime + 1 <= events[n].now;
  }

  /** A miss returns a value held while the call was under way. */
  lemma {:induction false} MissIsCurrent(cfg: Settings, events: seq<Event>, call: CallId, now: int)
    requires events != [] ==> InOrder(events, events[0].now)
    requires LastAnswer(cfg, EMPTY, events + [Finish(call, now)]).Some?
    ensures var m := After(cfg, EMPTY, events).misses[call];
      HeldSince(cfg, EMPTY, events, m.key, LastAnswer(cfg, EMPTY, events + [Finish(call, now)]).value, m.startedAt)
  {
    var all := events + [Finish(call, now)];
    assert all[..|events|] == events;
    AlwaysGrounded(cfg, events);
    assert MissGrounded(cfg, events, After(cfg, EMPTY, events).misses[call]);
  }

  // --- What invalidation promises ------------------------------------------------

  /** Some state reached from `st` held `value` for `key`. */
  ghost predicate HeldFrom(cfg: Settings, st: State, events: seq<Event>, key: Key, value: int) {
    exists n :: 0 <= n <= |events| && Holds(cfg, After(cfg, st, events[..n]), key) == value
  }

  lemma HeldFromLater(cfg: Settings, st: State, events: seq<Event>, e: Event, key: Key, value: int)
    requires HeldFrom(cfg, st, events, key, value)
    ensures HeldFrom(cfg, st, events + [e], key, value)
  {
    var n :| 0 <= n <= |events| && Holds(cfg, After(cfg, st, events[..n]), key) == value;
    assert (events + [e])[..n] == events[..n];
  }

  /** From `now` on, every hit for `key` returns a value held at `now` or later. */
  ghost predicate SeesUpdates(cfg: Settings, st: State, now: int, key: Key) {
    forall events: seq<Event>, t: int |
      InOrder(events, now) && now <= t && Hit(After(cfg, st, events), key, t) ::
      HeldFrom(cfg, st, events, key, After(cfg, st, events).cache[key].value)
  }

  /** A call in flight carries, for `key`, an outdated value that it could still cache unexpired. */
  predicate Outdated(cfg: Settings, st: State, now: int, key: Key, m: Miss) {
    m.key == key && m.read.Some? && m.startedAt + cfg.lifetime > now && m.read.value != Holds(cfg, st, key)
  }

  /** Nothing usable for `key` is older than the start of `events`. */
  ghost predicate Renewed(cfg: Settings, st: State, events: seq<Event>, now: int, key: Key) {
    var st' := After(cfg, st, events);
    && (key in st'.cache ==>
          st'.cache[key].expiresAt <= now || HeldFrom(cfg, st, events, key, st'.cache[key].value))
    && (forall c :: c in st'.misses && st'.misses[c].key == key && st'.misses[c].read.Some? ==>
          st'.misses[c].startedAt + cfg.lifetime <= now || HeldFrom(cfg, st, events, key, st'.misses[c].read.value))
  }

  lemma RenewedStep(cfg: Settings, st: State, events: seq<Event>, e: Event, now: int, key: Key)
    requires Renewed(cfg, st, events, now, key)
    ensures Renewed(cfg, st, events + [e], now, key)
  {
    var before, all := After(cfg, st, events), events + [e];
    var after := Step(cfg, before, e).0;
    assert all[..|events|] == events;
    if key in after.cache && after.cache[key].expiresAt > now {
      HeldFromLater(cfg, st, events, e, key, after.cache[key].value);
    }
    forall c | c in after.misses && after.misses[c].key == key && after.misses[c].read.Some?
               && after.misses[c].startedAt + cfg.lifetime > now
      ensures HeldFrom(cfg, st, all, key, after.misses[c].read.value)
    {
      if c in before.misses && before.misses[c] == after.misses[c] {
        HeldFromLater(cfg, st, events, e, key, after.misses[c].read.value);
      } else {
        assert Holds(cfg, After(cfg, st, all[..|events|]), key) == after.misses[c].read.value;
      }
    }
  }

  lemma {:induction false} StaysRenewed(cfg: Settings, st: State, events: seq<Event>, now: int, key: Key)
    requires Renewed(cfg, st, [], now, key)
    ensures Renewed(cfg, st, events, now, key)
  {
    if events != [] {
      var n := |events| - 1;
      StaysRenewed(cfg, st, events[..n], now, key);
      assert events == events[..n] + [events[n]];
      RenewedStep(cfg, st, events[..n], events[n], now, key);
    }
  }

  /** Invalidating a key makes every later hit see the value now in the database, or a later
      one, exactly when no call in flight has already read an outdated value that is still
      within its lifetime: such a call would cache it again after the invalidation. */
  lemma InvalidateWorksExactly(cfg: Settings, st: State, now: int, key: Key)
    requires key !in st.cache
    ensures SeesUpdates(cfg, st, now, key)
       <==> forall c :: c in st.misses ==> !Outdated(cfg, st, now, key, st.misses[c])
  {
    if forall c :: c in st.misses ==> !Outdated(cfg, st, now, key, st.misses[c]) {
      var none: seq<Event> := [];
      assert Holds(cfg, After(cfg, st, none[..0]), key) == Holds(cfg, st, key);
      forall c | c in st.misses && st.misses[c].key == key && st.misses[c].read.Some?
        ensures st.misses[c].startedAt + cfg.lifetime <= now || HeldFrom(cfg, st, none, key, st.misses[c].read.value)
      {
        assert !Outdated(cfg, st, now, key, st.misses[c]);
      }
      assert Renewed(cfg, st, none, now, key);
      forall events: seq<Event>, t: int |
        InOrder(events, now) && now <= t && Hit(After(cfg, st, events), key, t)
        ensures HeldFrom(cfg, st, events, key, After(cfg, st, events).cache[key].value)
      {
        StaysRenewed(cfg, st, events, now, key);
      }
    } else {
      var c :| c in st.misses && Outdated(cfg, st, now, key, st.misses[c]);
      RefillIsStale(cfg, st, now, key, c);
    }
  }

  /** The race: finishing such a call right after the invalidation caches the outdated value. */
  lemma RefillIsStale(cfg: Settings, st: State, now: int, key: Key, c: CallId)
    requires c in st.misses && Outdated(cfg, st, now, key, st.misses[c])
    ensures !SeesUpdates(cfg, st, now, key)
  {
    var events: seq<Event> := [Finish(c, now)];
    assert events[..0] == [] && events[..1] == events;
    assert After(cfg, st, events[..0]) == st;
    assert After(cfg, st, events) == Step(cfg, After(cfg, st, events[..0]), events[0]).0;
    var end := After(cfg, st, events);
    assert end.cache[key].value == st.misses[c].read.value && Hit(end, key, now);
    forall n | 0 <= n <= |events|
      ensures Holds(cfg, After(cfg, st, events[..n]), key) == Holds(cfg, st, key)
    {
    }
    assert InOrder(events, now);
    assert !HeldFrom(cfg, st, events, key, end.cache[key].value);
  }

  /** Over all runs: an invalidation always makes the updates before it visible to later hits. */
  ghost predicate InvalidateReliable(cfg: Settings, key: Key) {
    forall events: seq<Event>, which: Option<Key>, now: int |
      Ordered(events + [Invalidate(which, now)]) && Names(which, key) ::
      SeesUpdates(cfg, After(cfg, EMPTY, events + [Invalidate(which, now)]), now, key)
  }

  predicate Ordered(events: seq<Event>) {
    events != [] ==> InOrder(events, events[0].now)
  }

  /** An invalidation covers a key if it names it or names none. */
  predicate Names(which: Option<Key>, key: Key) {
    which.None? || which.value == key
  }

  lemma OneMoreEvent(cfg: Settings, events: seq<Event>, e: Event)
    ensures After(cfg, EMPTY, events + [e]) == Step(cfg, After(cfg, EMPTY, events), e).0
    ensures LastAnswer(cfg, EMPTY, events + [e]) == Step(cfg, After(cfg, EMPTY, events), e).1
    ensures Ordered(events + [e]) ==> Ordered(events)
  {
    var all := events + [e];
    assert all[..|events|] == events;
    assert forall i :: 0 <= i < |events| ==> all[i] == events[i];
  }

  /** A call misses and reads the row; the row changes; the cache is cleared. */
  function RaceRun(cfg: Settings, key: Key): seq<Event> {
    [Begin(1, key, 0), Read(1, 0), Update(key, Some(cfg.fallback(key) + 1), 0)]
  }

  lemma RaceSteps(cfg: Settings, key: Key)
    ensures var run, v := RaceRun(cfg, key), cfg.fallback(key);
      var missed := State(map[], map[], map[1 := Miss(key, 0, None)]);
      var carrying := State(map[], map[], map[1 := Miss(key, 0, Some(v))]);
      var updated := State(map[], map[key := v + 1], map[1 := Miss(key, 0, Some(v))]);
      && Step(cfg, EMPTY, run[0]).0 == missed && Step(cfg, missed, run[1]).0 == carrying
      && Step(cfg, carrying, run[2]).0 == updated && Step(cfg, updated, Invalidate(None, 0)).0 == updated
  {
  }

  lemma RaceIsReached(cfg: Settings, key: Key)
    ensures After(cfg, EMPTY, RaceRun(cfg, key) + [Invalidate(None, 0)])
         == State(map[], map[key := cfg.fallback(key) + 1], map[1 := Miss(key, 0, Some(cfg.fallback(key)))])
  {
    var run := RaceRun(cfg, key);
    assert run[..1] == [] + [run[0]] && run[..2] == run[..1] + [run[1]] && run == run[..2] + [run[2]];
    RaceSteps(cfg, key);
    OneMoreEvent(cfg, [], run[0]);
    OneMoreEvent(cfg, run[..1], run[1]);
    OneMoreEvent(cfg, run[..2], run[2]);
    OneMoreEvent(cfg, run, Invalidate(None, 0));
  }

  /** The race needs nothing unusual: as soon as values are cached at all, a run from the empty
      cache makes an invalidation ineffective. With no lifetime the cache is never hit late. */
  lemma InvalidateReliableExactly(cfg: Settings, key: Key)
    ensures InvalidateReliable(cfg, key) <==> cfg.lifetime <= 0
  {
    if cfg.lifetime > 0 {
      var run := RaceRun(cfg, key);
      RaceIsReached(cfg, key);
      RefillIsStale(cfg, After(cfg, EMPTY, run + [Invalidate(None, 0)]), 0, key, 1);
      assert Ordered(run + [Invalidate(None, 0)]) && Names(None, key);
    } else {
      forall events: seq<Event>, which: Option<Key>, now: int |
        Ordered(events + [Invalidate(which, now)]) && Names(which, key)
        ensures SeesUpdates(cfg, After(cfg, EMPTY, events + [Invalidate(which, now)]), now, key)
      {
        NothingOutlives(cfg, events, which, now, key);
      }
    }
  }

  lemma NothingOutlives(cfg: Settings, events: seq<Event>, which: Option<Key>, now: int, key: Key)
    requires Ordered(events + [Invalidate(which, now)]) && Names(which, key) && cfg.lifetime <= 0
    ensures SeesUpdates(cfg, After(cfg, EMPTY, events + [Invalidate(which, now)]), now, key)
  {
    var all := events + [Invalidate(which, now)];
    var st := After(cfg, EMPTY, all);
    OneMoreEvent(cfg, events, Invalidate(which, now));
    AlwaysGrounded(cfg, all);
    forall c | c in st.misses ensures !Outdated(cfg, st, now, key, st.misses[c]) {
      assert MissGrounded(cfg, all, st.misses[c]);
      var n :| 0 <= n < |all| && all[n].now == st.misses[c].startedAt;
      assert all[n].now <= all[|all| - 1].now;
    }
    InvalidateWorksExactly(cfg, st, now, key);
  }

  lemma ReadIsCurrent(cfg: Settings, events: seq<Event>, call: CallId, m: Miss)
    requires Ordered(events) && m.read.Some?
    requires call in After(cfg, EMPTY, events).misses && After(cfg, EMPTY, events).misses[call] == m
    ensures HeldSince(cfg, EMPTY, events, m.key, m.read.value, m.startedAt)
  {
    AlwaysGrounded(cfg, events);
    assert MissGrounded(cfg, events, m);
  }

  lemma FinishFills(cfg: Settings, events: seq<Event>, call: CallId, m: Miss, now: int)
    requires Ordered(events + [Finish(call, now)]) && m.read.Some?
    requires call in After(cfg, EMPTY, events).misses && After(cfg, EMPTY, events).misses[call] == m
    ensures HeldSince(cfg, EMPTY, events, m.key, m.read.value, m.startedAt)
    ensures After(cfg, EMPTY, events + [Finish(call, now)]).cache
         == After(cfg, EMPTY, events).cache[m.key := Cached(m.read.value, m.startedAt + cfg.lifetime)]
  {
    OneMoreEvent(cfg, events, Finish(call, now));
    FinishStep(cfg, After(cfg, EMPTY, events), call, m, now);
    ReadIsCurrent(cfg, events, call, m);
  }

  lemma FinishStep(cfg: Settings, st: State, call: CallId, m: Miss, now: int)
    requires call in st.misses && st.misses[call] == m && m.read.Some?
    ensures Step(cfg, st, Finish(call, now)).0.cache
         == st.cache[m.key := Cached(m.read.value, m.startedAt + cfg.lifetime)]
  {
  }

  // --- When an update takes hold -----------------------------------------------------

  /** From event `n` on the table, or the default, holds `value` for the key. */
  ghost predicate SettledAt(cfg: Settings, events: seq<Event>, n: nat, key: Key, value: int) {
    && n < |events| && Holds(cfg, After(cfg, EMPTY, events[..n + 1]), key) == value
    && forall i :: n < i < |events| && events[i].Update? ==> events[i].key != key
  }

  lemma {:induction false} StaysSettled(cfg: Settings, events: seq<Event>, n: nat, key: Key, value: int, m: nat)
    requires SettledAt(cfg, events, n, key, value) && n < m <= |events|
    ensures Holds(cfg, After(cfg, EMPTY, events[..m]), key) == value
  {
    if n + 1 < m {
      StaysSettled(cfg, events, n, key, value, m - 1);
      assert events[..m] == events[..m - 1] + [events[m - 1]];
      OneMoreEvent(cfg, events[..m - 1], events[m - 1]);
      OnlyUpdatesChange(cfg, After(cfg, EMPTY, events[..m - 1]), events[m - 1], key);
    }
  }

  lemma OnlyUpdatesChange(cfg: Settings, st: State, e: Event, key: Key)
    requires e.Update? ==> e.key != key
    ensures Holds(cfg, Step(cfg, st, e).0, key) == Holds(cfg, st, key)
  {
  }

  /** Event `p` answers a call for the key. */
  predicate Answers(cfg: Settings, events: seq<Event>, p: nat, key: Key) {
    && p < |events| && LastAnswer(cfg, EMPTY, events[..p + 1]).Some?
    && match events[p] {
         case Begin(_, k, _) => k == key
         case Finish(call, _) =>
           var misses := After(cfg, EMPTY, events[..p]).misses;
           call in misses && misses[call].key == key
         case _ => false
       }
  }

  /** When the call that event `p` answers began. */
  function BeganAt(cfg: Settings, events: seq<Event>, p: nat): int
    requires p < |events|
  {
    match events[p]
    case Finish(call, now) =>
      var misses := After(cfg, EMPTY, events[..p]).misses;
      if call in misses then misses[call].startedAt else now
    case e => e.now
  }

  /** A value the key held at some event after the update is the new one. */
  lemma HeldAfterUpdate(cfg: Settings, events: seq<Event>, n: nat, key: Key, value: int, p: nat, got: int, since: int)
    requires Ordered(events) && SettledAt(cfg, events, n, key, value) && p <= |events|
    requires HeldSince(cfg, EMPTY, events[..p], key, got, since) && since > events[n].now
    ensures got == value
  {
    var m :| 0 <= m < |events[..p]| && since <= events[..p][m].now
      && Holds(cfg, After(cfg, EMPTY, events[..p][..m]), key) == got;
    assert events[..p][..m] == events[..m] && events[..p][m] == events[m];
    assert m > n;
    StaysSettled(cfg, events, n, key, value, m);
  }

  lemma PrefixOrdered(events: seq<Event>, p: nat)
    requires Ordered(events) && p <= |events|
    ensures Ordered(events[..p])
  {
  }

  /** An update takes hold: every call that begins after it, and at least one lifetime after it, is
      answered with the new value, by a hit or a miss, as long as no other update follows. */
  lemma UpdateTakesHold(cfg: Settings, events: seq<Event>, n: nat, key: Key, value: int, p: nat)
    requires Ordered(events) && SettledAt(cfg, events, n, key, value) && Answers(cfg, events, p, key)
    requires BeganAt(cfg, events, p) > events[n].now && BeganAt(cfg, events, p) >= events[n].now + cfg.lifetime
    ensures LastAnswer(cfg, EMPTY, events[..p + 1]) == Some(value)
  {
    var before, e := events[..p], events[p];
    assert events[..p + 1] == before + [e];
    PrefixOrdered(events, p);
    PrefixOrdered(events, p + 1);
    OneMoreEvent(cfg, before, e);
    var got := LastAnswer(cfg, EMPTY, events[..p + 1]).value;
    if e.Begin? {
      HitIsRecent(cfg, before, e.call, key, e.now);
      HeldAfterUpdate(cfg, events, n, key, value, p, got, e.now - cfg.lifetime + 1);
    } else {
      var m := After(cfg, EMPTY, before).misses[e.call];
      ReadIsCurrent(cfg, before, e.call, m);
      HeldAfterUpdate(cfg, events, n, key, value, p, got, m.startedAt);
    }
  }

  // --- The module-level cache as an object ----------------------------------------

  /** The cache with everything that has happened around it: its own lookups, fills and drops, and
      the database reads and updates of its callers. */
  class SettingsRepo {
    const cfg: Settings
    var cache: map<Key, Cached>
    ghost var history: seq<Event>

    ghost predicate Valid()
      reads this
    {
      Ordered(history) && cache == Now().cache
    }

    /** The state the history leads to; its cache is the real one. */
    ghost function Now(): State
      reads this
    {
      After(cfg, EMPTY, history)
    }

    constructor (cfg: Settings)
      ensures Valid() && history == [] && this.cfg == cfg
    {
      this.cfg := cfg;
      cache, history := map[], [];
    }

    /** The first half of a lookup. A hit is less than one lifetime old; a miss goes to the database. */
    method Lookup(ghost call: CallId, key: Key, now: int) returns (value: Option<int>)
      requires Valid() && Ordered(history + [Begin(call, key, now)])
      modifies this`history
      ensures Valid() && history == old(history) + [Begin(call, key, now)]
      ensures value.Some? ==> HeldSince(cfg, EMPTY, old(history), key, value.value, now - cfg.lifetime + 1)
      ensures value.None? ==> call in Now().misses && Now().misses[call] == Miss(key, now, None)
    {
      OneMoreEvent(cfg, history, Begin(call, key, now));
      if key in cache && cache[key].expiresAt > now {
        value := Some(cache[key].value);
        HitIsRecent(cfg, history, call, key, now);
      } else {
        value := None;
      }
      history := history + [Begin(call, key, now)];
    }

    /** The second half: what the database gave is cached for one lifetime from the miss, not from
        the read, and returned; the database held it while the call was under way. */
    method Fill(ghost call: CallId, m: Miss, ghost now: int) returns (value: int)
      requires Valid() && Ordered(history + [Finish(call, now)])
      requires call in Now().misses && Now().misses[call] == m && m.read.Some?
      modifies this
      ensures Valid() && history == old(history) + [Finish(call, now)]
      ensures HeldSince(cfg, EMPTY, old(history), m.key, value, m.startedAt)
      ensures m.key in cache && cache[m.key] == Cached(value, m.startedAt + cfg.lifetime)
    {
      FinishFills(cfg, history, call, m, now);
      cache := cache[m.key := Cached(m.read.value, m.startedAt + cfg.lifetime)];
      value := m.read.value;
      history := history + [Finish(call, now)];
    }

    /** Forget one key, or all. The forgotten keys' later hits see the database as it is now or
        later, exactly unless a call in flight still carries an outdated value. */
    method Drop(which: Option<Key>, ghost now: int)
      requires Valid() && Ordered(history + [Invalidate(which, now)])
      modifies this
      ensures Valid() && history == old(history) + [Invalidate(which, now)]
      ensures forall key :: Names(which, key) ==> key !in cache
      ensures forall key :: !Names(which, key) ==>
        (key in cache <==> key in old(cache)) && (key in cache ==> cache[key] == old(cache)[key])
      ensures forall key :: Names(which, key) ==>
        (SeesUpdates(cfg, Now(), now, key)
         <==> forall c :: c in Now().misses ==> !Outdated(cfg, Now(), now, key, Now().misses[c]))
    {
      OneMoreEvent(cfg, history, Invalidate(which, now));
      if which.None? {
        cache := map[];
      } else {
        cache := cache - {which.value};
      }
      history := history + [Invalidate(which, now)];
      forall key | Names(which, key)
        ensures SeesUpdates(cfg, Now(), now, key)
           <==> forall c :: c in Now().misses ==> !Outdated(cfg, Now(), now, key, Now().misses[c])
      {
        InvalidateWorksExactly(cfg, Now(), now, key);
      }
    }

    /** The database answers a call in flight, or a row changes: nothing the cache does. */
    ghost method Meanwhile(e: Event)
      requires Valid() && (e.Read? || e.Update?) && Ordered(history + [e])
      modifies this`history
      ensures Valid() && history == old(history) + [e]
    {
      OneMoreEvent(cfg, history, e);
      history := history + [e];
    }
  }
}
