/** The realtime room socket: a loop over frames that mirrors the stored location in the
    process, gates messages on the mirror, and removes a user who stays outside. */
module RoomSocket {
  import opened Common
  import opened Location
  import opened Sessions
  import opened RedisWindow
  import opened RateLimit

  /** What happens to a session: a frame arrives, or the user sends by another path of this process
      or of another one meanwhile, and so uses the shared budget. */
  datatype Event =
    | Frame(frame: Sessions.Frame, now: int, ask: Ask)
    | OtherSend(now: int, ask: Ask)
    | OtherProcess(now: int, call: Call)

  datatype Reply =
    | BadLocation | LocationAck | Warning(seconds: int) | Exit
    | Ignored | Message(verdict: Verdict)
    | Elsewhere | Unhandled | Crashed

  /** The socket with what it shares: the user's stored row and the checks charged to the user's
      limiter key. `mirror` is the in-process copy of the row's timestamp. */
  datatype State = State(open: bool, mirror: Option<int>, since: Option<int>, row: UserRow, budget: Budget)

  /** A fresh connection: the mirror is seeded from the row. */
  function Connected(row: UserRow, budget: Budget): State {
    State(true, row.updatedAt, None, row, budget)
  }

  function OnFix(cfg: Settings, st: State, pos: Pos, now: int): (State, Reply) {
    var f := Fix(cfg.area(pos), now);
    var since := Begin(st.since, f);
    var moved := st.(row := UserRow(Some(now), Some(pos)), mirror := Some(now), since := since);
    match React(st.since, f, cfg.Grace())
    case Inside => (moved, LocationAck)
    case Warn => (moved, Warning(SecondsRemaining(since, now, cfg.graceSeconds, cfg.ticks)))
    case Remove => (moved.(open := false), Exit)
  }

  function OnText(cfg: Settings, st: State, content: string, now: int, ask: Ask): (State, Reply) {
    if Clean(content) == [] then (st, Ignored)
    else if !IsFresh(st.mirror, now, cfg.freshness) then (st, Message(StaleLocation))
    else
      var (v, budget) := Send(None, st.budget, now, ask, cfg.windowSeconds, cfg.ticks);
      (st.(budget := budget, open := !v.Failed?), Message(v))
  }

  function Step(cfg: Settings, st: State, e: Event): (State, Reply) {
    match e
    case OtherSend(now, ask) =>
      (st.(budget := Send(None, st.budget, now, ask, cfg.windowSeconds, cfg.ticks).1), Elsewhere)
    case OtherProcess(_, call) => (st.(budget := Joined(st.budget, call)), Elsewhere)
    case Frame(frame, now, ask) =>
      if !st.open then (st, Unhandled)
      else match frame
        case LocationFrame(lat, lng) =>
          var pos := Coerce(lat, lng);
          if pos.None? then (st, BadLocation) else OnFix(cfg, st, pos.value, now)
        case TextFrame(_, content) => OnText(cfg, st, content, now, ask)
        case OtherFrame => (st, Ignored)
        case BrokenFrame => (st.(open := false), Crashed)
  }

  /** The session after a sequence of events. */
  function StateAfter(cfg: Settings, init: State, events: seq<Event>): State {
    if events == [] then init
    else Step(cfg, StateAfter(cfg, init, events[..|events| - 1]), events[|events| - 1]).0
  }

  /** The reply to the last event of a sequence. */
  function LastReply(cfg: Settings, init: State, events: seq<Event>): Reply
    requires events != []
  {
    Step(cfg, StateAfter(cfg, init, events[..|events| - 1]), events[|events| - 1]).1
  }

  predicate InOrder(events: seq<Event>) {
    forall i, j :: 0 <= i < j < |events| ==> events[i].now <= events[j].now
  }

  /** The position a valid location frame reports. */
  function Reported(e: Event): Option<Pos> {
    if e.Frame? && e.frame.LocationFrame? then Coerce(e.frame.lat, e.frame.lng) else None
  }

  // --- What holds over every run ------------------------------------------------

  /** The mirror refines the database: with this socket the only writer of the row, the copy
      equals the stored timestamp after every run, closed or not. */
  lemma {:induction false} MirrorIsRow(cfg: Settings, init: State, events: seq<Event>)
    requires init.mirror == init.row.updatedAt
    ensures var st := StateAfter(cfg, init, events); st.mirror == st.row.updatedAt
  {
    if events != [] {
      MirrorIsRow(cfg, init, events[..|events| - 1]);
    }
  }

  /** Every non-blank message on an open socket gets the verdict, and leaves the limiter in the
      state, that the REST path would give and leave from the stored row; while the room exists,
      and only then. */
  lemma {:induction false} MessageMatchesRest(cfg: Settings, init: State, events: seq<Event>, e: Event,
                                              roomExists: bool)
    requires init.mirror == init.row.updatedAt
    requires e.Frame? && e.frame.TextFrame? && Clean(e.frame.content) != []
    requires StateAfter(cfg, init, events).open
    ensures var st := StateAfter(cfg, init, events);
      var (after, reply) := Step(cfg, st, e);
      var (verdict, budget) := Send(RoomGate(roomExists, st.row, e.now, cfg.freshness), st.budget,
                                    e.now, e.ask, cfg.windowSeconds, cfg.ticks);
      reply == Message(verdict) && after.budget == budget <==> roomExists
  {
    MirrorIsRow(cfg, init, events);
  }

  /** The fixes a sequence of events reports: valid location frames only. */
  function Fixes(cfg: Settings, events: seq<Event>): seq<Fix> {
    if events == [] then [] else
    var e := events[|events| - 1];
    Fixes(cfg, events[..|events| - 1])
    + (if Reported(e).Some? then [Fix(cfg.area(Reported(e).value), e.now)] else [])
  }

  /** While the socket is open its tracker has seen every valid fix and nothing else. */
  lemma {:induction false} TracksFixes(cfg: Settings, init: State, events: seq<Event>)
    requires init.since.None? && StateAfter(cfg, init, events).open
    ensures StateAfter(cfg, init, events).since == SinceAfter(Fixes(cfg, events))
  {
    if events != [] {
      var n := |events| - 1;
      TracksFixes(cfg, init, events[..n]);
      var e := events[n];
      FixSnoc(Fixes(cfg, events[..n]), Fix(Reported(e).Some? && cfg.area(Reported(e).value), e.now));
      if Reported(events[n]).None? {
        assert Fixes(cfg, events) == Fixes(cfg, events[..n]);
      }
    }
  }

  lemma FixSnoc(trace: seq<Fix>, f: Fix)
    ensures SinceAfter(trace + [f]) == Begin(SinceAfter(trace), f)
    ensures forall grace :: LastAction(trace + [f], grace) == React(SinceAfter(trace), f, grace)
  {
    assert (trace + [f])[..|trace|] == trace;
  }

  /** Ejection over whole runs of frames: an open socket answers a valid fix with a removal if and
      only if the fix is outside, not the first of the trailing run of outside fixes, and that run
      began at least the grace ago; bad fixes, messages and junk do not count. It acknowledges
      exactly the inside fixes, and warns on the rest. */
  lemma EjectedExactly(cfg: Settings, init: State, events: seq<Event>, e: Event, start: nat)
    requires init.since.None? && StateAfter(cfg, init, events).open && Reported(e).Some?
    ensures var reply := Step(cfg, StateAfter(cfg, init, events), e).1;
      var trace := Fixes(cfg, events) + [Fix(cfg.area(Reported(e).value), e.now)];
      && (reply.LocationAck? <==> InsideFix(cfg, e))
      && (reply.Warning? <==> !InsideFix(cfg, e) && !reply.Exit?)
      && (TrailingOutside(trace, start) ==>
           (reply.Exit? <==> start + 2 <= |trace| && e.now - trace[start].now >= cfg.Grace()))
  {
    var trace := Fixes(cfg, events);
    var f := Fix(cfg.area(Reported(e).value), e.now);
    TracksFixes(cfg, init, events);
    FixSnoc(trace, f);
    if TrailingOutside(trace + [f], start) {
      RemovalExactly(trace + [f], start, cfg.Grace());
    }
  }

  lemma {:induction false} ClockHolds(cfg: Settings, st: State, events: seq<Event>)
    requires st.since.Some? && forall i :: 0 <= i < |events| ==> !InsideFix(cfg, events[i])
    ensures StateAfter(cfg, st, events).since == st.since
  {
    if events != [] {
      ClockHolds(cfg, st, events[..|events| - 1]);
    }
  }

  /** A warning is honest: whatever comes after it except an inside fix, and as long as the user is still
      connected, an outside fix once a second more than it said has passed ejects, and one before the
      time it said does not. */
  lemma WarningIsHonest(cfg: Settings, st: State, e: Event, events: seq<Event>, next: Event)
    requires Step(cfg, st, e).1.Warning? && OutsideFix(cfg, next)
    requires forall i :: 0 <= i < |events| ==> !InsideFix(cfg, events[i])
    ensures var (warned, warning) := Step(cfg, st, e);
      var then_ := StateAfter(cfg, warned, events);
      then_.open ==>
        && (next.now >= e.now + (warning.seconds + 1) * cfg.ticks ==> Step(cfg, then_, next).1.Exit?)
        && (e.now <= next.now < e.now + warning.seconds * cfg.ticks ==> Step(cfg, then_, next).1.Warning?)
  {
    var warned := Step(cfg, st, e).0;
    ClockHolds(cfg, warned, events);
    FigureIsTight(warned.since.value, e.now, cfg.graceSeconds, cfg.ticks, next.now);
  }

  /** After the trailing run of outside fixes has begun at `t0`, an open socket still shows a
      clock no later than `t0` and a mirror refreshed before the grace ran out. */
  predicate Leaving(st: State, t0: int, grace: int) {
    st.open ==>
      && st.since.Some? && st.since.value <= t0
      && st.mirror.Some? && st.mirror.value < st.since.value + grace
  }

  predicate OutsideFix(cfg: Settings, e: Event) {
    Reported(e).Some? && !cfg.area(Reported(e).value)
  }

  predicate InsideFix(cfg: Settings, e: Event) {
    Reported(e).Some? && cfg.area(Reported(e).value)
  }

  /** The tracker's clock never shows a later time than the last event. */
  lemma {:induction false} SinceIsPast(cfg: Settings, init: State, events: seq<Event>, now: int)
    requires init.since.None? && InOrder(events)
    requires forall i :: 0 <= i < |events| ==> events[i].now <= now
    ensures var st := StateAfter(cfg, init, events); st.since.Some? ==> st.since.value <= now
  {
    if events != [] {
      SinceIsPast(cfg, init, events[..|events| - 1], now);
    }
  }

  lemma LeavingStarts(cfg: Settings, st: State, e: Event)
    requires OutsideFix(cfg, e) && cfg.Grace() > 0 && (st.since.Some? ==> st.since.value <= e.now)
    ensures Leaving(Step(cfg, st, e).0, e.now, cfg.Grace())
  {
  }

  lemma LeavingStays(cfg: Settings, st: State, e: Event, t0: int)
    requires Leaving(st, t0, cfg.Grace()) && !InsideFix(cfg, e)
    ensures Leaving(Step(cfg, st, e).0, t0, cfg.Grace())
  {
  }

  lemma {:induction false} LeavingPersists(cfg: Settings, init: State, events: seq<Event>, s: nat)
    requires init.since.None? && InOrder(events) && s < |events| && cfg.Grace() > 0
    requires OutsideFix(cfg, events[s])
    requires forall j :: s < j < |events| ==> !InsideFix(cfg, events[j])
    ensures Leaving(StateAfter(cfg, init, events), events[s].now, cfg.Grace())
  {
    var n := |events| - 1;
    if s == n {
      SinceIsPast(cfg, init, events[..n], events[n].now);
      LeavingStarts(cfg, StateAfter(cfg, init, events[..n]), events[n]);
    } else {
      LeavingPersists(cfg, init, events[..n], s);
      LeavingStays(cfg, StateAfter(cfg, init, events[..n]), events[n], events[s].now);
    }
  }

  /** Post-departure bound: with positive grace, once a run of outside fixes begins at t0 and no
      later fix is inside, no message is accepted at or after t0 + grace + freshness, although
      outside fixes keep refreshing the mirror. */
  lemma NoMessageAfterDeparture(cfg: Settings, init: State, events: seq<Event>, s: nat)
    requires init.since.None? && InOrder(events) && cfg.Grace() > 0
    requires s + 1 < |events| && OutsideFix(cfg, events[s])
    requires forall j :: s < j < |events| ==> !InsideFix(cfg, events[j])
    requires events[|events| - 1].now >= events[s].now + cfg.Grace() + cfg.freshness
    ensures LastReply(cfg, init, events) != Message(Accepted)
  {
    LeavingPersists(cfg, init, events[..|events| - 1], s);
  }

  // --- When the departure bound holds -------------------------------------------------

  /** From event `s` on the user only reports outside, and the last event comes at least the grace
      and the freshness window after it. */
  predicate Departed(cfg: Settings, init: State, events: seq<Event>, s: nat) {
    && init.since.None? && InOrder(events) && s + 1 < |events| && OutsideFix(cfg, events[s])
    && (forall j :: s < j < |events| ==> !InsideFix(cfg, events[j]))
    && events[|events| - 1].now >= events[s].now + cfg.Grace() + cfg.freshness
  }

  /** No departed user gets a message in, over all sessions. */
  ghost predicate DepartureBound(cfg: Settings) {
    forall init: State, events: seq<Event>, s: nat | Departed(cfg, init, events, s) ::
      LastReply(cfg, init, events) != Message(Accepted)
  }

  lemma {:induction false} LocatedInPast(cfg: Settings, init: State, events: seq<Event>, s: nat)
    requires InOrder(events) && s < |events| && OutsideFix(cfg, events[s])
    ensures var st := StateAfter(cfg, init, events);
      st.open ==> st.mirror.Some? && st.mirror.value <= events[|events| - 1].now
  {
    if s < |events| - 1 {
      LocatedInPast(cfg, init, events[..|events| - 1], s);
    }
  }

  /** A check that never reaches Redis, with a limit of one. */
  const QUIET := Ask(Call(0, 1, 0, false), Unreached)

  /** A first send through a quiet limiter is let through. */
  lemma FirstSendPasses(cfg: Settings, st: State, now: int)
    requires st.open && st.budget == Budget(false, [], []) && IsFresh(st.mirror, now, cfg.freshness)
    ensures Step(cfg, st, Frame(TextFrame(true, "a"), now, QUIET)).1 == Message(Accepted)
  {
    CleanIsEmpty("a");
    assert !IsSpace("a"[0]);
  }

  function FixFrame(pos: Pos, now: int): Event {
    Frame(LocationFrame(Some(pos.lat), Some(pos.lng)), now, QUIET)
  }

  const STRANGER := Connected(UserRow(None, None), Budget(false, [], []))

  /** With a positive grace the bound cannot be lowered: a user who reports outside at 0 and again
      just before the grace runs out is accepted one tick before it. */
  lemma DepartureBoundIsTight(cfg: Settings, outside: Pos)
    requires cfg.Grace() > 0 && cfg.freshness >= 0
    requires Coerce(Some(outside.lat), Some(outside.lng)) == Some(outside) && !cfg.area(outside)
    ensures var last := cfg.Grace() - 1 + cfg.freshness;
      LastReply(cfg, STRANGER, [FixFrame(outside, 0), FixFrame(outside, cfg.Grace() - 1),
                                Frame(TextFrame(true, "a"), last, QUIET)]) == Message(Accepted)
  {
    var g := cfg.Grace();
    var all := [FixFrame(outside, 0), FixFrame(outside, g - 1),
                Frame(TextFrame(true, "a"), g - 1 + cfg.freshness, QUIET)];
    assert all[..0] == [] && all[..1][..0] == all[..0] && all[..2][..1] == all[..1];
    assert StateAfter(cfg, STRANGER, all[..0]) == STRANGER;
    assert StateAfter(cfg, STRANGER, all[..1]) == Step(cfg, STRANGER, all[0]).0;
    FirstSendPasses(cfg, StateAfter(cfg, STRANGER, all[..2]), g - 1 + cfg.freshness);
  }

  /** Without a positive grace the bound fails for every freshness window: the first outside fix
      only warns, and a message is accepted as long as it is fresh. */
  lemma NoGraceBreaksBound(cfg: Settings, outside: Pos)
    requires cfg.Grace() <= 0 && cfg.freshness >= 0
    requires Coerce(Some(outside.lat), Some(outside.lng)) == Some(outside) && !cfg.area(outside)
    ensures !DepartureBound(cfg)
  {
    var all := [FixFrame(outside, 0), Frame(TextFrame(true, "a"), cfg.freshness, QUIET)];
    assert all[..0] == [] && all[..1][..0] == all[..0];
    assert StateAfter(cfg, STRANGER, all[..1]) == Step(cfg, STRANGER, all[0]).0;
    FirstSendPasses(cfg, StateAfter(cfg, STRANGER, all[..1]), cfg.freshness);
    assert Departed(cfg, STRANGER, all, 0);
  }

  /** The departure bound holds exactly for a positive grace, or a freshness window that lets no
      message through at all; given that one can be outside. */
  lemma DepartureBoundExactly(cfg: Settings, outside: Pos)
    requires Coerce(Some(outside.lat), Some(outside.lng)) == Some(outside) && !cfg.area(outside)
    ensures DepartureBound(cfg) <==> cfg.Grace() > 0 || cfg.freshness < 0
  {
    if cfg.Grace() <= 0 && cfg.freshness >= 0 {
      NoGraceBreaksBound(cfg, outside);
    } else {
      forall init: State, events: seq<Event>, s: nat | Departed(cfg, init, events, s)
        ensures LastReply(cfg, init, events) != Message(Accepted)
      {
        if cfg.Grace() > 0 {
          NoMessageAfterDeparture(cfg, init, events, s);
        } else {
          LocatedInPast(cfg, init, events[..|events| - 1], s);
        }
      }
    }
  }

  /** A removal is final: no later frame is handled, and none changes the row or the budget. */
  lemma {:induction false} RemovalIsFinal(cfg: Settings, init: State, events: seq<Event>, i: nat)
    requires i + 1 < |events|
    requires LastReply(cfg, init, events[..i + 1]).Exit?
    ensures var st := StateAfter(cfg, init, events); !st.open && st.row == StateAfter(cfg, init, events[..i + 1]).row
    ensures events[|events| - 1].Frame? ==>
      && LastReply(cfg, init, events).Unhandled?
      && StateAfter(cfg, init, events) == StateAfter(cfg, init, events[..|events| - 1])
  {
    var n := |events| - 1;
    assert events[..n][..i + 1] == events[..i + 1];
    if i + 1 < n {
      RemovalIsFinal(cfg, init, events[..n], i);
    } else {
      assert events[..n] == events[..i + 1];
    }
  }

  /** A served prefix of the events: one reply each, as the step function gives it, ending in `end`. */
  ghost predicate Served(cfg: Settings, init: State, events: seq<Event>, replies: seq<Reply>, end: State) {
    && |replies| <= |events|
    && end == StateAfter(cfg, init, events[..|replies|])
    && forall i :: 0 <= i < |replies| ==> replies[i] == LastReply(cfg, init, events[..i + 1])
  }

  lemma ServedStep(cfg: Settings, init: State, events: seq<Event>, replies: seq<Reply>, st: State, st': State,
                   reply: Reply)
    requires Served(cfg, init, events, replies, st) && |replies| < |events|
    requires (st', reply) == Step(cfg, st, events[|replies|])
    ensures Served(cfg, init, events, replies + [reply], st')
  {
    var n := |replies|;
    assert events[..n + 1][..n] == events[..n];
  }

  // --- The socket loop ---------------------------------------------------------

  const GEOFENCE_EXIT_CODE := 4403
  const NORMAL_CODE := 1000

  predicate Removed(replies: seq<Reply>) {
    replies != [] && replies[|replies| - 1] == Exit
  }

  /** One socket's session: its own mirror and tracker, and the row and limiter it shares. */
  class Session {
    const cfg: Settings
    const users: UserTable
    const limiter: MessageRateLimiter
    const key: Key
    const geofence: GeofenceTracker
    var mirror: Option<int>
    var open: bool
    var closeCode: int

    ghost predicate Valid()
      reads this, limiter, limiter.local, limiter.redis, geofence
    {
      && limiter.Valid() && limiter.windowSeconds == cfg.windowSeconds && limiter.local.ticks == cfg.ticks
      && geofence.Valid() && geofence.graceSeconds == cfg.graceSeconds && geofence.ticks == cfg.ticks
    }

    ghost function Now(): State
      reads this, users, limiter, limiter.local, limiter.redis, geofence
    {
      State(open, mirror, geofence.outsideSince, users.row, limiter.Holdings(key))
    }

    /** Connect: the mirror is seeded from the stored row. */
    constructor (cfg: Settings, users: UserTable, limiter: MessageRateLimiter, key: Key)
      requires limiter.Valid() && limiter.windowSeconds == cfg.windowSeconds && limiter.local.ticks == cfg.ticks
      ensures Valid() && fresh(geofence)
      ensures this.cfg == cfg && this.users == users && this.limiter == limiter && this.key == key
      ensures Now() == Connected(users.row, limiter.Holdings(key)) && closeCode == NORMAL_CODE
    {
      this.cfg, this.users, this.limiter, this.key := cfg, users, limiter, key;
      geofence := new GeofenceTracker(cfg.graceSeconds, cfg.ticks);
      mirror, open, closeCode := users.row.updatedAt, true, NORMAL_CODE;
    }

    method HandleFix(pos: Pos, now: int) returns (reply: Reply)
      requires Valid() && open
      modifies this, users, geofence
      ensures Valid() && (Now(), reply) == OnFix(cfg, old(Now()), pos, now)
      ensures closeCode == if reply.Exit? then GEOFENCE_EXIT_CODE else old(closeCode)
    {
      users.UpdateLocation(pos, now);
      mirror := Some(now);
      var action := geofence.Observe(cfg.area(pos), now);
      if action.Inside? {
        reply := LocationAck;
      } else if action.Warn? {
        reply := Warning(geofence.Remaining(now));
      } else {
        reply := Exit;
        closeCode, open := GEOFENCE_EXIT_CODE, false;
      }
    }

    method HandleText(content: string, now: int, ask: Ask) returns (reply: Reply)
      requires Valid() && open
      modifies this, limiter.local, limiter.redis
      ensures Valid() && (Now(), reply) == OnText(cfg, old(Now()), content, now, ask)
      ensures closeCode == old(closeCode)
    {
      if Clean(content) == [] {
        return Ignored;
      }
      if !IsFresh(mirror, now, cfg.freshness) {
        return Message(StaleLocation);
      }
      var verdict := CheckSendRate(limiter, key, now, ask);
      open := !verdict.Failed?;
      return Message(verdict);
    }

    method HandleFrame(frame: Sessions.Frame, now: int, ask: Ask) returns (reply: Reply)
      requires Valid() && open
      modifies this, users, limiter.local, limiter.redis, geofence
      ensures Valid() && (Now(), reply) == Step(cfg, old(Now()), Frame(frame, now, ask))
      ensures closeCode == if reply.Exit? then GEOFENCE_EXIT_CODE else old(closeCode)
      ensures reply.Exit? ==> !open
    {
      match frame {
        case LocationFrame(lat, lng) =>
          var pos := Coerce(lat, lng);
          if pos.None? {
            return BadLocation;
          }
          reply := HandleFix(pos.value, now);
        case TextFrame(_, content) =>
          reply := HandleText(content, now, ask);
        case OtherFrame =>
          reply := Ignored;
        case BrokenFrame =>
          open := false;
          reply := Crashed;
      }
    }

    method Handle(e: Event) returns (reply: Reply)
      requires Valid()
      modifies this, users, limiter.local, limiter.redis, geofence
      ensures Valid() && (Now(), reply) == Step(cfg, old(Now()), e)
      ensures closeCode == if reply.Exit? then GEOFENCE_EXIT_CODE else old(closeCode)
      ensures reply.Exit? ==> !open
    {
      match e {
        case OtherSend(now, ask) =>
          var _ := CheckSendRate(limiter, key, now, ask);
          reply := Elsewhere;
        case OtherProcess(_, call) =>
          limiter.RunElsewhere(key, call);
          reply := Elsewhere;
        case Frame(frame, now, ask) =>
          if open {
            reply := HandleFrame(frame, now, ask);
          } else {
            reply := Unhandled;
          }
      }
    }

    /** The receive loop: serve until the user is removed, an exception ends the socket, or
        no more arrives. */
    method Serve(events: seq<Event>) returns (replies: seq<Reply>)
      requires Valid() && open && closeCode == NORMAL_CODE
      modifies this, users, limiter.local, limiter.redis, geofence
      ensures Valid() && Served(cfg, old(Now()), events, replies, Now())
      ensures open ==> |replies| == |events|
      ensures closeCode == if Removed(replies) then 4403 else 1000
    {
      replies := [];
      ghost var init := Now();
      while open && |replies| < |events|
        invariant Valid() && Served(cfg, init, events, replies, Now())
        invariant closeCode == if Removed(replies) then GEOFENCE_EXIT_CODE else NORMAL_CODE
        invariant open ==> closeCode == NORMAL_CODE
        decreases |events| - |replies|
      {
        ghost var before := Now();
        var e := events[|replies|];
        var reply := Handle(e);
        ServedStep(cfg, init, events, replies, before, Now(), reply);
        replies := replies + [reply];
      }
    }
  }
}
