/** The realtime private-message socket: it keeps its own idea of whether the sender is in the
    room's area, tells the peer when that changes, and gates messages on it. */
module DmSocket {
  import opened Common
  import opened Location
  import opened Sessions
  import opened RedisWindow
  import opened RateLimit

  /** What happens to a session: a frame arrives, the sender uses the shared budget elsewhere in
      this process or in another one, or the peer's stored row changes. */
  datatype Event =
    | Frame(frame: Sessions.Frame, now: int, ask: Ask)
    | OtherSend(now: int, ask: Ask)
    | OtherProcess(now: int, call: Call)
    | PeerMoves(peer: UserRow, now: int)

  datatype Reply =
    | BadLocation | LocationAck | Warning(seconds: int) | Exit
    | Ignored | Message(verdict: Verdict)
    | Elsewhere | Unhandled | Crashed

  /** The socket with what it shares: both stored rows, the checks made against the sender's
      limiter key, the connection's activity clock, and the own-presence broadcasts so far. */
  datatype State = State(
    open: bool, mirror: Option<int>, selfInside: bool, since: Option<int>,
    row: UserRow, peer: UserRow, budget: Budget, activity: int, broadcasts: seq<bool>)

  /** Connecting snapshots the sender's presence, announces it if present, and counts as activity. */
  function Connected(cfg: Settings, row: UserRow, peer: UserRow, budget: Budget, now: int): State {
    var present := IsPresent(row, cfg.area, now, cfg.freshness);
    State(true, row.updatedAt, present, None, row, peer, budget, now, if present then [true] else [])
  }

  /** Set the sender's presence, announcing a change. */
  function SetPresence(st: State, present: bool): State {
    if st.selfInside == present then st
    else st.(selfInside := present, broadcasts := st.broadcasts + [present])
  }

  function OnFix(cfg: Settings, st: State, pos: Pos, now: int): (State, Reply) {
    var f := Fix(cfg.area(pos), now);
    var since := Begin(st.since, f);
    var moved := st.(row := UserRow(Some(now), Some(pos)), mirror := Some(now), since := since);
    match React(st.since, f, cfg.Grace())
    case Inside =>
      (SetPresence(moved, true).(activity := if st.selfInside then st.activity else now), LocationAck)
    case Warn =>
      (SetPresence(moved, false), Warning(SecondsRemaining(since, now, cfg.graceSeconds, cfg.ticks)))
    case Remove =>
      (SetPresence(moved, false), Exit)
  }

  function OnText(cfg: Settings, st: State, content: string, now: int, ask: Ask): (State, Reply) {
    if Clean(content) == [] then (st, Ignored)
    else if !IsFresh(st.mirror, now, cfg.freshness) then (st, Message(StaleLocation))
    else if !st.selfInside then (st, Message(OutOfRange))
    else if !IsPresent(st.peer, cfg.area, now, cfg.freshness) then (st, Message(RecipientUnavailable))
    else Posting(cfg, st, now, ask)
  }

  /** A message past its gates: the limiter decides, and an accepted one counts as activity. */
  function Posting(cfg: Settings, st: State, now: int, ask: Ask): (State, Reply) {
    var (v, budget) := Send(None, st.budget, now, ask, cfg.windowSeconds, cfg.ticks);
    (st.(budget := budget, open := !v.Failed?, activity := if v.Accepted? then now else st.activity), Message(v))
  }

  function Step(cfg: Settings, st: State, e: Event): (State, Reply) {
    match e
    case OtherSend(now, ask) =>
      (st.(budget := Send(None, st.budget, now, ask, cfg.windowSeconds, cfg.ticks).1), Elsewhere)
    case OtherProcess(_, call) => (st.(budget := Joined(st.budget, call)), Elsewhere)
    case PeerMoves(peer, _) => (st.(peer := peer), Elsewhere)
    case Frame(frame, now, ask) =>
      if !st.open then (st, Unhandled)
      else match frame
        case LocationFrame(lat, lng) =>
          var pos := Coerce(lat, lng);
          if pos.None? then (st, BadLocation) else OnFix(cfg, st, pos.value, now)
        case TextFrame(_, content) => OnText(cfg, st, content, now, ask)
        case OtherFrame => (st, Ignored)
        case BrokenFrame => (st.(open := false), Crashed)
  }

  function StateAfter(cfg: Settings, init: State, events: seq<Event>): State {
    if events == [] then init
    else Step(cfg, StateAfter(cfg, init, events[..|events| - 1]), events[|events| - 1]).0
  }

  function LastReply(cfg: Settings, init: State, events: seq<Event>): Reply
    requires events != []
  {
    Step(cfg, StateAfter(cfg, init, events[..|events| - 1]), events[|events| - 1]).1
  }

  // --- What holds over every run ------------------------------------------------

  /** The mirror agrees with the sender's row from `clock` on: the timestamps are equal, and
      whenever the fix is still fresh the presence flag says whether it is in the area. */
  ghost predicate Mirrors(cfg: Settings, st: State, clock: int) {
    && st.mirror == st.row.updatedAt
    && forall t :: clock <= t && IsFresh(st.mirror, t, cfg.freshness) ==> st.selfInside == InRange(st.row, cfg.area)
  }

  /** The connect snapshot agrees even when the stored fix was already stale: it never becomes
      fresh again without a new fix. */
  lemma ConnectMirrors(cfg: Settings, row: UserRow, peer: UserRow, budget: Budget, now: int)
    ensures Mirrors(cfg, Connected(cfg, row, peer, budget, now), now)
  {
  }

  lemma {:induction false} RunMirrors(cfg: Settings, init: State, events: seq<Event>, start: int)
    requires Mirrors(cfg, init, start)
    ensures Mirrors(cfg, StateAfter(cfg, init, events), start)
  {
    if events != [] {
      var n := |events| - 1;
      RunMirrors(cfg, init, events[..n], start);
      MirrorStep(cfg, StateAfter(cfg, init, events[..n]), events[n], start);
    }
  }

  lemma MirrorStep(cfg: Settings, st: State, e: Event, start: int)
    requires Mirrors(cfg, st, start)
    ensures Mirrors(cfg, Step(cfg, st, e).0, start)
  {
  }

  /** The mirror refines the database. For every run from a connect at `start`, and every
      non-blank message on the open socket at or after it, the socket's verdict and its effect
      on the limiter are those of the REST gate evaluated on the stored rows. They agree while
      the room exists, and only then: the REST path alone looks the room up again. */
  lemma {:induction false} MessageMatchesGate(cfg: Settings, row: UserRow, peer: UserRow, budget: Budget, start: int,
                                              events: seq<Event>, e: Event, roomExists: bool)
    requires e.Frame? && e.frame.TextFrame? && Clean(e.frame.content) != [] && e.now >= start
    requires StateAfter(cfg, Connected(cfg, row, peer, budget, start), events).open
    ensures var st := StateAfter(cfg, Connected(cfg, row, peer, budget, start), events);
      var (after, reply) := Step(cfg, st, e);
      var gate := DmGate(roomExists, st.row, st.peer, cfg.area, e.now, cfg.freshness);
      var (verdict, budget') := Send(gate, st.budget, e.now, e.ask, cfg.windowSeconds, cfg.ticks);
      reply == Message(verdict) && after.budget == budget' <==> roomExists
  {
    var init := Connected(cfg, row, peer, budget, start);
    ConnectMirrors(cfg, row, peer, budget, start);
    RunMirrors(cfg, init, events, start);
  }

  /** Own-presence broadcasts start with true, strictly alternate, and end at the current flag;
      a running clock means the flag is down. */
  predicate Announces(st: State) {
    && (forall i :: 0 <= i < |st.broadcasts| ==> st.broadcasts[i] == (i % 2 == 0))
    && st.selfInside == (|st.broadcasts| % 2 == 1)
    && (st.since.Some? ==> !st.selfInside)
  }

  lemma PresenceStep(st: State, present: bool)
    requires Announces(st.(since := None)) && (st.since.Some? ==> !present)
    ensures Announces(SetPresence(st, present))
  {
  }

  lemma {:induction false} BroadcastsAlternate(cfg: Settings, row: UserRow, peer: UserRow, budget: Budget, start: int,
                                               events: seq<Event>)
    ensures Announces(StateAfter(cfg, Connected(cfg, row, peer, budget, start), events))
  {
    if events != [] {
      BroadcastsAlternate(cfg, row, peer, budget, start, events[..|events| - 1]);
      var st := StateAfter(cfg, Connected(cfg, row, peer, budget, start), events[..|events| - 1]);
      var e := events[|events| - 1];
      if st.open && e.Frame? && e.frame.LocationFrame? && Coerce(e.frame.lat, e.frame.lng).Some? {
        FixAnnounces(cfg, st, Coerce(e.frame.lat, e.frame.lng).value, e.now);
      }
    }
  }

  lemma FixAnnounces(cfg: Settings, st: State, pos: Pos, now: int)
    requires Announces(st)
    ensures Announces(OnFix(cfg, st, pos, now).0)
  {
    var f := Fix(cfg.area(pos), now);
    var moved := st.(row := UserRow(Some(now), Some(pos)), mirror := Some(now), since := Begin(st.since, f));
    PresenceStep(moved, f.inside);
  }

  /** The removal branch has a broadcast of its own that never fires: by then the peer has been
      told. It also leaves the socket open. */
  lemma {:induction false} RemovalIsSilent(cfg: Settings, row: UserRow, peer: UserRow, budget: Budget, start: int,
                                           events: seq<Event>)
    requires events != []
    requires LastReply(cfg, Connected(cfg, row, peer, budget, start), events).Exit?
    ensures var init := Connected(cfg, row, peer, budget, start);
      && StateAfter(cfg, init, events).broadcasts == StateAfter(cfg, init, events[..|events| - 1]).broadcasts
      && StateAfter(cfg, init, events).open
  {
    BroadcastsAlternate(cfg, row, peer, budget, start, events[..|events| - 1]);
    var init := Connected(cfg, row, peer, budget, start);
    ExitIsSilent(cfg, StateAfter(cfg, init, events[..|events| - 1]), events[|events| - 1]);
  }

  lemma ExitIsSilent(cfg: Settings, st: State, e: Event)
    requires Announces(st) && Step(cfg, st, e).1.Exit?
    ensures Step(cfg, st, e).0.broadcasts == st.broadcasts && Step(cfg, st, e).0.open
  {
  }

  /** The event is a valid fix, inside the area or not. */
  predicate FixAt(cfg: Settings, e: Event, inside: bool) {
    && e.Frame? && e.frame.LocationFrame? && Coerce(e.frame.lat, e.frame.lng).Some?
    && cfg.area(Coerce(e.frame.lat, e.frame.lng).value) == inside
  }

  lemma {:induction false} PausedOutside(cfg: Settings, init: State, events: seq<Event>, s: nat)
    requires s < |events| && FixAt(cfg, events[s], false)
    requires forall j :: s < j < |events| ==> !FixAt(cfg, events[j], true)
    ensures var st := StateAfter(cfg, init, events); st.open ==> !st.selfInside
  {
    if s < |events| - 1 {
      PausedOutside(cfg, init, events[..|events| - 1], s);
    }
  }

  /** Unlike the room socket, this one has no grace for messages: after an outside fix none is
      accepted until a fix is inside again. */
  lemma NoMessageWhileOutside(cfg: Settings, init: State, events: seq<Event>, s: nat)
    requires s < |events| - 1 && FixAt(cfg, events[s], false)
    requires forall j :: s < j < |events| ==> !FixAt(cfg, events[j], true)
    ensures LastReply(cfg, init, events) != Message(Accepted)
  {
    PausedOutside(cfg, init, events[..|events| - 1], s);
  }

  /** The presence announced on disconnect, read from the stored row, is the socket's own flag
      as long as the fix is fresh, and false after that. */
  lemma {:induction false} DisconnectPresence(cfg: Settings, row: UserRow, peer: UserRow, budget: Budget, start: int,
                                              events: seq<Event>, now: int)
    requires now >= start
    ensures var st := StateAfter(cfg, Connected(cfg, row, peer, budget, start), events);
      IsPresent(st.row, cfg.area, now, cfg.freshness) == (st.selfInside && IsFresh(st.mirror, now, cfg.freshness))
  {
    ConnectMirrors(cfg, row, peer, budget, start);
    RunMirrors(cfg, Connected(cfg, row, peer, budget, start), events, start);
  }

  predicate InOrder(events: seq<Event>, start: int) {
    && (forall i, j :: 0 <= i < j < |events| ==> events[i].now <= events[j].now)
    && (forall i :: 0 <= i < |events| ==> start <= events[i].now)
  }

  /** The connection's activity clock never runs back past the connect or ahead of the last event. */
  lemma {:induction false} ActivityInOrder(cfg: Settings, init: State, events: seq<Event>)
    requires InOrder(events, init.activity)
    ensures var st := StateAfter(cfg, init, events);
      init.activity <= st.activity <= if events == [] then init.activity else events[|events| - 1].now
  {
    if events != [] {
      var n := |events| - 1;
      ActivityInOrder(cfg, init, events[..n]);
      ActivityStep(cfg, StateAfter(cfg, init, events[..n]), events[n]);
    }
  }

  /** The connection's activity clock covers the session's messages: it is never older than any that
      was accepted. */
  lemma {:induction false} ActivityCoversMessage(cfg: Settings, init: State, events: seq<Event>, i: nat)
    requires InOrder(events, init.activity) && i < |events|
    requires LastReply(cfg, init, events[..i + 1]) == Message(Accepted)
    ensures events[i].now <= StateAfter(cfg, init, events).activity
  {
    var front := events[..|events| - 1];
    if i == |front| {
      assert events[..i + 1] == events;
      LastActivityStep(cfg, init, events);
    } else {
      assert front[..i + 1] == events[..i + 1];
      ActivityCoversMessage(cfg, init, front, i);
      LastActivityStep(cfg, init, events);
    }
  }

  lemma LastActivityStep(cfg: Settings, init: State, events: seq<Event>)
    requires events != [] && InOrder(events, init.activity)
    ensures StateAfter(cfg, init, events[..|events| - 1]).activity <= StateAfter(cfg, init, events).activity
    ensures LastReply(cfg, init, events) == Message(Accepted) ==>
      StateAfter(cfg, init, events).activity == events[|events| - 1].now
  {
    ActivityInOrder(cfg, init, events[..|events| - 1]);
    ActivityStep(cfg, StateAfter(cfg, init, events[..|events| - 1]), events[|events| - 1]);
  }

  lemma ActivityStep(cfg: Settings, st: State, e: Event)
    requires st.activity <= e.now
    ensures var (st', reply) := Step(cfg, st, e);
      st.activity <= st'.activity <= e.now && (reply == Message(Accepted) ==> st'.activity == e.now)
  {
  }

  // --- The socket loop ---------------------------------------------------------

  /** A served prefix of the events: one reply each, as the step function gives it, ending in `end`. */
  ghost predicate Served(cfg: Settings, init: State, events: seq<Event>, replies: seq<Reply>, end: State) {
    && |replies| <= |events|
    && end == StateAfter(cfg, init, events[..|replies|])
    && forall i :: 0 <= i < |replies| ==> replies[i] == LastReply(cfg, init, events[..i + 1])
  }

  lemma ServedStep(cfg: Settings, init: State, events: seq<Event>, replies: seq<Reply>, st: State, st': State,
                   reply: Reply)
    requires Served(cfg, init, events, replies, st) && |replies| < |events|
    requires (st', reply) == Step(cfg, st, events[|replies|])
    ensures Served(cfg, init, events, replies + [reply], st')
  {
    var n := |replies|;
    assert events[..n + 1][..n] == events[..n];
  }

  class Session {
    const cfg: Settings
    const users: UserTable
    const peers: UserTable
    const limiter: MessageRateLimiter
    const key: Key
    const geofence: GeofenceTracker
    var mirror: Option<int>
    var selfInside: bool
    var open: bool
    var activity: int
    var broadcasts: seq<bool>

    ghost predicate Valid()
      reads this, limiter, limiter.local, limiter.redis, geofence
    {
      && users != peers
      && limiter.Valid() && limiter.windowSeconds == cfg.windowSeconds && limiter.local.ticks == cfg.ticks
      && geofence.Valid() && geofence.graceSeconds == cfg.graceSeconds && geofence.ticks == cfg.ticks
    }

    ghost function Now(): State
      reads this, users, peers, limiter, limiter.local, limiter.redis, geofence
    {
      State(open, mirror, selfInside, geofence.outsideSince, users.row, peers.row, limiter.Holdings(key),
            activity, broadcasts)
    }

    constructor (cfg: Settings, users: UserTable, peers: UserTable,
                 limiter: MessageRateLimiter, key: Key, now: int)
      requires limiter.Valid() && limiter.windowSeconds == cfg.windowSeconds && limiter.local.ticks == cfg.ticks
      requires users != peers
      ensures Valid() && fresh(geofence)
      ensures this.cfg == cfg && this.users == users && this.peers == peers
      ensures this.limiter == limiter && this.key == key
      ensures Now() == Connected(cfg, users.row, peers.row, limiter.Holdings(key), now)
    {
      this.cfg, this.users, this.peers, this.limiter, this.key := cfg, users, peers, limiter, key;
      geofence := new GeofenceTracker(cfg.graceSeconds, cfg.ticks);
      var present := IsPresent(users.row, cfg.area, now, cfg.freshness);
      mirror, selfInside, open, activity := users.row.updatedAt, present, true, now;
      broadcasts := if present then [true] else [];
    }

    method HandleFix(pos: Pos, now: int) returns (reply: Reply)
      requires Valid() && open
      modifies this, users, geofence
      ensures Valid() && (Now(), reply) == OnFix(cfg, old(Now()), pos, now)
    {
      users.UpdateLocation(pos, now);
      mirror := Some(now);
      var action := geofence.Observe(cfg.area(pos), now);
      if action.Inside? {
        if !selfInside {
          activity := now;
        }
        SetOwnPresence(true);
        reply := LocationAck;
      } else if action.Warn? {
        SetOwnPresence(false);
        reply := Warning(geofence.Remaining(now));
      } else {
        SetOwnPresence(false);
        reply := Exit;
      }
    }

    /** Keep the presence flag, and tell the peer if it changes. */
    method SetOwnPresence(present: bool)
      requires Valid()
      modifies this`selfInside, this`broadcasts
      ensures Valid() && Now() == SetPresence(old(Now()), present)
    {
      if selfInside != present {
        selfInside := present;
        broadcasts := broadcasts + [present];
      }
    }

    method HandleText(content: string, now: int, ask: Ask) returns (reply: Reply)
      requires Valid() && open
      modifies this, limiter.local, limiter.redis
      ensures Valid() && (Now(), reply) == OnText(cfg, old(Now()), content, now, ask)
    {
      if Clean(content) == [] {
        return Ignored;
      }
      if !IsFresh(mirror, now, cfg.freshness) {
        return Message(StaleLocation);
      }
      if !selfInside {
        return Message(OutOfRange);
      }
      if !IsPresent(peers.row, cfg.area, now, cfg.freshness) {
        return Message(RecipientUnavailable);
      }
      reply := Post(now, ask);
    }

    method Post(now: int, ask: Ask) returns (reply: Reply)
      requires Valid() && open
      modifies this, limiter.local, limiter.redis
      ensures Valid() && (Now(), reply) == Posting(cfg, old(Now()), now, ask)
    {
      ghost var st := Now();
      ghost var sent := Send(None, st.budget, now, ask, cfg.windowSeconds, cfg.ticks);
      var verdict := CheckSendRate(limiter, key, now, ask);
      assert (verdict, limiter.Holdings(key)) == sent;
      open := !verdict.Failed?;
      if verdict.Accepted? {
        activity := now;
      }
      reply := Message(verdict);
      assert Now() == st.(budget := sent.1, open := open, activity := activity);
    }

    method HandleFrame(frame: Sessions.Frame, now: int, ask: Ask) returns (reply: Reply)
      requires Valid() && open
      modifies this, users, limiter.local, limiter.redis, geofence
      ensures Valid() && (Now(), reply) == Step(cfg, old(Now()), Frame(frame, now, ask))
    {
      match frame {
        case LocationFrame(lat, lng) =>
          var pos := Coerce(lat, lng);
          if pos.None? {
            return BadLocation;
          }
          reply := HandleFix(pos.value, now);
        case TextFrame(_, content) =>
          reply := HandleText(content, now, ask);
        case OtherFrame =>
          reply := Ignored;
        case BrokenFrame =>
          open := false;
          reply := Crashed;
      }
    }

    method Handle(e: Event) returns (reply: Reply)
      requires Valid()
      modifies this, users, peers, limiter.local, limiter.redis, geofence
      ensures Valid() && (Now(), reply) == Step(cfg, old(Now()), e)
    {
      match e {
        case OtherSend(now, ask) =>
          var _ := CheckSendRate(limiter, key, now, ask);
          reply := Elsewhere;
        case OtherProcess(_, call) =>
          limiter.RunElsewhere(key, call);
          reply := Elsewhere;
        case PeerMoves(peer, _) =>
          peers.row := peer;
          reply := Elsewhere;
        case Frame(frame, now, ask) =>
          if open {
            reply := HandleFrame(frame, now, ask);
          } else {
            reply := Unhandled;
          }
      }
    }

    /** The receive loop, and the presence announced when it ends. */
    method Serve(events: seq<Event>, closedAt: int) returns (replies: seq<Reply>, stillPresent: bool)
      requires Valid() && open
      modifies this, users, peers, limiter.local, limiter.redis, geofence
      ensures Valid() && Served(cfg, old(Now()), events, replies, Now())
      ensures open ==> |replies| == |events|
      ensures stillPresent == IsPresent(users.row, cfg.area, closedAt, cfg.freshness)
    {
      replies := [];
      ghost var init := Now();
      while open && |replies| < |events|
        invariant Valid() && Served(cfg, init, events, replies, Now())
        decreases |events| - |replies|
      {
        ghost var before := Now();
        var reply := Handle(events[|replies|]);
        ServedStep(cfg, init, events, replies, before, Now(), reply);
        replies := replies + [reply];
      }
      stillPresent := IsPresent(users.row, cfg.area, closedAt, cfg.freshness);
    }
  }
}
