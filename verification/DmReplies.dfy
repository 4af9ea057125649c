/** What the private-message socket answers, in terms of what has happened to the session so far. */
module DmReplies {
  import opened Common
  import opened Location
  import opened Sessions
  import RateLimit
  import opened DmSocket

  predicate AnyFix(cfg: Settings, e: Event) {
    FixAt(cfg, e, true) || FixAt(cfg, e, false)
  }

  // --- Replies to fixes -----------------------------------------------------------

  /** The fixes a sequence of events reports: valid location frames only. */
  function Fixes(cfg: Settings, events: seq<Event>): seq<Fix> {
    if events == [] then [] else
    var e := events[|events| - 1];
    Fixes(cfg, events[..|events| - 1]) + (if AnyFix(cfg, e) then [Fix(FixAt(cfg, e, true), e.now)] else [])
  }

  lemma FixSnoc(trace: seq<Fix>, f: Fix)
    ensures SinceAfter(trace + [f]) == Begin(SinceAfter(trace), f)
    ensures forall grace :: LastAction(trace + [f], grace) == React(SinceAfter(trace), f, grace)
  {
    assert (trace + [f])[..|trace|] == trace;
  }

  lemma FixMovesClock(cfg: Settings, st: State, e: Event)
    requires st.open && AnyFix(cfg, e)
    ensures Step(cfg, st, e).0.since == Begin(st.since, Fix(FixAt(cfg, e, true), e.now)) && Step(cfg, st, e).0.open
  {
  }

  lemma OtherKeepsClock(cfg: Settings, st: State, e: Event)
    requires !AnyFix(cfg, e) || !st.open
    ensures Step(cfg, st, e).0.since == st.since && (Step(cfg, st, e).0.open ==> st.open)
  {
  }

  /** While the socket is open its tracker has seen every valid fix and nothing else. */
  lemma {:induction false} TracksFixes(cfg: Settings, init: State, events: seq<Event>)
    requires init.since.None? && StateAfter(cfg, init, events).open
    ensures StateAfter(cfg, init, events).since == SinceAfter(Fixes(cfg, events))
  {
    if events != [] {
      var n := |events| - 1;
      var st, e := StateAfter(cfg, init, events[..n]), events[n];
      if st.open && AnyFix(cfg, e) {
        TracksFixes(cfg, init, events[..n]);
        FixMovesClock(cfg, st, e);
        FixSnoc(Fixes(cfg, events[..n]), Fix(FixAt(cfg, e, true), e.now));
      } else {
        OtherKeepsClock(cfg, st, e);
        TracksFixes(cfg, init, events[..n]);
        assert Fixes(cfg, events) == Fixes(cfg, events[..n]);
      }
    }
  }

  /** Over every run from a connect, an open socket answers a valid fix with an acknowledgement if and only
      if it is inside; with an exit if and only if it is outside, not the first of the trailing run of
      outside fixes, and that run began at least the grace ago; and with a warning otherwise. An exit
      pauses, it does not close, so the run of outside fixes goes on and so do the exits. */
  lemma FixReplyExactly(cfg: Settings, row: UserRow, peer: UserRow, budget: RateLimit.Budget, connectedAt: int,
                        events: seq<Event>, e: Event, start: nat)
    requires StateAfter(cfg, Connected(cfg, row, peer, budget, connectedAt), events).open && AnyFix(cfg, e)
    ensures var (after, reply) := Step(cfg, StateAfter(cfg, Connected(cfg, row, peer, budget, connectedAt), events), e);
      var trace := Fixes(cfg, events) + [Fix(FixAt(cfg, e, true), e.now)];
      && (reply.LocationAck? <==> FixAt(cfg, e, true))
      && (TrailingOutside(trace, start) ==>
           (reply.Exit? <==> start + 2 <= |trace| && e.now - trace[start].now >= cfg.Grace()))
      && (reply.Warning? <==> FixAt(cfg, e, false) && !reply.Exit?)
      && after.open
  {
    var trace, f := Fixes(cfg, events), Fix(FixAt(cfg, e, true), e.now);
    TracksFixes(cfg, Connected(cfg, row, peer, budget, connectedAt), events);
    FixSnoc(trace, f);
    if TrailingOutside(trace + [f], start) {
      RemovalExactly(trace + [f], start, cfg.Grace());
    }
  }

  lemma {:induction false} ClockHolds(cfg: Settings, st: State, events: seq<Event>)
    requires st.since.Some? && forall i :: 0 <= i < |events| ==> !FixAt(cfg, events[i], true)
    ensures StateAfter(cfg, st, events).since == st.since
  {
    if events != [] {
      var n := |events| - 1;
      ClockHolds(cfg, st, events[..n]);
      var before := StateAfter(cfg, st, events[..n]);
      if before.open && AnyFix(cfg, events[n]) {
        FixMovesClock(cfg, before, events[n]);
      } else {
        OtherKeepsClock(cfg, before, events[n]);
      }
    }
  }

  /** How an open socket with a running clock answers an outside fix. */
  lemma OutsideReply(cfg: Settings, st: State, e: Event)
    requires st.open && st.since.Some? && FixAt(cfg, e, false)
    ensures if e.now - st.since.value >= cfg.Grace() then Step(cfg, st, e).1.Exit? else Step(cfg, st, e).1.Warning?
  {
  }

  lemma WarningShowsClock(cfg: Settings, st: State, e: Event)
    requires Step(cfg, st, e).1.Warning?
    ensures var (warned, warning) := Step(cfg, st, e);
      && warned.since.Some? && warned.open
      && warning.seconds == SecondsRemaining(warned.since, e.now, cfg.graceSeconds, cfg.ticks)
  {
  }

  /** A warning is honest here too: whatever comes after it except an inside fix, and as long as the socket
      is open, an outside fix once a second more than it said has passed is answered with an exit, and one
      before the time it said with another warning. */
  lemma WarningIsHonest(cfg: Settings, st: State, e: Event, events: seq<Event>, next: Event)
    requires Step(cfg, st, e).1.Warning? && FixAt(cfg, next, false)
    requires forall i :: 0 <= i < |events| ==> !FixAt(cfg, events[i], true)
    ensures var (warned, warning) := Step(cfg, st, e);
      var then_ := StateAfter(cfg, warned, events);
      then_.open ==>
        && (next.now >= e.now + (warning.seconds + 1) * cfg.ticks ==> Step(cfg, then_, next).1.Exit?)
        && (e.now <= next.now < e.now + warning.seconds * cfg.ticks ==> Step(cfg, then_, next).1.Warning?)
  {
    var warned := Step(cfg, st, e).0;
    WarningShowsClock(cfg, st, e);
    ClockHolds(cfg, warned, events);
    FigureIsTight(warned.since.value, e.now, cfg.graceSeconds, cfg.ticks, next.now);
    var then_ := StateAfter(cfg, warned, events);
    if then_.open {
      OutsideReply(cfg, then_, next);
    }
  }

  // --- Replies to messages ------------------------------------------------------------

  predicate NoFix(cfg: Settings, events: seq<Event>) {
    forall i :: 0 <= i < |events| ==> !AnyFix(cfg, events[i])
  }

  predicate LastFixAt(cfg: Settings, events: seq<Event>, i: nat) {
    i < |events| && AnyFix(cfg, events[i]) && forall j :: i < j < |events| ==> !AnyFix(cfg, events[j])
  }

  /** When the user was last located, and whether inside: by the last valid fix of the session, or
      before it. */
  ghost predicate LastLocated(cfg: Settings, row: UserRow, events: seq<Event>, at: Option<int>, inside: bool) {
    || (NoFix(cfg, events) && at == row.updatedAt && inside == LastSeenIn(row, cfg.area))
    || (exists i: nat ::
          LastFixAt(cfg, events, i) && at == Some(events[i].now) && FixAt(cfg, events[i], inside))
  }

  /** The peer's stored row: as of the last time it changed, or as it was at the connect. */
  ghost predicate LastPeer(peer: UserRow, events: seq<Event>, row: UserRow) {
    || (row == peer && forall i :: 0 <= i < |events| ==> !events[i].PeerMoves?)
    || (exists i: nat :: LastMoveAt(events, i) && row == events[i].peer)
  }

  predicate LastMoveAt(events: seq<Event>, i: nat) {
    i < |events| && events[i].PeerMoves? && forall j :: i < j < |events| ==> !events[j].PeerMoves?
  }

  /** An event that reports no position leaves it at that. */
  lemma LocatedBefore(cfg: Settings, row: UserRow, events: seq<Event>, at: Option<int>, inside: bool)
    requires LastLocated(cfg, row, events, at, inside) && events != [] && !AnyFix(cfg, events[|events| - 1])
    ensures LastLocated(cfg, row, events[..|events| - 1], at, inside)
  {
    var front := events[..|events| - 1];
    assert forall i :: 0 <= i < |front| ==> front[i] == events[i];
    if i: nat :| LastFixAt(cfg, events, i) && at == Some(events[i].now) && FixAt(cfg, events[i], inside) {
      assert LastFixAt(cfg, front, i) && front[i] == events[i];
    }
  }

  /** The stored row shows when and where the user was last located. */
  predicate RowShows(cfg: Settings, st: State, at: Option<int>, inside: bool) {
    st.row.updatedAt == at && LastSeenIn(st.row, cfg.area) == inside
  }

  lemma FixShows(cfg: Settings, st: State, e: Event, inside: bool)
    requires st.open && FixAt(cfg, e, inside)
    ensures RowShows(cfg, Step(cfg, st, e).0, Some(e.now), inside)
  {
  }

  lemma OtherKeepsRow(cfg: Settings, st: State, e: Event)
    requires !AnyFix(cfg, e)
    ensures Step(cfg, st, e).0.row == st.row && (Step(cfg, st, e).0.open ==> st.open)
  {
  }

  lemma {:induction false} RowIsLast(cfg: Settings, init: State, events: seq<Event>, at: Option<int>, inside: bool)
    requires LastLocated(cfg, init.row, events, at, inside) && StateAfter(cfg, init, events).open
    ensures RowShows(cfg, StateAfter(cfg, init, events), at, inside)
  {
    if events != [] {
      var n := |events| - 1;
      if AnyFix(cfg, events[n]) {
        FixShows(cfg, StateAfter(cfg, init, events[..n]), events[n], inside);
      } else {
        LocatedBefore(cfg, init.row, events, at, inside);
        OtherKeepsRow(cfg, StateAfter(cfg, init, events[..n]), events[n]);
        RowIsLast(cfg, init, events[..n], at, inside);
      }
    }
  }

  lemma PeerBefore(peer: UserRow, events: seq<Event>, row: UserRow)
    requires LastPeer(peer, events, row) && events != [] && !events[|events| - 1].PeerMoves?
    ensures LastPeer(peer, events[..|events| - 1], row)
  {
    var front := events[..|events| - 1];
    assert forall i :: 0 <= i < |front| ==> front[i] == events[i];
    if i: nat :| LastMoveAt(events, i) && row == events[i].peer {
      assert LastMoveAt(front, i) && front[i] == events[i];
    }
  }

  lemma PeerStep(cfg: Settings, st: State, e: Event)
    ensures Step(cfg, st, e).0.peer == if e.PeerMoves? then e.peer else st.peer
  {
  }

  lemma {:induction false} PeerIsLast(cfg: Settings, init: State, events: seq<Event>, row: UserRow)
    requires LastPeer(init.peer, events, row)
    ensures StateAfter(cfg, init, events).peer == row
  {
    if events != [] {
      var n := |events| - 1;
      PeerStep(cfg, StateAfter(cfg, init, events[..n]), events[n]);
      if !events[n].PeerMoves? {
        PeerBefore(init.peer, events, row);
        PeerIsLast(cfg, init, events[..n], row);
      }
    }
  }

  predicate Says(e: Event) {
    e.Frame? && e.frame.TextFrame? && !Blank(e.frame.content)
  }

  /** For every run from a connect, and a message that is not blank: it is refused as stale exactly if the
      user's last fix is missing or older than the freshness window, as out of range exactly if that fix
      is outside, and as unanswerable exactly if the peer's stored one is missing, old or outside; a
      refusal changes nothing. Any other message gets the limiter's verdict, and an accepted one counts
      as activity. */
  lemma {:induction false} MessageByHistory(cfg: Settings, row: UserRow, peer: UserRow, budget: RateLimit.Budget,
                                            start: int, events: seq<Event>, e: Event, at: Option<int>, inside: bool,
                                            peerNow: UserRow)
    requires LastLocated(cfg, row, events, at, inside) && LastPeer(peer, events, peerNow)
    requires Says(e) && e.now >= start
    requires StateAfter(cfg, Connected(cfg, row, peer, budget, start), events).open
    ensures var st := StateAfter(cfg, Connected(cfg, row, peer, budget, start), events);
      var (after, reply) := Step(cfg, st, e);
      var (verdict, charged) := Send(None, st.budget, e.now, e.ask, cfg.windowSeconds, cfg.ticks);
      if at.None? || e.now > at.value + cfg.freshness then reply == Message(StaleLocation) && after == st
      else if !inside then reply == Message(OutOfRange) && after == st
      else if !LocatedWithin(peerNow, e.now, cfg.freshness) || !LastSeenIn(peerNow, cfg.area)
      then reply == Message(RecipientUnavailable) && after == st
      else reply == Message(verdict)
           && after == st.(budget := charged, open := verdict != Failed,
                           activity := if verdict == Accepted then e.now else st.activity)
  {
    var init := Connected(cfg, row, peer, budget, start);
    var st := StateAfter(cfg, init, events);
    ConnectMirrors(cfg, row, peer, budget, start);
    RunMirrors(cfg, init, events, start);
    RowIsLast(cfg, init, events, at, inside);
    PeerIsLast(cfg, init, events, peerNow);
    CleanIsEmpty(e.frame.content);
    assert IsFresh(st.mirror, e.now, cfg.freshness) ==> st.selfInside == inside;
  }

  // --- The rest -----------------------------------------------------------------------

  /** Junk is harmless: a location frame without a valid position is refused, a frame of another type or a
      blank text is passed over, and neither changes anything. */
  lemma {:induction false} JunkIsHarmless(cfg: Settings, st: State, e: Event)
    requires st.open && e.Frame?
    ensures var (after, reply) := Step(cfg, st, e);
      && (reply == BadLocation <==> e.frame.LocationFrame? && !AnyFix(cfg, e))
      && (reply == Ignored <==> e.frame.OtherFrame? || (e.frame.TextFrame? && Blank(e.frame.content)))
      && (reply == BadLocation || reply == Ignored ==> after == st)
  {
    if e.frame.TextFrame? {
      CleanIsEmpty(e.frame.content);
    }
  }

  /** A message was put to the limiter: its reply is the limiter's verdict. */
  predicate Asks(reply: Reply) {
    reply.Message? && (reply.verdict.Accepted? || reply.verdict.RateLimited? || reply.verdict.Failed?)
  }

  /** What is charged to the user: one check for every message that got as far as the limiter, accepted or
      not, and for every send by another path; and nothing else. */
  lemma ChargedExactly(cfg: Settings, st: State, e: Event)
    ensures var (after, reply) := Step(cfg, st, e);
      if e.OtherProcess? then after.budget == RateLimit.Joined(st.budget, e.call)
      else if e.OtherSend? || Asks(reply)
      then after.budget == RateLimit.Charge(st.budget, e.now, e.ask, cfg.windowSeconds, cfg.ticks).1
      else after.budget == st.budget
  {
  }

  /** The replies after which the socket is closed; an exit is not one of them. */
  predicate Ends(reply: Reply) {
    reply == Crashed || reply == Message(Failed)
  }

  lemma StepCloses(cfg: Settings, st: State, e: Event)
    ensures var (after, reply) := Step(cfg, st, e); after.open <==> st.open && !Ends(reply)
    ensures Step(cfg, st, e).1 == Crashed <==> st.open && e.Frame? && e.frame.BrokenFrame?
  {
  }

  predicate EndedAt(cfg: Settings, init: State, events: seq<Event>, i: nat) {
    i < |events| && Ends(LastReply(cfg, init, events[..i + 1]))
  }

  /** The socket stays open until a frame that handling raises on or a send that fails. */
  lemma {:induction false} ClosesExactly(cfg: Settings, row: UserRow, peer: UserRow, budget: RateLimit.Budget,
                                         start: int, events: seq<Event>)
    ensures StateAfter(cfg, Connected(cfg, row, peer, budget, start), events).open
       <==> forall i: nat :: !EndedAt(cfg, Connected(cfg, row, peer, budget, start), events, i)
  {
    if events != [] {
      var n := |events| - 1;
      var init := Connected(cfg, row, peer, budget, start);
      ClosesExactly(cfg, row, peer, budget, start, events[..n]);
      StepCloses(cfg, StateAfter(cfg, init, events[..n]), events[n]);
      assert events[..n + 1] == events;
      assert EndedAt(cfg, init, events, n) <==> Ends(LastReply(cfg, init, events));
      forall i: nat ensures i < n ==> (EndedAt(cfg, init, events, i) <==> EndedAt(cfg, init, events[..n], i)) {
        assert i < n ==> events[..n][..i + 1] == events[..i + 1];
      }
    }
  }

  /** The event let a message in, or brought the user back, which the peer is told. */
  predicate Active(cfg: Settings, st: State, e: Event) {
    var (after, reply) := Step(cfg, st, e);
    reply == Message(Accepted) || after.broadcasts == st.broadcasts + [true]
  }

  lemma ActiveStep(cfg: Settings, st: State, e: Event)
    requires Announces(st)
    ensures Step(cfg, st, e).0.activity == if Active(cfg, st, e) then e.now else st.activity
  {
    assert forall b: bool :: st.broadcasts != st.broadcasts + [b];
    assert (st.broadcasts + [false])[|st.broadcasts|] != (st.broadcasts + [true])[|st.broadcasts|];
  }

  /** The connect, and then every time something counted as activity. */
  function ActiveTimes(cfg: Settings, init: State, events: seq<Event>, start: int): (times: seq<int>)
    ensures times != []
  {
    if events == [] then [start] else
    var n := |events| - 1;
    ActiveTimes(cfg, init, events[..n], start)
    + (if Active(cfg, StateAfter(cfg, init, events[..n]), events[n]) then [events[n].now] else [])
  }

  /** The connection's activity clock shows the last time a message got in or the user came back into the
      area, and the connect if there was neither. */
  lemma {:induction false} ActivityIsLast(cfg: Settings, row: UserRow, peer: UserRow, budget: RateLimit.Budget,
                                          start: int, events: seq<Event>)
    ensures var init := Connected(cfg, row, peer, budget, start);
      var times := ActiveTimes(cfg, init, events, start);
      StateAfter(cfg, init, events).activity == times[|times| - 1]
  {
    if events != [] {
      var n := |events| - 1;
      var init := Connected(cfg, row, peer, budget, start);
      ActivityIsLast(cfg, row, peer, budget, start, events[..n]);
      BroadcastsAlternate(cfg, row, peer, budget, start, events[..n]);
      ActiveStep(cfg, StateAfter(cfg, init, events[..n]), events[n]);
    }
  }
}
