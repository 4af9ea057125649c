/** What the room socket answers, in terms of what has happened to the session so far. */
module RoomReplies {
  import opened Common
  import opened Sessions
  import RateLimit
  import opened RoomSocket

  predicate NoFix(events: seq<Event>) {
    forall i :: 0 <= i < |events| ==> Reported(events[i]).None?
  }

  predicate LastFixAt(events: seq<Event>, i: nat) {
    i < |events| && Reported(events[i]).Some? && forall j :: i < j < |events| ==> Reported(events[j]).None?
  }

  /** When the user was last located: by the last valid fix of the session, or before it. */
  ghost predicate LastLocated(row: UserRow, events: seq<Event>, at: Option<int>) {
    || (NoFix(events) && at == row.updatedAt)
    || (exists i: nat :: LastFixAt(events, i) && at == Some(events[i].now))
  }

  lemma {:induction false} MirrorIsLast(cfg: Settings, row: UserRow, budget: RateLimit.Budget, events: seq<Event>,
                                        at: Option<int>)
    requires LastLocated(row, events, at)
    requires StateAfter(cfg, Connected(row, budget), events).open
    ensures StateAfter(cfg, Connected(row, budget), events).mirror == at
  {
    if events != [] {
      var n := |events| - 1;
      if Reported(events[n]).None? {
        LocatedBefore(row, events, at);
        MirrorIsLast(cfg, row, budget, events[..n], at);
      }
    }
  }

  /** An event that reports no position leaves it at that. */
  lemma LocatedBefore(row: UserRow, events: seq<Event>, at: Option<int>)
    requires LastLocated(row, events, at) && events != [] && Reported(events[|events| - 1]).None?
    ensures LastLocated(row, events[..|events| - 1], at)
  {
    var front := events[..|events| - 1];
    assert forall i :: 0 <= i < |front| ==> front[i] == events[i];
    if i: nat :| LastFixAt(events, i) && at == Some(events[i].now) {
      assert LastFixAt(front, i) && front[i] == events[i];
    }
  }

  predicate Says(e: Event) {
    e.Frame? && e.frame.TextFrame? && !Blank(e.frame.content)
  }

  /** For every run from a connect, a message that is not blank is refused as stale, and neither charged
      nor anything else, exactly if the user's last fix is missing or older than the freshness window:
      a user who was never located gets nothing in. Any other gets the limiter's verdict. */
  lemma {:induction false} MessageByHistory(cfg: Settings, row: UserRow, budget: RateLimit.Budget, events: seq<Event>,
                                            e: Event, at: Option<int>)
    requires LastLocated(row, events, at) && Says(e)
    requires StateAfter(cfg, Connected(row, budget), events).open
    ensures var st := StateAfter(cfg, Connected(row, budget), events);
      var (after, reply) := Step(cfg, st, e);
      var (verdict, charged) := Send(None, st.budget, e.now, e.ask, cfg.windowSeconds, cfg.ticks);
      if at.None? || e.now > at.value + cfg.freshness
      then reply == Message(StaleLocation) && after == st
      else reply == Message(verdict) && after == st.(budget := charged, open := verdict != Failed)
  {
    MirrorIsLast(cfg, row, budget, events, at);
    CleanIsEmpty(e.frame.content);
  }

  /** Junk is harmless: a location frame without a valid position is refused, a frame of another type or a
      blank text is passed over, and neither changes anything. */
  lemma {:induction false} JunkIsHarmless(cfg: Settings, st: State, e: Event)
    requires st.open && e.Frame?
    ensures var (after, reply) := Step(cfg, st, e);
      && (reply == BadLocation <==> e.frame.LocationFrame? && Reported(e).None?)
      && (reply == Ignored <==> e.frame.OtherFrame? || (e.frame.TextFrame? && Blank(e.frame.content)))
      && (reply == BadLocation || reply == Ignored ==> after == st)
  {
    if e.frame.TextFrame? {
      CleanIsEmpty(e.frame.content);
    }
  }

  /** A message was put to the limiter: its reply is the limiter's verdict. */
  predicate Asks(reply: Reply) {
    reply.Message? && (reply.verdict.Accepted? || reply.verdict.RateLimited? || reply.verdict.Failed?)
  }

  /** What is charged to the user: one check for every message that got as far as the limiter, accepted or
      not, and for every send by another path; and nothing else. */
  lemma ChargedExactly(cfg: Settings, st: State, e: Event)
    ensures var (after, reply) := Step(cfg, st, e);
      if e.OtherProcess? then after.budget == RateLimit.Joined(st.budget, e.call)
      else if e.OtherSend? || Asks(reply)
      then after.budget == RateLimit.Charge(st.budget, e.now, e.ask, cfg.windowSeconds, cfg.ticks).1
      else after.budget == st.budget
  {
  }

  /** The replies after which the socket is closed. */
  predicate Ends(reply: Reply) {
    reply == Exit || reply == Crashed || reply == Message(Failed)
  }

  lemma StepCloses(cfg: Settings, st: State, e: Event)
    ensures var (after, reply) := Step(cfg, st, e); after.open <==> st.open && !Ends(reply)
    ensures Step(cfg, st, e).1 == Crashed <==> st.open && e.Frame? && e.frame.BrokenFrame?
  {
  }

  predicate EndedAt(cfg: Settings, init: State, events: seq<Event>, i: nat) {
    i < |events| && Ends(LastReply(cfg, init, events[..i + 1]))
  }

  /** The socket stays open until a removal, a frame that handling raises on, or a send that fails: a user
      who is told to wait, or to send a location first, stays connected. */
  lemma {:induction false} ClosesExactly(cfg: Settings, row: UserRow, budget: RateLimit.Budget, events: seq<Event>)
    ensures StateAfter(cfg, Connected(row, budget), events).open
       <==> forall i: nat :: !EndedAt(cfg, Connected(row, budget), events, i)
  {
    if events != [] {
      var n := |events| - 1;
      var init := Connected(row, budget);
      ClosesExactly(cfg, row, budget, events[..n]);
      StepCloses(cfg, StateAfter(cfg, init, events[..n]), events[n]);
      assert events[..n + 1] == events;
      assert EndedAt(cfg, init, events, n) <==> Ends(LastReply(cfg, init, events));
      forall i: nat ensures i < n ==> (EndedAt(cfg, init, events, i) <==> EndedAt(cfg, init, events[..n], i)) {
        assert i < n ==> events[..n][..i + 1] == events[..i + 1];
      }
    }
  }
}
