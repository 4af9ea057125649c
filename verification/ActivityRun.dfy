/** When rooms and connections were last used in a run, and what a cleanup pass therefore removes. */
module ActivityRun {
  import opened Store
  import opened Cleanup
  import opened Invisible
  import opened StoreRun

  /** A transaction that makes this room or connection, or counts as activity in it: a message or photo
      that was sent to it, or, for a connection, a participant coming back into range. */
  predicate Uses(before: Db, e: Event, side: Side, parent: int) {
    && Perform(before, e).Some?
    && match e.op
       case OpenRoom(room) => side.Room? && room == parent
       case OpenChat(_, _, id) => side.Dm? && id == parent && parent !in before.conns && parent in Next(before, e).conns
       case TouchChat(conn) => side.Dm? && conn == parent
       case SendWords(s, p, _, _) => s == side && p == parent
       case SendPicture(s, p, _, _, _, _) => s == side && p == parent
       case _ => false
  }

  predicate UsedAt(events: seq<Event>, i: nat, side: Side, parent: int) {
    i < |events| && Uses(After(events[..i]), events[i], side, parent)
  }

  ghost predicate LastUsedAt(events: seq<Event>, i: nat, side: Side, parent: int) {
    UsedAt(events, i, side, parent) && forall j: nat :: UsedAt(events, j, side, parent) ==> j <= i
  }

  // --- One transaction -----------------------------------------------------------------

  lemma SendShows(db: Db, e: Event)
    requires Perform(db, e).Some? && (e.op.SendWords? || e.op.SendPicture?)
    ensures e.op.parent in Parents(Next(db, e), e.op.side)
    ensures LastActivity(Next(db, e), e.op.side, e.op.parent) == e.now
  {
  }

  /** A use is what the activity clock shows next. */
  lemma UseShows(db: Db, e: Event, side: Side, parent: int)
    requires Uses(db, e, side, parent) && parent in Parents(Next(db, e), side)
    ensures LastActivity(Next(db, e), side, parent) == e.now
  {
    if e.op.SendWords? || e.op.SendPicture? {
      SendShows(db, e);
    }
  }

  /** The row is new, or its clock shows what it showed. */
  ghost predicate ClockKept(db: Db, db': Db, side: Side, parent: int) {
    parent in Parents(db', side) ==>
      parent in Parents(db, side) && LastActivity(db', side, parent) == LastActivity(db, side, parent)
  }

  lemma SendElsewhere(db: Db, e: Event, side: Side, parent: int)
    requires (e.op.SendWords? || e.op.SendPicture?) && !Uses(db, e, side, parent)
    ensures ClockKept(db, Next(db, e), side, parent)
  {
  }

  lemma PassKeepsClock(db: Db, cfg: Config, now: int, side: Side, parent: int)
    requires Valid(db)
    ensures ClockKept(db, RunCleanup(db, cfg, now), side, parent)
  {
    PassRestricts(db, cfg, now);
  }

  lemma OpeningKeepsClock(db: Db, e: Event, side: Side, parent: int)
    requires (e.op.OpenRoom? || e.op.OpenChat?) && !Uses(db, e, side, parent)
    ensures ClockKept(db, Next(db, e), side, parent)
  {
  }

  lemma OtherKeepsClock(db: Db, e: Event, side: Side, parent: int)
    requires Valid(db) && !Uses(db, e, side, parent)
    ensures ClockKept(db, Next(db, e), side, parent)
  {
    match e.op {
      case Clean(cfg) => PassKeepsClock(db, cfg, e.now, side, parent);
      case SendWords(_, _, _, _) => SendElsewhere(db, e, side, parent);
      case SendPicture(_, _, _, _, _, _) => SendElsewhere(db, e, side, parent);
      case OpenRoom(_) => OpeningKeepsClock(db, e, side, parent);
      case OpenChat(_, _, _) => OpeningKeepsClock(db, e, side, parent);
      case _ =>
    }
  }

  // --- Whole runs ------------------------------------------------------------------------

  lemma UsedBefore(events: seq<Event>, i: nat, side: Side, parent: int)
    requires i < |events| - 1
    ensures UsedAt(events, i, side, parent) <==> UsedAt(events[..|events| - 1], i, side, parent)
  {
    assert events[..|events| - 1][..i] == events[..i];
  }

  lemma LastUsedStays(events: seq<Event>, i: nat, side: Side, parent: int)
    requires events != [] && LastUsedAt(events[..|events| - 1], i, side, parent)
    requires !UsedAt(events, |events| - 1, side, parent)
    ensures LastUsedAt(events, i, side, parent)
  {
    var n := |events| - 1;
    UsedBefore(events, i, side, parent);
    forall j: nat | UsedAt(events, j, side, parent) ensures j <= i {
      if j < n {
        UsedBefore(events, j, side, parent);
      }
    }
  }

  /** The clock of the inactivity sweep shows the last use, over every run: the time of the last message
      or photo sent to a room or connection, or of the last return into range, or, if there was none, of
      its creation. */
  lemma {:induction false} ActivityIsLastUse(events: seq<Event>, side: Side, parent: int) returns (i: nat)
    requires InOrder(events) && parent in Parents(After(events), side)
    ensures LastUsedAt(events, i, side, parent)
    ensures LastActivity(After(events), side, parent) == events[i].now
  {
    assert events != [] by { assert Parents(EMPTY_DB, side) == {}; }
    var n := |events| - 1;
    if UsedAt(events, n, side, parent) {
      i := n;
      UseShows(After(events[..n]), events[n], side, parent);
    } else {
      RunKeeps(events[..n], events[n].now);
      OtherKeepsClock(After(events[..n]), events[n], side, parent);
      i := ActivityIsLastUse(events[..n], side, parent);
      LastUsedStays(events, i, side, parent);
    }
  }

  lemma OneLastUse(events: seq<Event>, i: nat, j: nat, side: Side, parent: int)
    requires LastUsedAt(events, i, side, parent) && LastUsedAt(events, j, side, parent)
    ensures i == j
  {
  }

  /** What a cleanup pass removes: a connection exactly if its last use is longer ago than the days it is
      kept for, and a room likewise, but only if rooms are swept at all. */
  lemma SweptExactly(events: seq<Event>, i: nat, side: Side, parent: int, cfg: Config, now: int)
    requires InOrder(events) && parent in Parents(After(events), side) && LastUsedAt(events, i, side, parent)
    ensures parent in Parents(RunCleanup(After(events), cfg, now), side)
       <==> match side
            case Dm => events[i].now >= now - cfg.connDays * 86_400_000_000
            case Room => !cfg.enableRooms || events[i].now >= now - cfg.roomDays * 86_400_000_000
  {
    var j := ActivityIsLastUse(events, side, parent);
    OneLastUse(events, i, j, side, parent);
    RunKeeps(events, if events == [] then 0 else events[|events| - 1].now);
    CleanupKeeps(After(events), cfg, now);
    KeptTables(After(events), RaisedBy(NO_CUTS, cfg, now), side);
  }

  /** And a message exactly if it is older than the hours messages are kept for, or its room or
      connection goes. */
  lemma MessageSweptExactly(events: seq<Event>, side: Side, m: MsgId, cfg: Config, now: int)
    requires InOrder(events) && m in Msgs(After(events), side)
    ensures var db := RunCleanup(After(events), cfg, now);
      var msg := Msgs(After(events), side)[m];
      m in Msgs(db, side) <==> msg.sentAt >= now - cfg.retentionHours * 3_600_000_000 && msg.parent in Parents(db, side)
  {
    RunKeeps(events, if events == [] then 0 else events[|events| - 1].now);
    assert MsgOk(After(events), side, m);
    CleanupKeeps(After(events), cfg, now);
    KeptTables(After(events), RaisedBy(NO_CUTS, cfg, now), side);
  }
}
