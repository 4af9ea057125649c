/** When a cleanup goes unnoticed: the exact condition, over the stores that runs of the services
    lead to. */
module Unnoticed {
  import opened Common
  import Pairing
  import opened Store
  import opened Reads
  import opened Cleanup
  import opened Invisible
  import opened StoreRun

  predicate Until(events: seq<Event>, now: int) {
    forall i :: 0 <= i < |events| ==> events[i].now <= now
  }

  /** After every run of the services, a pass changes nothing for any reader whose cutoff is no
      earlier than its own. */
  ghost predicate NeverNoticed(cfg: Config) {
    forall events, now, since ::
      InOrder(events) && Until(events, now) && ExpiryCutoff(now, cfg.retentionHours) <= since ==>
      SameReads(After(events), RunCleanup(After(events), cfg, now), since)
  }

  /** The same on one side, for one pass and one reader. */
  ghost predicate NeverNoticedOn(cfg: Config, now: int, side: Side, since: int) {
    forall events :: InOrder(events) && Until(events, now) ==>
      SameSideReads(After(events), RunCleanup(After(events), cfg, now), side, since)
  }

  /** Two users, a chat and a message in it, all exactly at the reader's cutoff. */
  function ChatRun(t: int): seq<Event> {
    [Event(AddUser(1), t), Event(AddUser(2), t), Event(OpenChat(1, 2, 0), t), Event(SendWords(Dm, 0, 1, "hi"), t)]
  }

  function LostChat(t: int): Db {
    Db({1, 2}, map[], map[0 := ConnRow(Pairing.Pair(1, 2), t, t)], map[],
       map[0 := Msg(0, 1, Text, Some("hi"), t, None)], map[], 0, 1)
  }

  function RoomRun(t: int): seq<Event> {
    [Event(AddUser(1), t), Event(OpenRoom(0), t), Event(SendWords(Room, 0, 1, "hi"), t)]
  }

  function LostRoom(t: int): Db {
    Db({1}, map[0 := RoomRow(t, Some(t))], map[], map[0 := Msg(0, 1, Text, Some("hi"), t, None)],
       map[], map[], 1, 0)
  }

  lemma OneMore(events: seq<Event>, e: Event)
    ensures After(events + [e]) == Next(After(events), e)
  {
    assert (events + [e])[..|events|] == events;
  }

  function QuietChat(t: int): Db {
    Db({1, 2}, map[], map[0 := ConnRow(Pairing.Pair(1, 2), t, t)], map[], map[], map[], 0, 0)
  }

  lemma ChatOpens(t: int)
    ensures Next(Next(Next(EMPTY_DB, Event(AddUser(1), t)), Event(AddUser(2), t)), Event(OpenChat(1, 2, 0), t))
         == QuietChat(t)
  {
    assert {} + {1} + {2} == {1, 2};
    assert !PairTaken(EMPTY_DB, Pairing.Pair(1, 2));
  }

  lemma ChatHears(t: int)
    ensures Next(QuietChat(t), Event(SendWords(Dm, 0, 1, "hi"), t)) == LostChat(t)
  {
  }

  lemma ChatRunLeads(t: int)
    ensures After(ChatRun(t)) == LostChat(t)
  {
    var run := ChatRun(t);
    assert run[..1] == [] + [run[0]] && run[..2] == run[..1] + [run[1]];
    assert run[..3] == run[..2] + [run[2]] && run == run[..3] + [run[3]];
    OneMore([], run[0]);
    OneMore(run[..1], run[1]);
    OneMore(run[..2], run[2]);
    OneMore(run[..3], run[3]);
    ChatOpens(t);
    ChatHears(t);
  }

  function QuietRoom(t: int): Db {
    Db({1}, map[0 := RoomRow(t, None)], map[], map[], map[], map[], 0, 0)
  }

  lemma RoomOpens(t: int)
    ensures Next(Next(EMPTY_DB, Event(AddUser(1), t)), Event(OpenRoom(0), t)) == QuietRoom(t)
  {
    assert {} + {1} == {1};
  }

  lemma RoomHears(t: int)
    ensures Next(QuietRoom(t), Event(SendWords(Room, 0, 1, "hi"), t)) == LostRoom(t)
  {
  }

  lemma RoomRunLeads(t: int)
    ensures After(RoomRun(t)) == LostRoom(t)
  {
    var run := RoomRun(t);
    assert run[..1] == [] + [run[0]] && run[..2] == run[..1] + [run[1]] && run == run[..2] + [run[2]];
    OneMore([], run[0]);
    OneMore(run[..1], run[1]);
    OneMore(run[..2], run[2]);
    RoomOpens(t);
    RoomHears(t);
  }

  /** The run, and the store it leads to, for either side. */
  function LostRun(side: Side, t: int): seq<Event> {
    if side.Dm? then ChatRun(t) else RoomRun(t)
  }

  lemma LostStore(side: Side, t: int)
    ensures InOrder(LostRun(side, t)) && Until(LostRun(side, t), t)
    ensures Valid(After(LostRun(side, t)))
    ensures After(LostRun(side, t)) == if side.Dm? then LostChat(t) else LostRoom(t)
  {
    if side.Dm? {
      ChatRunLeads(t);
    } else {
      RoomRunLeads(t);
    }
    RunKeeps(LostRun(side, t), t);
  }

  lemma QuerySize(db: Db, side: Side, parent: int, since: Option<int>)
    requires Valid(db)
    ensures |Query(db, side, parent, 1, since)| == if Live(db, side, parent, since) == {} then 0 else 1
  {
    ListIsLatest(db, side, parent, 1, since);
    assert |Reversed(Query(db, side, parent, 1, since))| == |Query(db, side, parent, 1, since)|;
  }

  /** A pass that is not harmless removes the message, which the reader was still shown. */
  lemma MessageIsGone(cfg: Config, now: int, side: Side, since: int)
    requires !Harmless(cfg, now, side, since)
    ensures var db := After(LostRun(side, since));
      && Live(RunCleanup(db, cfg, now), side, 0, Some(since)) == {}
      && Live(db, side, 0, Some(since)) != {}
  {
    var db := After(LostRun(side, since));
    LostStore(side, since);
    CleanupKeeps(db, cfg, now);
    KeptTables(db, RaisedBy(NO_CUTS, cfg, now), side);
    assert forall m :: m !in Msgs(RunCleanup(db, cfg, now), side);
    assert 0 in Live(db, side, 0, Some(since));
  }

  lemma MessageIsMissed(cfg: Config, now: int, side: Side, since: int)
    requires !Harmless(cfg, now, side, since)
    ensures var db := After(LostRun(side, since)); !SameSideReads(db, RunCleanup(db, cfg, now), side, since)
  {
    var db := After(LostRun(side, since));
    LostStore(side, since);
    MessageIsGone(cfg, now, side, since);
    QuerySize(db, side, 0, Some(since));
    PassKeepsOrder(db, cfg, now);
    QuerySize(RunCleanup(db, cfg, now), side, 0, Some(since));
    assert Query(RunCleanup(db, cfg, now), side, 0, 1, Some(since)) != Query(db, side, 0, 1, Some(since));
  }

  /** For one pass and one reader: no list or count of a side can ever tell that the pass ran,
      exactly when none of its cutoffs there is later than the reader's, or the reader's is in the
      future and nothing is shown. */
  lemma UnnoticedOnSideExactly(cfg: Config, now: int, side: Side, since: int)
    ensures NeverNoticedOn(cfg, now, side, since) <==> Harmless(cfg, now, side, since) || now < since
  {
    if Harmless(cfg, now, side, since) || now < since {
      forall events | InOrder(events) && Until(events, now)
        ensures SameSideReads(After(events), RunCleanup(After(events), cfg, now), side, since)
      {
        RunKeeps(events, now);
        if Harmless(cfg, now, side, since) {
          SideStays(After(events), cfg, now, side, since);
        } else {
          NothingLive(After(events), cfg, now, side, since);
        }
        SideReadersSeeOnlyLive(After(events), RunCleanup(After(events), cfg, now), side, since);
      }
    } else {
      LostStore(side, since);
      MessageIsMissed(cfg, now, side, since);
      assert InOrder(LostRun(side, since)) && Until(LostRun(side, since), now);
    }
  }

  lemma ReadsCoverSides(db: Db, db': Db, side: Side, since: int)
    ensures SameReads(db, db', since) ==> SameSideReads(db, db', side, since)
  {
  }

  /** Nobody can tell if parents outlive messages, or nothing is shown. */
  lemma NobodyTells(db: Db, cfg: Config, now: int, since: int)
    requires Valid(db) && Past(db, now) && ExpiryCutoff(now, cfg.retentionHours) <= since
    requires Outlives(cfg) || cfg.retentionHours < 0
    ensures SameReads(db, RunCleanup(db, cfg, now), since)
  {
    if Outlives(cfg) {
      CleanupIsInvisible(db, cfg, now, since);
    } else {
      PassRestricts(db, cfg, now);
      NothingLive(db, cfg, now, Dm, since);
      NothingLive(db, cfg, now, Room, since);
      ReadersSeeOnlyLive(db, RunCleanup(db, cfg, now), since);
    }
  }

  /** Otherwise a message sent exactly one retention ago is missed. */
  lemma SomebodyTells(cfg: Config)
    requires !Outlives(cfg) && cfg.retentionHours >= 0
    ensures !NeverNoticed(cfg)
  {
    var side := if OutlivesOn(cfg, Dm) then Room else Dm;
    var since := ExpiryCutoff(0, cfg.retentionHours);
    var run := LostRun(side, since);
    LostStore(side, since);
    assert !Harmless(cfg, 0, side, since);
    MessageIsMissed(cfg, 0, side, since);
    ReadsCoverSides(After(run), RunCleanup(After(run), cfg, 0), side, since);
    assert InOrder(run) && Until(run, 0) && ExpiryCutoff(0, cfg.retentionHours) <= since;
  }

  /** For all passes and readers: a cleanup goes unnoticed after every run exactly when connections
      and swept rooms are kept at least as long as messages, or messages are not shown at all. */
  lemma InvisibleExactly(cfg: Config)
    ensures NeverNoticed(cfg) <==> Outlives(cfg) || cfg.retentionHours < 0
  {
    if Outlives(cfg) || cfg.retentionHours < 0 {
      forall events, now, since |
        InOrder(events) && Until(events, now) && ExpiryCutoff(now, cfg.retentionHours) <= since
        ensures SameReads(After(events), RunCleanup(After(events), cfg, now), since)
      {
        RunKeeps(events, now);
        NobodyTells(After(events), cfg, now, since);
      }
    } else {
      SomebodyTells(cfg);
    }
  }
}
