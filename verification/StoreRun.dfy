/** Whole runs of the store: any mix of chats opened, messages and photos sent, reads and
    cleanups, one transaction at a time. */
module StoreRun {
  import opened Common
  import opened Pairing
  import opened Store
  import opened Reads
  import opened StoreInvariant
  import opened Cleanup
  import opened Invisible

  datatype Op =
    | AddUser(user: UserId)
    | OpenRoom(room: RoomId)
    | OpenChat(me: UserId, other: UserId, id: ConnId)
    | TouchChat(conn: ConnId)
    | SendWords(side: Side, parent: int, sender: UserId, content: string)
    | SendPicture(side: Side, parent: int, sender: UserId, token: PhotoId, data: Blob, contentType: string)
    | Read(chat: ConnId, viewer: UserId)
    | Clean(cfg: Config)

  /** A transaction and the time it runs at. */
  datatype Event = Event(op: Op, now: int)

  /** Anyone may write in a room, only its two participants in a connection. */
  predicate MayUse(db: Db, side: Side, parent: int, user: UserId) {
    side.Room? || (parent in db.conns && IsParticipant(db.conns[parent].pair, user))
  }

  function Committed(r: Result<Db>): Option<Db> {
    if r.Ok? then Some(r.value) else None
  }

  /** The store after a transaction; None if it is refused or rolled back. */
  function Perform(db: Db, e: Event): Option<Db> {
    match e.op
    case AddUser(user) => Some(db.(users := db.users + {user}))
    case OpenRoom(room) => if room in db.rooms then None else Some(db.(rooms := db.rooms[room := RoomRow(e.now, None)]))
    case OpenChat(me, other, id) => Committed(OpenPair(db, me, other, id, e.now))
    case TouchChat(conn) => Some(Touch(db, Dm, conn, e.now))
    case SendWords(side, parent, sender, content) =>
      if MayUse(db, side, parent, sender) then Committed(SendText(db, side, parent, sender, content, e.now)) else None
    case SendPicture(side, parent, sender, token, data, contentType) =>
      if MayUse(db, side, parent, sender)
      then Committed(SendPhoto(db, side, parent, sender, token, data, contentType, e.now)) else None
    case Read(chat, viewer) => if MayUse(db, Dm, chat, viewer) then Some(MarkRead(db, chat, viewer, e.now)) else None
    case Clean(cfg) => Some(RunCleanup(db, cfg, e.now))
  }

  function Next(db: Db, e: Event): Db {
    if Perform(db, e).Some? then Perform(db, e).value else db
  }

  function After(events: seq<Event>): Db {
    if events == [] then EMPTY_DB else Next(After(events[..|events| - 1]), events[|events| - 1])
  }

  predicate InOrder(events: seq<Event>) {
    forall i, j :: 0 <= i < j < |events| ==> events[i].now <= events[j].now
  }

  // --- The store stays in order --------------------------------------------------------------

  lemma SendKeeps(db: Db, e: Event, clock: int)
    requires Valid(db) && Past(db, clock) && clock <= e.now && Perform(db, e).Some?
    requires e.op.SendWords? || e.op.SendPicture?
    ensures Valid(Perform(db, e).value) && Past(Perform(db, e).value, e.now)
  {
    match e.op {
      case SendWords(side, parent, sender, content) => SendTextKeeps(db, side, parent, sender, content, clock, e.now);
      case SendPicture(side, parent, sender, token, data, contentType) =>
        SendPhotoKeeps(db, side, parent, sender, token, data, contentType, clock, e.now);
    }
  }

  /** No transaction breaks a constraint, or leaves a message newer than its parent's clock. */
  lemma NextKeeps(db: Db, e: Event, clock: int)
    requires Valid(db) && Past(db, clock) && clock <= e.now
    ensures Valid(Next(db, e)) && Past(Next(db, e), e.now)
  {
    LaterPast(db, clock, e.now);
    if Perform(db, e).Some? {
      match e.op {
        case AddUser(user) => NewUserKeeps(db, user, clock, e.now);
        case OpenRoom(room) => NewRoomKeeps(db, room, clock, e.now);
        case OpenChat(me, other, id) => OpenPairKeeps(db, me, other, id, clock, e.now);
        case TouchChat(conn) => TouchKeeps(db, Dm, conn, clock, e.now);
        case Read(chat, viewer) => MarkReadKeeps(db, chat, viewer, clock, e.now);
        case Clean(cfg) => CleanupKeepsOrder(db, cfg, e.now, e.now);
        case _ => SendKeeps(db, e, clock);
      }
    }
  }

  lemma EmptyIsValid(clock: int)
    ensures Valid(EMPTY_DB) && Past(EMPTY_DB, clock)
  {
    assert forall side :: Msgs(EMPTY_DB, side) == map[] && Parents(EMPTY_DB, side) == {};
  }

  /** Over any run from the empty store: every message has its sender, its room or connection, and
      exactly its photo if it is one; every photo has one owner; every pair one connection; and no
      message is newer than the clock that decides whether its room or connection is swept. */
  lemma {:induction false} RunKeeps(events: seq<Event>, clock: int)
    requires InOrder(events) && forall i :: 0 <= i < |events| ==> events[i].now <= clock
    ensures Valid(After(events)) && Past(After(events), clock)
  {
    if events == [] {
      EmptyIsValid(clock);
    } else {
      var n := |events| - 1;
      RunKeeps(events[..n], events[n].now);
      NextKeeps(After(events[..n]), events[n], events[n].now);
      LaterPast(After(events), events[n].now, clock);
    }
  }

  /** A message that has just been sent is the last one on its list, whatever the limit. */
  lemma SentIsListedLast(db: Db, e: Event, clock: int, limit: nat, since: Option<int>)
    requires Valid(db) && Past(db, clock) && clock <= e.now
    requires (e.op.SendWords? || e.op.SendPicture?) && Perform(db, e).Some?
    requires limit > 0 && (since.Some? ==> since.value <= e.now)
    ensures var rows := Reversed(Query(Next(db, e), e.op.side, e.op.parent, limit, since));
      && rows != [] && rows[|rows| - 1].id == NextId(db, e.op.side)
      && rows[|rows| - 1].msg.sender == e.op.sender && rows[|rows| - 1].msg.sentAt == e.now
      && (e.op.SendWords? ==> rows[|rows| - 1].msg.content == Some(e.op.content) && rows[|rows| - 1].photo.None?)
      && (e.op.SendPicture? ==> rows[|rows| - 1].photo == Some(e.op.token))
  {
    var side, parent, id, db' := e.op.side, e.op.parent, NextId(db, e.op.side), Next(db, e);
    NextKeeps(db, e, clock);
    SentRows(db, e);
    ListIsLatest(db', side, parent, limit, since);
    var rows := Reversed(Query(db', side, parent, limit, since));
    var live := Live(db', side, parent, since);
    assert id in live;
    assert live != {};
    assert rows != [];
    var last := rows[|rows| - 1];
    NewestHere(db', side, e.now, id, last.id);
    forall k | 0 <= k < |rows| - 1 ensures rows[k].id != id {
      assert Before(Msgs(db', side), rows[k].id, last.id);
    }
    assert (forall k :: 0 <= k < |rows| ==> rows[k].id != id) ==> Before(Msgs(db', side), id, last.id);
    if e.op.SendPicture? {
      assert e.op.token in PhotosOf(db', side, id);
    }
  }

  /** A photo just sent is served as it was uploaded, to anyone for a room and to the two
      participants for a connection, until it expires, and to nobody else. */
  lemma SentPhotoIsServed(db: Db, e: Event, viewer: UserId, cutoff: int)
    requires e.op.SendPicture? && Perform(db, e).Some?
    ensures LoadPhoto(Next(db, e), e.op.token, viewer, cutoff) ==
      if e.now >= cutoff && MayUse(db, e.op.side, e.op.parent, viewer)
      then Some((e.op.data, e.op.contentType)) else None
  {
    SentRows(db, e);
  }

  lemma SentWords(db: Db, e: Event)
    requires Perform(db, e).Some? && e.op.SendWords?
    ensures NextId(Next(db, e), e.op.side) == NextId(db, e.op.side) + 1
    ensures Msgs(Next(db, e), e.op.side) == Msgs(db, e.op.side)[NextId(db, e.op.side) := SentMsg(e)]
  {
  }

  lemma SentPicture(db: Db, e: Event)
    requires Perform(db, e).Some? && e.op.SendPicture?
    ensures NextId(Next(db, e), e.op.side) == NextId(db, e.op.side) + 1
    ensures Msgs(Next(db, e), e.op.side) == Msgs(db, e.op.side)[NextId(db, e.op.side) := SentMsg(e)]
    ensures e.op.token in Next(db, e).photos
    ensures OwnerOn(Next(db, e).photos[e.op.token], e.op.side) == Some(NextId(db, e.op.side))
  {
  }

  lemma SentRows(db: Db, e: Event)
    requires Perform(db, e).Some? && (e.op.SendWords? || e.op.SendPicture?)
    ensures var side := e.op.side; var id := NextId(db, side); var db' := Next(db, e);
      && NextId(db', side) == id + 1
      && Msgs(db', side) == Msgs(db, side)[id := SentMsg(e)]
      && (e.op.SendPicture? ==> e.op.token in db'.photos && OwnerOn(db'.photos[e.op.token], side) == Some(id))
  {
    if e.op.SendWords? {
      SentWords(db, e);
    } else {
      SentPicture(db, e);
    }
  }

  /** The row a send inserts. */
  function SentMsg(e: Event): Msg
    requires e.op.SendWords? || e.op.SendPicture?
  {
    match e.op
    case SendWords(_, parent, sender, content) => Msg(parent, sender, Text, Some(content), e.now, None)
    case SendPicture(_, parent, sender, _, _, _) => Msg(parent, sender, Photo, None, e.now, None)
  }

  /** Nothing of this side is newer than the message with the last id, sent now. */
  lemma NewestHere(db: Db, side: Side, now: int, id: MsgId, m: MsgId)
    requires Valid(db) && Past(db, now) && m in Msgs(db, side) && id in Msgs(db, side)
    requires Msgs(db, side)[id].sentAt == now && NextId(db, side) == id + 1
    ensures m == id || Before(Msgs(db, side), m, id)
  {
    assert MsgOk(db, side, m);
  }

  // --- Unread counts over a run -----------------------------------------------------------------

  predicate Sends(op: Op, conn: ConnId) {
    (op.SendWords? || op.SendPicture?) && op.side.Dm? && op.parent == conn
  }

  /** Event `i` sent the viewer a message in this connection. */
  predicate PeerSend(events: seq<Event>, i: nat, conn: ConnId, viewer: UserId)
    requires i < |events|
  {
    && Sends(events[i].op, conn) && events[i].op.sender != viewer
    && Perform(After(events[..i]), events[i]).Some?
  }

  /** Event `i` is the viewer reading this connection. */
  predicate ReadAt(events: seq<Event>, i: nat, conn: ConnId, viewer: UserId)
    requires i < |events|
  {
    events[i].op == Read(conn, viewer) && Perform(After(events[..i]), events[i]).Some?
  }

  predicate ReadSince(events: seq<Event>, i: nat, conn: ConnId, viewer: UserId) {
    exists j :: i < j < |events| && ReadAt(events, j, conn, viewer)
  }

  /** The unexpired messages sent to the viewer since the viewer last read the connection, by the
      events that sent them. */
  function Pending(events: seq<Event>, conn: ConnId, viewer: UserId, since: int): set<nat> {
    set i: nat | i < |events| && PeerSend(events, i, conn, viewer) && events[i].now >= since
      && !ReadSince(events, i, conn, viewer)
  }

  /** What one more event does to the pending messages. */
  lemma PendingStep(events: seq<Event>, conn: ConnId, viewer: UserId, since: int)
    requires events != []
    ensures var n := |events| - 1; var was := Pending(events[..n], conn, viewer, since);
      Pending(events, conn, viewer, since) ==
        if ReadAt(events, n, conn, viewer) then {}
        else if PeerSend(events, n, conn, viewer) && events[n].now >= since then was + {n}
        else was
  {
    var n := |events| - 1;
    var front := events[..n];
    assert forall i :: 0 <= i <= n ==> front[..i] == events[..i];
    forall i: nat | i < n
      ensures PeerSend(events, i, conn, viewer) <==> PeerSend(front, i, conn, viewer)
      ensures ReadSince(events, i, conn, viewer)
         <==> ReadSince(front, i, conn, viewer) || ReadAt(events, n, conn, viewer)
    {
      SinceStep(events, i, conn, viewer);
    }
    assert !ReadSince(events, n, conn, viewer);
    if ReadAt(events, n, conn, viewer) {
      assert !PeerSend(events, n, conn, viewer);
      assert forall i: nat :: i < |events| ==> i == n || ReadSince(events, i, conn, viewer);
    }
  }

  lemma SinceStep(events: seq<Event>, i: nat, conn: ConnId, viewer: UserId)
    requires i < |events| - 1
    ensures ReadSince(events, i, conn, viewer)
       <==> ReadSince(events[..|events| - 1], i, conn, viewer) || ReadAt(events, |events| - 1, conn, viewer)
  {
    var n := |events| - 1;
    var front := events[..n];
    assert forall j :: 0 <= j <= n ==> front[..j] == events[..j];
    assert forall j: nat :: j < n ==> (ReadAt(events, j, conn, viewer) <==> ReadAt(front, j, conn, viewer));
  }

  lemma SendAddsOne(db: Db, e: Event, conn: ConnId, viewer: UserId, since: int)
    requires Valid(db) && Perform(db, e).Some? && (e.op.SendWords? || e.op.SendPicture?)
    ensures Unread(Next(db, e), viewer, conn, Some(since)) == Unread(db, viewer, conn, Some(since))
      + if Sends(e.op, conn) && e.op.sender != viewer && e.now >= since then 1 else 0
  {
    if e.op.side.Dm? {
      FreshHasNoPhotos(db, Dm);
      SentRows(db, e);
      assert Next(db, e).dmMsgs == Msgs(Next(db, e), Dm) && db.dmMsgs == Msgs(db, Dm);
      OneMoreUnread(db, Next(db, e), db.nextDmMsg, SentMsg(e), viewer, conn, Some(since));
    } else {
      SameMessages(db, Next(db, e), viewer, conn, Some(since));
    }
  }

  lemma OneMoreUnread(db: Db, db': Db, id: MsgId, msg: Msg, viewer: UserId, conn: ConnId, since: Option<int>)
    requires id !in db.dmMsgs && db'.dmMsgs == db.dmMsgs[id := msg]
    ensures Unread(db', viewer, conn, since)
         == Unread(db, viewer, conn, since) + if IsUnread(msg, viewer, conn, since) then 1 else 0
  {
    assert UnreadMsgs(db', viewer, conn, since)
        == UnreadMsgs(db, viewer, conn, since) + if IsUnread(msg, viewer, conn, since) then {id} else {};
  }

  /** Reading clears the reader's own count. */
  lemma ReadClears(db: Db, conn: ConnId, viewer: UserId, now: int, since: Option<int>)
    ensures Unread(MarkRead(db, conn, viewer, now), viewer, conn, since) == 0
  {
    var db' := MarkRead(db, conn, viewer, now);
    assert forall m :: m in db'.dmMsgs ==> !IsUnread(db'.dmMsgs[m], viewer, conn, since);
    assert UnreadMsgs(db', viewer, conn, since) == {};
  }

  /** One participant's read never changes the other's count, nor any count of another connection. */
  lemma ReadIsPrivate(db: Db, conn: ConnId, reader: UserId, now: int, chat: ConnId, viewer: UserId, since: Option<int>)
    requires Valid(db) && MayUse(db, Dm, conn, reader)
    requires chat != conn || (viewer != reader && MayUse(db, Dm, conn, viewer))
    ensures Unread(MarkRead(db, conn, reader, now), viewer, chat, since) == Unread(db, viewer, chat, since)
  {
    var db' := MarkRead(db, conn, reader, now);
    forall m | m in db.dmMsgs
      ensures m in UnreadMsgs(db', viewer, chat, since) <==> m in UnreadMsgs(db, viewer, chat, since)
    {
      assert m in Msgs(db, Dm);
      assert MsgOk(db, Dm, m);
    }
    assert UnreadMsgs(db', viewer, chat, since) == UnreadMsgs(db, viewer, chat, since);
  }

  /** What one transaction does to an unread count. */
  lemma UnreadStep(db: Db, e: Event, conn: ConnId, viewer: UserId, since: int)
    requires Valid(db) && (conn in db.conns ==> IsParticipant(db.conns[conn].pair, viewer))
    requires e.op.Clean? ==> Harmless(e.op.cfg, e.now, Dm, since)
    ensures var was := Unread(db, viewer, conn, Some(since)); var accepted := Perform(db, e).Some?;
      Unread(Next(db, e), viewer, conn, Some(since)) ==
        if accepted && e.op == Read(conn, viewer) then 0
        else if accepted && Sends(e.op, conn) && e.op.sender != viewer && e.now >= since then was + 1
        else was
  {
    if Perform(db, e).Some? {
      match e.op {
        case SendWords(_, _, _, _) => SendAddsOne(db, e, conn, viewer, since);
        case SendPicture(_, _, _, _, _, _) => SendAddsOne(db, e, conn, viewer, since);
        case Read(chat, reader) =>
          if chat == conn && reader == viewer {
            ReadClears(db, conn, viewer, e.now, Some(since));
          } else {
            ReadIsPrivate(db, chat, reader, e.now, conn, viewer, Some(since));
          }
        case Clean(cfg) =>
          SideStays(db, cfg, e.now, Dm, since);
          SameUnread(db, Next(db, e), viewer, conn, since);
        case _ => SameMessages(db, Next(db, e), viewer, conn, Some(since));
      }
    }
  }

  lemma SameMessages(db: Db, db': Db, viewer: UserId, conn: ConnId, since: Option<int>)
    requires db'.dmMsgs == db.dmMsgs
    ensures Unread(db', viewer, conn, since) == Unread(db, viewer, conn, since)
  {
    assert UnreadMsgs(db', viewer, conn, since) == UnreadMsgs(db, viewer, conn, since);
  }

  /** The connection is only ever opened with the viewer as one of the two. */
  predicate Involves(events: seq<Event>, conn: ConnId, viewer: UserId) {
    forall i :: 0 <= i < |events| && events[i].op.OpenChat? && events[i].op.id == conn ==>
      viewer == events[i].op.me || viewer == events[i].op.other
  }

  /** No cleanup of the run uses a cutoff on this side that is later than the reader's. */
  predicate CleanedFor(events: seq<Event>, side: Side, since: int) {
    forall i :: 0 <= i < |events| && events[i].op.Clean? ==> Harmless(events[i].op.cfg, events[i].now, side, since)
  }

  /** A connection keeps its pair until it is removed, and a new one is between those who opened it. */
  lemma PairStep(db: Db, e: Event, conn: ConnId)
    ensures conn in Next(db, e).conns ==>
      || (conn in db.conns && Next(db, e).conns[conn].pair == db.conns[conn].pair)
      || (e.op.OpenChat? && e.op.id == conn && Next(db, e).conns[conn].pair == CanonicalPair(e.op.me, e.op.other))
  {
    match e.op {
      case Clean(cfg) =>
        CleanupOnlyRemoves(db, cfg, e.now);
        assert Next(db, e) == RunCleanup(db, cfg, e.now);
      case SendWords(_, _, _, _) =>
      case SendPicture(_, _, _, _, _, _) =>
      case _ =>
    }
  }

  lemma CleanupOnlyRemoves(db: Db, cfg: Config, now: int)
    ensures Submap(db.conns, RunCleanup(db, cfg, now).conns)
  {
    var noConns := PurgeIdle(db, Dm, InactivityCutoff(now, cfg.connDays));
    assert RunCleanup(db, cfg, now).conns == noConns.conns;
  }

  lemma {:induction false} StaysInvolved(events: seq<Event>, conn: ConnId, viewer: UserId)
    requires Involves(events, conn, viewer)
    ensures conn in After(events).conns ==> IsParticipant(After(events).conns[conn].pair, viewer)
  {
    if events != [] {
      var n := |events| - 1;
      StaysInvolved(events[..n], conn, viewer);
      PairStep(After(events[..n]), events[n], conn);
    }
  }

  lemma CountsAgree(n: nat, was: set<nat>, pending: set<nat>, unread: nat, read: bool, sent: bool)
    requires n !in was
    requires pending == if read then {} else if sent then was + {n} else was
    requires unread == if read then 0 else if sent then |was| + 1 else |was|
    ensures unread == |pending|
  {
  }

  /** Over a whole run of sends, reads and cleanups, a viewer's unread count in a connection is the
      number of unexpired messages the peer sent since the viewer last read it. */
  lemma {:induction false} UnreadIsPending(events: seq<Event>, conn: ConnId, viewer: UserId, since: int)
    requires InOrder(events) && Involves(events, conn, viewer) && CleanedFor(events, Dm, since)
    ensures Unread(After(events), viewer, conn, Some(since)) == |Pending(events, conn, viewer, since)|
  {
    if events == [] {
      assert UnreadMsgs(EMPTY_DB, viewer, conn, Some(since)) == {};
      assert Pending(events, conn, viewer, since) == {};
    } else {
      var n := |events| - 1;
      var front := events[..n];
      UnreadIsPending(front, conn, viewer, since);
      RunKeeps(front, events[n].now);
      StaysInvolved(front, conn, viewer);
      UnreadStep(After(front), events[n], conn, viewer, since);
      PendingStep(events, conn, viewer, since);
      CountsAgree(n, Pending(front, conn, viewer, since), Pending(events, conn, viewer, since),
                  Unread(After(events), viewer, conn, Some(since)),
                  ReadAt(events, n, conn, viewer), PeerSend(events, n, conn, viewer) && events[n].now >= since);
    }
  }
}
