/** The services that write the store, statement by statement, against the transaction functions
    of `Store` and `Cleanup`. */
module StoreService {
  import opened Common
  import opened Pairing
  import opened Store
  import opened StoreInvariant
  import opened Reads
  import opened Cleanup

  class Database {
    var db: Db

    constructor ()
      ensures db == EMPTY_DB
    {
      db := EMPTY_DB;
    }

    /** Flush a message row; None is an integrity error. */
    method FlushMessage(side: Side, m: Msg) returns (id: Option<MsgId>)
      modifies this
      ensures id.Some? <==> m.parent in Parents(old(db), side) && m.sender in old(db).users
      ensures id.None? ==> db == old(db)
      ensures id.Some? ==> id.value == NextId(old(db), side) && Ok(db) == InsertMsg(old(db), side, m)
    {
      var inserted := InsertMsg(db, side, m);
      if inserted.IntegrityError? {
        return None;
      }
      id := Some(NextId(db, side));
      db := inserted.value;
    }

    /** Bump the activity clock of a connection or room: that clock shows now and every other one
        what it showed, no message or photo changes, and a store in order stays in order. */
    method TouchParent(side: Side, parent: int, now: int)
      modifies this
      ensures db == Touch(old(db), side, parent, now)
      ensures forall s, x :: x in Parents(db, s) <==> x in Parents(old(db), s)
      ensures forall s, x :: x in Parents(db, s) ==>
        LastActivity(db, s, x) == if s == side && x == parent then now else LastActivity(old(db), s, x)
      ensures forall s :: Msgs(db, s) == Msgs(old(db), s)
      ensures db.photos == old(db).photos && db.users == old(db).users
      ensures forall clock :: Valid(old(db)) && Past(old(db), clock) && clock <= now ==> Valid(db) && Past(db, now)
    {
      if side.Dm? {
        if parent in db.conns {
          db := db.(conns := db.conns[parent := db.conns[parent].(lastInteraction := now)]);
        }
      } else if parent in db.rooms {
        db := db.(rooms := db.rooms[parent := db.rooms[parent].(lastMessageAt := Some(now))]);
      }
      forall clock | Valid(old(db)) && Past(old(db), clock) && clock <= now ensures Valid(db) && Past(db, now) {
        TouchKeeps(old(db), side, parent, clock, now);
      }
    }

    method CreateMessage(side: Side, parent: int, sender: UserId, content: string, now: int) returns (id: Option<MsgId>)
      modifies this
      ensures var sent := SendText(old(db), side, parent, sender, content, now);
        if sent.Ok? then id == Some(NextId(old(db), side)) && db == sent.value else id == None && db == old(db)
    {
      id := FlushMessage(side, Msg(parent, sender, Text, Some(content), now, None));
      if id.Some? {
        TouchParent(side, parent, now);
      }
    }

    /** The message, then its photo, then the clock; a failing statement rolls everything back. */
    method CreatePhotoMessage(side: Side, parent: int, sender: UserId, token: PhotoId, data: Blob, contentType: string,
                              now: int) returns (id: Option<MsgId>)
      modifies this
      ensures var sent := SendPhoto(old(db), side, parent, sender, token, data, contentType, now);
        if sent.Ok? then id == Some(NextId(old(db), side)) && db == sent.value else id == None && db == old(db)
    {
      var begun := db;
      id := FlushMessage(side, Msg(parent, sender, Photo, None, now, None));
      if id.Some? {
        var pictured := InsertPhoto(db, token, PhotoFor(side, id.value, data, contentType));
        if pictured.IntegrityError? {
          db := begun;
          return None;
        }
        db := pictured.value;
        TouchParent(side, parent, now);
      }
    }

    /** Insert the canonical pair or leave it be, then select it: the row is the pair's, whichever
        way round it is asked for, and a row that was there is the one that comes back. */
    method GetOrCreateConnection(me: UserId, other: UserId, newId: ConnId, now: int) returns (row: Option<ConnId>)
      requires ConnsOk(db)
      modifies this
      ensures row.Some? <==> OpenPair(old(db), me, other, newId, now).Ok?
      ensures row.None? ==> db == old(db)
      ensures row.Some? ==> Ok(db) == OpenPair(old(db), me, other, newId, now)
      ensures row.Some? ==>
        row.value in db.conns && {db.conns[row.value].pair.a, db.conns[row.value].pair.b} == {me, other}
      ensures row.Some? ==> forall c :: c in db.conns && db.conns[c].pair == CanonicalPair(other, me) ==> c == row.value
    {
      var p := CanonicalPair(me, other);
      var answer := OpenPair(db, me, other, newId, now);
      if answer.IntegrityError? {
        return None;
      }
      db := answer.value;
      assert PairTaken(db, p) by {
        assert !PairTaken(old(db), p) ==> newId in db.conns && db.conns[newId].pair == p;
      }
      PairIsCanonical(me, other);
      var c :| c in db.conns && db.conns[c].pair == p;
      row := Some(c);
      assert forall d :: d in old(db).conns && old(db).conns[d].pair == p ==> PairTaken(old(db), p);
    }

    /** Mark what the viewer received as read: those rows and no others, and each only once. */
    method MarkConversationRead(conn: ConnId, viewer: UserId, now: int)
      modifies this
      ensures db == MarkRead(old(db), conn, viewer, now)
      ensures forall since :: Unread(db, viewer, conn, since) == 0
      ensures forall m :: m in old(db).dmMsgs && old(db).dmMsgs[m].readAt.Some? ==>
        m in db.dmMsgs && db.dmMsgs[m].readAt == old(db).dmMsgs[m].readAt
    {
      db := MarkRead(db, conn, viewer, now);
      forall since ensures Unread(db, viewer, conn, since) == 0 {
        assert forall m :: m in db.dmMsgs ==> !IsUnread(db.dmMsgs[m], viewer, conn, since);
        assert UnreadMsgs(db, viewer, conn, since) == {};
      }
    }

    /** Delete every expired message, room messages first; returns how many of each. */
    method PurgeExpiredMessages(now: int, retentionHours: int) returns (room: nat, private_: nat)
      modifies this
      ensures var noRoomMsgs := PurgeExpired(old(db), Room, ExpiryCutoff(now, retentionHours));
        db == PurgeExpired(noRoomMsgs, Dm, ExpiryCutoff(now, retentionHours))
        && private_ == |ExpiredMsgs(noRoomMsgs, Dm, ExpiryCutoff(now, retentionHours))|
      ensures room == |ExpiredMsgs(old(db), Room, ExpiryCutoff(now, retentionHours))|
      ensures forall m :: m in db.dmMsgs ==> db.dmMsgs[m].sentAt >= now - retentionHours * HOUR
      ensures forall m :: m in db.roomMsgs ==> db.roomMsgs[m].sentAt >= now - retentionHours * HOUR
    {
      var cutoff := ExpiryCutoff(now, retentionHours);
      var expired := ExpiredMsgs(db, Room, cutoff);
      db := DeleteMsgs(db, Room, expired);
      room := |expired|;
      expired := ExpiredMsgs(db, Dm, cutoff);
      db := DeleteMsgs(db, Dm, expired);
      private_ := |expired|;
    }

    method PurgeInactiveRooms(now: int, retentionDays: int) returns (rooms: nat)
      modifies this
      ensures db == PurgeIdle(old(db), Room, InactivityCutoff(now, retentionDays))
      ensures rooms == |IdleParents(old(db), Room, InactivityCutoff(now, retentionDays))|
      ensures forall r :: r in db.rooms ==> LastActivity(db, Room, r) >= now - retentionDays * DAY
    {
      var idle := IdleParents(db, Room, InactivityCutoff(now, retentionDays));
      db := DeleteParents(db, Room, idle);
      rooms := |idle|;
    }

    method PurgeInactiveConnections(now: int, retentionDays: int) returns (conns: nat)
      modifies this
      ensures db == PurgeIdle(old(db), Dm, InactivityCutoff(now, retentionDays))
      ensures conns == |IdleParents(old(db), Dm, InactivityCutoff(now, retentionDays))|
      ensures forall c :: c in db.conns ==> db.conns[c].lastInteraction >= now - retentionDays * DAY
    {
      var idle := IdleParents(db, Dm, InactivityCutoff(now, retentionDays));
      db := DeleteParents(db, Dm, idle);
      conns := |idle|;
    }

    /** One cleanup pass and its report: what is left is what stays, and rows before are rows
        after, plus rows reported, plus messages that went with their room or connection. */
    method RunCleanupPass(cfg: Config, now: int) returns (result: CleanupResult)
      modifies this
      ensures db == RunCleanup(old(db), cfg, now)
      ensures result == Counts(old(db), cfg, now)
      ensures |old(db).conns| == |db.conns| + result.connections && |old(db).rooms| == |db.rooms| + result.rooms
      ensures |old(db).dmMsgs| == |db.dmMsgs| + result.privateMessages + |CascadedMsgs(old(db), cfg, now, Dm)|
      ensures |old(db).roomMsgs| == |db.roomMsgs| + result.roomMessages + |CascadedMsgs(old(db), cfg, now, Room)|
      ensures Valid(old(db)) ==>
        |old(db).photos| == |db.photos| + |PhotoMsgsGone(old(db), db, Dm)| + |PhotoMsgsGone(old(db), db, Room)|
    {
      result := CleanupResult(0, 0, 0, 0);
      var conns := PurgeInactiveConnections(now, cfg.connDays);
      result := result.(connections := conns);
      if cfg.enableRooms {
        var rooms := PurgeInactiveRooms(now, cfg.roomDays);
        result := result.(rooms := rooms);
      }
      var roomMsgs, privateMsgs := PurgeExpiredMessages(now, cfg.retentionHours);
      result := result.(roomMessages := roomMsgs, privateMessages := privateMsgs);
      CleanupAccounts(old(db), cfg, now);
      if Valid(old(db)) {
        PhotosAccount(old(db), cfg, now);
      }
    }
  }
}
