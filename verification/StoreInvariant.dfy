/** Every operation keeps the store's constraints and its activity clocks. */
module StoreInvariant {
  import opened Common
  import opened Pairing
  import opened Store

  /** What `db'` must keep of `db` for message `m` to stay in order: the row up to its read mark,
      a parent at least as recently active, the sender, and the photos it owns. */
  ghost predicate Keeps(db: Db, db': Db, side: Side, m: MsgId)
    requires m in Msgs(db, side) && Msgs(db, side)[m].parent in Parents(db, side)
  {
    && m in Msgs(db', side) && Msgs(db', side)[m] == Msgs(db, side)[m].(readAt := Msgs(db', side)[m].readAt)
    && ParentKept(db, db', side, Msgs(db, side)[m].parent)
    && db.users <= db'.users && NextId(db, side) <= NextId(db', side)
    && PhotosOf(db', side, m) == PhotosOf(db, side, m)
  }

  /** The parent is still there, no less recently active, and between the same two people. */
  predicate ParentKept(db: Db, db': Db, side: Side, parent: int)
    requires parent in Parents(db, side)
  {
    && parent in Parents(db', side) && LastActivity(db, side, parent) <= LastActivity(db', side, parent)
    && (side.Dm? ==> db'.conns[parent].pair == db.conns[parent].pair)
    && (side.Room? && db.rooms[parent].lastMessageAt.Some? ==> db'.rooms[parent].lastMessageAt.Some?)
  }

  lemma KeptMsgOk(db: Db, db': Db, side: Side, m: MsgId)
    requires m in Msgs(db, side) && MsgOk(db, side, m) && Keeps(db, db', side, m)
    ensures MsgOk(db', side, m)
  {
    var msg := Msgs(db, side)[m];
    if msg.kind.Photo? {
      var p :| p in db.photos && OwnerOn(db.photos[p], side) == Some(m);
      assert p in PhotosOf(db', side, m);
    } else {
      forall p | p in db'.photos
        ensures OwnerOn(db'.photos[p], side) != Some(m)
      {
        assert p in PhotosOf(db', side, m) ==> p in PhotosOf(db, side, m);
      }
    }
  }

  // --- Activity ----------------------------------------------------------------------

  lemma TouchMonotone(db: Db, side: Side, parent: int, clock: int, now: int)
    requires Past(db, clock) && clock <= now
    ensures Past(Touch(db, side, parent, now), now)
    ensures forall s, p :: p in Parents(db, s) ==> ParentKept(db, Touch(db, side, parent, now), s, p)
    ensures parent in Parents(db, side) ==> LastActivity(Touch(db, side, parent, now), side, parent) == now
  {
    var db' := Touch(db, side, parent, now);
    forall s, p | p in Parents(db', s)
      ensures p in Parents(db, s) && LastActivity(db', s, p) <= now && LastActivity(db, s, p) <= LastActivity(db', s, p)
    {
      assert p in Parents(db, s);
      assert LastActivity(db, s, p) <= clock;
    }
    assert Parents(db', Dm) == Parents(db, Dm) && Parents(db', Room) == Parents(db, Room);
  }

  /** Messages stay in order under an operation that adds to the store or raises clocks and
      read marks, and leaves their photos alone. */
  lemma OldKept(db: Db, db': Db)
    requires SideOk(db, Dm) && SideOk(db, Room)
    requires forall s, m :: m in Msgs(db, s) ==>
      m in Msgs(db', s) && Msgs(db', s)[m] == Msgs(db, s)[m].(readAt := Msgs(db', s)[m].readAt)
    requires forall s, m :: m in Msgs(db, s) ==> PhotosOf(db', s, m) == PhotosOf(db, s, m)
    requires forall s, p :: p in Parents(db, s) ==> ParentKept(db, db', s, p)
    requires db.users <= db'.users && forall s :: NextId(db, s) <= NextId(db', s)
    ensures forall s, m :: m in Msgs(db, s) ==> m in Msgs(db', s) && MsgOk(db', s, m)
    ensures db.roomMsgs.Keys <= db'.roomMsgs.Keys && db.dmMsgs.Keys <= db'.dmMsgs.Keys
  {
    forall s, m | m in Msgs(db, s)
      ensures m in Msgs(db', s) && MsgOk(db', s, m)
    {
      assert SideOk(db, s);
      assert MsgOk(db, s, m);
      KeptMsgOk(db, db', s, m);
    }
    forall m | m in db.roomMsgs ensures m in db'.roomMsgs { assert m in Msgs(db, Room); }
    forall m | m in db.dmMsgs ensures m in db'.dmMsgs { assert m in Msgs(db, Dm); }
  }

  /** An operation that adds no message or photo. */
  lemma AllKept(db: Db, db': Db)
    requires Valid(db) && db'.photos == db.photos && ConnsOk(db')
    requires forall s, m :: m in Msgs(db', s) ==> m in Msgs(db, s)
    requires forall s, m :: m in Msgs(db, s) ==>
      m in Msgs(db', s) && Msgs(db', s)[m] == Msgs(db, s)[m].(readAt := Msgs(db', s)[m].readAt)
    requires forall s, p :: p in Parents(db, s) ==> ParentKept(db, db', s, p)
    requires db.users <= db'.users && forall s :: NextId(db, s) <= NextId(db', s)
    ensures Valid(db')
  {
    assert forall s, m :: m in Msgs(db, s) ==> PhotosOf(db', s, m) == PhotosOf(db, s, m);
    OldKept(db, db');
    PhotosKept(db, db');
  }

  lemma TouchKeeps(db: Db, side: Side, parent: int, clock: int, now: int)
    requires Valid(db) && Past(db, clock) && clock <= now
    ensures Valid(Touch(db, side, parent, now)) && Past(Touch(db, side, parent, now), now)
  {
    TouchMonotone(db, side, parent, clock, now);
    AllKept(db, Touch(db, side, parent, now));
  }

  // --- Sending -----------------------------------------------------------------------

  lemma FreshHasNoPhotos(db: Db, side: Side)
    requires Valid(db)
    ensures NextId(db, side) !in Msgs(db, side)
    ensures PhotosOf(db, side, NextId(db, side)) == {}
  {
    assert NextId(db, side) in Msgs(db, side) ==> MsgOk(db, side, NextId(db, side));
    forall p | p in db.photos
      ensures OwnerOn(db.photos[p], side) != Some(NextId(db, side))
    {
      assert PhotoOk(db, db.photos[p]);
    }
  }

  /** Nothing of the elders changes when a message is inserted, perhaps with photos not theirs. */
  lemma InsertLeavesOld(db: Db, db': Db, side: Side, msg: Msg)
    requires NextId(db, side) !in Msgs(db, side)
    requires Msgs(db', side) == Msgs(db, side)[NextId(db, side) := msg]
    requires forall s :: s != side ==> Msgs(db', s) == Msgs(db, s)
    ensures forall s, m :: m in Msgs(db, s) ==>
      m in Msgs(db', s) && Msgs(db', s)[m] == Msgs(db, s)[m].(readAt := Msgs(db', s)[m].readAt)
    ensures forall s, m :: m in Msgs(db', s) ==> m in Msgs(db, s) || (s == side && m == NextId(db, side))
  {
  }

  lemma InsertedRows(db: Db, side: Side, msg: Msg, photos: map<PhotoId, PhotoRow>, now: int)
    requires InsertMsg(db, side, msg).Ok?
    ensures var mid := InsertMsg(db, side, msg).value.(photos := photos);
      var db' := Touch(mid, side, msg.parent, now);
      && mid.conns == db.conns && mid.rooms == db.rooms && db'.users == db.users && db'.photos == photos
      && Msgs(db', side) == Msgs(db, side)[NextId(db, side) := msg]
      && (forall s :: s != side ==> Msgs(db', s) == Msgs(db, s))
      && (forall s :: NextId(db, s) <= NextId(db', s))
  {
  }

  lemma SamePairs(db: Db, db': Db, side: Side, parent: int, now: int)
    requires ConnsOk(db) && db'.users == db.users && db'.conns == Touch(db, side, parent, now).conns
    ensures ConnsOk(db')
  {
  }

  /** Insert a message, perhaps with photos that are not its elders', and bump the clock: the
      elders stay in order and the clock is not behind the new message. */
  lemma InsertKeepsOld(db: Db, side: Side, msg: Msg, photos: map<PhotoId, PhotoRow>, clock: int, now: int)
    requires Valid(db) && Past(db, clock) && clock <= now && InsertMsg(db, side, msg).Ok?
    requires forall s, m :: m in Msgs(db, s) ==> PhotosOf(db.(photos := photos), s, m) == PhotosOf(db, s, m)
    ensures var n := NextId(db, side);
      var db' := Touch(InsertMsg(db, side, msg).value.(photos := photos), side, msg.parent, now);
      && Past(db', now) && ConnsOk(db')
      && n in Msgs(db', side) && Msgs(db', side)[n] == msg
      && (forall s, m :: m in Msgs(db', s) ==> (s == side && m == n) || MsgOk(db', s, m))
      && (msg.sentAt <= now ==> msg.sentAt <= LastActivity(db', side, msg.parent))
      && db.roomMsgs.Keys <= db'.roomMsgs.Keys && db.dmMsgs.Keys <= db'.dmMsgs.Keys
  {
    var mid := InsertMsg(db, side, msg).value.(photos := photos);
    var db' := Touch(mid, side, msg.parent, now);
    InsertedRows(db, side, msg, photos, now);
    SameParents(db, mid, clock);
    TouchMonotone(mid, side, msg.parent, clock, now);
    FreshHasNoPhotos(db, side);
    InsertLeavesOld(db, db', side, msg);
    SamePairs(db, db', side, msg.parent, now);
    forall s, m | m in Msgs(db, s) ensures PhotosOf(db', s, m) == PhotosOf(db, s, m) {
      assert PhotosOf(db', s, m) == PhotosOf(db.(photos := photos), s, m);
    }
    forall s, p | p in Parents(db, s) ensures ParentKept(db, db', s, p) {
      assert p in Parents(mid, s) && ParentKept(mid, db', s, p);
    }
    OldKept(db, db');
  }

  lemma SendTextKeeps(db: Db, side: Side, parent: int, sender: UserId, content: string, clock: int, now: int)
    requires Valid(db) && Past(db, clock) && clock <= now
    requires side.Dm? && parent in db.conns ==> IsParticipant(db.conns[parent].pair, sender)
    requires SendText(db, side, parent, sender, content, now).Ok?
    ensures var db' := SendText(db, side, parent, sender, content, now).value; Valid(db') && Past(db', now)
  {
    var n := NextId(db, side);
    var msg := Msg(parent, sender, Text, Some(content), now, None);
    var db' := SendText(db, side, parent, sender, content, now).value;
    InsertKeepsOld(db, side, msg, db.photos, clock, now);
    FreshHasNoPhotos(db, side);
    assert MsgOk(db', side, n) by {
      forall p | p in db'.photos ensures OwnerOn(db'.photos[p], side) != Some(n) {
        assert p !in PhotosOf(db, side, n);
      }
    }
    PhotosKept(db, db');
  }

  lemma SameParents(db: Db, db': Db, clock: int)
    requires Past(db, clock) && db'.conns == db.conns && db'.rooms == db.rooms
    ensures Past(db', clock)
  {
    forall s, p | p in Parents(db', s)
      ensures LastActivity(db', s, p) <= clock
    {
      assert p in Parents(db, s) && LastActivity(db', s, p) == LastActivity(db, s, p);
    }
  }

  lemma PhotosKept(db: Db, db': Db)
    requires PhotosOk(db) && db'.photos == db.photos
    requires db.roomMsgs.Keys <= db'.roomMsgs.Keys && db.dmMsgs.Keys <= db'.dmMsgs.Keys
    ensures PhotosOk(db')
  {
    forall p | p in db'.photos
      ensures PhotoOk(db', db'.photos[p])
    {
      assert PhotoOk(db, db.photos[p]);
    }
  }

  lemma SendPhotoKeeps(db: Db, side: Side, parent: int, sender: UserId, token: PhotoId, data: Blob, contentType: string,
                       clock: int, now: int)
    requires Valid(db) && Past(db, clock) && clock <= now
    requires side.Dm? && parent in db.conns ==> IsParticipant(db.conns[parent].pair, sender)
    requires SendPhoto(db, side, parent, sender, token, data, contentType, now).Ok?
    ensures var db' := SendPhoto(db, side, parent, sender, token, data, contentType, now).value;
      Valid(db') && Past(db', now)
  {
    var n := NextId(db, side);
    var photos := db.photos[token := PhotoFor(side, n, data, contentType)];
    var db' := SendPhoto(db, side, parent, sender, token, data, contentType, now).value;
    FreshHasNoPhotos(db, side);
    forall s, m | m in Msgs(db, s)
      ensures PhotosOf(db.(photos := photos), s, m) == PhotosOf(db, s, m)
    {
    }
    InsertKeepsOld(db, side, Msg(parent, sender, Photo, None, now, None), photos, clock, now);
    assert MsgOk(db', side, n) by { assert OwnerOn(db'.photos[token], side) == Some(n); }
    PhotoAdded(db, db', side, token, n);
  }

  lemma PhotoAdded(db: Db, db': Db, side: Side, token: PhotoId, n: MsgId)
    requires PhotosOk(db) && token !in db.photos && PhotosOf(db, side, n) == {}
    requires token in db'.photos
    requires db'.photos == db.photos[token := PhotoFor(side, n, db'.photos[token].data, db'.photos[token].contentType)]
    requires db.roomMsgs.Keys <= db'.roomMsgs.Keys && db.dmMsgs.Keys <= db'.dmMsgs.Keys && n in Msgs(db', side)
    ensures PhotosOk(db')
  {
    forall p | p in db'.photos
      ensures PhotoOk(db', db'.photos[p])
    {
      if p != token {
        assert PhotoOk(db, db.photos[p]);
      }
    }
    forall p | p in db.photos
      ensures OwnerOn(db.photos[p], side) != Some(n)
    {
      assert p !in PhotosOf(db, side, n);
    }
  }

  // --- Reading marks, users, rooms, connections ------------------------------------------

  lemma MarkReadKeeps(db: Db, conn: ConnId, viewer: UserId, clock: int, now: int)
    requires Valid(db) && Past(db, clock) && clock <= now
    ensures Valid(MarkRead(db, conn, viewer, now)) && Past(MarkRead(db, conn, viewer, now), now)
  {
    var db' := MarkRead(db, conn, viewer, now);
    SameParents(db, db', clock);
    LaterPast(db', clock, now);
    AllKept(db, db');
  }

  lemma LaterPast(db: Db, clock: int, now: int)
    requires Past(db, clock) && clock <= now
    ensures Past(db, now)
  {
  }

  lemma OpenPairKeeps(db: Db, x: UserId, y: UserId, fresh_: ConnId, clock: int, now: int)
    requires Valid(db) && Past(db, clock) && clock <= now && OpenPair(db, x, y, fresh_, now).Ok?
    ensures var db' := OpenPair(db, x, y, fresh_, now).value; Valid(db') && Past(db', now)
  {
    var db' := OpenPair(db, x, y, fresh_, now).value;
    forall s, p | p in Parents(db', s)
      ensures LastActivity(db', s, p) <= now
    {
      if p in Parents(db, s) {
        assert LastActivity(db, s, p) <= clock;
      }
    }
    PairIsCanonical(x, y);
    assert forall c :: c in db.conns && db.conns[c].pair == CanonicalPair(x, y) ==> PairTaken(db, CanonicalPair(x, y));
    AllKept(db, db');
  }

  lemma NewRoomKeeps(db: Db, room: RoomId, clock: int, now: int)
    requires Valid(db) && Past(db, clock) && clock <= now && room !in db.rooms
    ensures var db' := db.(rooms := db.rooms[room := RoomRow(now, None)]); Valid(db') && Past(db', now)
  {
    var db' := db.(rooms := db.rooms[room := RoomRow(now, None)]);
    forall s, p | p in Parents(db', s)
      ensures LastActivity(db', s, p) <= now
    {
      if p in Parents(db, s) {
        assert LastActivity(db, s, p) <= clock;
      }
    }
    AllKept(db, db');
  }

  lemma NewUserKeeps(db: Db, user: UserId, clock: int, now: int)
    requires Valid(db) && Past(db, clock) && clock <= now
    ensures var db' := db.(users := db.users + {user}); Valid(db') && Past(db', now)
  {
    var db' := db.(users := db.users + {user});
    SameParents(db, db', clock);
    LaterPast(db', clock, now);
    AllKept(db, db');
  }

  // --- Deleting ------------------------------------------------------------------------

  lemma DeleteParentsKeeps(db: Db, side: Side, gone: set<int>)
    requires Valid(db)
    ensures Valid(DeleteParents(db, side, gone))
  {
    var db' := DeleteParents(db, side, gone);
    forall s, p | p in Parents(db', s) ensures ParentKept(db, db', s, p) {
      assert LastActivity(db', s, p) == LastActivity(db, s, p);
    }
    assert forall m :: m in Msgs(db', side) ==> Msgs(db, side)[m].parent !in gone;
    CascadeKeeps(db, db', side, MsgsUnder(db, side, gone), gone);
  }

  lemma DeleteMsgsKeeps(db: Db, side: Side, ids: set<MsgId>)
    requires Valid(db)
    ensures Valid(DeleteMsgs(db, side, ids))
  {
    CascadeKeeps(db, DeleteMsgs(db, side, ids), side, ids, {});
  }

  /** Deletions move no activity clock. */
  lemma DeletingIsPast(db: Db, side: Side, gone: set<int>, ids: set<MsgId>, clock: int)
    requires Past(db, clock)
    ensures Past(DeleteParents(db, side, gone), clock) && Past(DeleteMsgs(db, side, ids), clock)
  {
    var fewer := DeleteParents(db, side, gone);
    forall s, p | p in Parents(fewer, s) ensures LastActivity(fewer, s, p) <= clock {
      assert p in Parents(db, s) && LastActivity(fewer, s, p) == LastActivity(db, s, p);
    }
    SameParents(db, DeleteMsgs(db, side, ids), clock);
  }

  /** Deleting messages with their photos, and perhaps the parents they are all of, keeps the rest in order. */
  lemma CascadeKeeps(db: Db, db': Db, side: Side, ids: set<MsgId>, gone: set<int>)
    requires Valid(db) && Cascaded(db, db', side, ids) && ConnsOk(db') && db'.users == db.users
    requires forall s :: NextId(db', s) == NextId(db, s)
    requires forall s :: Parents(db', s) == if s == side then Parents(db, s) - gone else Parents(db, s)
    requires forall s, p :: p in Parents(db', s) ==> p in Parents(db, s) && ParentKept(db, db', s, p)
    requires forall m :: m in Msgs(db', side) ==> m in Msgs(db, side) && Msgs(db, side)[m].parent !in gone
    ensures Valid(db')
  {
    forall s, m | m in Msgs(db', s)
      ensures MsgOk(db', s, m)
    {
      assert m in Msgs(db, s) && MsgOk(db, s, m);
      SurvivorKeepsPhotos(db, db', side, ids, s, m);
      KeptMsgOk(db, db', s, m);
    }
    DeletedPhotosOk(db, db', side, ids);
  }

  /** A photo goes with its message and not otherwise. */
  ghost predicate Cascaded(db: Db, db': Db, side: Side, ids: set<MsgId>) {
    && (forall s :: Msgs(db', s) == if s == side then Msgs(db, s) - ids else Msgs(db, s))
    && db'.photos == map p | p in db.photos
         && !(OwnerOn(db.photos[p], side).Some? && OwnerOn(db.photos[p], side).value in ids) :: db.photos[p]
  }

  lemma SurvivorKeepsPhotos(db: Db, db': Db, side: Side, ids: set<MsgId>, s: Side, m: MsgId)
    requires PhotosOk(db) && Cascaded(db, db', side, ids) && m in Msgs(db', s)
    ensures PhotosOf(db', s, m) == PhotosOf(db, s, m)
  {
    forall p | p in PhotosOf(db, s, m)
      ensures p in db'.photos
    {
      assert PhotoOk(db, db.photos[p]);
    }
  }

  lemma DeletedPhotosOk(db: Db, db': Db, side: Side, ids: set<MsgId>)
    requires PhotosOk(db) && Cascaded(db, db', side, ids)
    ensures PhotosOk(db')
  {
    forall p | p in db'.photos
      ensures PhotoOk(db', db'.photos[p])
    {
      assert PhotoOk(db, db.photos[p]);
      assert db'.roomMsgs == Msgs(db', Room) && db'.dmMsgs == Msgs(db', Dm);
      assert db.roomMsgs == Msgs(db, Room) && db.dmMsgs == Msgs(db, Dm);
    }
  }

  // --- Photos are photo messages ---------------------------------------------------------

  function PhotoMsgs(db: Db, side: Side): set<MsgId> {
    set m | m in Msgs(db, side) && Msgs(db, side)[m].kind.Photo?
  }

  /** Which message of this side each photo belongs to. */
  function Owners(db: Db, side: Side): map<PhotoId, MsgId> {
    map p | p in db.photos && OwnerOn(db.photos[p], side).Some? :: OwnerOn(db.photos[p], side).value
  }

  lemma {:induction false} InjectiveSize(ks: set<PhotoId>, m: map<PhotoId, MsgId>)
    requires ks <= m.Keys && forall a, b :: a in m && b in m && m[a] == m[b] ==> a == b
    ensures |ks| == |set k | k in ks :: m[k]|
    decreases ks
  {
    if ks != {} {
      assert (forall x :: x !in ks) ==> ks == {};
      var k :| k in ks;
      InjectiveSize(ks - {k}, m);
      assert (set x | x in ks :: m[x]) == (set x | x in ks - {k} :: m[x]) + {m[k]};
      assert m[k] !in (set x | x in ks - {k} :: m[x]);
    }
  }

  lemma OwnersArePhotoMsgs(db: Db, side: Side)
    requires Valid(db)
    ensures |Owners(db, side)| == |PhotoMsgs(db, side)|
  {
    var owners := Owners(db, side);
    forall p, q | p in owners && q in owners && owners[p] == owners[q] ensures p == q {
      assert PhotoOk(db, db.photos[p]) && PhotoOk(db, db.photos[q]);
    }
    InjectiveSize(owners.Keys, owners);
    var owned := set p | p in owners.Keys :: owners[p];
    forall m ensures m in owned <==> m in PhotoMsgs(db, side) {
      if m in owned {
        var p :| p in owners.Keys && owners[p] == m;
        assert PhotoOk(db, db.photos[p]);
        assert MsgOk(db, side, m);
      }
      if m in PhotoMsgs(db, side) {
        assert MsgOk(db, side, m);
        var p :| p in db.photos && OwnerOn(db.photos[p], side) == Some(m);
        assert p in owners && owners[p] == m;
      }
    }
    assert owned == PhotoMsgs(db, side);
    assert |owners| == |owners.Keys|;
  }

  /** In a store in order there are as many photos as photo messages. */
  lemma PhotosAreMessages(db: Db)
    requires Valid(db)
    ensures |db.photos| == |PhotoMsgs(db, Dm)| + |PhotoMsgs(db, Room)|
  {
    OwnersArePhotoMsgs(db, Dm);
    OwnersArePhotoMsgs(db, Room);
    var dm, room := Owners(db, Dm).Keys, Owners(db, Room).Keys;
    forall p ensures p in db.photos.Keys <==> p in dm || p in room {
      assert p in db.photos ==> PhotoOk(db, db.photos[p]);
    }
    forall p | p in dm ensures p !in room {
      assert PhotoOk(db, db.photos[p]);
    }
    assert db.photos.Keys == dm + room && dm !! room;
    assert |db.photos| == |db.photos.Keys| && |Owners(db, Dm)| == |dm| && |Owners(db, Room)| == |room|;
  }
}
