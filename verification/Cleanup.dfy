/** Expiry and inactivity: the retention arithmetic, the purges, and one cleanup pass. */
module Cleanup {
  import opened Common
  import opened Store
  import opened StoreInvariant

  /** Timestamps have microsecond resolution. */
  const HOUR := 3_600_000_000
  const DAY := 24 * HOUR

  datatype Config = Config(retentionHours: int, enableRooms: bool, roomDays: int, connDays: int)

  function ExpiryCutoff(now: int, hours: int): int {
    now - hours * HOUR
  }

  function InactivityCutoff(now: int, days: int): int {
    now - days * DAY
  }

  datatype CleanupResult = CleanupResult(roomMessages: nat, privateMessages: nat, rooms: nat, connections: nat)

  /** The inactivity sweep over rooms or connections. */
  function PurgeIdle(db: Db, side: Side, cutoff: int): Db {
    DeleteParents(db, side, IdleParents(db, side, cutoff))
  }

  /** The expiry sweep over one message table. */
  function PurgeExpired(db: Db, side: Side, cutoff: int): Db {
    DeleteMsgs(db, side, ExpiredMsgs(db, side, cutoff))
  }

  /** One pass: idle connections, idle rooms if enabled, then expired messages of both tables. */
  function RunCleanup(db: Db, cfg: Config, now: int): Db {
    var noConns := PurgeIdle(db, Dm, InactivityCutoff(now, cfg.connDays));
    var noRooms := if cfg.enableRooms then PurgeIdle(noConns, Room, InactivityCutoff(now, cfg.roomDays)) else noConns;
    var noRoomMsgs := PurgeExpired(noRooms, Room, ExpiryCutoff(now, cfg.retentionHours));
    PurgeExpired(noRoomMsgs, Dm, ExpiryCutoff(now, cfg.retentionHours))
  }

  // --- The closed form of any sequence of purges --------------------------------------

  /** The newest cutoff each purge has used so far; None if it has not run. */
  datatype Cuts = Cuts(roomMsg: Option<int>, dmMsg: Option<int>, room: Option<int>, conn: Option<int>)

  const NO_CUTS := Cuts(None, None, None, None)

  predicate Reaches(t: int, cut: Option<int>) {
    cut.None? || t >= cut.value
  }

  function Raise(cut: Option<int>, c: int): Option<int> {
    if cut.None? then Some(c) else Some(Max(cut.value, c))
  }

  function MsgCut(cuts: Cuts, side: Side): Option<int> {
    if side.Dm? then cuts.dmMsg else cuts.roomMsg
  }

  function ParentCut(cuts: Cuts, side: Side): Option<int> {
    if side.Dm? then cuts.conn else cuts.room
  }

  predicate ParentStays(db: Db, side: Side, parent: int, cuts: Cuts) {
    parent in Parents(db, side) && Reaches(LastActivity(db, side, parent), ParentCut(cuts, side))
  }

  predicate MsgStays(db: Db, side: Side, m: MsgId, cuts: Cuts) {
    && m in Msgs(db, side)
    && Reaches(Msgs(db, side)[m].sentAt, MsgCut(cuts, side))
    && ParentStays(db, side, Msgs(db, side)[m].parent, cuts)
  }

  predicate PhotoStays(db: Db, p: PhotoRow, cuts: Cuts) {
    && (p.roomMessage.Some? ==> MsgStays(db, Room, p.roomMessage.value, cuts))
    && (p.privateMessage.Some? ==> MsgStays(db, Dm, p.privateMessage.value, cuts))
  }

  /** What is left of a store: parents active since their cutoff, messages sent since theirs
      whose parent is left, and photos whose message is left. */
  function Kept(db: Db, cuts: Cuts): Db {
    db.(conns := map c | c in db.conns && ParentStays(db, Dm, c, cuts) :: db.conns[c],
        rooms := map r | r in db.rooms && ParentStays(db, Room, r, cuts) :: db.rooms[r],
        dmMsgs := map m | m in db.dmMsgs && MsgStays(db, Dm, m, cuts) :: db.dmMsgs[m],
        roomMsgs := map m | m in db.roomMsgs && MsgStays(db, Room, m, cuts) :: db.roomMsgs[m],
        photos := map p | p in db.photos && PhotoStays(db, db.photos[p], cuts) :: db.photos[p])
  }

  datatype Purge = Idle(side: Side) | Expired(side: Side)

  function Apply(db: Db, p: Purge, cutoff: int): Db {
    match p
    case Idle(side) => PurgeIdle(db, side, cutoff)
    case Expired(side) => PurgeExpired(db, side, cutoff)
  }

  function RaiseFor(cuts: Cuts, p: Purge, cutoff: int): Cuts {
    match p
    case Idle(Dm) => cuts.(conn := Raise(cuts.conn, cutoff))
    case Idle(Room) => cuts.(room := Raise(cuts.room, cutoff))
    case Expired(Dm) => cuts.(dmMsg := Raise(cuts.dmMsg, cutoff))
    case Expired(Room) => cuts.(roomMsg := Raise(cuts.roomMsg, cutoff))
  }

  lemma NothingPurged(db: Db)
    requires Valid(db)
    ensures Kept(db, NO_CUTS) == db
  {
    var k := Kept(db, NO_CUTS);
    assert k.conns == db.conns && k.rooms == db.rooms;
    forall side, m | m in Msgs(db, side) ensures MsgStays(db, side, m, NO_CUTS) {
      assert MsgOk(db, side, m);
    }
    forall m | m in db.dmMsgs ensures MsgStays(db, Dm, m, NO_CUTS) { assert m in Msgs(db, Dm); }
    forall m | m in db.roomMsgs ensures MsgStays(db, Room, m, NO_CUTS) { assert m in Msgs(db, Room); }
    assert k.dmMsgs == db.dmMsgs && k.roomMsgs == db.roomMsgs;
    forall p | p in db.photos ensures PhotoStays(db, db.photos[p], NO_CUTS) {
      assert PhotoOk(db, db.photos[p]);
    }
    assert k.photos == db.photos;
  }

  /** In what is left, a parent, message or photo is there exactly if it stays. */
  lemma KeptTables(db: Db, cuts: Cuts, side: Side)
    ensures forall p :: p in Parents(Kept(db, cuts), side) <==> ParentStays(db, side, p, cuts)
    ensures forall p :: p in Parents(Kept(db, cuts), side) ==>
      p in Parents(db, side) && LastActivity(Kept(db, cuts), side, p) == LastActivity(db, side, p)
    ensures forall m :: m in Msgs(Kept(db, cuts), side) <==> MsgStays(db, side, m, cuts)
    ensures forall m :: m in Msgs(Kept(db, cuts), side) ==> Msgs(Kept(db, cuts), side)[m] == Msgs(db, side)[m]
  {
  }

  lemma IdleRows(db: Db, cuts: Cuts, side: Side, cutoff: int, s: Side)
    ensures var next := PurgeIdle(Kept(db, cuts), side, cutoff);
      var raised := RaiseFor(cuts, Idle(side), cutoff);
      && (forall x :: x in Parents(next, s) <==> ParentStays(db, s, x, raised))
      && (forall m :: m in Msgs(next, s) <==> MsgStays(db, s, m, raised))
  {
    KeptTables(db, cuts, s);
  }

  lemma ExpiredRows(db: Db, cuts: Cuts, side: Side, cutoff: int, s: Side)
    ensures var next := PurgeExpired(Kept(db, cuts), side, cutoff);
      var raised := RaiseFor(cuts, Expired(side), cutoff);
      && (forall x :: x in Parents(next, s) <==> ParentStays(db, s, x, raised))
      && (forall m :: m in Msgs(next, s) <==> MsgStays(db, s, m, raised))
  {
    KeptTables(db, cuts, s);
  }

  /** Which rows one more purge leaves, in terms of the original store. */
  lemma PurgedRows(db: Db, cuts: Cuts, p: Purge, cutoff: int, s: Side)
    ensures var next := Apply(Kept(db, cuts), p, cutoff);
      var raised := RaiseFor(cuts, p, cutoff);
      && (forall x :: x in Parents(next, s) <==> ParentStays(db, s, x, raised))
      && (forall m :: m in Msgs(next, s) <==> MsgStays(db, s, m, raised))
  {
    if p.Idle? {
      IdleRows(db, cuts, p.side, cutoff, s);
    } else {
      ExpiredRows(db, cuts, p.side, cutoff, s);
    }
  }

  ghost predicate Submap<K(!new), V>(base: map<K, V>, m: map<K, V>) {
    m.Keys <= base.Keys && forall k :: k in m ==> m[k] == base[k]
  }

  /** A purge changes no row it leaves. */
  ghost predicate Restricts(db: Db, next: Db) {
    && next.users == db.users && next.nextRoomMsg == db.nextRoomMsg && next.nextDmMsg == db.nextDmMsg
    && Submap(db.conns, next.conns) && Submap(db.rooms, next.rooms)
    && Submap(db.dmMsgs, next.dmMsgs) && Submap(db.roomMsgs, next.roomMsgs) && Submap(db.photos, next.photos)
  }

  lemma DeletingRestricts(db: Db, side: Side, ids: set<MsgId>)
    ensures Restricts(db, DeleteMsgs(db, side, ids))
  {
  }

  lemma ApplyRestricts(db: Db, p: Purge, cutoff: int)
    ensures Restricts(db, Apply(db, p, cutoff))
  {
    match p {
      case Idle(side) =>
        var gone := IdleParents(db, side, cutoff);
        var fewer := if side.Dm? then db.(conns := db.conns - gone) else db.(rooms := db.rooms - gone);
        DeletingRestricts(fewer, side, MsgsUnder(db, side, gone));
      case Expired(side) =>
        DeletingRestricts(db, side, ExpiredMsgs(db, side, cutoff));
    }
  }

  lemma KeptRestricts(db: Db, cuts: Cuts)
    ensures Restricts(db, Kept(db, cuts))
  {
  }

  /** Two restrictions with the same rows are the same store. */
  lemma SameRestriction(db: Db, one: Db, two: Db)
    requires Restricts(db, one) && Restricts(db, two)
    requires forall s :: Parents(one, s) == Parents(two, s) && Msgs(one, s).Keys == Msgs(two, s).Keys
    requires one.photos.Keys == two.photos.Keys
    ensures one == two
  {
    assert one.conns.Keys == Parents(one, Dm) == Parents(two, Dm) == two.conns.Keys;
    assert one.rooms.Keys == Parents(one, Room) == Parents(two, Room) == two.rooms.Keys;
    assert one.dmMsgs == Msgs(one, Dm) && two.dmMsgs == Msgs(two, Dm);
    assert one.roomMsgs == Msgs(one, Room) && two.roomMsgs == Msgs(two, Room);
    SameSubmap(db.conns, one.conns, two.conns);
    SameSubmap(db.rooms, one.rooms, two.rooms);
    SameSubmap(db.dmMsgs, one.dmMsgs, two.dmMsgs);
    SameSubmap(db.roomMsgs, one.roomMsgs, two.roomMsgs);
    SameSubmap(db.photos, one.photos, two.photos);
  }

  lemma SameSubmap<K(!new), V>(base: map<K, V>, one: map<K, V>, two: map<K, V>)
    requires one.Keys == two.Keys && Submap(base, one) && Submap(base, two)
    ensures one == two
  {
    forall k | k in one ensures k in two && one[k] == two[k] {
      assert k in one.Keys;
    }
    forall k | k in two ensures k in one {
      assert k in two.Keys;
    }
  }

  /** A photo follows its message: a purge keeps it exactly if it keeps the message. */
  lemma PhotoFollows(db: Db, p: Purge, cutoff: int, q: PhotoId)
    requires q in db.photos && PhotoOk(db, db.photos[q])
    ensures q in Apply(db, p, cutoff).photos
       <==> (var photo := db.photos[q];
             && (photo.roomMessage.Some? ==> photo.roomMessage.value in Msgs(Apply(db, p, cutoff), Room))
             && (photo.privateMessage.Some? ==> photo.privateMessage.value in Msgs(Apply(db, p, cutoff), Dm)))
  {
  }

  lemma PurgedPhotos(db: Db, cuts: Cuts, p: Purge, cutoff: int)
    requires PhotosOk(db)
    ensures Apply(Kept(db, cuts), p, cutoff).photos.Keys == Kept(db, RaiseFor(cuts, p, cutoff)).photos.Keys
  {
    var k := Kept(db, cuts);
    var next, raised := Apply(k, p, cutoff), RaiseFor(cuts, p, cutoff);
    PurgedRows(db, cuts, p, cutoff, Dm);
    PurgedRows(db, cuts, p, cutoff, Room);
    KeptTables(db, cuts, Dm);
    KeptTables(db, cuts, Room);
    ApplyRestricts(k, p, cutoff);
    forall q | q in db.photos
      ensures q in next.photos <==> PhotoStays(db, db.photos[q], raised)
    {
      assert PhotoOk(db, db.photos[q]);
      if PhotoStays(db, db.photos[q], raised) {
        RaisedStays(db, cuts, p, cutoff, q);
      }
      if q in k.photos {
        assert PhotoOk(k, k.photos[q]) by {
          assert k.dmMsgs == Msgs(k, Dm) && k.roomMsgs == Msgs(k, Room);
        }
        PhotoFollows(k, p, cutoff, q);
      }
    }
  }

  lemma RaisedStays(db: Db, cuts: Cuts, p: Purge, cutoff: int, q: PhotoId)
    requires q in db.photos && PhotoStays(db, db.photos[q], RaiseFor(cuts, p, cutoff))
    ensures PhotoStays(db, db.photos[q], cuts)
  {
  }

  /** One more purge only raises its own cutoff. */
  lemma PurgeRaises(db: Db, cuts: Cuts, p: Purge, cutoff: int)
    requires PhotosOk(db)
    ensures Apply(Kept(db, cuts), p, cutoff) == Kept(db, RaiseFor(cuts, p, cutoff))
  {
    var next, want := Apply(Kept(db, cuts), p, cutoff), Kept(db, RaiseFor(cuts, p, cutoff));
    KeptRestricts(db, cuts);
    ApplyRestricts(Kept(db, cuts), p, cutoff);
    RestrictTwice(db, Kept(db, cuts), next);
    KeptRestricts(db, RaiseFor(cuts, p, cutoff));
    forall s
      ensures Parents(next, s) == Parents(want, s) && Msgs(next, s).Keys == Msgs(want, s).Keys
    {
      PurgedKeys(db, cuts, p, cutoff, s);
    }
    PurgedPhotos(db, cuts, p, cutoff);
    SameRestriction(db, next, want);
  }

  lemma RestrictTwice(db: Db, one: Db, two: Db)
    requires Restricts(db, one) && Restricts(one, two)
    ensures Restricts(db, two)
  {
  }

  lemma PurgedKeys(db: Db, cuts: Cuts, p: Purge, cutoff: int, s: Side)
    ensures var next, want := Apply(Kept(db, cuts), p, cutoff), Kept(db, RaiseFor(cuts, p, cutoff));
      Parents(next, s) == Parents(want, s) && Msgs(next, s).Keys == Msgs(want, s).Keys
  {
    var next, want := Apply(Kept(db, cuts), p, cutoff), Kept(db, RaiseFor(cuts, p, cutoff));
    PurgedRows(db, cuts, p, cutoff, s);
    KeptTables(db, RaiseFor(cuts, p, cutoff), s);
    forall x ensures x in Parents(next, s) <==> x in Parents(want, s) {
    }
    forall m ensures m in Msgs(next, s).Keys <==> m in Msgs(want, s).Keys {
      assert m in Msgs(next, s) <==> m in Msgs(want, s);
    }
  }

  // --- One pass ------------------------------------------------------------------------

  function RaisedBy(cuts: Cuts, cfg: Config, now: int): Cuts {
    var conns := RaiseFor(cuts, Idle(Dm), InactivityCutoff(now, cfg.connDays));
    var rooms := if cfg.enableRooms then RaiseFor(conns, Idle(Room), InactivityCutoff(now, cfg.roomDays)) else conns;
    RaiseFor(RaiseFor(rooms, Expired(Room), ExpiryCutoff(now, cfg.retentionHours)),
             Expired(Dm), ExpiryCutoff(now, cfg.retentionHours))
  }

  /** A pass over what earlier purges left only raises the cutoffs. */
  lemma PassRaises(db: Db, cuts: Cuts, cfg: Config, now: int)
    requires PhotosOk(db)
    ensures RunCleanup(Kept(db, cuts), cfg, now) == Kept(db, RaisedBy(cuts, cfg, now))
  {
    var idle, expiry := InactivityCutoff(now, cfg.connDays), ExpiryCutoff(now, cfg.retentionHours);
    PurgeRaises(db, cuts, Idle(Dm), idle);
    var conns := RaiseFor(cuts, Idle(Dm), idle);
    if cfg.enableRooms {
      PurgeRaises(db, conns, Idle(Room), InactivityCutoff(now, cfg.roomDays));
    }
    var rooms := if cfg.enableRooms then RaiseFor(conns, Idle(Room), InactivityCutoff(now, cfg.roomDays)) else conns;
    PurgeRaises(db, rooms, Expired(Room), expiry);
    PurgeRaises(db, RaiseFor(rooms, Expired(Room), expiry), Expired(Dm), expiry);
  }

  /** One pass leaves exactly the parents active since their cutoff, the messages of those sent
      since theirs, and the photos of those. */
  lemma CleanupKeeps(db: Db, cfg: Config, now: int)
    requires Valid(db)
    ensures RunCleanup(db, cfg, now) == Kept(db, RaisedBy(NO_CUTS, cfg, now))
  {
    NothingPurged(db);
    PassRaises(db, NO_CUTS, cfg, now);
  }

  /** Confluence: with no writes in between, a pass at `now` and one at a later time leave the
      same store as the later one alone. */
  lemma CleanupIsConfluent(db: Db, cfg: Config, now: int, later: int)
    requires Valid(db) && now <= later
    ensures RunCleanup(RunCleanup(db, cfg, now), cfg, later) == RunCleanup(db, cfg, later)
  {
    CleanupKeeps(db, cfg, now);
    CleanupKeeps(db, cfg, later);
    PassRaises(db, RaisedBy(NO_CUTS, cfg, now), cfg, later);
    LaterWins(cfg, now, later);
  }

  lemma LaterWins(cfg: Config, now: int, later: int)
    requires now <= later
    ensures RaisedBy(RaisedBy(NO_CUTS, cfg, now), cfg, later) == RaisedBy(NO_CUTS, cfg, later)
  {
  }

  /** Any sequence of purges, each with its own fixed cutoff. */
  function PurgeAll(db: Db, order: seq<Purge>, cutoff: Purge -> int): Db {
    if order == [] then db else
    var n := |order| - 1;
    Apply(PurgeAll(db, order[..n], cutoff), order[n], cutoff(order[n]))
  }

  function CutsOf(done: set<Purge>, cutoff: Purge -> int): Cuts {
    Cuts(if Expired(Room) in done then Some(cutoff(Expired(Room))) else None,
         if Expired(Dm) in done then Some(cutoff(Expired(Dm))) else None,
         if Idle(Room) in done then Some(cutoff(Idle(Room))) else None,
         if Idle(Dm) in done then Some(cutoff(Idle(Dm))) else None)
  }

  function Purges(order: seq<Purge>): set<Purge> {
    set i | 0 <= i < |order| :: order[i]
  }

  lemma OneMorePurge(done: set<Purge>, p: Purge, cutoff: Purge -> int)
    ensures RaiseFor(CutsOf(done, cutoff), p, cutoff(p)) == CutsOf(done + {p}, cutoff)
  {
  }

  lemma PurgesSnoc(order: seq<Purge>)
    requires order != []
    ensures Purges(order) == Purges(order[..|order| - 1]) + {order[|order| - 1]}
  {
  }

  lemma {:induction false} PurgesKeep(db: Db, order: seq<Purge>, cutoff: Purge -> int)
    requires Kept(db, NO_CUTS) == db && PhotosOk(db)
    ensures PurgeAll(db, order, cutoff) == Kept(db, CutsOf(Purges(order), cutoff))
  {
    if order != [] {
      var n := |order| - 1;
      var done := Purges(order[..n]);
      PurgesKeep(db, order[..n], cutoff);
      PurgeRaises(db, CutsOf(done, cutoff), order[n], cutoff(order[n]));
      OneMorePurge(done, order[n], cutoff);
      PurgesSnoc(order);
    }
  }

  /** The order of the purges, and repeating them, does not change the store that is left. */
  lemma PurgeOrderIsIrrelevant(db: Db, one: seq<Purge>, two: seq<Purge>, cutoff: Purge -> int)
    requires Valid(db) && Purges(one) == Purges(two)
    ensures PurgeAll(db, one, cutoff) == PurgeAll(db, two, cutoff)
  {
    NothingPurged(db);
    PurgesKeep(db, one, cutoff);
    PurgesKeep(db, two, cutoff);
  }

  // --- Accounting -----------------------------------------------------------------------

  /** The row counts the four statements report, in the order they run. */
  function Counts(db: Db, cfg: Config, now: int): CleanupResult {
    var idle, expiry := InactivityCutoff(now, cfg.connDays), ExpiryCutoff(now, cfg.retentionHours);
    var noConns := PurgeIdle(db, Dm, idle);
    var roomIdle := InactivityCutoff(now, cfg.roomDays);
    var noRooms := if cfg.enableRooms then PurgeIdle(noConns, Room, roomIdle) else noConns;
    var noRoomMsgs := PurgeExpired(noRooms, Room, expiry);
    CleanupResult(
      |ExpiredMsgs(noRooms, Room, expiry)|,
      |ExpiredMsgs(noRoomMsgs, Dm, expiry)|,
      if cfg.enableRooms then |IdleParents(noConns, Room, roomIdle)| else 0,
      |IdleParents(db, Dm, idle)|)
  }

  lemma MinusKeys<K(!new), V>(m: map<K, V>, gone: set<K>)
    requires gone <= m.Keys
    ensures |m| == |m - gone| + |gone|
  {
    assert (m - gone).Keys == m.Keys - gone;
    assert |m| == |m.Keys| && |m - gone| == |(m - gone).Keys|;
  }

  lemma IdleCounts(db: Db, side: Side, cutoff: int)
    ensures var next := PurgeIdle(db, side, cutoff);
      && |Parents(db, side)| == |Parents(next, side)| + |IdleParents(db, side, cutoff)|
      && |Msgs(db, side)| == |Msgs(next, side)| + |MsgsUnder(db, side, IdleParents(db, side, cutoff))|
  {
    var gone := IdleParents(db, side, cutoff);
    assert Parents(PurgeIdle(db, side, cutoff), side) == Parents(db, side) - gone;
    MinusKeys(Msgs(db, side), MsgsUnder(db, side, gone));
  }

  lemma ExpiredCounts(db: Db, side: Side, cutoff: int)
    ensures |Msgs(db, side)| == |Msgs(PurgeExpired(db, side, cutoff), side)| + |ExpiredMsgs(db, side, cutoff)|
  {
    MinusKeys(Msgs(db, side), ExpiredMsgs(db, side, cutoff));
  }

  /** Messages that go because their room or connection goes. */
  function CascadedMsgs(db: Db, cfg: Config, now: int, side: Side): set<MsgId> {
    match side
    case Dm => MsgsUnder(db, Dm, IdleParents(db, Dm, InactivityCutoff(now, cfg.connDays)))
    case Room =>
      if cfg.enableRooms then MsgsUnder(db, Room, IdleParents(db, Room, InactivityCutoff(now, cfg.roomDays))) else {}
  }

  /** A purge of one side leaves the other side's rows alone. */
  lemma PurgeLeavesOther(db: Db, p: Purge, cutoff: int, s: Side)
    requires s != p.side
    ensures Msgs(Apply(db, p, cutoff), s) == Msgs(db, s)
    ensures Parents(Apply(db, p, cutoff), s) == Parents(db, s)
    ensures forall c :: IdleParents(Apply(db, p, cutoff), s, c) == IdleParents(db, s, c)
    ensures forall gone :: MsgsUnder(Apply(db, p, cutoff), s, gone) == MsgsUnder(db, s, gone)
  {
    assert forall x :: x in Parents(db, s) ==> LastActivity(Apply(db, p, cutoff), s, x) == LastActivity(db, s, x);
  }

  lemma ConnsAccount(db: Db, cfg: Config, now: int)
    ensures var after, r := RunCleanup(db, cfg, now), Counts(db, cfg, now);
      && |Parents(db, Dm)| == |Parents(after, Dm)| + r.connections
      && |Msgs(db, Dm)| == |Msgs(after, Dm)| + r.privateMessages + |CascadedMsgs(db, cfg, now, Dm)|
  {
    var idle, expiry := InactivityCutoff(now, cfg.connDays), ExpiryCutoff(now, cfg.retentionHours);
    var roomIdle := InactivityCutoff(now, cfg.roomDays);
    var noConns := PurgeIdle(db, Dm, idle);
    var noRooms := if cfg.enableRooms then PurgeIdle(noConns, Room, roomIdle) else noConns;
    IdleCounts(db, Dm, idle);
    if cfg.enableRooms {
      PurgeLeavesOther(noConns, Idle(Room), roomIdle, Dm);
    }
    PurgeLeavesOther(noRooms, Expired(Room), expiry, Dm);
    ExpiredCounts(PurgeExpired(noRooms, Room, expiry), Dm, expiry);
    assert Parents(RunCleanup(db, cfg, now), Dm) == Parents(noConns, Dm);
  }

  lemma RoomsAccount(db: Db, cfg: Config, now: int)
    ensures var after, r := RunCleanup(db, cfg, now), Counts(db, cfg, now);
      && |Parents(db, Room)| == |Parents(after, Room)| + r.rooms
      && |Msgs(db, Room)| == |Msgs(after, Room)| + r.roomMessages + |CascadedMsgs(db, cfg, now, Room)|
  {
    var idle, expiry := InactivityCutoff(now, cfg.connDays), ExpiryCutoff(now, cfg.retentionHours);
    var roomIdle := InactivityCutoff(now, cfg.roomDays);
    var noConns := PurgeIdle(db, Dm, idle);
    var noRooms := if cfg.enableRooms then PurgeIdle(noConns, Room, roomIdle) else noConns;
    PurgeLeavesOther(db, Idle(Dm), idle, Room);
    if cfg.enableRooms {
      IdleCounts(noConns, Room, roomIdle);
    }
    ExpiredCounts(noRooms, Room, expiry);
    PurgeLeavesOther(PurgeExpired(noRooms, Room, expiry), Expired(Dm), expiry, Room);
    assert Parents(PurgeExpired(noRooms, Room, expiry), Room) == Parents(noRooms, Room);
  }

  /** Nothing is lost from the books: in each table the rows before are the rows after, plus the
      rows counted, plus the messages removed by cascade. */
  lemma {:induction false} CleanupAccounts(db: Db, cfg: Config, now: int)
    ensures var after, r := RunCleanup(db, cfg, now), Counts(db, cfg, now);
      && |db.conns| == |after.conns| + r.connections
      && |db.rooms| == |after.rooms| + r.rooms
      && |db.dmMsgs| == |after.dmMsgs| + r.privateMessages + |CascadedMsgs(db, cfg, now, Dm)|
      && |db.roomMsgs| == |after.roomMsgs| + r.roomMessages + |CascadedMsgs(db, cfg, now, Room)|
  {
    ConnsAccount(db, cfg, now);
    RoomsAccount(db, cfg, now);
    forall d: Db ensures |d.conns| == |Parents(d, Dm)| && |d.rooms| == |Parents(d, Room)| {
      assert |d.conns| == |d.conns.Keys| && |d.rooms| == |d.rooms.Keys|;
    }
  }

  /** Photo messages of one side that are no longer there. */
  function PhotoMsgsGone(db: Db, after: Db, side: Side): set<MsgId> {
    PhotoMsgs(db, side) - Msgs(after, side).Keys
  }

  /** Messages only go; those that stay are as they were. */
  lemma PhotoMsgsLeft(db: Db, after: Db, side: Side)
    requires forall m :: m in Msgs(after, side) ==> m in Msgs(db, side) && Msgs(after, side)[m] == Msgs(db, side)[m]
    ensures |PhotoMsgs(db, side)| == |PhotoMsgs(after, side)| + |PhotoMsgsGone(db, after, side)|
  {
    forall m ensures m in PhotoMsgs(after, side) <==> m in PhotoMsgs(db, side) && m in Msgs(after, side).Keys {
    }
    assert PhotoMsgs(after, side) == PhotoMsgs(db, side) * Msgs(after, side).Keys;
    SplitSize(PhotoMsgs(db, side), Msgs(after, side).Keys, PhotoMsgs(after, side));
  }

  lemma SplitSize(all: set<MsgId>, kept: set<MsgId>, both: set<MsgId>)
    requires both == all * kept
    ensures |all| == |both| + |all - kept|
  {
    assert all == both + (all - kept);
  }

  lemma MsgsOnlyGo(db: Db, cfg: Config, now: int, side: Side)
    requires Valid(db)
    ensures var after := RunCleanup(db, cfg, now);
      forall m :: m in Msgs(after, side) ==> m in Msgs(db, side) && Msgs(after, side)[m] == Msgs(db, side)[m]
  {
    CleanupKeeps(db, cfg, now);
    KeptTables(db, RaisedBy(NO_CUTS, cfg, now), side);
  }

  /** The photo table's balance: one photo goes with each photo message that goes. */
  lemma PhotosAccount(db: Db, cfg: Config, now: int)
    requires Valid(db)
    ensures var after := RunCleanup(db, cfg, now);
      |db.photos| == |after.photos| + |PhotoMsgsGone(db, after, Dm)| + |PhotoMsgsGone(db, after, Room)|
  {
    PassKeepsOrder(db, cfg, now);
    PhotosAreMessages(db);
    PhotosAreMessages(RunCleanup(db, cfg, now));
    MsgsOnlyGo(db, cfg, now, Dm);
    MsgsOnlyGo(db, cfg, now, Room);
    PhotoMsgsLeft(db, RunCleanup(db, cfg, now), Dm);
    PhotoMsgsLeft(db, RunCleanup(db, cfg, now), Room);
  }

  /** The message a photo belongs to is there. */
  predicate OwnerThere(db: Db, photo: PhotoRow) {
    || (photo.roomMessage.Some? && photo.roomMessage.value in db.roomMsgs)
    || (photo.privateMessage.Some? && photo.privateMessage.value in db.dmMsgs)
  }

  /** Cleanup keeps the store in order, and a photo goes exactly when its message goes. */
  lemma CleanupKeepsOrder(db: Db, cfg: Config, now: int, clock: int)
    requires Valid(db) && Past(db, clock)
    ensures Valid(RunCleanup(db, cfg, now)) && Past(RunCleanup(db, cfg, now), clock)
    ensures forall p :: p in db.photos ==>
      (p in RunCleanup(db, cfg, now).photos <==> OwnerThere(RunCleanup(db, cfg, now), db.photos[p]))
  {
    PassKeepsOrder(db, cfg, now);
    PassIsPast(db, cfg, now, clock);
    PhotosLeft(db, cfg, now);
  }

  lemma PassKeepsOrder(db: Db, cfg: Config, now: int)
    requires Valid(db)
    ensures Valid(RunCleanup(db, cfg, now))
  {
    var idle, expiry := InactivityCutoff(now, cfg.connDays), ExpiryCutoff(now, cfg.retentionHours);
    DeleteParentsKeeps(db, Dm, IdleParents(db, Dm, idle));
    var noConns := PurgeIdle(db, Dm, idle);
    if cfg.enableRooms {
      DeleteParentsKeeps(noConns, Room, IdleParents(noConns, Room, InactivityCutoff(now, cfg.roomDays)));
    }
    var noRooms := if cfg.enableRooms then PurgeIdle(noConns, Room, InactivityCutoff(now, cfg.roomDays)) else noConns;
    DeleteMsgsKeeps(noRooms, Room, ExpiredMsgs(noRooms, Room, expiry));
    var noRoomMsgs := PurgeExpired(noRooms, Room, expiry);
    DeleteMsgsKeeps(noRoomMsgs, Dm, ExpiredMsgs(noRoomMsgs, Dm, expiry));
  }

  /** A pass moves no activity clock. */
  lemma PassIsPast(db: Db, cfg: Config, now: int, clock: int)
    requires Past(db, clock)
    ensures Past(RunCleanup(db, cfg, now), clock)
  {
    var idle, expiry := InactivityCutoff(now, cfg.connDays), ExpiryCutoff(now, cfg.retentionHours);
    DeletingIsPast(db, Dm, IdleParents(db, Dm, idle), {}, clock);
    var noConns := PurgeIdle(db, Dm, idle);
    DeletingIsPast(noConns, Room, IdleParents(noConns, Room, InactivityCutoff(now, cfg.roomDays)), {}, clock);
    var noRooms := if cfg.enableRooms then PurgeIdle(noConns, Room, InactivityCutoff(now, cfg.roomDays)) else noConns;
    DeletingIsPast(noRooms, Room, {}, ExpiredMsgs(noRooms, Room, expiry), clock);
    var noRoomMsgs := PurgeExpired(noRooms, Room, expiry);
    DeletingIsPast(noRoomMsgs, Dm, {}, ExpiredMsgs(noRoomMsgs, Dm, expiry), clock);
  }

  lemma PhotosLeft(db: Db, cfg: Config, now: int)
    requires Valid(db)
    ensures forall p :: p in db.photos ==>
      (p in RunCleanup(db, cfg, now).photos <==> OwnerThere(RunCleanup(db, cfg, now), db.photos[p]))
  {
    CleanupKeeps(db, cfg, now);
    forall p | p in db.photos
      ensures PhotoStays(db, db.photos[p], RaisedBy(NO_CUTS, cfg, now))
         <==> OwnerThere(Kept(db, RaisedBy(NO_CUTS, cfg, now)), db.photos[p])
    {
      assert PhotoOk(db, db.photos[p]);
    }
  }
}
