/** The message store: users, rooms, connections, the two message tables and the photo table,
    with the constraints and cascades the schema declares. Every operation is one serial
    transaction at its own `now`. */
module Store {
  import opened Common
  import opened Pairing

  type RoomId = int
  type MsgId = int
  type PhotoId = int
  type Blob = int

  /** Rooms and private connections hold messages the same way. */
  datatype Side = Dm | Room

  datatype Kind = Text | Photo

  datatype ConnRow = ConnRow(pair: Pair, createdAt: int, lastInteraction: int)
  datatype RoomRow = RoomRow(createdAt: int, lastMessageAt: Option<int>)

  /** A message of either table; `parent` is its room or connection. */
  datatype Msg = Msg(parent: int, sender: UserId, kind: Kind, content: Option<string>, sentAt: int, readAt: Option<int>)

  datatype PhotoRow = PhotoRow(
    roomMessage: Option<MsgId>, privateMessage: Option<MsgId>, data: Blob, contentType: string)

  datatype Db = Db(
    users: set<UserId>,
    rooms: map<RoomId, RoomRow>,
    conns: map<ConnId, ConnRow>,
    roomMsgs: map<MsgId, Msg>,
    dmMsgs: map<MsgId, Msg>,
    photos: map<PhotoId, PhotoRow>,
    nextRoomMsg: MsgId,
    nextDmMsg: MsgId)

  const EMPTY_DB: Db := Db({}, map[], map[], map[], map[], map[], 0, 0)

  function Msgs(db: Db, side: Side): map<MsgId, Msg> {
    if side.Dm? then db.dmMsgs else db.roomMsgs
  }

  function WithMsgs(db: Db, side: Side, msgs: map<MsgId, Msg>): Db {
    if side.Dm? then db.(dmMsgs := msgs) else db.(roomMsgs := msgs)
  }

  function Parents(db: Db, side: Side): set<int> {
    if side.Dm? then db.conns.Keys else db.rooms.Keys
  }

  /** The clock the inactivity sweep reads: a room never written in counts from its creation. */
  function LastActivity(db: Db, side: Side, parent: int): int
    requires parent in Parents(db, side)
  {
    if side.Dm? then db.conns[parent].lastInteraction
    else if db.rooms[parent].lastMessageAt.Some? then db.rooms[parent].lastMessageAt.value
    else db.rooms[parent].createdAt
  }

  /** The message a photo belongs to, if it is of this side. */
  function OwnerOn(p: PhotoRow, side: Side): Option<MsgId> {
    if side.Dm? then p.privateMessage else p.roomMessage
  }

  function PhotosOf(db: Db, side: Side, m: MsgId): set<PhotoId> {
    set p | p in db.photos && OwnerOn(db.photos[p], side) == Some(m)
  }

  // --- Writing -----------------------------------------------------------------

  /** Why a statement fails: a foreign key, check or unique constraint. */
  datatype Result<+T> = Ok(value: T) | IntegrityError

  function Touch(db: Db, side: Side, parent: int, now: int): Db {
    if side.Dm? then
      if parent in db.conns then db.(conns := db.conns[parent := db.conns[parent].(lastInteraction := now)]) else db
    else
      if parent in db.rooms then db.(rooms := db.rooms[parent := db.rooms[parent].(lastMessageAt := Some(now))]) else db
  }

  function NextId(db: Db, side: Side): MsgId {
    if side.Dm? then db.nextDmMsg else db.nextRoomMsg
  }

  /** Insert a message row under the next sequence value. */
  function InsertMsg(db: Db, side: Side, m: Msg): Result<Db> {
    if m.parent !in Parents(db, side) || m.sender !in db.users then IntegrityError
    else if side.Dm? then Ok(db.(dmMsgs := db.dmMsgs[db.nextDmMsg := m], nextDmMsg := db.nextDmMsg + 1))
    else Ok(db.(roomMsgs := db.roomMsgs[db.nextRoomMsg := m], nextRoomMsg := db.nextRoomMsg + 1))
  }

  /** A photo's owner must be there and own no photo yet. */
  predicate OwnerRefused(db: Db, side: Side, m: MsgId) {
    m !in Msgs(db, side) || PhotosOf(db, side, m) != {}
  }

  /** Insert a photo row: exactly one owner, which exists and has no photo yet. */
  function InsertPhoto(db: Db, token: PhotoId, p: PhotoRow): Result<Db> {
    if token in db.photos || p.roomMessage.Some? == p.privateMessage.Some? then IntegrityError
    else if p.roomMessage.Some? && OwnerRefused(db, Room, p.roomMessage.value) then IntegrityError
    else if p.privateMessage.Some? && OwnerRefused(db, Dm, p.privateMessage.value) then IntegrityError
    else Ok(db.(photos := db.photos[token := p]))
  }

  /** Send a text: insert it, then bump the parent's activity clock. */
  function SendText(db: Db, side: Side, parent: int, sender: UserId, content: string, now: int): Result<Db> {
    var inserted := InsertMsg(db, side, Msg(parent, sender, Text, Some(content), now, None));
    if inserted.IntegrityError? then inserted else Ok(Touch(inserted.value, side, parent, now))
  }

  function PhotoFor(side: Side, m: MsgId, data: Blob, contentType: string): PhotoRow {
    if side.Dm? then PhotoRow(None, Some(m), data, contentType) else PhotoRow(Some(m), None, data, contentType)
  }

  /** Send a photo: the message, then its photo row, then the activity clock. A failing
      statement rolls the whole transaction back. */
  function SendPhoto(db: Db, side: Side, parent: int, sender: UserId, token: PhotoId, data: Blob, contentType: string,
                     now: int): Result<Db>
  {
    var inserted := InsertMsg(db, side, Msg(parent, sender, Photo, None, now, None));
    if inserted.IntegrityError? then inserted else
    var pictured := InsertPhoto(inserted.value, token, PhotoFor(side, NextId(db, side), data, contentType));
    if pictured.IntegrityError? then pictured else Ok(Touch(pictured.value, side, parent, now))
  }

  predicate MarksRead(m: Msg, conn: ConnId, viewer: UserId) {
    m.parent == conn && m.sender != viewer && m.readAt.None?
  }

  /** Mark everything the viewer received in a connection as read. */
  function MarkRead(db: Db, conn: ConnId, viewer: UserId, now: int): Db {
    db.(dmMsgs := map m | m in db.dmMsgs ::
      if MarksRead(db.dmMsgs[m], conn, viewer) then db.dmMsgs[m].(readAt := Some(now)) else db.dmMsgs[m])
  }

  predicate PairTaken(db: Db, p: Pair) {
    exists c :: c in db.conns && db.conns[c].pair == p
  }

  /** Open a chat: insert the canonical pair unless it exists. */
  function OpenPair(db: Db, x: UserId, y: UserId, fresh_: ConnId, now: int): Result<Db> {
    var p := CanonicalPair(x, y);
    if p.a == p.b || x !in db.users || y !in db.users then IntegrityError
    else if PairTaken(db, p) then Ok(db)
    else if fresh_ in db.conns then IntegrityError
    else Ok(db.(conns := db.conns[fresh_ := ConnRow(p, now, now)]))
  }

  // --- Deleting ------------------------------------------------------------------

  /** Delete messages of one side; their photos go with them. */
  function DeleteMsgs(db: Db, side: Side, ids: set<MsgId>): Db {
    WithMsgs(db, side, Msgs(db, side) - ids)
      .(photos := map p | p in db.photos
          && !(OwnerOn(db.photos[p], side).Some? && OwnerOn(db.photos[p], side).value in ids) :: db.photos[p])
  }

  function MsgsUnder(db: Db, side: Side, parents: set<int>): set<MsgId> {
    set m | m in Msgs(db, side) && Msgs(db, side)[m].parent in parents
  }

  /** Delete rooms or connections; their messages, and so their photos, go with them. */
  function DeleteParents(db: Db, side: Side, gone: set<int>): Db {
    DeleteMsgs(if side.Dm? then db.(conns := db.conns - gone) else db.(rooms := db.rooms - gone),
               side, MsgsUnder(db, side, gone))
  }

  function IdleParents(db: Db, side: Side, cutoff: int): set<int> {
    set p | p in Parents(db, side) && LastActivity(db, side, p) < cutoff
  }

  function ExpiredMsgs(db: Db, side: Side, cutoff: int): set<MsgId> {
    set m | m in Msgs(db, side) && Msgs(db, side)[m].sentAt < cutoff
  }

  // --- What the store always satisfies -----------------------------------------------

  /** One side's messages: their parent and sender exist, ids come from the sequence, a photo
      message has exactly its one photo, a text has none, and no message is newer than its
      parent's activity clock. */
  ghost predicate SideOk(db: Db, side: Side) {
    forall m :: m in Msgs(db, side) ==> MsgOk(db, side, m)
  }

  ghost predicate MsgOk(db: Db, side: Side, m: MsgId)
    requires m in Msgs(db, side)
  {
    var msg := Msgs(db, side)[m];
    && msg.parent in Parents(db, side) && msg.sender in db.users && m < NextId(db, side)
    && msg.sentAt <= LastActivity(db, side, msg.parent)
    && (side.Room? ==> db.rooms[msg.parent].lastMessageAt.Some?)
    && (side.Dm? ==> IsParticipant(db.conns[msg.parent].pair, msg.sender))
    && (msg.content.Some? <==> msg.kind.Text?)
    && (msg.kind.Photo? ==> exists p :: p in db.photos && OwnerOn(db.photos[p], side) == Some(m))
    && (msg.kind.Text? ==> forall p :: p in db.photos ==> OwnerOn(db.photos[p], side) != Some(m))
  }

  /** Every photo has exactly one owner, which exists, and no two share one. */
  ghost predicate PhotosOk(db: Db) {
    && (forall p :: p in db.photos ==> PhotoOk(db, db.photos[p]))
    && (forall p, q :: p in db.photos && q in db.photos && p != q ==>
          || db.photos[p].roomMessage != db.photos[q].roomMessage
          || db.photos[p].privateMessage != db.photos[q].privateMessage)
  }

  predicate PhotoOk(db: Db, p: PhotoRow) {
    && p.roomMessage.Some? != p.privateMessage.Some?
    && (p.roomMessage.Some? ==> p.roomMessage.value in db.roomMsgs)
    && (p.privateMessage.Some? ==> p.privateMessage.value in db.dmMsgs)
  }

  ghost predicate ConnsOk(db: Db) {
    && (forall c :: c in db.conns ==>
          db.conns[c].pair.a < db.conns[c].pair.b && db.conns[c].pair.a in db.users && db.conns[c].pair.b in db.users)
    && (forall c, d :: c in db.conns && d in db.conns && db.conns[c].pair == db.conns[d].pair ==> c == d)
  }

  ghost predicate Valid(db: Db) {
    SideOk(db, Dm) && SideOk(db, Room) && PhotosOk(db) && ConnsOk(db)
  }

  /** No activity clock runs ahead of `clock`. */
  ghost predicate Past(db: Db, clock: int) {
    forall side, p :: p in Parents(db, side) ==> LastActivity(db, side, p) <= clock
  }
}
