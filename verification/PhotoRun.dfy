/** Which photos are served after a whole run, to whom, and as what. */
module PhotoRun {
  import opened Common
  import Pairing
  import opened Store
  import opened Reads
  import opened Invisible
  import opened StoreRun
  import opened ListRun

  /** An upload that was carried out, from the store it met. */
  predicate Uploads(before: Db, e: Event) {
    e.op.SendPicture? && Perform(before, e).Some?
  }

  /** The upload's photo is stored as sent, on its message, and its connection has the pair it had. */
  predicate Held(db: Db, before: Db, e: Event)
    requires e.op.SendPicture?
  {
    var side, id := e.op.side, NextId(before, e.op.side);
    && e.op.token in db.photos && db.photos[e.op.token] == PhotoFor(side, id, e.op.data, e.op.contentType)
    && id in Msgs(db, side) && Msgs(db, side)[id] == SentMsg(e).(readAt := Msgs(db, side)[id].readAt)
    && (side.Dm? ==> SamePair(before, db, e.op.parent))
  }

  predicate SamePair(before: Db, db: Db, conn: Pairing.ConnId) {
    conn in before.conns && conn in db.conns && db.conns[conn].pair == before.conns[conn].pair
  }

  lemma UploadIsHeld(before: Db, e: Event)
    requires Uploads(before, e)
    ensures Held(Next(before, e), before, e)
  {
    SentRows(before, e);
  }

  // --- One more transaction ------------------------------------------------------------

  lemma SendFixesPair(db: Db, e: Event, conn: Pairing.ConnId)
    requires conn in db.conns && (e.op.SendWords? || e.op.SendPicture?)
    ensures SamePair(db, Next(db, e), conn)
  {
  }

  lemma PairFixed(db: Db, e: Event, conn: Pairing.ConnId)
    requires conn in db.conns && conn in Next(db, e).conns
    ensures SamePair(db, Next(db, e), conn)
  {
    match e.op {
      case Clean(cfg) => CleanupOnlyRemoves(db, cfg, e.now);
      case SendWords(_, _, _, _) => SendFixesPair(db, e, conn);
      case SendPicture(_, _, _, _, _, _) => SendFixesPair(db, e, conn);
      case _ =>
    }
  }

  /** A stored photo keeps its row, and so does its message up to the read mark. */
  lemma RowsFixed(db: Db, e: Event, token: PhotoId, side: Side, m: MsgId)
    requires Valid(db) && token in db.photos && m in Msgs(db, side)
    ensures token in Next(db, e).photos ==> Next(db, e).photos[token] == db.photos[token]
    ensures m in Msgs(Next(db, e), side) ==>
      Msgs(Next(db, e), side)[m] == Msgs(db, side)[m].(readAt := Msgs(Next(db, e), side)[m].readAt)
  {
    if e.op.Clean? {
      PassRestricts(db, e.op.cfg, e.now);
    } else if e.op.SendWords? || e.op.SendPicture? {
      SendFixesPhoto(db, e, token);
      SendFixesMsg(db, e, side, m);
    }
  }

  lemma SendFixesPhoto(db: Db, e: Event, token: PhotoId)
    requires token in db.photos && (e.op.SendWords? || e.op.SendPicture?)
    ensures token in Next(db, e).photos && Next(db, e).photos[token] == db.photos[token]
  {
  }

  lemma SendFixesMsg(db: Db, e: Event, side: Side, m: MsgId)
    requires Valid(db) && m in Msgs(db, side) && (e.op.SendWords? || e.op.SendPicture?)
    ensures m in Msgs(Next(db, e), side) && Msgs(Next(db, e), side)[m] == Msgs(db, side)[m]
  {
    assert MsgOk(db, side, m);
    if Perform(db, e).Some? {
      SentRows(db, e);
      OthersSame(db, e, side);
    }
  }

  /** A photo that is still there is still held: its message and its connection cannot go without it. */
  lemma HeldStays(db: Db, before: Db, e: Event, upload: Event, clock: int)
    requires Valid(db) && Past(db, clock) && clock <= e.now
    requires upload.op.SendPicture? && Held(db, before, upload) && upload.op.token in Next(db, e).photos
    ensures Held(Next(db, e), before, upload)
  {
    var side, id, db' := upload.op.side, NextId(before, upload.op.side), Next(db, e);
    NextKeeps(db, e, clock);
    RowsFixed(db, e, upload.op.token, side, id);
    assert PhotoOk(db', db'.photos[upload.op.token]);
    assert id in Msgs(db', side);
    assert MsgOk(db', side, id);
    if side.Dm? {
      PairFixed(db, e, upload.op.parent);
    }
  }

  /** A photo the reader may still see stays, unless a cleanup goes further than the reader. */
  lemma PhotoStaysOn(db: Db, before: Db, e: Event, upload: Event, since: int)
    requires Valid(db) && upload.op.SendPicture? && Held(db, before, upload) && upload.now >= since
    requires e.op.Clean? ==> Harmless(e.op.cfg, e.now, upload.op.side, since)
    ensures upload.op.token in Next(db, e).photos
  {
    var side, id := upload.op.side, NextId(before, upload.op.side);
    if e.op.Clean? {
      SideStays(db, e.op.cfg, e.now, side, since);
      assert MsgKept(db, Next(db, e), side, id);
      assert upload.op.token in PhotosOf(db, side, id);
    } else if e.op.SendWords? || e.op.SendPicture? {
      SendFixesPhoto(db, e, upload.op.token);
    }
  }

  // --- Whole runs ----------------------------------------------------------------------

  /** Event `i` was a carried-out upload of this photo, not yet expired for the reader. */
  predicate UploadedAt(events: seq<Event>, i: nat, token: PhotoId, since: int) {
    i < |events| && Uploads(After(events[..i]), events[i]) && events[i].op.token == token && events[i].now >= since
  }

  lemma {:induction false} UploadStaysHeld(events: seq<Event>, i: nat, token: PhotoId, since: int)
    requires InOrder(events) && UploadedAt(events, i, token, since) && CleanedFor(events, events[i].op.side, since)
    ensures Held(After(events), After(events[..i]), events[i])
  {
    var n := |events| - 1;
    var front := events[..n];
    if i == n {
      UploadIsHeld(After(front), events[n]);
    } else {
      assert front[..i] == events[..i];
      UploadStaysHeld(front, i, token, since);
      RunKeeps(front, events[n].now);
      PhotoStaysOn(After(front), After(events[..i]), events[n], events[i], since);
      HeldStays(After(front), After(events[..i]), events[n], events[i], events[n].now);
    }
  }

  /** Event `i` uploaded the photo that is stored now. */
  predicate TracedTo(events: seq<Event>, token: PhotoId, i: nat) {
    && i < |events| && Uploads(After(events[..i]), events[i]) && events[i].op.token == token
    && Held(After(events), After(events[..i]), events[i])
  }

  lemma WordsAddNoPhoto(db: Db, e: Event)
    requires e.op.SendWords?
    ensures Next(db, e).photos == db.photos
  {
  }

  lemma NoNewPhoto(db: Db, e: Event)
    requires !e.op.Clean? && !e.op.SendPicture?
    ensures Next(db, e).photos == db.photos
  {
    match e.op {
      case SendWords(_, _, _, _) => WordsAddNoPhoto(db, e);
      case _ =>
    }
  }

  lemma UploadAdds(db: Db, e: Event)
    requires Uploads(db, e)
    ensures Next(db, e).photos.Keys == db.photos.Keys + {e.op.token}
  {
  }

  lemma NewPhoto(db: Db, e: Event, token: PhotoId)
    requires Valid(db) && token in Next(db, e).photos && token !in db.photos
    ensures Uploads(db, e) && e.op.token == token
  {
    if e.op.Clean? {
      PassRestricts(db, e.op.cfg, e.now);
    } else if e.op.SendPicture? {
      UploadAdds(db, e);
    } else {
      NoNewPhoto(db, e);
    }
  }

  lemma {:induction false} StoredWasUploaded(events: seq<Event>, token: PhotoId) returns (i: nat)
    requires InOrder(events) && token in After(events).photos
    ensures TracedTo(events, token, i)
  {
    assert events != [];
    var n := |events| - 1;
    var front := events[..n];
    RunKeeps(front, events[n].now);
    if token in After(front).photos {
      i := StoredWasUploaded(front, token);
      assert front[..i] == events[..i];
      HeldStays(After(front), After(events[..i]), events[n], events[i], events[n].now);
    } else {
      i := n;
      NewPhoto(After(front), events[n], token);
      UploadIsHeld(After(front), events[n]);
    }
  }

  /** What a held photo is served as: to those who could use its room or connection when it was sent. */
  lemma ServedAsHeld(db: Db, before: Db, upload: Event, viewer: Pairing.UserId, since: int)
    requires Valid(db) && Uploads(before, upload) && Held(db, before, upload)
    ensures LoadPhoto(db, upload.op.token, viewer, since) ==
      if upload.now >= since && MayUse(before, upload.op.side, upload.op.parent, viewer)
      then Some((upload.op.data, upload.op.contentType)) else None
  {
    assert MsgOk(db, upload.op.side, NextId(before, upload.op.side));
  }

  /** Over any run of sends, reads and cleanups, an unexpired upload is served as it was sent: in a room
      to anyone, in a connection to the two who could write in it then, and to nobody else; whatever
      happened since, on condition that no cleanup on that side goes further than the reader. */
  lemma UploadIsServed(events: seq<Event>, i: nat, token: PhotoId, viewer: Pairing.UserId, since: int)
    requires InOrder(events) && UploadedAt(events, i, token, since) && CleanedFor(events, events[i].op.side, since)
    ensures LoadPhoto(After(events), token, viewer, since) ==
      if MayUse(After(events[..i]), events[i].op.side, events[i].op.parent, viewer)
      then Some((events[i].op.data, events[i].op.contentType)) else None
  {
    UploadStaysHeld(events, i, token, since);
    RunKeeps(events, events[|events| - 1].now);
    ServedAsHeld(After(events), After(events[..i]), events[i], viewer, since);
  }

  /** Event `i` uploaded these bytes under this token, and the viewer may see them. */
  predicate MaySee(events: seq<Event>, i: nat, token: PhotoId, viewer: Pairing.UserId, since: int,
                   photo: (Blob, string))
  {
    && UploadedAt(events, i, token, since) && (events[i].op.data, events[i].op.contentType) == photo
    && MayUse(After(events[..i]), events[i].op.side, events[i].op.parent, viewer)
  }

  /** Nothing is served that was not sent, whatever the cleanups. */
  lemma ServedWasUploaded(events: seq<Event>, token: PhotoId, viewer: Pairing.UserId, since: int) returns (i: nat)
    requires InOrder(events) && LoadPhoto(After(events), token, viewer, since).Some?
    ensures MaySee(events, i, token, viewer, since, LoadPhoto(After(events), token, viewer, since).value)
  {
    i := StoredWasUploaded(events, token);
    RunKeeps(events, events[|events| - 1].now);
    ServedAsHeld(After(events), After(events[..i]), events[i], viewer, since);
  }

  /** No cleanup goes further than the reader on a side this photo was sent on. */
  predicate CleanedForPhoto(events: seq<Event>, token: PhotoId, since: int) {
    forall i: nat :: i < |events| && UploadedAt(events, i, token, since) ==>
      CleanedFor(events, events[i].op.side, since)
  }

  /** A photo is served, as these bytes of this type, if and only if some unexpired upload that the
      viewer may see sent exactly those under this token. */
  lemma ServedExactly(events: seq<Event>, token: PhotoId, viewer: Pairing.UserId, since: int, photo: (Blob, string))
    requires InOrder(events) && CleanedForPhoto(events, token, since)
    ensures LoadPhoto(After(events), token, viewer, since) == Some(photo)
       <==> exists i: nat :: MaySee(events, i, token, viewer, since, photo)
  {
    if LoadPhoto(After(events), token, viewer, since) == Some(photo) {
      var i := ServedWasUploaded(events, token, viewer, since);
      assert MaySee(events, i, token, viewer, since, photo);
    }
    if i: nat :| MaySee(events, i, token, viewer, since, photo) {
      UploadIsServed(events, i, token, viewer, since);
    }
  }
}
