/** Who can tell that a cleanup ran: nobody, as long as connections and rooms are kept at least as
    long as messages. */
module Invisible {
  import opened Common
  import opened Pairing
  import opened Store
  import opened Reads
  import opened Cleanup

  /** The parents of this side, if they are swept at all, are kept at least as long as messages. */
  predicate OutlivesOn(cfg: Config, side: Side) {
    match side
    case Dm => cfg.retentionHours * HOUR <= cfg.connDays * DAY
    case Room => cfg.enableRooms ==> cfg.retentionHours * HOUR <= cfg.roomDays * DAY
  }

  /** Connections, and rooms if they are swept at all, are kept at least as long as messages. */
  predicate Outlives(cfg: Config) {
    OutlivesOn(cfg, Dm) && OutlivesOn(cfg, Room)
  }

  /** No cutoff a pass at `now` uses on this side is later than the reader's. */
  predicate Harmless(cfg: Config, now: int, side: Side, since: int) {
    && ExpiryCutoff(now, cfg.retentionHours) <= since
    && (side.Dm? ==> InactivityCutoff(now, cfg.connDays) <= since)
    && (side.Room? && cfg.enableRooms ==> InactivityCutoff(now, cfg.roomDays) <= since)
  }

  /** Every list, unread count and photo a reader with this retention cutoff gets is the same. */
  ghost predicate SameReads(db: Db, db': Db, since: int) {
    && (forall side, parent, limit: nat ::
          Query(db', side, parent, limit, Some(since)) == Query(db, side, parent, limit, Some(since)))
    && (forall viewer, conn :: Unread(db', viewer, conn, Some(since)) == Unread(db, viewer, conn, Some(since)))
    && (forall token, viewer :: LoadPhoto(db', token, viewer, since) == LoadPhoto(db, token, viewer, since))
  }

  /** Every list of this side, and every unread count if it is the private one, is the same. */
  ghost predicate SameSideReads(db: Db, db': Db, side: Side, since: int) {
    && (forall parent, limit: nat ::
          Query(db', side, parent, limit, Some(since)) == Query(db, side, parent, limit, Some(since)))
    && (side.Dm? ==> forall viewer, conn ::
          Unread(db', viewer, conn, Some(since)) == Unread(db, viewer, conn, Some(since)))
  }

  // --- Readers see only live rows ------------------------------------------------------------

  /** A live message is still there, under the same parent and with the same photos. */
  ghost predicate MsgKept(db: Db, db': Db, side: Side, m: MsgId)
    requires m in Msgs(db, side)
  {
    && m in Msgs(db', side) && Msgs(db', side)[m] == Msgs(db, side)[m]
    && Msgs(db, side)[m].parent in Parents(db', side)
    && PhotosOf(db', side, m) == PhotosOf(db, side, m)
  }

  /** On this side messages only go, and no live one does. */
  ghost predicate SideKept(db: Db, db': Db, side: Side, since: int) {
    && db'.users == db.users
    && (forall m :: m in Msgs(db', side) ==> m in Msgs(db, side) && Msgs(db', side)[m] == Msgs(db, side)[m])
    && (forall m :: m in Msgs(db, side) && Msgs(db, side)[m].sentAt >= since ==> MsgKept(db, db', side, m))
  }

  ghost predicate LiveKept(db: Db, db': Db, since: int) {
    Restricts(db, db') && SideKept(db, db', Dm, since) && SideKept(db, db', Room, since)
  }

  lemma SameLive(db: Db, db': Db, side: Side, parent: int, since: int)
    requires SideKept(db, db', side, since)
    ensures Live(db', side, parent, Some(since)) == Live(db, side, parent, Some(since))
    ensures forall m :: m in Live(db, side, parent, Some(since)) ==> MsgKept(db, db', side, m)
  {
    var now', was := Live(db', side, parent, Some(since)), Live(db, side, parent, Some(since));
    forall m ensures m in was <==> m in now' {
      assert m in Msgs(db', side) ==> Msgs(db', side)[m] == Msgs(db, side)[m];
      assert m in was ==> MsgKept(db, db', side, m);
    }
  }

  lemma {:induction false} SameDescending(msgs: map<MsgId, Msg>, msgs': map<MsgId, Msg>, ids: set<MsgId>)
    requires ids <= msgs.Keys && ids <= msgs'.Keys && forall m :: m in ids ==> msgs'[m] == msgs[m]
    ensures Descending(msgs', ids) == Descending(msgs, ids)
    decreases ids
  {
    if ids != {} {
      var m, m' := Newest(msgs, ids), Newest(msgs', ids);
      SameDescending(msgs, msgs', ids - {m});
    }
  }

  lemma {:induction false} SameJoin(db: Db, db': Db, side: Side, ids: seq<MsgId>)
    requires db'.users == db.users
    requires forall i :: 0 <= i < |ids| ==> ids[i] in Msgs(db, side) && ids[i] in Msgs(db', side)
    requires forall i :: 0 <= i < |ids| ==> MsgKept(db, db', side, ids[i])
    ensures JoinAll(db', side, ids) == JoinAll(db, side, ids)
  {
    if ids != [] {
      assert MsgKept(db, db', side, ids[0]);
      SameJoin(db, db', side, ids[1..]);
    }
  }

  lemma SameQuery(db: Db, db': Db, side: Side, parent: int, limit: nat, since: int)
    requires SideKept(db, db', side, since)
    ensures Query(db', side, parent, limit, Some(since)) == Query(db, side, parent, limit, Some(since))
  {
    var live := Live(db, side, parent, Some(since));
    SameLive(db, db', side, parent, since);
    SameDescending(Msgs(db, side), Msgs(db', side), live);
    var d := Descending(Msgs(db, side), live);
    DescendingIsSorted(Msgs(db, side), live);
    assert forall i :: 0 <= i < |d| ==> d[i] in d;
    SameJoin(db, db', side, d);
  }

  lemma SameUnread(db: Db, db': Db, viewer: UserId, conn: ConnId, since: int)
    requires SideKept(db, db', Dm, since)
    ensures Unread(db', viewer, conn, Some(since)) == Unread(db, viewer, conn, Some(since))
  {
    assert db'.dmMsgs == Msgs(db', Dm) && db.dmMsgs == Msgs(db, Dm);
    forall m
      ensures m in UnreadMsgs(db', viewer, conn, Some(since)) <==> m in UnreadMsgs(db, viewer, conn, Some(since))
    {
      assert m in Msgs(db', Dm) ==> m in Msgs(db, Dm) && Msgs(db', Dm)[m] == Msgs(db, Dm)[m];
      assert m in Msgs(db, Dm) && Msgs(db, Dm)[m].sentAt >= since ==> MsgKept(db, db', Dm, m);
    }
    assert UnreadMsgs(db', viewer, conn, Some(since)) == UnreadMsgs(db, viewer, conn, Some(since));
  }

  lemma SamePhoto(db: Db, db': Db, token: PhotoId, viewer: UserId, since: int)
    requires LiveKept(db, db', since)
    ensures LoadPhoto(db', token, viewer, since) == LoadPhoto(db, token, viewer, since)
  {
    if token in db.photos {
      var side := if db.photos[token].roomMessage.Some? then Room else Dm;
      var owner := OwnerOn(db.photos[token], side);
      if owner.Some? && owner.value in Msgs(db, side) && Msgs(db, side)[owner.value].sentAt >= since {
        assert MsgKept(db, db', side, owner.value);
        assert token in PhotosOf(db', side, owner.value);
        assert db'.dmMsgs == Msgs(db', Dm) && db.dmMsgs == Msgs(db, Dm);
      }
    }
  }

  lemma SideReadersSeeOnlyLive(db: Db, db': Db, side: Side, since: int)
    requires SideKept(db, db', side, since)
    ensures SameSideReads(db, db', side, since)
  {
    forall parent, limit: nat
      ensures Query(db', side, parent, limit, Some(since)) == Query(db, side, parent, limit, Some(since))
    {
      SameQuery(db, db', side, parent, limit, since);
    }
    if side.Dm? {
      forall viewer, conn ensures Unread(db', viewer, conn, Some(since)) == Unread(db, viewer, conn, Some(since)) {
        SameUnread(db, db', viewer, conn, since);
      }
    }
  }

  lemma ReadersSeeOnlyLive(db: Db, db': Db, since: int)
    requires LiveKept(db, db', since)
    ensures SameReads(db, db', since)
  {
    SideReadersSeeOnlyLive(db, db', Dm, since);
    SideReadersSeeOnlyLive(db, db', Room, since);
    forall token, viewer ensures LoadPhoto(db', token, viewer, since) == LoadPhoto(db, token, viewer, since) {
      SamePhoto(db, db', token, viewer, since);
    }
  }

  // --- Cleanup keeps live rows -----------------------------------------------------------------

  /** Because no message is newer than its parent's activity clock, a pass with harmless cutoffs
      never cascades onto a live message. */
  lemma LiveStays(db: Db, cfg: Config, now: int, since: int, side: Side, m: MsgId)
    requires Valid(db) && Harmless(cfg, now, side, since)
    requires m in Msgs(db, side) && Msgs(db, side)[m].sentAt >= since
    ensures MsgStays(db, side, m, RaisedBy(NO_CUTS, cfg, now))
  {
    assert MsgOk(db, side, m);
  }

  lemma KeptWithPhotos(db: Db, cuts: Cuts, side: Side, m: MsgId)
    requires Valid(db) && MsgStays(db, side, m, cuts)
    ensures MsgKept(db, Kept(db, cuts), side, m)
  {
    var db' := Kept(db, cuts);
    KeptTables(db, cuts, side);
    forall p | p in PhotosOf(db, side, m) ensures p in PhotosOf(db', side, m) {
      assert PhotoOk(db, db.photos[p]);
      assert PhotoStays(db, db.photos[p], cuts);
    }
  }

  lemma PassKeepsLive(db: Db, cfg: Config, now: int, side: Side, since: int)
    requires Valid(db)
    requires forall m :: m in Msgs(db, side) && Msgs(db, side)[m].sentAt >= since ==>
      MsgStays(db, side, m, RaisedBy(NO_CUTS, cfg, now))
    ensures SideKept(db, RunCleanup(db, cfg, now), side, since)
  {
    var cuts := RaisedBy(NO_CUTS, cfg, now);
    CleanupKeeps(db, cfg, now);
    KeptTables(db, cuts, side);
    forall m | m in Msgs(db, side) && Msgs(db, side)[m].sentAt >= since ensures MsgKept(db, Kept(db, cuts), side, m) {
      KeptWithPhotos(db, cuts, side, m);
    }
  }

  lemma SideStays(db: Db, cfg: Config, now: int, side: Side, since: int)
    requires Valid(db) && Harmless(cfg, now, side, since)
    ensures SideKept(db, RunCleanup(db, cfg, now), side, since)
  {
    forall m | m in Msgs(db, side) && Msgs(db, side)[m].sentAt >= since
      ensures MsgStays(db, side, m, RaisedBy(NO_CUTS, cfg, now))
    {
      LiveStays(db, cfg, now, since, side, m);
    }
    PassKeepsLive(db, cfg, now, side, since);
  }

  lemma PassRestricts(db: Db, cfg: Config, now: int)
    requires Valid(db)
    ensures Restricts(db, RunCleanup(db, cfg, now))
  {
    CleanupKeeps(db, cfg, now);
    KeptRestricts(db, RaisedBy(NO_CUTS, cfg, now));
  }

  /** Cleanup is invisible: for every reader whose cutoff is no earlier than the pass's own, now
      or at any later time, running it or skipping it gives the same lists, counts and photos. */
  lemma CleanupIsInvisible(db: Db, cfg: Config, now: int, since: int)
    requires Valid(db) && Outlives(cfg) && ExpiryCutoff(now, cfg.retentionHours) <= since
    ensures SameReads(db, RunCleanup(db, cfg, now), since)
  {
    PassRestricts(db, cfg, now);
    SideStays(db, cfg, now, Dm, since);
    SideStays(db, cfg, now, Room, since);
    ReadersSeeOnlyLive(db, RunCleanup(db, cfg, now), since);
  }

  /** A reader whose cutoff is in the future sees no message, before a pass or after it. */
  lemma NothingLive(db: Db, cfg: Config, now: int, side: Side, since: int)
    requires Valid(db) && Past(db, now) && now < since
    ensures SideKept(db, RunCleanup(db, cfg, now), side, since)
  {
    forall m | m in Msgs(db, side) ensures Msgs(db, side)[m].sentAt < since {
      assert MsgOk(db, side, m);
    }
    PassKeepsLive(db, cfg, now, side, since);
  }
}
