/** What a list shows after a whole run: the latest unexpired messages that were sent to it, in the
    order they were sent. */
module ListRun {
  import opened Common
  import Pairing
  import opened Store
  import opened Reads
  import opened StoreInvariant
  import opened Cleanup
  import opened Invisible
  import opened StoreRun

  predicate SendsTo(op: Op, side: Side, parent: int) {
    (op.SendWords? || op.SendPicture?) && op.side == side && op.parent == parent
  }

  /** A send that was carried out, with the id its message got. */
  datatype Posting = Posting(id: MsgId, event: Event)

  /** The unexpired sends to a room or connection that were carried out, in event order. */
  function Posted(events: seq<Event>, side: Side, parent: int, since: int): seq<Posting> {
    if events == [] then [] else
    var n := |events| - 1;
    var before, e := After(events[..n]), events[n];
    Posted(events[..n], side, parent, since)
    + (if SendsTo(e.op, side, parent) && Perform(before, e).Some? && e.now >= since
       then [Posting(NextId(before, side), e)] else [])
  }

  /** A row shows what was sent: who, when, and the text or the photo. */
  predicate Shows(row: Row, e: Event) {
    && (e.op.SendWords? || e.op.SendPicture?)
    && row.msg.sender == e.op.sender && row.msg.sentAt == e.now
    && (e.op.SendWords? ==> row.msg.content == Some(e.op.content) && row.photo.None?)
    && (e.op.SendPicture? ==> row.msg.content.None? && row.photo == Some(e.op.token))
  }

  // --- The stored rows are the postings ---------------------------------------------------

  /** The message of a posting is stored as sent, up to its read mark, with its photo. */
  predicate StoredAs(db: Db, side: Side, x: Posting) {
    && (x.event.op.SendWords? || x.event.op.SendPicture?)
    && x.id in Msgs(db, side) && Msgs(db, side)[x.id] == SentMsg(x.event).(readAt := Msgs(db, side)[x.id].readAt)
    && (x.event.op.SendPicture? ==> x.event.op.token in PhotosOf(db, side, x.id))
  }

  predicate Earlier(x: Posting, y: Posting) {
    x.id < y.id && x.event.now <= y.event.now
  }

  function Ids(sent: seq<Posting>): seq<MsgId> {
    seq(|sent|, k requires 0 <= k < |sent| => sent[k].id)
  }

  /** The live messages are the postings: each stored as sent, in ascending order. */
  ghost predicate Listed(db: Db, side: Side, parent: int, since: int, sent: seq<Posting>) {
    && (forall k :: 0 <= k < |sent| ==> StoredAs(db, side, sent[k]))
    && (forall j, k :: 0 <= j < k < |sent| ==> Earlier(sent[j], sent[k]))
    && (forall m :: m in Live(db, side, parent, Some(since)) <==> m in Ids(sent))
  }

  /** Nothing happened to the live messages of a list, except that some were read. */
  ghost predicate Untouched(db: Db, db': Db, side: Side, parent: int, since: int) {
    && Live(db', side, parent, Some(since)) == Live(db, side, parent, Some(since))
    && forall m :: m in Live(db, side, parent, Some(since)) ==> RowKept(db, db', side, m)
  }

  predicate RowKept(db: Db, db': Db, side: Side, m: MsgId)
    requires m in Msgs(db, side)
  {
    && m in Msgs(db', side) && Msgs(db', side)[m] == Msgs(db, side)[m].(readAt := Msgs(db', side)[m].readAt)
    && PhotosOf(db, side, m) <= PhotosOf(db', side, m)
  }

  lemma UntouchedStaysListed(db: Db, db': Db, side: Side, parent: int, since: int, sent: seq<Posting>)
    requires Listed(db, side, parent, since, sent) && Untouched(db, db', side, parent, since)
    ensures Listed(db', side, parent, since, sent)
  {
    forall k | 0 <= k < |sent| ensures StoredAs(db', side, sent[k]) {
      assert StoredAs(db, side, sent[k]);
      assert Ids(sent)[k] == sent[k].id;
      assert sent[k].id in Live(db, side, parent, Some(since));
      assert RowKept(db, db', side, sent[k].id);
    }
  }

  // --- One transaction ----------------------------------------------------------------------

  /** A send that is not listed here: it goes elsewhere, or has expired. */
  lemma OtherSendLeaves(db: Db, e: Event, side: Side, parent: int, since: int)
    requires Valid(db) && Perform(db, e).Some? && (e.op.SendWords? || e.op.SendPicture?)
    requires !SendsTo(e.op, side, parent) || e.now < since
    ensures Untouched(db, Next(db, e), side, parent, since)
  {
    var db' := Next(db, e);
    FreshHasNoPhotos(db, e.op.side);
    SentRows(db, e);
    SendKeepsPhotos(db, e);
    OthersSame(db, e, side);
    forall m ensures m in Live(db', side, parent, Some(since)) <==> m in Live(db, side, parent, Some(since)) {
    }
    assert Live(db', side, parent, Some(since)) == Live(db, side, parent, Some(since));
  }

  lemma SendKeepsPhotos(db: Db, e: Event)
    requires Perform(db, e).Some? && (e.op.SendWords? || e.op.SendPicture?)
    ensures forall side, m :: PhotosOf(db, side, m) <= PhotosOf(Next(db, e), side, m)
  {
    assert forall p :: p in db.photos ==> p in Next(db, e).photos && Next(db, e).photos[p] == db.photos[p];
  }

  lemma OthersSame(db: Db, e: Event, side: Side)
    requires Perform(db, e).Some? && (e.op.SendWords? || e.op.SendPicture?)
    ensures side != e.op.side ==> Msgs(Next(db, e), side) == Msgs(db, side)
  {
  }

  lemma ReadLeaves(db: Db, conn: Pairing.ConnId, viewer: Pairing.UserId, now: int, side: Side, parent: int, since: int)
    ensures Untouched(db, MarkRead(db, conn, viewer, now), side, parent, since)
  {
    var db' := MarkRead(db, conn, viewer, now);
    forall m ensures m in Live(db', side, parent, Some(since)) <==> m in Live(db, side, parent, Some(since)) {
      assert m in Msgs(db', side) <==> m in Msgs(db, side);
    }
    assert Live(db', side, parent, Some(since)) == Live(db, side, parent, Some(since));
    forall m | m in Live(db, side, parent, Some(since)) ensures RowKept(db, db', side, m) {
      assert PhotosOf(db', side, m) == PhotosOf(db, side, m);
    }
  }

  lemma CleanLeaves(db: Db, cfg: Config, now: int, side: Side, parent: int, since: int)
    requires Valid(db) && Harmless(cfg, now, side, since)
    ensures Untouched(db, RunCleanup(db, cfg, now), side, parent, since)
  {
    SideStays(db, cfg, now, side, since);
    SameLive(db, RunCleanup(db, cfg, now), side, parent, since);
    forall m | m in Live(db, side, parent, Some(since)) ensures RowKept(db, RunCleanup(db, cfg, now), side, m) {
      assert MsgKept(db, RunCleanup(db, cfg, now), side, m);
    }
  }

  lemma SameTablesLeave(db: Db, db': Db, side: Side, parent: int, since: int)
    requires Msgs(db', side) == Msgs(db, side) && db'.photos == db.photos
    ensures Untouched(db, db', side, parent, since)
  {
    assert Live(db', side, parent, Some(since)) == Live(db, side, parent, Some(since));
    forall m | m in Live(db, side, parent, Some(since)) ensures RowKept(db, db', side, m) {
      assert PhotosOf(db', side, m) == PhotosOf(db, side, m);
    }
  }

  /** Every transaction but an unexpired send to this list leaves it as it is. */
  lemma OthersLeave(db: Db, e: Event, side: Side, parent: int, since: int)
    requires Valid(db)
    requires e.op.Clean? ==> Harmless(e.op.cfg, e.now, side, since)
    requires !(SendsTo(e.op, side, parent) && Perform(db, e).Some? && e.now >= since)
    ensures Untouched(db, Next(db, e), side, parent, since)
  {
    if Perform(db, e).None? {
      SameTablesLeave(db, db, side, parent, since);
    } else {
      match e.op {
        case SendWords(_, _, _, _) => OtherSendLeaves(db, e, side, parent, since);
        case SendPicture(_, _, _, _, _, _) => OtherSendLeaves(db, e, side, parent, since);
        case Read(chat, viewer) => ReadLeaves(db, chat, viewer, e.now, side, parent, since);
        case Clean(cfg) => CleanLeaves(db, cfg, e.now, side, parent, since);
        case _ => SameTablesLeave(db, Next(db, e), side, parent, since);
      }
    }
  }

  /** A send is one more posting, the last. */
  lemma SendIsPosted(db: Db, e: Event, side: Side, parent: int, since: int, sent: seq<Posting>)
    requires Valid(db) && Past(db, e.now) && Listed(db, side, parent, since, sent)
    requires SendsTo(e.op, side, parent) && Perform(db, e).Some? && e.now >= since
    ensures Listed(Next(db, e), side, parent, since, sent + [Posting(NextId(db, side), e)])
  {
    var db', id := Next(db, e), NextId(db, side);
    var all := sent + [Posting(id, e)];
    FreshHasNoPhotos(db, side);
    SentRows(db, e);
    SendKeepsPhotos(db, e);
    forall k | 0 <= k < |sent| ensures StoredAs(db', side, sent[k]) && Earlier(sent[k], Posting(id, e)) {
      assert StoredAs(db, side, sent[k]);
      assert MsgOk(db, side, sent[k].id);
    }
    assert StoredAs(db', side, Posting(id, e));
    assert Ids(all) == Ids(sent) + [id];
    forall m ensures m in Live(db', side, parent, Some(since)) <==> m in Ids(all) {
      assert m != id ==> (m in Live(db', side, parent, Some(since)) <==> m in Live(db, side, parent, Some(since)));
    }
  }

  lemma {:induction false} RunIsListed(events: seq<Event>, side: Side, parent: int, since: int)
    requires InOrder(events) && CleanedFor(events, side, since)
    ensures Listed(After(events), side, parent, since, Posted(events, side, parent, since))
  {
    if events == [] {
      assert Msgs(EMPTY_DB, side) == map[];
    } else {
      var n := |events| - 1;
      var front, e := events[..n], events[n];
      var sent := Posted(front, side, parent, since);
      RunIsListed(front, side, parent, since);
      RunKeeps(front, e.now);
      if SendsTo(e.op, side, parent) && Perform(After(front), e).Some? && e.now >= since {
        SendIsPosted(After(front), e, side, parent, since, sent);
      } else {
        OthersLeave(After(front), e, side, parent, since);
        UntouchedStaysListed(After(front), After(events), side, parent, since, sent);
        assert Posted(events, side, parent, since) == sent;
      }
    }
  }

  // --- The list ---------------------------------------------------------------------------------

  /** Oldest first, each once. */
  ghost predicate Climbs(msgs: map<MsgId, Msg>, s: seq<MsgId>) {
    forall j, k :: 0 <= j < k < |s| ==> Follows(msgs, s[k], s[j])
  }

  lemma ButLast(msgs: map<MsgId, Msg>, s: seq<MsgId>)
    requires Climbs(msgs, s) && s != []
    ensures forall m :: m in s[..|s| - 1] <==> m in s && m != s[|s| - 1]
    ensures Climbs(msgs, s[..|s| - 1])
  {
    var n := |s| - 1;
    forall j | 0 <= j < n ensures s[j] != s[n] {
      assert Follows(msgs, s[n], s[j]);
    }
    forall m | m in s && m != s[n] ensures m in s[..n] {
      var j :| 0 <= j < |s| && s[j] == m;
      assert s[..n][j] == m;
    }
  }

  lemma NewestIsLast(msgs: map<MsgId, Msg>, ids: set<MsgId>, s: seq<MsgId>)
    requires ids <= msgs.Keys && s != [] && ids != {} && (forall m :: m in ids <==> m in s) && Climbs(msgs, s)
    ensures Newest(msgs, ids) == s[|s| - 1]
  {
    var newest, n := Newest(msgs, ids), |s| - 1;
    assert newest in s && s[n] in s;
    var j :| 0 <= j < |s| && s[j] == newest;
    assert j < n ==> Follows(msgs, s[n], s[j]);
  }

  lemma ReversedSnoc<T>(s: seq<T>)
    requires s != []
    ensures Reversed(s) == [s[|s| - 1]] + Reversed(s[..|s| - 1])
  {
  }

  /** Sorting a set whose ascending order is known gives that order, reversed. */
  lemma {:induction false} DescendingIs(msgs: map<MsgId, Msg>, ids: set<MsgId>, s: seq<MsgId>)
    requires ids <= msgs.Keys && (forall m :: m in ids <==> m in s) && Climbs(msgs, s)
    ensures Descending(msgs, ids) == Reversed(s)
    decreases ids
  {
    if s == [] {
      assert (forall m :: m !in ids) ==> ids == {};
    } else {
      var n := |s| - 1;
      assert s[n] in s;
      NewestIsLast(msgs, ids, s);
      ButLast(msgs, s);
      DescendingIs(msgs, ids - {s[n]}, s[..n]);
      ReversedSnoc(s);
    }
  }

  /** The rows are the last postings, in order, each shown as it was sent. */
  predicate ShowsLast(rows: seq<Row>, sent: seq<Posting>, limit: nat) {
    && |rows| == (if |sent| < limit then |sent| else limit)
    && forall i :: 0 <= i < |rows| ==> Shows(rows[i], sent[|sent| - |rows| + i].event)
  }

  /** Over any run of sends, reads and cleanups, a list is exactly the last `limit` unexpired sends
      to it that were carried out, in the order of the events, each shown as it was sent. */
  lemma ListIsPosted(events: seq<Event>, side: Side, parent: int, limit: nat, since: int)
    requires InOrder(events) && CleanedFor(events, side, since)
    ensures ShowsLast(Reversed(Query(After(events), side, parent, limit, Some(since))),
                      Posted(events, side, parent, since), limit)
  {
    RunIsListed(events, side, parent, since);
    RunKeeps(events, if events == [] then 0 else events[|events| - 1].now);
    ListedRows(After(events), side, parent, limit, since, Posted(events, side, parent, since));
  }

  lemma ListedClimbs(db: Db, side: Side, parent: int, since: int, sent: seq<Posting>)
    requires Listed(db, side, parent, since, sent)
    ensures Climbs(Msgs(db, side), Ids(sent))
  {
    var ids := Ids(sent);
    forall j, k | 0 <= j < k < |ids| ensures Follows(Msgs(db, side), ids[k], ids[j]) {
      assert StoredAs(db, side, sent[j]) && StoredAs(db, side, sent[k]) && Earlier(sent[j], sent[k]);
    }
  }

  /** Row by row, the list has the ids of the last postings. */
  ghost predicate IdsMatch(db: Db, side: Side, rows: seq<Row>, ids: seq<MsgId>, limit: nat) {
    && |rows| == (if |ids| < limit then |ids| else limit)
    && forall i :: 0 <= i < |rows| ==> rows[i].id == ids[|ids| - |rows| + i] && RowOk(db, side, rows[i])
  }

  lemma ListedIds(db: Db, side: Side, parent: int, limit: nat, since: int, ids: seq<MsgId>)
    requires Valid(db) && Climbs(Msgs(db, side), ids)
    requires forall m :: m in Live(db, side, parent, Some(since)) <==> m in ids
    ensures IdsMatch(db, side, Reversed(Query(db, side, parent, limit, Some(since))), ids, limit)
  {
    QueryRows(db, side, parent, limit, Some(since));
    RowsMatch(db, side, Live(db, side, parent, Some(since)), limit,
              Reversed(Query(db, side, parent, limit, Some(since))), ids);
  }

  lemma RowsMatch(db: Db, side: Side, live: set<MsgId>, limit: nat, rows: seq<Row>, ids: seq<MsgId>)
    requires NewestRows(db, side, live, limit, rows)
    requires live <= Msgs(db, side).Keys && (forall m :: m in live <==> m in ids) && Climbs(Msgs(db, side), ids)
    ensures IdsMatch(db, side, rows, ids, limit)
  {
    assert live * Msgs(db, side).Keys == live;
    DescendingIs(Msgs(db, side), live, ids);
    FromTheEnd(db, side, rows, ids, Descending(Msgs(db, side), live), limit);
  }

  lemma FromTheEnd(db: Db, side: Side, rows: seq<Row>, ids: seq<MsgId>, d: seq<MsgId>, limit: nat)
    requires d == Reversed(ids) && |rows| == (if |d| < limit then |d| else limit)
    requires forall i :: 0 <= i < |rows| ==> rows[i].id == d[|rows| - 1 - i] && RowOk(db, side, rows[i])
    ensures IdsMatch(db, side, rows, ids, limit)
  {
    assert forall k :: 0 <= k < |ids| ==> d[k] == ids[|ids| - 1 - k];
  }

  lemma MatchShows(db: Db, side: Side, rows: seq<Row>, sent: seq<Posting>, limit: nat)
    requires IdsMatch(db, side, rows, Ids(sent), limit) && forall k :: 0 <= k < |sent| ==> StoredAs(db, side, sent[k])
    ensures ShowsLast(rows, sent, limit)
  {
    forall i | 0 <= i < |rows| ensures Shows(rows[i], sent[|sent| - |rows| + i].event) {
      assert StoredAs(db, side, sent[|sent| - |rows| + i]);
      RowShows(db, side, rows[i], sent[|sent| - |rows| + i]);
    }
  }

  lemma ListedRows(db: Db, side: Side, parent: int, limit: nat, since: int, sent: seq<Posting>)
    requires Valid(db) && Listed(db, side, parent, since, sent)
    ensures ShowsLast(Reversed(Query(db, side, parent, limit, Some(since))), sent, limit)
  {
    ListedClimbs(db, side, parent, since, sent);
    ListedIds(db, side, parent, limit, since, Ids(sent));
    MatchShows(db, side, Reversed(Query(db, side, parent, limit, Some(since))), sent, limit);
  }

  lemma RowShows(db: Db, side: Side, row: Row, x: Posting)
    requires RowOk(db, side, row) && row.id == x.id && StoredAs(db, side, x)
    ensures Shows(row, x.event)
  {
  }
}
