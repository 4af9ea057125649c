/** The read side of the store: message lists, unread counts and photo serving. */
module Reads {
  import opened Common
  import opened Pairing
  import opened Store

  predicate Recent(m: Msg, since: Option<int>) {
    since.None? || m.sentAt >= since.value
  }

  /** The live messages of a room or connection: those the retention cutoff does not hide. */
  function Live(db: Db, side: Side, parent: int, since: Option<int>): set<MsgId> {
    set m | m in Msgs(db, side) && Msgs(db, side)[m].parent == parent && Recent(Msgs(db, side)[m], since)
  }

  // --- Ordering ----------------------------------------------------------------------

  /** Older first; messages of the same instant by id. */
  predicate Before(msgs: map<MsgId, Msg>, i: MsgId, j: MsgId)
    requires i in msgs && j in msgs
  {
    msgs[i].sentAt < msgs[j].sentAt || (msgs[i].sentAt == msgs[j].sentAt && i < j)
  }

  lemma NewestExists(msgs: map<MsgId, Msg>, ids: set<MsgId>)
    requires ids != {} && ids <= msgs.Keys
    ensures exists m :: m in ids && forall k :: k in ids && k != m ==> Before(msgs, k, m)
    decreases ids
  {
    assert (forall x :: x !in ids) ==> ids == {};
    var x :| x in ids;
    var rest := ids - {x};
    if rest == {} {
      assert ids == {x};
    } else {
      NewestExists(msgs, rest);
      var m :| m in rest && forall k :: k in rest && k != m ==> Before(msgs, k, m);
      var best := if Before(msgs, m, x) then x else m;
      forall k | k in ids && k != best ensures Before(msgs, k, best) {
        if k != x && k != m {
          assert k in rest;
        }
      }
    }
  }

  function Newest(msgs: map<MsgId, Msg>, ids: set<MsgId>): (m: MsgId)
    requires ids != {} && ids <= msgs.Keys
    ensures m in ids && forall k :: k in ids && k != m ==> Before(msgs, k, m)
  {
    NewestExists(msgs, ids);
    var m :| m in ids && forall k :: k in ids && k != m ==> Before(msgs, k, m);
    m
  }

  /** ORDER BY sent_at DESC, id DESC */
  function Descending(msgs: map<MsgId, Msg>, ids: set<MsgId>): seq<MsgId>
    requires ids <= msgs.Keys
    decreases ids
  {
    if ids == {} then [] else
    var m := Newest(msgs, ids);
    [m] + Descending(msgs, ids - {m})
  }

  predicate Follows(msgs: map<MsgId, Msg>, later: MsgId, earlier: MsgId) {
    later in msgs && earlier in msgs && Before(msgs, earlier, later)
  }

  /** Newest first, each once. */
  ghost predicate Sorted(msgs: map<MsgId, Msg>, d: seq<MsgId>) {
    forall i, j :: 0 <= i < j < |d| ==> Follows(msgs, d[i], d[j])
  }

  lemma {:induction false} DescendingIsSorted(msgs: map<MsgId, Msg>, ids: set<MsgId>)
    requires ids <= msgs.Keys
    ensures var d := Descending(msgs, ids);
      |d| == |ids| && (forall m :: m in d <==> m in ids) && Sorted(msgs, d)
    decreases ids
  {
    if ids != {} {
      var m := Newest(msgs, ids);
      DescendingIsSorted(msgs, ids - {m});
      NewestFirst(msgs, m, Descending(msgs, ids - {m}), ids);
    }
  }

  lemma NewestFirst(msgs: map<MsgId, Msg>, m: MsgId, rest: seq<MsgId>, ids: set<MsgId>)
    requires m in ids && ids <= msgs.Keys && forall k :: k in ids && k != m ==> Before(msgs, k, m)
    requires Sorted(msgs, rest) && forall k :: k in rest <==> k in ids && k != m
    ensures Sorted(msgs, [m] + rest)
  {
    var all := [m] + rest;
    forall i, j | 0 <= i < j < |all|
      ensures Follows(msgs, all[i], all[j])
    {
      assert all[j] == rest[j - 1] && rest[j - 1] in rest;
      if i > 0 {
        assert all[i] == rest[i - 1];
      }
    }
  }

  // --- The list query ------------------------------------------------------------------

  /** A result row: the message and the photo the outer join found, if any. */
  datatype Row = Row(id: MsgId, msg: Msg, photo: Option<PhotoId>)

  lemma LeastExists(s: set<int>)
    requires s != {}
    ensures exists x :: x in s && forall y :: y in s ==> x <= y
    decreases s
  {
    assert (forall x :: x !in s) ==> s == {};
    var x :| x in s;
    var rest := s - {x};
    if rest == {} {
      assert s == {x};
    } else {
      LeastExists(rest);
      var l :| l in rest && forall y :: y in rest ==> l <= y;
      var best := if x < l then x else l;
      assert forall y :: y in s ==> y == x || y in rest;
      assert best in s && forall y :: y in s ==> best <= y;
    }
  }

  function AsSeq(s: set<int>): seq<int>
    decreases s
  {
    if s == {} then [] else
    LeastExists(s);
    var x :| x in s && forall y :: y in s ==> x <= y;
    [x] + AsSeq(s - {x})
  }

  /** The rows the joins make of one message: none without its sender, otherwise one per photo,
      or one without a photo. */
  function JoinRows(db: Db, side: Side, m: MsgId): seq<Row>
    requires m in Msgs(db, side)
  {
    var msg := Msgs(db, side)[m];
    var photos := AsSeq(PhotosOf(db, side, m));
    if msg.sender !in db.users then []
    else if photos == [] then [Row(m, msg, None)]
    else seq(|photos|, i requires 0 <= i < |photos| => Row(m, msg, Some(photos[i])))
  }

  function JoinAll(db: Db, side: Side, ids: seq<MsgId>): seq<Row>
    requires forall i :: 0 <= i < |ids| ==> ids[i] in Msgs(db, side)
  {
    if ids == [] then [] else JoinRows(db, side, ids[0]) + JoinAll(db, side, ids[1..])
  }

  function Take<T>(s: seq<T>, limit: nat): seq<T> {
    if limit <= |s| then s[..limit] else s
  }

  /** The statement as the database answers it: joined, newest first, cut to the limit. */
  function Query(db: Db, side: Side, parent: int, limit: nat, since: Option<int>): seq<Row> {
    var ids := Live(db, side, parent, since);
    DescendingIsSorted(Msgs(db, side), ids);
    Take(JoinAll(db, side, Descending(Msgs(db, side), ids)), limit)
  }

  function Reversed<T>(s: seq<T>): seq<T> {
    seq(|s|, i requires 0 <= i < |s| => s[|s| - 1 - i])
  }

  /** The rows returned to the caller: the query's, reversed in place to oldest first. */
  method ListMessages(db: Db, side: Side, parent: int, limit: nat, since: Option<int>) returns (rows: seq<Row>)
    ensures rows == Reversed(Query(db, side, parent, limit, since))
  {
    rows := Query(db, side, parent, limit, since);
    ghost var query := rows;
    var i := 0;
    while i < |rows| - 1 - i
      invariant 0 <= i && i <= |query| - i && EndsSwapped(query, rows, i)
      decreases |rows| - i
    {
      SwapEnds(query, rows, i);
      rows := rows[i := rows[|rows| - 1 - i]][|rows| - 1 - i := rows[i]];
      i := i + 1;
    }
  }

  /** The outer `i` entries at both ends are exchanged, the rest is untouched. */
  ghost predicate EndsSwapped<T>(before: seq<T>, s: seq<T>, i: nat) {
    && |s| == |before|
    && (forall k :: 0 <= k < |s| && (k < i || k >= |s| - i) ==> s[k] == before[|s| - 1 - k])
    && (forall k :: i <= k < |s| - i ==> s[k] == before[k])
  }

  lemma SwapEnds<T>(before: seq<T>, s: seq<T>, i: nat)
    requires EndsSwapped(before, s, i) && i < |s| - 1 - i
    ensures EndsSwapped(before, s[i := s[|s| - 1 - i]][|s| - 1 - i := s[i]], i + 1)
  {
  }

  /** A row shows its message as stored, with its photo exactly when it is a photo message. */
  predicate RowOk(db: Db, side: Side, row: Row) {
    && row.id in Msgs(db, side) && row.msg == Msgs(db, side)[row.id]
    && (row.photo.Some? <==> row.msg.kind.Photo?)
    && (row.photo.Some? ==> PhotosOf(db, side, row.id) == {row.photo.value})
  }

  /** In a store in order, a message joins to exactly one row, with a photo exactly when it is one. */
  lemma OneRowEach(db: Db, side: Side, m: MsgId)
    requires Valid(db) && m in Msgs(db, side)
    ensures |JoinRows(db, side, m)| == 1
    ensures JoinRows(db, side, m)[0].id == m && RowOk(db, side, JoinRows(db, side, m)[0])
  {
    assert MsgOk(db, side, m);
    var photos := PhotosOf(db, side, m);
    if Msgs(db, side)[m].kind.Photo? {
      var p :| p in db.photos && OwnerOn(db.photos[p], side) == Some(m);
      forall q | q in photos ensures q == p {
        assert PhotoOk(db, db.photos[p]) && PhotoOk(db, db.photos[q]);
      }
      assert photos == {p};
      assert photos - {p} == {};
      assert AsSeq(photos) == [p];
    } else {
      assert forall p :: p !in photos;
      assert photos == {};
    }
  }

  lemma {:induction false} JoinIsOneToOne(db: Db, side: Side, ids: seq<MsgId>)
    requires Valid(db) && forall i :: 0 <= i < |ids| ==> ids[i] in Msgs(db, side)
    ensures |JoinAll(db, side, ids)| == |ids|
    ensures forall i :: 0 <= i < |ids| ==> JoinAll(db, side, ids)[i] == JoinRows(db, side, ids[i])[0]
  {
    if ids != [] {
      OneRowEach(db, side, ids[0]);
      JoinIsOneToOne(db, side, ids[1..]);
      assert forall i :: 1 <= i < |ids| ==> ids[i] == ids[1..][i - 1];
    }
  }

  /** What a list must be, without saying how it is computed: as many live messages as the limit
      allows, each once and in ascending order, no live message left out being newer than one
      that is in, and a photo id exactly on the photo messages. */
  ghost predicate IsLatest(db: Db, side: Side, parent: int, limit: nat, since: Option<int>, rows: seq<Row>) {
    var live := Live(db, side, parent, since);
    && |rows| == (if |live| < limit then |live| else limit)
    && (forall i :: 0 <= i < |rows| ==>
          rows[i].id in live && RowOk(db, side, rows[i]))
    && (forall i, j :: 0 <= i < j < |rows| ==> Before(Msgs(db, side), rows[i].id, rows[j].id))
    && (forall m, i :: m in live && 0 <= i < |rows| && (forall k :: 0 <= k < |rows| ==> rows[k].id != m)
          ==> Before(Msgs(db, side), m, rows[i].id))
  }

  /** The query's rows are those of the newest live messages. */
  lemma QueryTakes(db: Db, side: Side, parent: int, limit: nat, since: Option<int>)
    requires Valid(db)
    ensures var live := Live(db, side, parent, since);
      var d := Descending(Msgs(db, side), live);
      var rows := Query(db, side, parent, limit, since);
      && |d| == |live| && |rows| == (if |live| < limit then |live| else limit)
      && (forall i :: 0 <= i < |rows| ==> rows[i].id == d[i] && RowOk(db, side, rows[i]))
  {
    var d := Descending(Msgs(db, side), Live(db, side, parent, since));
    DescendingIsSorted(Msgs(db, side), Live(db, side, parent, since));
    assert forall i :: 0 <= i < |d| ==> d[i] in d;
    JoinIsOneToOne(db, side, d);
    var rows := Query(db, side, parent, limit, since);
    forall i | 0 <= i < |rows| ensures rows[i].id == d[i] && RowOk(db, side, rows[i]) {
      OneRowEach(db, side, d[i]);
    }
  }

  /** Rows that are the first of a descending order, oldest first, each as stored. */
  ghost predicate NewestRows(db: Db, side: Side, live: set<MsgId>, limit: nat, rows: seq<Row>) {
    var d := Descending(Msgs(db, side), live * Msgs(db, side).Keys);
    && |d| == |live| && |rows| == (if |live| < limit then |live| else limit)
    && (forall i :: 0 <= i < |rows| ==> rows[i].id == d[|rows| - 1 - i] && RowOk(db, side, rows[i]))
  }

  /** The rows are the newest live messages, oldest first, each as stored. */
  lemma QueryRows(db: Db, side: Side, parent: int, limit: nat, since: Option<int>)
    requires Valid(db)
    ensures NewestRows(db, side, Live(db, side, parent, since), limit, Reversed(Query(db, side, parent, limit, since)))
  {
    QueryTakes(db, side, parent, limit, since);
    var query := Query(db, side, parent, limit, since);
    var rows := Reversed(query);
    assert Live(db, side, parent, since) * Msgs(db, side).Keys == Live(db, side, parent, since);
    assert forall i :: 0 <= i < |rows| ==> rows[i] == query[|rows| - 1 - i];
  }

  /** List queries return exactly the last `limit` live messages, oldest first. */
  lemma ListIsLatest(db: Db, side: Side, parent: int, limit: nat, since: Option<int>)
    requires Valid(db)
    ensures IsLatest(db, side, parent, limit, since, Reversed(Query(db, side, parent, limit, since)))
  {
    QueryRows(db, side, parent, limit, since);
    LatestByOrder(db, side, parent, limit, since, Reversed(Query(db, side, parent, limit, since)));
  }

  lemma LatestByOrder(db: Db, side: Side, parent: int, limit: nat, since: Option<int>, rows: seq<Row>)
    requires NewestRows(db, side, Live(db, side, parent, since), limit, rows)
    ensures IsLatest(db, side, parent, limit, since, rows)
  {
    var msgs, live := Msgs(db, side), Live(db, side, parent, since);
    assert live * msgs.Keys == live;
    var d := Descending(msgs, live);
    DescendingIsSorted(msgs, live);
    assert forall i :: 0 <= i < |rows| ==> rows[i].id in d;
    forall m, i | m in d && 0 <= i < |rows| && forall k :: 0 <= k < |rows| ==> rows[k].id != m
      ensures Follows(msgs, rows[i].id, m)
    {
      CutAreOlder(msgs, d, rows, m, i);
    }
    forall i, j | 0 <= i < j < |rows| ensures Before(msgs, rows[i].id, rows[j].id) {
      assert Follows(msgs, d[|rows| - 1 - j], d[|rows| - 1 - i]);
    }
  }

  /** What the limit cuts off is older than everything it leaves. */
  lemma CutAreOlder(msgs: map<MsgId, Msg>, d: seq<MsgId>, rows: seq<Row>, m: MsgId, i: nat)
    requires m in d && i < |rows| <= |d|
    requires Sorted(msgs, d)
    requires forall k :: 0 <= k < |rows| ==> rows[k].id == d[|rows| - 1 - k]
    requires forall k :: 0 <= k < |rows| ==> rows[k].id != m
    ensures m in msgs && rows[i].id in msgs && Before(msgs, m, rows[i].id)
  {
    var at :| 0 <= at < |d| && d[at] == m;
    forall x | 0 <= x < |rows|
      ensures d[x] != m
    {
      assert rows[|rows| - 1 - x].id == d[x];
    }
    var mine := |rows| - 1 - i;
    assert 0 <= mine < at && rows[i].id == d[mine];
    assert Follows(msgs, d[mine], d[at]);
  }

  // --- Unread counts and photos ------------------------------------------------------------

  predicate IsUnread(m: Msg, viewer: UserId, conn: ConnId, since: Option<int>) {
    m.parent == conn && m.sender != viewer && m.readAt.None? && Recent(m, since)
  }

  /** The messages a viewer has not read in a connection. */
  function UnreadMsgs(db: Db, viewer: UserId, conn: ConnId, since: Option<int>): set<MsgId> {
    set m | m in db.dmMsgs && IsUnread(db.dmMsgs[m], viewer, conn, since)
  }

  function Unread(db: Db, viewer: UserId, conn: ConnId, since: Option<int>): nat {
    |UnreadMsgs(db, viewer, conn, since)|
  }

  /** A photo's bytes, unless it is unknown, expired, or a private one the viewer is no party to. */
  function LoadPhoto(db: Db, token: PhotoId, viewer: UserId, cutoff: int): Option<(Blob, string)> {
    if token !in db.photos then None else
    var photo := db.photos[token];
    var side := if photo.roomMessage.Some? then Room else Dm;
    var owner := OwnerOn(photo, side);
    if owner.None? || owner.value !in Msgs(db, side) || Msgs(db, side)[owner.value].sentAt < cutoff then None
    else if side.Room? then Some((photo.data, photo.contentType))
    else
      var conn := db.dmMsgs[owner.value].parent;
      if conn !in db.conns || !IsParticipant(db.conns[conn].pair, viewer) then None
      else Some((photo.data, photo.contentType))
  }
}
