/** Cluster-wide fan-out as a protocol: every instance has its own registry and one serial
    listener on an ordered bus; a broadcast is published, or delivered locally when that
    fails; and a delivery sends to one socket of its snapshot at a time, so connects,
    disconnects and other deliveries come in between. */
module FanOut {
  import opened Common
  import opened Registry

  type InstId = int
  type BroadcastId = int

  datatype Item = Item(room: RoomId, id: BroadcastId)

  /** How publishing went: on the bus, failed without effect, or on the bus although it raised. */
  datatype Outcome = Appended | Failed | LostReply

  /** A delivery under way: the snapshot, the part not yet sent to, and the sockets that raised. */
  datatype Job = Job(room: RoomId, snapshot: set<Sock>, pending: set<Sock>, dead: set<Sock>)

  /** `cursor` is the listener's next bus position; `job` its delivery of that position, if begun. */
  datatype Instance = Instance(rooms: Rooms, subscribed: bool, cursor: nat, job: Option<Job>)

  /** A socket: where it connected, the bus position it joined at, whether it can still be sent
      to, and what it received, by bus position and by fallback broadcast. */
  datatype SockInfo = SockInfo(
    inst: InstId, room: RoomId, joined: nat, alive: bool, got: seq<nat>, gotLocal: seq<BroadcastId>)

  /** A broadcast that was made, and the sockets its instance had in the room at that time. */
  datatype Sent = Sent(inst: InstId, room: RoomId, outcome: Outcome, audience: set<Sock>)

  datatype Cluster = Cluster(
    bus: seq<Item>,
    insts: map<InstId, Instance>,
    socks: map<Sock, SockInfo>,
    sent: map<BroadcastId, Sent>,
    fallbacks: map<BroadcastId, Job>)

  const EMPTY: Cluster := Cluster([], map[], map[], map[], map[])

  datatype Event =
    | StartInstance(i: InstId, subscribed: bool)
    | Connect(s: Sock, i: InstId, room: RoomId)
    | Disconnect(s: Sock)
    | Die(s: Sock)
    | Broadcast(b: BroadcastId, i: InstId, room: RoomId, outcome: Outcome)
    | Take(i: InstId)
    | Send(i: InstId, s: Sock)
    | Done(i: InstId)
    | LocalSend(b: BroadcastId, s: Sock)
    | LocalDone(b: BroadcastId)

  /** The bus position a socket that connects now will be served from: past the delivery under
      way, whose snapshot is already taken. */
  function JoinPoint(inst: Instance): nat {
    if inst.job.None? then inst.cursor else inst.cursor + 1
  }

  function WithRooms(c: Cluster, i: InstId, rooms: Rooms): Cluster
    requires i in c.insts
  {
    c.(insts := c.insts[i := c.insts[i].(rooms := rooms)])
  }

  function WithJob(c: Cluster, i: InstId, job: Option<Job>): Cluster
    requires i in c.insts
  {
    c.(insts := c.insts[i := c.insts[i].(job := job)])
  }

  /** One send of a delivery: a live socket receives, a dead one is noted for removal. */
  function Sending(job: Job, s: Sock, ok: bool): Job {
    job.(pending := job.pending - {s}, dead := if ok then job.dead else job.dead + {s})
  }

  predicate Enabled(c: Cluster, e: Event) {
    match e
    case StartInstance(i, _) => i !in c.insts
    case Connect(s, i, _) => s !in c.socks && i in c.insts
    case Disconnect(s) => s in c.socks && c.socks[s].inst in c.insts
    case Die(s) => s in c.socks
    case Broadcast(b, i, _, outcome) => b !in c.sent && i in c.insts && (c.insts[i].subscribed || outcome.Failed?)
    case Take(i) => i in c.insts && c.insts[i].subscribed && c.insts[i].job.None? && c.insts[i].cursor < |c.bus|
    case Send(i, s) => i in c.insts && c.insts[i].job.Some? && s in c.insts[i].job.value.pending && s in c.socks
    case Done(i) => i in c.insts && c.insts[i].job.Some? && c.insts[i].job.value.pending == {}
    case LocalSend(b, s) => b in c.fallbacks && s in c.fallbacks[b].pending && s in c.socks
    case LocalDone(b) => b in c.fallbacks && b in c.sent && c.sent[b].inst in c.insts && c.fallbacks[b].pending == {}
  }

  function Step(c: Cluster, e: Event): Cluster
    requires Enabled(c, e)
  {
    match e
    case StartInstance(i, subscribed) =>
      c.(insts := c.insts[i := Instance(map[], subscribed, |c.bus|, None)])
    case Connect(s, i, room) =>
      WithRooms(c, i, Joined(c.insts[i].rooms, room, s))
        .(socks := c.socks[s := SockInfo(i, room, JoinPoint(c.insts[i]), true, [], [])])
    case Disconnect(s) =>
      var x := c.socks[s];
      WithRooms(c, x.inst, Left(c.insts[x.inst].rooms, x.room, {s}))
    case Die(s) =>
      c.(socks := c.socks[s := c.socks[s].(alive := false)])
    case Broadcast(b, i, room, outcome) =>
      var snapshot := Members(c.insts[i].rooms, room);
      c.(bus := if outcome.Failed? then c.bus else c.bus + [Item(room, b)],
         sent := c.sent[b := Sent(i, room, outcome, snapshot)],
         fallbacks := if outcome.Appended? then c.fallbacks
                      else c.fallbacks[b := Job(room, snapshot, snapshot, {})])
    case Take(i) =>
      var room := c.bus[c.insts[i].cursor].room;
      var snapshot := Members(c.insts[i].rooms, room);
      WithJob(c, i, Some(Job(room, snapshot, snapshot, {})))
    case Send(i, s) =>
      var x, inst := c.socks[s], c.insts[i];
      var sent := WithJob(c, i, Some(Sending(inst.job.value, s, x.alive)));
      if x.alive then sent.(socks := c.socks[s := x.(got := x.got + [inst.cursor])]) else sent
    case Done(i) =>
      var inst := c.insts[i];
      var job := inst.job.value;
      var rooms := Left(inst.rooms, job.room, job.dead);
      c.(insts := c.insts[i := inst.(rooms := rooms, cursor := inst.cursor + 1, job := None)])
    case LocalSend(b, s) =>
      var x := c.socks[s];
      var sent := c.(fallbacks := c.fallbacks[b := Sending(c.fallbacks[b], s, x.alive)]);
      if x.alive then sent.(socks := c.socks[s := x.(gotLocal := x.gotLocal + [b])]) else sent
    case LocalDone(b) =>
      var job, i := c.fallbacks[b], c.sent[b].inst;
      WithRooms(c, i, Left(c.insts[i].rooms, job.room, job.dead)).(fallbacks := c.fallbacks - {b})
  }

  /** The cluster after a sequence of events; an event that is not enabled does nothing. */
  function After(c: Cluster, events: seq<Event>): Cluster {
    if events == [] then c else
    var before := After(c, events[..|events| - 1]);
    var e := events[|events| - 1];
    if Enabled(before, e) then Step(before, e) else before
  }

  // --- The log of a channel ------------------------------------------------------

  /** The bus positions in [lo, hi) that carry a room's broadcasts, in order. */
  function Segment(bus: seq<Item>, lo: nat, hi: nat, room: RoomId): seq<nat>
    requires hi <= |bus|
  {
    if hi <= lo then [] else
    Segment(bus, lo, hi - 1, room) + (if bus[hi - 1].room == room then [hi - 1] else [])
  }

  predicate StrictlyAscending(g: seq<nat>) {
    forall i, j :: 0 <= i < j < |g| ==> g[i] < g[j]
  }

  /** A segment is contiguous: exactly the room's positions in the range, ascending, each once. */
  lemma {:induction false} SegmentIsExact(bus: seq<Item>, lo: nat, hi: nat, room: RoomId)
    requires hi <= |bus|
    ensures forall k: nat :: k in Segment(bus, lo, hi, room) <==> lo <= k < hi && bus[k].room == room
    ensures StrictlyAscending(Segment(bus, lo, hi, room))
  {
    if lo < hi {
      SegmentIsExact(bus, lo, hi - 1, room);
      if bus[hi - 1].room == room {
        AscendsPast(Segment(bus, lo, hi - 1, room), hi - 1);
      } else {
        assert Segment(bus, lo, hi, room) == Segment(bus, lo, hi - 1, room);
      }
    }
  }

  lemma AscendsPast(g: seq<nat>, k: nat)
    requires StrictlyAscending(g) && forall x :: x in g ==> x < k
    ensures StrictlyAscending(g + [k])
  {
    assert forall i :: 0 <= i < |g| ==> g[i] in g;
  }

  lemma {:induction false} SegmentAppend(bus: seq<Item>, item: Item, lo: nat, hi: nat, room: RoomId)
    requires hi <= |bus|
    ensures Segment(bus + [item], lo, hi, room) == Segment(bus, lo, hi, room)
  {
    if lo < hi {
      SegmentAppend(bus, item, lo, hi - 1, room);
    }
  }

  // --- The invariant ---------------------------------------------------------------

  /** How far a socket has been served: past the position under delivery once its send is done
      or if it is not part of that delivery. */
  function ServedTo(inst: Instance, s: Sock): nat {
    if inst.job.Some? && s !in inst.job.value.pending then inst.cursor + 1 else inst.cursor
  }

  predicate Lives(c: Cluster, s: Sock, i: InstId, room: RoomId) {
    s in c.socks && c.socks[s].inst == i && c.socks[s].room == room
  }

  predicate JobOk(c: Cluster, job: Job, i: InstId) {
    && job.pending <= job.snapshot
    && (forall s :: s in job.snapshot ==> Lives(c, s, i, job.room))
    && (forall s :: s in job.dead ==> s in c.socks && !c.socks[s].alive)
  }

  /** Registered sockets live where they are registered. */
  predicate RoomsOk(c: Cluster, rooms: Rooms, i: InstId) {
    forall r, s :: r in rooms && s in rooms[r] ==> Lives(c, s, i, r)
  }

  predicate InstOk(c: Cluster, i: InstId)
    requires i in c.insts
  {
    var inst := c.insts[i];
    && inst.cursor <= |c.bus|
    && RoomsOk(c, inst.rooms, i)
    && (inst.job.Some? ==>
         && inst.cursor < |c.bus| && c.bus[inst.cursor].room == inst.job.value.room
         && JobOk(c, inst.job.value, i))
  }

  /** A socket still registered: its handler has not ended and no failed send removed it. */
  predicate Connected(c: Cluster, s: Sock) {
    s in c.socks && c.socks[s].inst in c.insts && s in Members(c.insts[c.socks[s].inst].rooms, c.socks[s].room)
  }

  /** What a connected live socket has received over the bus: its channel's segment. */
  predicate BusOk(c: Cluster, s: Sock)
    requires s in c.socks && c.socks[s].inst in c.insts
  {
    var x := c.socks[s];
    var hi := ServedTo(c.insts[x.inst], s);
    x.alive && Connected(c, s) ==> x.joined <= hi <= |c.bus| && x.got == Segment(c.bus, x.joined, hi, x.room)
  }

  /** What any socket, gone or not, has received over the bus: positions of its room, in order, each
      once, and none its instance has yet to serve it. */
  predicate GotOk(c: Cluster, s: Sock)
    requires s in c.socks && c.socks[s].inst in c.insts
  {
    var x := c.socks[s];
    && StrictlyAscending(x.got)
    && forall k :: k in x.got ==> k < |c.bus| && c.bus[k].room == x.room && k < ServedTo(c.insts[x.inst], s)
  }

  /** What any socket has received by fallback: nothing twice, and only broadcasts its own
      instance made to its room when publishing raised. */
  predicate LocalOk(c: Cluster, s: Sock)
    requires s in c.socks
  {
    var x := c.socks[s];
    && (forall i, j :: 0 <= i < j < |x.gotLocal| ==> x.gotLocal[i] != x.gotLocal[j])
    && (forall b :: b in x.gotLocal ==>
          b in c.sent && c.sent[b].inst == x.inst && c.sent[b].room == x.room && !c.sent[b].outcome.Appended?)
  }

  predicate FallbackOk(c: Cluster, b: BroadcastId)
    requires b in c.fallbacks
  {
    var job := c.fallbacks[b];
    && b in c.sent && c.sent[b].inst in c.insts && c.sent[b].room == job.room && !c.sent[b].outcome.Appended?
    && JobOk(c, job, c.sent[b].inst)
    && (forall s :: s in job.pending ==> s in c.socks && b !in c.socks[s].gotLocal)
    && (forall s :: s in job.snapshot - job.pending ==> s in c.socks && (c.socks[s].alive ==> b in c.socks[s].gotLocal))
  }

  /** A fallback is under way to its audience, or has reached all of it that is still alive. */
  predicate AudienceOk(c: Cluster, b: BroadcastId)
    requires b in c.sent
  {
    c.sent[b].outcome.Appended?
    || (if b in c.fallbacks then c.fallbacks[b].snapshot == c.sent[b].audience
        else forall s :: s in c.sent[b].audience ==> s in c.socks && (c.socks[s].alive ==> b in c.socks[s].gotLocal))
  }

  predicate BusIsSent(c: Cluster) {
    && (forall k :: 0 <= k < |c.bus| ==>
          var item := c.bus[k];
          item.id in c.sent && c.sent[item.id].room == item.room && !c.sent[item.id].outcome.Failed?)
    && (forall k, l :: 0 <= k < l < |c.bus| ==> c.bus[k].id != c.bus[l].id)
  }

  ghost predicate Inv(c: Cluster) {
    && (forall i :: i in c.insts ==> InstOk(c, i))
    && (forall s :: s in c.socks ==> c.socks[s].inst in c.insts && BusOk(c, s) && GotOk(c, s) && LocalOk(c, s))
    && (forall b :: b in c.fallbacks ==> FallbackOk(c, b))
    && (forall b :: b in c.sent ==> AudienceOk(c, b))
    && BusIsSent(c)
  }

  /** What no event undoes: where sockets are, that they are dead, and what was sent. */
  ghost predicate Extends(c: Cluster, c': Cluster) {
    && (forall s :: s in c.socks ==>
          s in c'.socks && c'.socks[s].inst == c.socks[s].inst && c'.socks[s].room == c.socks[s].room
          && (c'.socks[s].alive ==> c.socks[s].alive))
    && (forall b :: b in c.sent ==> b in c'.sent && c'.sent[b] == c.sent[b])
    && c.insts.Keys <= c'.insts.Keys
  }

  lemma StepExtends(c: Cluster, e: Event)
    requires Enabled(c, e)
    ensures Extends(c, Step(c, e))
  {
  }

  lemma JobCarries(c: Cluster, c': Cluster, job: Job, i: InstId)
    requires Extends(c, c') && JobOk(c, job, i)
    ensures JobOk(c', job, i)
  {
  }

  lemma SendingIsOk(c: Cluster, c': Cluster, job: Job, i: InstId, s: Sock)
    requires Extends(c, c') && JobOk(c, job, i) && s in c.socks
    ensures JobOk(c', Sending(job, s, c.socks[s].alive), i)
  {
  }

  lemma RoomsCarry(c: Cluster, c': Cluster, rooms: Rooms, i: InstId)
    requires Extends(c, c') && RoomsOk(c, rooms, i)
    ensures RoomsOk(c', rooms, i)
  {
  }

  /** An instance the event does not touch, or touches only in its registry. */
  lemma InstFrame(c: Cluster, c': Cluster, i: InstId)
    requires i in c.insts && i in c'.insts && InstOk(c, i) && Extends(c, c')
    requires c'.insts[i].cursor == c.insts[i].cursor && c'.insts[i].job == c.insts[i].job
    requires RoomsOk(c', c'.insts[i].rooms, i)
    requires |c.bus| <= |c'.bus| && c.bus == c'.bus[..|c.bus|]
    ensures InstOk(c', i)
  {
    if c.insts[i].job.Some? {
      JobCarries(c, c', c.insts[i].job.value, i);
    }
  }

  lemma RoomsStep(c: Cluster, e: Event, i: InstId)
    requires Inv(c) && Enabled(c, e) && i in Step(c, e).insts
    ensures RoomsOk(Step(c, e), Step(c, e).insts[i].rooms, i)
  {
    StepExtends(c, e);
    if i in c.insts {
      assert InstOk(c, i);
      RoomsCarry(c, Step(c, e), c.insts[i].rooms, i);
    }
  }

  lemma InstStep(c: Cluster, e: Event, i: InstId)
    requires Inv(c) && Enabled(c, e) && i in Step(c, e).insts
    ensures InstOk(Step(c, e), i)
  {
    var c' := Step(c, e);
    StepExtends(c, e);
    RoomsStep(c, e, i);
    if i in c.insts {
      assert InstOk(c, i);
      if e.Send? && e.i == i {
        SendingIsOk(c, c', c.insts[i].job.value, i, e.s);
      } else if !((e.Take? || e.Done?) && e.i == i) {
        InstFrame(c, c', i);
      }
    }
  }

  /** Nothing a socket's claim depends on changed, except that it may have died or left. */
  lemma BusFrame(c: Cluster, c': Cluster, s: Sock)
    requires s in c.socks && s in c'.socks && c.socks[s].inst in c.insts && c.socks[s].inst in c'.insts
    requires BusOk(c, s) && Extends(c, c')
    requires c'.socks[s].got == c.socks[s].got && c'.socks[s].joined == c.socks[s].joined
    requires Connected(c', s) ==> Connected(c, s)
    requires ServedTo(c'.insts[c.socks[s].inst], s) == ServedTo(c.insts[c.socks[s].inst], s)
    requires c'.bus == c.bus
    ensures BusOk(c', s)
  {
  }

  lemma BusPublish(c: Cluster, e: Event, s: Sock)
    requires Inv(c) && Enabled(c, e) && e.Broadcast? && s in c.socks
    ensures Step(c, e).socks[s].inst in Step(c, e).insts && BusOk(Step(c, e), s)
  {
    var x := c.socks[s];
    assert BusOk(c, s) && InstOk(c, x.inst);
    var hi := ServedTo(c.insts[x.inst], s);
    if x.alive && Connected(c, s) {
      SegmentAppend(c.bus, Item(e.room, e.b), x.joined, hi, x.room);
    }
  }

  /** Taking a position serves everybody it is not for. */
  lemma BusTake(c: Cluster, e: Event, s: Sock)
    requires Inv(c) && Enabled(c, e) && e.Take? && s in c.socks
    ensures Step(c, e).socks[s].inst in Step(c, e).insts && BusOk(Step(c, e), s)
  {
    var x := c.socks[s];
    var c' := Step(c, e);
    assert BusOk(c, s) && InstOk(c, x.inst) && InstOk(c, e.i);
    if x.inst == e.i && x.alive && Connected(c', s) {
      var k := c.insts[e.i].cursor;
      if c.bus[k].room == x.room {
        assert ServedTo(c'.insts[e.i], s) == k;
      } else {
        assert s !in Members(c.insts[e.i].rooms, c.bus[k].room);
        assert Segment(c.bus, x.joined, k + 1, x.room) == Segment(c.bus, x.joined, k, x.room);
      }
    }
  }

  /** The socket being sent to is served one position further. */
  lemma BusGets(c: Cluster, e: Event)
    requires Inv(c) && Enabled(c, e) && e.Send?
    ensures Step(c, e).socks[e.s].inst in Step(c, e).insts && BusOk(Step(c, e), e.s)
  {
    var x, k := c.socks[e.s], c.insts[e.i].cursor;
    assert BusOk(c, e.s) && InstOk(c, e.i);
    assert Lives(c, e.s, e.i, c.insts[e.i].job.value.room);
    if x.alive && Connected(c, e.s) {
      assert Segment(c.bus, x.joined, k + 1, x.room) == Segment(c.bus, x.joined, k, x.room) + [k];
    }
  }

  lemma BusSend(c: Cluster, e: Event, s: Sock)
    requires Inv(c) && Enabled(c, e) && e.Send? && s in c.socks
    ensures Step(c, e).socks[s].inst in Step(c, e).insts && BusOk(Step(c, e), s)
  {
    if s == e.s {
      BusGets(c, e);
    } else {
      assert BusOk(c, s) && InstOk(c, c.socks[s].inst);
      StepExtends(c, e);
      BusFrame(c, Step(c, e), s);
    }
  }

  lemma BusOther(c: Cluster, e: Event, s: Sock)
    requires Inv(c) && Enabled(c, e) && !(e.Broadcast? || e.Take? || e.Send?) && s in c.socks
    ensures Step(c, e).socks[s].inst in Step(c, e).insts && BusOk(Step(c, e), s)
  {
    assert BusOk(c, s) && InstOk(c, c.socks[s].inst);
    StepExtends(c, e);
    BusFrame(c, Step(c, e), s);
  }

  lemma BusStep(c: Cluster, e: Event, s: Sock)
    requires Inv(c) && Enabled(c, e) && s in Step(c, e).socks
    ensures Step(c, e).socks[s].inst in Step(c, e).insts && BusOk(Step(c, e), s)
  {
    if s !in c.socks {
    } else if e.Broadcast? {
      BusPublish(c, e, s);
    } else if e.Take? {
      BusTake(c, e, s);
    } else if e.Send? {
      BusSend(c, e, s);
    } else {
      BusOther(c, e, s);
    }
  }

  /** A socket that is handed a fallback payload had not got it, and may get it. */
  lemma LocalGets(c: Cluster, e: Event)
    requires Inv(c) && Enabled(c, e) && e.LocalSend?
    ensures LocalOk(Step(c, e), e.s)
  {
    assert LocalOk(c, e.s) && FallbackOk(c, e.b);
    var job := c.fallbacks[e.b];
    assert Lives(c, e.s, c.sent[e.b].inst, job.room);
  }

  /** A socket that gets nothing by fallback now. */
  lemma LocalFrame(c: Cluster, c': Cluster, s: Sock)
    requires s in c.socks && LocalOk(c, s) && Extends(c, c') && c'.socks[s].gotLocal == c.socks[s].gotLocal
    ensures LocalOk(c', s)
  {
  }

  lemma LocalStep(c: Cluster, e: Event, s: Sock)
    requires Inv(c) && Enabled(c, e) && s in Step(c, e).socks
    ensures LocalOk(Step(c, e), s)
  {
    if e.LocalSend? && e.s == s {
      LocalGets(c, e);
    } else if s in c.socks {
      assert LocalOk(c, s);
      StepExtends(c, e);
      LocalFrame(c, Step(c, e), s);
    }
  }

  lemma FallbackSend(c: Cluster, e: Event)
    requires Inv(c) && Enabled(c, e) && e.LocalSend?
    ensures e.b in Step(c, e).fallbacks && FallbackOk(Step(c, e), e.b)
  {
    assert FallbackOk(c, e.b);
    StepExtends(c, e);
    SendingIsOk(c, Step(c, e), c.fallbacks[e.b], c.sent[e.b].inst, e.s);
  }

  /** A fallback delivery the event does not advance. */
  lemma FallbackFrame(c: Cluster, c': Cluster, b: BroadcastId)
    requires b in c.fallbacks && FallbackOk(c, b) && Extends(c, c')
    requires b in c'.fallbacks && c'.fallbacks[b] == c.fallbacks[b]
    requires forall s :: s in c.socks ==> (b in c'.socks[s].gotLocal <==> b in c.socks[s].gotLocal)
    ensures FallbackOk(c', b)
  {
    JobCarries(c, c', c.fallbacks[b], c.sent[b].inst);
  }

  lemma FallbackStep(c: Cluster, e: Event, b: BroadcastId)
    requires Inv(c) && Enabled(c, e) && b in Step(c, e).fallbacks
    ensures FallbackOk(Step(c, e), b)
  {
    StepExtends(c, e);
    if e.LocalSend? && e.b == b {
      FallbackSend(c, e);
    } else if e.Broadcast? && e.b == b {
      FallbackStart(c, e);
    } else {
      FallbackFrame(c, Step(c, e), b);
    }
  }

  lemma FallbackStart(c: Cluster, e: Event)
    requires Inv(c) && Enabled(c, e) && e.Broadcast? && !e.outcome.Appended?
    ensures e.b in Step(c, e).fallbacks && FallbackOk(Step(c, e), e.b)
  {
    assert InstOk(c, e.i);
    forall s | s in Members(c.insts[e.i].rooms, e.room)
      ensures Lives(c, s, e.i, e.room) && e.b !in c.socks[s].gotLocal
    {
      assert LocalOk(c, s);
    }
  }

  lemma AudienceStep(c: Cluster, e: Event, b: BroadcastId)
    requires Inv(c) && Enabled(c, e) && b in Step(c, e).sent
    ensures AudienceOk(Step(c, e), b)
  {
    if b in c.sent {
      assert AudienceOk(c, b);
      if b in c.fallbacks {
        assert FallbackOk(c, b);
      }
    }
  }

  lemma SentStep(c: Cluster, e: Event)
    requires Inv(c) && Enabled(c, e)
    ensures BusIsSent(Step(c, e))
  {
  }

  /** Nothing new, and no less served. */
  lemma GotFrame(c: Cluster, c': Cluster, s: Sock)
    requires s in c.socks && s in c'.socks && c.socks[s].inst in c.insts && c.socks[s].inst in c'.insts
    requires GotOk(c, s) && Extends(c, c') && c'.socks[s].got == c.socks[s].got
    requires ServedTo(c'.insts[c.socks[s].inst], s) >= ServedTo(c.insts[c.socks[s].inst], s)
    requires |c.bus| <= |c'.bus| && c.bus == c'.bus[..|c.bus|]
    ensures GotOk(c', s)
  {
    assert forall k :: 0 <= k < |c.bus| ==> c'.bus[k] == c.bus[k];
  }

  lemma ServedForward(c: Cluster, e: Event, s: Sock)
    requires Inv(c) && Enabled(c, e) && s in c.socks && c.socks[s].inst in c.insts
    ensures c.socks[s].inst in Step(c, e).insts
    ensures ServedTo(Step(c, e).insts[c.socks[s].inst], s) >= ServedTo(c.insts[c.socks[s].inst], s)
    ensures |c.bus| <= |Step(c, e).bus| && c.bus == Step(c, e).bus[..|c.bus|]
  {
  }

  /** The position a socket is sent is past all it has received. */
  lemma GotSent(c: Cluster, e: Event)
    requires Inv(c) && Enabled(c, e) && e.Send?
    ensures Step(c, e).socks[e.s].inst in Step(c, e).insts && GotOk(Step(c, e), e.s)
  {
    assert InstOk(c, e.i);
    assert Lives(c, e.s, e.i, c.insts[e.i].job.value.room);
    assert GotOk(c, e.s);
    if c.socks[e.s].alive {
      AscendsPast(c.socks[e.s].got, c.insts[e.i].cursor);
    }
  }

  lemma GotStep(c: Cluster, e: Event, s: Sock)
    requires Inv(c) && Enabled(c, e) && s in Step(c, e).socks
    ensures Step(c, e).socks[s].inst in Step(c, e).insts && GotOk(Step(c, e), s)
  {
    if s in c.socks {
      if e.Send? && e.s == s {
        GotSent(c, e);
      } else {
        assert GotOk(c, s);
        StepExtends(c, e);
        ServedForward(c, e, s);
        GotFrame(c, Step(c, e), s);
      }
    }
  }

  lemma {:induction false} StepKeepsInv(c: Cluster, e: Event)
    requires Inv(c) && Enabled(c, e)
    ensures Inv(Step(c, e))
  {
    var c' := Step(c, e);
    forall i | i in c'.insts ensures InstOk(c', i) { InstStep(c, e, i); }
    forall s | s in c'.socks ensures c'.socks[s].inst in c'.insts && BusOk(c', s) && GotOk(c', s) && LocalOk(c', s) {
      BusStep(c, e, s);
      GotStep(c, e, s);
      LocalStep(c, e, s);
    }
    forall b | b in c'.fallbacks ensures FallbackOk(c', b) { FallbackStep(c, e, b); }
    forall b | b in c'.sent ensures AudienceOk(c', b) { AudienceStep(c, e, b); }
    SentStep(c, e);
  }

  lemma {:induction false} RunKeepsInv(events: seq<Event>)
    ensures Inv(After(EMPTY, events))
  {
    if events != [] {
      var n := |events| - 1;
      RunKeepsInv(events[..n]);
      if Enabled(After(EMPTY, events[..n]), events[n]) {
        StepKeepsInv(After(EMPTY, events[..n]), events[n]);
      }
    }
  }

  // --- What every interleaving guarantees -------------------------------------------

  /** Cluster fan-out: under every interleaving, a socket that is still connected and alive has
      received over the bus exactly its channel's positions from its join point to where its
      instance has served it: all of them, in bus order, none twice. */
  lemma DeliversTheSegment(events: seq<Event>, s: Sock)
    requires var c := After(EMPTY, events); Connected(c, s) && c.socks[s].alive
    ensures var c := After(EMPTY, events);
      var x := c.socks[s];
      var hi := ServedTo(c.insts[x.inst], s);
      && x.joined <= hi <= |c.bus|
      && StrictlyAscending(x.got)
      && (forall k: nat :: k in x.got <==> x.joined <= k < hi && c.bus[k].room == x.room)
  {
    RunKeepsInv(events);
    var c := After(EMPTY, events);
    assert BusOk(c, s);
    SegmentIsExact(c.bus, c.socks[s].joined, ServedTo(c.insts[c.socks[s].inst], s), c.socks[s].room);
  }

  /** At most once, for good: every socket, dead, disconnected or not, has received over the bus only
      its channel's positions, in bus order, none twice. */
  lemma BusAtMostOnce(events: seq<Event>, s: Sock)
    requires s in After(EMPTY, events).socks
    ensures var c := After(EMPTY, events);
      var x := c.socks[s];
      && StrictlyAscending(x.got)
      && (forall k :: k in x.got ==> k < |c.bus| && c.bus[k].room == x.room)
  {
    RunKeepsInv(events);
    assert GotOk(After(EMPTY, events), s);
  }

  /** Fallback: no socket receives a broadcast twice that way, and only sockets of the instance
      and room it was made for receive it at all. */
  lemma FallbackAtMostOnce(events: seq<Event>, s: Sock)
    requires s in After(EMPTY, events).socks
    ensures var c := After(EMPTY, events);
      var x := c.socks[s];
      && (forall i, j :: 0 <= i < j < |x.gotLocal| ==> x.gotLocal[i] != x.gotLocal[j])
      && (forall b :: b in x.gotLocal ==> b in c.sent && c.sent[b].inst == x.inst && c.sent[b].room == x.room)
  {
    RunKeepsInv(events);
    assert LocalOk(After(EMPTY, events), s);
  }

  lemma {:induction false} RunExtends(events: seq<Event>, n: nat)
    requires n <= |events|
    ensures Extends(After(EMPTY, events[..n]), After(EMPTY, events))
  {
    if n == |events| {
      assert events[..n] == events;
    } else {
      var front := events[..|events| - 1];
      RunExtends(front, n);
      assert front[..n] == events[..n];
      if Enabled(After(EMPTY, front), events[|events| - 1]) {
        StepExtends(After(EMPTY, front), events[|events| - 1]);
      }
    }
  }

  /** A fallback is complete: once the delivery of a broadcast whose publish raised is no longer
      under way, every socket that was connected to the room on its instance when the broadcast
      was made, and is still alive, has received it. */
  lemma FallbackCompletes(events: seq<Event>, n: nat, s: Sock)
    requires n < |events| && events[n].Broadcast? && !events[n].outcome.Appended?
    requires Enabled(After(EMPTY, events[..n]), events[n])
    requires s in Members(After(EMPTY, events[..n]).insts[events[n].i].rooms, events[n].room)
    ensures var c := After(EMPTY, events);
      s in c.socks && (events[n].b !in c.fallbacks && c.socks[s].alive ==> events[n].b in c.socks[s].gotLocal)
  {
    var b := events[n].b;
    assert events[..n + 1][..n] == events[..n];
    assert s in After(EMPTY, events[..n + 1]).sent[b].audience;
    RunExtends(events, n + 1);
    RunKeepsInv(events);
    var c := After(EMPTY, events);
    assert AudienceOk(c, b);
    if b in c.fallbacks {
      assert FallbackOk(c, b);
    }
  }

  /** One delivery path: a socket, connected or gone, has received a broadcast both over the bus and
      by fallback only if its publish reached the bus and raised all the same. */
  lemma NeverBothPaths(events: seq<Event>, s: Sock, k: nat)
    requires var c := After(EMPTY, events); s in c.socks && k in c.socks[s].got
    ensures var c := After(EMPTY, events);
      k < |c.bus| && c.bus[k].id in c.sent
      && (c.bus[k].id in c.socks[s].gotLocal ==> c.sent[c.bus[k].id].outcome.LostReply?)
  {
    RunKeepsInv(events);
    BusAtMostOnce(events, s);
    assert LocalOk(After(EMPTY, events), s);
  }

  /** A run in which the reply to a publish is lost, event by event and state by state. */
  function LossyEvent(n: nat): Event {
    if n == 0 then StartInstance(0, true)
    else if n == 1 then Connect(1, 0, 7)
    else if n == 2 then Broadcast(5, 0, 7, LostReply)
    else if n == 3 then LocalSend(5, 1)
    else if n == 4 then Take(0)
    else Send(0, 1)
  }

  function LossyState(n: nat): Cluster {
    var todo, done := Job(7, {1}, {1}, {}), Job(7, {1}, {}, {});
    if n == 0 then EMPTY else Cluster(
      if n >= 3 then [Item(7, 5)] else [],
      map[0 := Instance(if n >= 2 then map[7 := {1}] else map[], true, 0,
                        if n >= 6 then Some(done) else if n >= 5 then Some(todo) else None)],
      if n >= 2 then map[1 := SockInfo(0, 7, 0, true, if n >= 6 then [0] else [], if n >= 4 then [5] else [])]
      else map[],
      if n >= 3 then map[5 := Sent(0, 7, LostReply, {1})] else map[],
      if n >= 4 then map[5 := done] else if n >= 3 then map[5 := todo] else map[])
  }

  lemma LossyStart(n: nat)
    requires n < 3
    ensures Enabled(LossyState(n), LossyEvent(n)) && Step(LossyState(n), LossyEvent(n)) == LossyState(n + 1)
  {
    if n == 1 {
      assert Members(map[], 7) + {1} == {1};
      assert Joined(map[], 7, 1) == map[7 := {1}];
    } else if n == 2 {
      assert [] + [Item(7, 5)] == [Item(7, 5)];
    }
  }

  lemma LossyDelivery(n: nat)
    requires 3 <= n < 6
    ensures Enabled(LossyState(n), LossyEvent(n)) && Step(LossyState(n), LossyEvent(n)) == LossyState(n + 1)
  {
    if n == 3 {
      assert Sending(LossyState(3).fallbacks[5], 1, true) == Job(7, {1}, {}, {}) by { assert {1} - {1} == {}; }
      assert [] + [5] == [5];
    } else if n == 4 {
      assert LossyState(4).bus[0].room == 7;
    } else {
      assert Sending(LossyState(5).insts[0].job.value, 1, true) == Job(7, {1}, {}, {}) by { assert {1} - {1} == {}; }
      assert [] + [0] == [0];
    }
  }

  function LossyRun(n: nat): seq<Event> {
    if n == 0 then [] else LossyRun(n - 1) + [LossyEvent(n - 1)]
  }

  lemma {:induction false} LossyRunStates(n: nat)
    requires n <= 6
    ensures After(EMPTY, LossyRun(n)) == LossyState(n)
  {
    if n > 0 {
      LossyRunStates(n - 1);
      if n <= 3 {
        LossyStart(n - 1);
      } else {
        LossyDelivery(n - 1);
      }
      assert LossyRun(n)[..|LossyRun(n)| - 1] == LossyRun(n - 1);
    }
  }

  /** Every broadcast of the sequence whose outcome is in question went one of these ways. */
  predicate OutcomesIn(events: seq<Event>, allowed: set<Outcome>) {
    forall i :: 0 <= i < |events| && events[i].Broadcast? ==> events[i].outcome in allowed
  }

  ghost predicate SentIn(c: Cluster, allowed: set<Outcome>) {
    forall b :: b in c.sent ==> c.sent[b].outcome in allowed
  }

  lemma SentStays(c: Cluster, e: Event, allowed: set<Outcome>)
    requires SentIn(c, allowed) && Enabled(c, e) && (e.Broadcast? ==> e.outcome in allowed)
    ensures SentIn(Step(c, e), allowed)
  {
  }

  lemma {:induction false} SentOutcomes(events: seq<Event>, allowed: set<Outcome>)
    requires OutcomesIn(events, allowed)
    ensures SentIn(After(EMPTY, events), allowed)
  {
    if events != [] {
      var n := |events| - 1;
      SentOutcomes(events[..n], allowed);
      if Enabled(After(EMPTY, events[..n]), events[n]) {
        SentStays(After(EMPTY, events[..n]), events[n], allowed);
      }
    }
  }

  lemma {:induction false} LossyOutcomes(n: nat)
    requires n <= 6
    ensures OutcomesIn(LossyRun(n), {LostReply})
  {
    if n > 0 {
      LossyOutcomes(n - 1);
      var front, e := LossyRun(n - 1), LossyEvent(n - 1);
      assert LossyRun(n) == front + [e];
      forall i | 0 <= i < |front + [e]| && (front + [e])[i].Broadcast?
        ensures (front + [e])[i].outcome in {LostReply}
      {
        if i < |front| {
          assert (front + [e])[i] == front[i];
        } else {
          assert (front + [e])[i] == e;
        }
      }
    }
  }

  /** A socket has received a broadcast more than once, over the bus, by fallback, or by both. */
  ghost predicate Twice(c: Cluster, s: Sock, b: BroadcastId) {
    && s in c.socks
    && var x := c.socks[s];
       || (exists i, j :: 0 <= i < j < |x.got| && OnBus(c, x.got[i], b) && OnBus(c, x.got[j], b))
       || (exists i, j :: 0 <= i < j < |x.gotLocal| && x.gotLocal[i] == b && x.gotLocal[j] == b)
       || (exists k :: k in x.got && OnBus(c, k, b) && b in x.gotLocal)
  }

  predicate OnBus(c: Cluster, k: nat, b: BroadcastId) {
    k < |c.bus| && c.bus[k].id == b
  }

  /** In any run only a lost reply makes a socket receive a broadcast twice, and by both paths. */
  lemma OnlyBothPaths(events: seq<Event>, s: Sock, b: BroadcastId)
    requires Twice(After(EMPTY, events), s, b)
    ensures b in After(EMPTY, events).sent && After(EMPTY, events).sent[b].outcome.LostReply?
  {
    RunKeepsInv(events);
    BusAtMostOnce(events, s);
    FallbackAtMostOnce(events, s);
    var c := After(EMPTY, events);
    var k :| k in c.socks[s].got && OnBus(c, k, b) && b in c.socks[s].gotLocal;
    NeverBothPaths(events, s, k);
  }

  /** No run whose publishes go only these ways ever gives any socket a broadcast twice. */
  ghost predicate NeverTwice(allowed: set<Outcome>) {
    forall events, s, b :: OutcomesIn(events, allowed) ==> !Twice(After(EMPTY, events), s, b)
  }

  /** A lost reply can deliver twice: the fallback and the listener both send the broadcast to the
      same connected socket. */
  lemma LostReplyDuplicates()
    ensures Duplicated(After(EMPTY, LossyRun(6)), 1, 0)
  {
    LossyRunStates(6);
    assert Duplicated(LossyState(6), 1, 0);
  }

  /** The documented rule, one delivery path and no duplicates, holds exactly as long as a publish
      never raises after it took effect. */
  lemma NeverTwiceExactly(allowed: set<Outcome>)
    ensures NeverTwice(allowed) <==> LostReply !in allowed
  {
    if LostReply in allowed {
      LossyOutcomes(6);
      LostReplyDuplicates();
      var run := LossyRun(6);
      var c := After(EMPTY, run);
      assert OutcomesIn(run, allowed) && Duplicated(c, 1, 0);
      assert OnBus(c, 0, c.bus[0].id) && Twice(c, 1, c.bus[0].id);
    } else {
      forall events, s, b | OutcomesIn(events, allowed)
        ensures !Twice(After(EMPTY, events), s, b)
      {
        SentOutcomes(events, allowed);
        if Twice(After(EMPTY, events), s, b) {
          OnlyBothPaths(events, s, b);
        }
      }
    }
  }

  /** A socket has the broadcast at bus position `k` by both paths. */
  predicate Duplicated(c: Cluster, s: Sock, k: nat) {
    && s in c.socks && k < |c.bus|
    && k in c.socks[s].got && c.bus[k].id in c.socks[s].gotLocal
  }
}
