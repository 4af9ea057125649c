/** Where a socket's broadcasts begin and end over a whole run: at the start of its instance, at its
    own connect, at its disconnect, and at its death. */
module FanOutRun {
  import opened Registry
  import opened FanOut

  // --- Nothing from before ---------------------------------------------------------

  predicate NoneBelow(got: seq<nat>, from: nat) {
    forall k :: k in got ==> k >= from
  }

  /** The instance is past `from`, and none of its sockets was sent an earlier position. */
  ghost predicate ServesFrom(c: Cluster, i: InstId, from: nat) {
    && i in c.insts && from <= c.insts[i].cursor
    && forall s :: s in c.socks && c.socks[s].inst == i ==> NoneBelow(c.socks[s].got, from)
  }

  lemma FreshServesFrom(c: Cluster, e: FanOut.Event)
    requires Inv(c) && Enabled(c, e) && e.StartInstance?
    ensures ServesFrom(Step(c, e), e.i, |c.bus|)
  {
  }

  lemma ServesFromSends(c: Cluster, e: FanOut.Event, i: InstId, from: nat)
    requires Inv(c) && Enabled(c, e) && e.Send? && ServesFrom(c, i, from)
    ensures ServesFrom(Step(c, e), i, from)
  {
    assert InstOk(c, e.i);
    assert Lives(c, e.s, e.i, c.insts[e.i].job.value.room);
    assert c.socks[e.s].inst == i ==> NoneBelow(c.socks[e.s].got, from);
  }

  lemma ServesFromStays(c: Cluster, e: FanOut.Event, i: InstId, from: nat)
    requires Inv(c) && Enabled(c, e) && ServesFrom(c, i, from)
    ensures ServesFrom(Step(c, e), i, from)
  {
    if e.Send? {
      ServesFromSends(c, e, i, from);
    }
  }

  lemma {:induction false} ServesFromOn(events: seq<FanOut.Event>, n: nat)
    requires n < |events| && events[n].StartInstance? && Enabled(After(EMPTY, events[..n]), events[n])
    ensures ServesFrom(After(EMPTY, events), events[n].i, |After(EMPTY, events[..n]).bus|)
  {
    var last := |events| - 1;
    var front, e := events[..last], events[last];
    RunKeepsInv(front);
    if n == last {
      FreshServesFrom(After(EMPTY, front), e);
    } else {
      assert front[..n] == events[..n];
      ServesFromOn(front, n);
      if Enabled(After(EMPTY, front), e) {
        ServesFromStays(After(EMPTY, front), e, events[n].i, |After(EMPTY, events[..n]).bus|);
      }
    }
  }

  /** A new instance listens from the present on: whatever happens later, its sockets only ever
      receive broadcasts published after it subscribed. */
  lemma NothingFromBeforeStart(events: seq<FanOut.Event>, n: nat, s: Sock, k: nat)
    requires n < |events| && events[n].StartInstance? && Enabled(After(EMPTY, events[..n]), events[n])
    requires var c := After(EMPTY, events); s in c.socks && c.socks[s].inst == events[n].i && k in c.socks[s].got
    ensures k >= |After(EMPTY, events[..n]).bus|
  {
    ServesFromOn(events, n);
    assert NoneBelow(After(EMPTY, events).socks[s].got, |After(EMPTY, events[..n]).bus|);
  }

  /** A socket is sent nothing from before its join point, its instance's next delivery is at or past
      that point, and so is the delivery under way if the socket is part of it. */
  predicate JoinOk(c: Cluster, s: Sock)
    requires s in c.socks
  {
    var x := c.socks[s];
    && x.inst in c.insts
    && x.joined <= JoinPoint(c.insts[x.inst])
    && (c.insts[x.inst].job.Some? && s in c.insts[x.inst].job.value.snapshot ==> x.joined <= c.insts[x.inst].cursor)
    && NoneBelow(x.got, x.joined)
  }

  lemma JoinSends(c: Cluster, e: FanOut.Event, s: Sock)
    requires Inv(c) && Enabled(c, e) && e.Send? && s in c.socks && JoinOk(c, s)
    ensures JoinOk(Step(c, e), s)
  {
    assert InstOk(c, e.i);
    assert Lives(c, e.s, e.i, c.insts[e.i].job.value.room);
  }

  lemma JoinTakes(c: Cluster, e: FanOut.Event, s: Sock)
    requires Enabled(c, e) && e.Take? && s in c.socks && JoinOk(c, s)
    ensures JoinOk(Step(c, e), s)
  {
  }

  lemma JoinStays(c: Cluster, e: FanOut.Event, s: Sock)
    requires Enabled(c, e) && !(e.Send? || e.Take?) && s in c.socks && JoinOk(c, s)
    ensures JoinOk(Step(c, e), s)
  {
    assert Step(c, e).socks[s].got == c.socks[s].got && Step(c, e).socks[s].joined == c.socks[s].joined;
  }

  lemma JoinStarts(c: Cluster, e: FanOut.Event)
    requires Inv(c) && Enabled(c, e) && e.Connect?
    ensures JoinOk(Step(c, e), e.s)
  {
    assert InstOk(c, e.i);
  }

  lemma JoinStep(c: Cluster, e: FanOut.Event, s: Sock)
    requires Inv(c) && Enabled(c, e) && s in Step(c, e).socks && (s in c.socks ==> JoinOk(c, s))
    ensures JoinOk(Step(c, e), s)
  {
    if s !in c.socks {
      JoinStarts(c, e);
    } else if e.Send? {
      JoinSends(c, e, s);
    } else if e.Take? {
      JoinTakes(c, e, s);
    } else {
      JoinStays(c, e, s);
    }
  }

  lemma {:induction false} JoinHolds(events: seq<FanOut.Event>, s: Sock)
    requires s in After(EMPTY, events).socks
    ensures JoinOk(After(EMPTY, events), s)
  {
    if events != [] {
      var n := |events| - 1;
      if s in After(EMPTY, events[..n]).socks {
        JoinHolds(events[..n], s);
      }
      if Enabled(After(EMPTY, events[..n]), events[n]) {
        RunKeepsInv(events[..n]);
        JoinStep(After(EMPTY, events[..n]), events[n], s);
      }
    }
  }

  lemma JoinedStays(c: Cluster, e: FanOut.Event, s: Sock)
    requires Enabled(c, e) && s in c.socks
    ensures s in Step(c, e).socks && Step(c, e).socks[s].joined == c.socks[s].joined
    ensures Step(c, e).socks[s].inst == c.socks[s].inst && Step(c, e).socks[s].room == c.socks[s].room
  {
  }

  predicate JoinedAt(c: Cluster, e: FanOut.Event, joined: nat)
    requires e.Connect?
  {
    e.s in c.socks && c.socks[e.s].inst == e.i && c.socks[e.s].room == e.room && c.socks[e.s].joined == joined
  }

  lemma {:induction false} JoinedAtConnect(events: seq<FanOut.Event>, n: nat)
    requires n < |events| && events[n].Connect? && Enabled(After(EMPTY, events[..n]), events[n])
    ensures JoinedAt(After(EMPTY, events), events[n], JoinPoint(After(EMPTY, events[..n]).insts[events[n].i]))
  {
    var last := |events| - 1;
    var front := events[..last];
    if n < last {
      assert front[..n] == events[..n];
      JoinedAtConnect(front, n);
      if Enabled(After(EMPTY, front), events[last]) {
        JoinedStays(After(EMPTY, front), events[last], events[n].s);
      }
    }
  }

  /** A socket is served from its connect on: over the bus it only ever receives positions its
      instance had not begun to deliver then; if the instance was idle and had delivered the whole
      bus, only what is published later. As long as it is connected and alive it has received all
      of them that are for its room and that its instance has delivered. */
  lemma ServedFromConnect(events: seq<FanOut.Event>, n: nat, k: nat)
    requires n < |events| && events[n].Connect? && Enabled(After(EMPTY, events[..n]), events[n])
    ensures var e, was, c := events[n], After(EMPTY, events[..n]), After(EMPTY, events);
      var inst := was.insts[e.i];
      && e.s in c.socks && c.socks[e.s].inst == e.i && e.i in c.insts
      && (k in c.socks[e.s].got ==>
           k >= inst.cursor && (inst.job.Some? ==> k > inst.cursor) && k < |c.bus| && c.bus[k].room == e.room)
      && (k in c.socks[e.s].got && inst.job.None? && inst.cursor == |was.bus| ==> k >= |was.bus|)
      && (Connected(c, e.s) && c.socks[e.s].alive && |was.bus| <= k < |c.bus| && k < ServedTo(c.insts[e.i], e.s) ==>
           (k in c.socks[e.s].got <==> c.bus[k].room == e.room))
  {
    var e := events[n];
    JoinedAtConnect(events, n);
    JoinHolds(events, e.s);
    BusAtMostOnce(events, e.s);
    RunKeepsInv(events[..n]);
    assert InstOk(After(EMPTY, events[..n]), e.i);
    if Connected(After(EMPTY, events), e.s) && After(EMPTY, events).socks[e.s].alive {
      DeliversTheSegment(events, e.s);
    }
  }

  // --- Nothing from after ----------------------------------------------------------

  /** A delivery that has yet to reach the socket. */
  predicate Owed(inst: Instance, s: Sock) {
    inst.job.Some? && s in inst.job.value.pending
  }

  predicate OwedLocal(c: Cluster, s: Sock, b: BroadcastId) {
    b in c.fallbacks && s in c.fallbacks[b].pending
  }

  /** Since `was` the socket is out of the registry, and was sent at most what was already on its way. */
  ghost predicate GoneSince(was: Cluster, c: Cluster, s: Sock) {
    && s in was.socks && s in c.socks && c.socks[s].inst == was.socks[s].inst && c.socks[s].inst in was.insts
    && !Connected(c, s)
    && BusSince(was, c, s) && LocalSince(was, c, s)
  }

  ghost predicate BusSince(was: Cluster, c: Cluster, s: Sock)
    requires s in was.socks && s in c.socks && c.socks[s].inst in was.insts
  {
    var before := was.insts[c.socks[s].inst];
    && c.socks[s].inst in c.insts
    && (Owed(c.insts[c.socks[s].inst], s) ==> Owed(before, s) && c.insts[c.socks[s].inst].cursor == before.cursor)
    && (forall k :: k in c.socks[s].got ==> k in was.socks[s].got || (Owed(before, s) && k == before.cursor))
  }

  ghost predicate LocalSince(was: Cluster, c: Cluster, s: Sock)
    requires s in was.socks && s in c.socks
  {
    && (forall b :: OwedLocal(c, s, b) ==> OwedLocal(was, s, b))
    && (forall b :: b in c.socks[s].gotLocal ==> b in was.socks[s].gotLocal || OwedLocal(was, s, b))
  }

  lemma StaysOut(c: Cluster, e: FanOut.Event, s: Sock)
    requires Enabled(c, e) && s in c.socks && c.socks[s].inst in c.insts && !Connected(c, s)
    ensures !Connected(Step(c, e), s)
  {
  }

  /** Nobody who is out of the registry is in a new snapshot. */
  lemma NotInSnapshot(c: Cluster, s: Sock, i: InstId, room: RoomId)
    requires Inv(c) && i in c.insts && s in c.socks && !Connected(c, s)
    ensures s !in Members(c.insts[i].rooms, room)
  {
    assert InstOk(c, i);
    assert s in Members(c.insts[i].rooms, room) ==> Lives(c, s, i, room);
  }

  lemma BusSinceTake(was: Cluster, c: Cluster, e: FanOut.Event, s: Sock)
    requires Inv(c) && Enabled(c, e) && e.Take? && GoneSince(was, c, s)
    ensures BusSince(was, Step(c, e), s)
  {
    NotInSnapshot(c, s, e.i, c.bus[c.insts[e.i].cursor].room);
  }

  lemma BusSinceSend(was: Cluster, c: Cluster, e: FanOut.Event, s: Sock)
    requires Inv(c) && Enabled(c, e) && e.Send? && GoneSince(was, c, s)
    ensures BusSince(was, Step(c, e), s)
  {
    assert InstOk(c, e.i);
    assert Lives(c, e.s, e.i, c.insts[e.i].job.value.room);
  }

  lemma BusSinceOther(was: Cluster, c: Cluster, e: FanOut.Event, s: Sock)
    requires Enabled(c, e) && !(e.Take? || e.Send?) && GoneSince(was, c, s)
    ensures BusSince(was, Step(c, e), s)
  {
    assert Step(c, e).socks[s].got == c.socks[s].got;
  }

  lemma BusSinceStep(was: Cluster, c: Cluster, e: FanOut.Event, s: Sock)
    requires Inv(c) && Enabled(c, e) && GoneSince(was, c, s)
    ensures s in Step(c, e).socks && Step(c, e).socks[s].inst == c.socks[s].inst && BusSince(was, Step(c, e), s)
  {
    if e.Take? {
      BusSinceTake(was, c, e, s);
    } else if e.Send? {
      BusSinceSend(was, c, e, s);
    } else {
      BusSinceOther(was, c, e, s);
    }
  }

  lemma LocalSinceStep(was: Cluster, c: Cluster, e: FanOut.Event, s: Sock)
    requires Inv(c) && Enabled(c, e) && GoneSince(was, c, s)
    ensures s in Step(c, e).socks && LocalSince(was, Step(c, e), s)
  {
    if e.Broadcast? {
      NotInSnapshot(c, s, e.i, e.room);
    }
  }

  lemma GoneStep(was: Cluster, c: Cluster, e: FanOut.Event, s: Sock)
    requires Inv(c) && Enabled(c, e) && GoneSince(was, c, s)
    ensures GoneSince(was, Step(c, e), s)
  {
    BusSinceStep(was, c, e, s);
    LocalSinceStep(was, c, e, s);
    StaysOut(c, e, s);
  }

  lemma GoneNow(c: Cluster, e: FanOut.Event)
    requires Inv(c) && Enabled(c, e) && e.Disconnect?
    ensures GoneSince(c, Step(c, e), e.s)
  {
  }

  lemma {:induction false} GoneAfter(events: seq<FanOut.Event>, n: nat)
    requires n < |events| && events[n].Disconnect? && Enabled(After(EMPTY, events[..n]), events[n])
    ensures GoneSince(After(EMPTY, events[..n]), After(EMPTY, events), events[n].s)
  {
    var last := |events| - 1;
    var front := events[..last];
    RunKeepsInv(front);
    if n == last {
      GoneNow(After(EMPTY, front), events[last]);
    } else {
      assert front[..n] == events[..n];
      GoneAfter(front, n);
      if Enabled(After(EMPTY, front), events[last]) {
        GoneStep(After(EMPTY, events[..n]), After(EMPTY, front), events[last], events[n].s);
      }
    }
  }

  /** After its disconnect a socket is never registered again, and is sent at most the one bus
      position and the fallback broadcasts whose delivery was under way to it at that time. */
  lemma OnlyWhatWasUnderWay(events: seq<FanOut.Event>, n: nat, k: nat, b: BroadcastId)
    requires n < |events| && events[n].Disconnect? && Enabled(After(EMPTY, events[..n]), events[n])
    ensures var s, was, c := events[n].s, After(EMPTY, events[..n]), After(EMPTY, events);
      && s in c.socks && !Connected(c, s)
      && (k in c.socks[s].got && k !in was.socks[s].got ==>
           Owed(was.insts[was.socks[s].inst], s) && k == was.insts[was.socks[s].inst].cursor)
      && (b in c.socks[s].gotLocal && b !in was.socks[s].gotLocal ==> OwedLocal(was, s, b))
  {
    GoneAfter(events, n);
  }

  // --- The dead ------------------------------------------------------------------------

  predicate SameReceived(was: Cluster, c: Cluster, s: Sock) {
    && s in was.socks && s in c.socks && !c.socks[s].alive
    && c.socks[s].got == was.socks[s].got && c.socks[s].gotLocal == was.socks[s].gotLocal
  }

  lemma DeadStep(was: Cluster, c: Cluster, e: FanOut.Event, s: Sock)
    requires Enabled(c, e) && SameReceived(was, c, s)
    ensures SameReceived(was, Step(c, e), s)
  {
  }

  /** A dead socket receives nothing more. */
  lemma {:induction false} DeadReceiveNothing(events: seq<FanOut.Event>, n: nat, s: Sock)
    requires n <= |events| && s in After(EMPTY, events[..n]).socks && !After(EMPTY, events[..n]).socks[s].alive
    ensures SameReceived(After(EMPTY, events[..n]), After(EMPTY, events), s)
  {
    if n == |events| {
      assert events[..n] == events;
    } else {
      var last := |events| - 1;
      var front := events[..last];
      assert front[..n] == events[..n];
      DeadReceiveNothing(front, n, s);
      if Enabled(After(EMPTY, front), events[last]) {
        DeadStep(After(EMPTY, events[..n]), After(EMPTY, front), events[last], s);
      }
    }
  }

  /** A delivery has found a socket dead, or will: it is out, or on its way out. */
  predicate Doomed(job: Job, s: Sock) {
    s in job.pending || s in job.dead
  }

  /** The delivery of position `k` to the dead socket is under way, or the socket is out. */
  ghost predicate Condemned(c: Cluster, i: InstId, room: RoomId, k: nat, s: Sock) {
    && Lives(c, s, i, room) && i in c.insts && !c.socks[s].alive
    && (!Connected(c, s)
        || (c.insts[i].cursor == k && c.insts[i].job.Some? && c.insts[i].job.value.room == room
            && Doomed(c.insts[i].job.value, s)))
  }

  /** The delivery that found it dead ends, and it is out. */
  lemma CondemnedEnds(c: Cluster, e: FanOut.Event, room: RoomId, k: nat, s: Sock)
    requires Inv(c) && Enabled(c, e) && e.Done? && Condemned(c, e.i, room, k, s) && Connected(c, s)
    ensures Condemned(Step(c, e), e.i, room, k, s)
  {
    assert s !in Members(Step(c, e).insts[e.i].rooms, room);
  }

  lemma CondemnedWaits(c: Cluster, e: FanOut.Event, i: InstId, room: RoomId, k: nat, s: Sock)
    requires Enabled(c, e) && e != Done(i) && Condemned(c, i, room, k, s) && Connected(c, s)
    ensures Condemned(Step(c, e), i, room, k, s)
  {
    var c' := Step(c, e);
    assert c'.insts[i].cursor == c.insts[i].cursor && c'.insts[i].job.Some?;
    assert Doomed(c'.insts[i].job.value, s);
  }

  lemma CondemnedStep(c: Cluster, e: FanOut.Event, i: InstId, room: RoomId, k: nat, s: Sock)
    requires Inv(c) && Enabled(c, e) && Condemned(c, i, room, k, s)
    ensures Condemned(Step(c, e), i, room, k, s)
  {
    if !Connected(c, s) {
      StepExtends(c, e);
      StaysOut(c, e, s);
    } else if e == Done(i) {
      CondemnedEnds(c, e, room, k, s);
    } else {
      CondemnedWaits(c, e, i, room, k, s);
    }
  }

  lemma CondemnedTaken(c: Cluster, e: FanOut.Event, s: Sock)
    requires Inv(c) && Enabled(c, e) && e.Take?
    requires s in Members(c.insts[e.i].rooms, c.bus[c.insts[e.i].cursor].room) && s in c.socks && !c.socks[s].alive
    ensures Condemned(Step(c, e), e.i, c.bus[c.insts[e.i].cursor].room, c.insts[e.i].cursor, s)
  {
    assert InstOk(c, e.i);
    assert Lives(c, s, e.i, c.bus[c.insts[e.i].cursor].room);
  }

  lemma {:induction false} CondemnedOn(events: seq<FanOut.Event>, n: nat, s: Sock)
    requires n < |events| && events[n].Take? && Enabled(After(EMPTY, events[..n]), events[n])
    requires var e, c := events[n], After(EMPTY, events[..n]);
      s in Members(c.insts[e.i].rooms, c.bus[c.insts[e.i].cursor].room) && s in c.socks && !c.socks[s].alive
    ensures var e, c := events[n], After(EMPTY, events[..n]);
      Condemned(After(EMPTY, events), e.i, c.bus[c.insts[e.i].cursor].room, c.insts[e.i].cursor, s)
  {
    var last := |events| - 1;
    var front := events[..last];
    RunKeepsInv(front);
    if n == last {
      CondemnedTaken(After(EMPTY, front), events[last], s);
    } else {
      assert front[..n] == events[..n];
      CondemnedOn(front, n, s);
      var e, c := events[n], After(EMPTY, events[..n]);
      if Enabled(After(EMPTY, front), events[last]) {
        CondemnedStep(After(EMPTY, front), events[last], e.i, c.bus[c.insts[e.i].cursor].room, c.insts[e.i].cursor, s);
      }
    }
  }

  /** A dead socket is dropped by the next delivery to its room: once its instance is past a position
      that it took while the socket was registered but dead, the socket is out of the registry. */
  lemma DeadAreDropped(events: seq<FanOut.Event>, n: nat, s: Sock)
    requires n < |events| && events[n].Take? && Enabled(After(EMPTY, events[..n]), events[n])
    requires var e, c := events[n], After(EMPTY, events[..n]);
      s in Members(c.insts[e.i].rooms, c.bus[c.insts[e.i].cursor].room) && s in c.socks && !c.socks[s].alive
    ensures var e, was, c := events[n], After(EMPTY, events[..n]), After(EMPTY, events);
      e.i in c.insts && (c.insts[e.i].cursor > was.insts[e.i].cursor ==> !Connected(c, s))
  {
    CondemnedOn(events, n, s);
  }

  /** The same for the fallback delivery of a broadcast. */
  ghost predicate CondemnedLocal(c: Cluster, b: BroadcastId, i: InstId, room: RoomId, s: Sock) {
    && Lives(c, s, i, room) && i in c.insts && !c.socks[s].alive && b in c.sent && c.sent[b].inst == i
    && (!Connected(c, s) || (b in c.fallbacks && c.fallbacks[b].room == room && Doomed(c.fallbacks[b], s)))
  }

  lemma CondemnedLocalStep(c: Cluster, e: FanOut.Event, b: BroadcastId, i: InstId, room: RoomId, s: Sock)
    requires Enabled(c, e) && CondemnedLocal(c, b, i, room, s)
    ensures CondemnedLocal(Step(c, e), b, i, room, s)
  {
    StepExtends(c, e);
    if !Connected(c, s) {
      StaysOut(c, e, s);
    } else if e == LocalDone(b) {
      assert s !in Members(Step(c, e).insts[i].rooms, room);
    } else {
      assert b in Step(c, e).fallbacks && Doomed(Step(c, e).fallbacks[b], s);
    }
  }

  lemma CondemnedLocalStarts(c: Cluster, e: FanOut.Event, s: Sock)
    requires Inv(c) && Enabled(c, e) && e.Broadcast? && !e.outcome.Appended?
    requires s in Members(c.insts[e.i].rooms, e.room) && s in c.socks && !c.socks[s].alive
    ensures CondemnedLocal(Step(c, e), e.b, e.i, e.room, s)
  {
    assert InstOk(c, e.i);
    assert Lives(c, s, e.i, e.room);
  }

  lemma {:induction false} CondemnedLocalOn(events: seq<FanOut.Event>, n: nat, s: Sock)
    requires n < |events| && events[n].Broadcast? && !events[n].outcome.Appended?
    requires Enabled(After(EMPTY, events[..n]), events[n])
    requires var e, c := events[n], After(EMPTY, events[..n]);
      s in Members(c.insts[e.i].rooms, e.room) && s in c.socks && !c.socks[s].alive
    ensures CondemnedLocal(After(EMPTY, events), events[n].b, events[n].i, events[n].room, s)
  {
    var last := |events| - 1;
    var front := events[..last];
    if n == last {
      RunKeepsInv(front);
      CondemnedLocalStarts(After(EMPTY, front), events[last], s);
    } else {
      assert front[..n] == events[..n];
      CondemnedLocalOn(front, n, s);
      if Enabled(After(EMPTY, front), events[last]) {
        CondemnedLocalStep(After(EMPTY, front), events[last], events[n].b, events[n].i, events[n].room, s);
      }
    }
  }

  /** And by a fallback delivery: once it is over, a socket that was registered in the room but dead
      when the broadcast was made is out of the registry. */
  lemma DeadAreDroppedByFallback(events: seq<FanOut.Event>, n: nat, s: Sock)
    requires n < |events| && events[n].Broadcast? && !events[n].outcome.Appended?
    requires Enabled(After(EMPTY, events[..n]), events[n])
    requires var e, c := events[n], After(EMPTY, events[..n]);
      s in Members(c.insts[e.i].rooms, e.room) && s in c.socks && !c.socks[s].alive
    ensures events[n].b !in After(EMPTY, events).fallbacks ==> !Connected(After(EMPTY, events), s)
  {
    CondemnedLocalOn(events, n, s);
  }

  lemma LiveDone(c: Cluster, e: FanOut.Event, s: Sock)
    requires Inv(c) && Enabled(c, e) && e.Done? && Connected(c, s) && c.socks[s].alive
    ensures Connected(Step(c, e), s)
  {
    assert InstOk(c, e.i);
    assert s !in c.insts[e.i].job.value.dead;
  }

  lemma LiveLocalDone(c: Cluster, e: FanOut.Event, s: Sock)
    requires Inv(c) && Enabled(c, e) && e.LocalDone? && Connected(c, s) && c.socks[s].alive
    ensures Connected(Step(c, e), s)
  {
    assert FallbackOk(c, e.b);
    assert s !in c.fallbacks[e.b].dead;
  }

  lemma LiveOther(c: Cluster, e: FanOut.Event, s: Sock)
    requires Enabled(c, e) && !(e.Done? || e.LocalDone?) && Connected(c, s) && e != Disconnect(s)
    ensures Connected(Step(c, e), s)
  {
  }

  lemma LiveStep(c: Cluster, e: FanOut.Event, s: Sock)
    requires Inv(c) && Enabled(c, e) && Connected(c, s) && e != Disconnect(s) && c.socks[s].alive
    ensures Connected(Step(c, e), s)
  {
    if e.Done? {
      LiveDone(c, e, s);
    } else if e.LocalDone? {
      LiveLocalDone(c, e, s);
    } else {
      LiveOther(c, e, s);
    }
  }

  /** Only the dead are dropped: a registered socket that does not disconnect is registered as long
      as it is alive. */
  lemma {:induction false} LiveAreKept(events: seq<FanOut.Event>, n: nat, s: Sock)
    requires n <= |events| && Connected(After(EMPTY, events[..n]), s)
    requires forall m :: n <= m < |events| ==> events[m] != Disconnect(s)
    requires s in After(EMPTY, events).socks && After(EMPTY, events).socks[s].alive
    ensures Connected(After(EMPTY, events), s)
  {
    if n == |events| {
      assert events[..n] == events;
    } else {
      var last := |events| - 1;
      var front := events[..last];
      assert front[..n] == events[..n];
      RunKeepsInv(front);
      RunExtends(front, n);
      if Enabled(After(EMPTY, front), events[last]) {
        StepExtends(After(EMPTY, front), events[last]);
        LiveAreKept(front, n, s);
        LiveStep(After(EMPTY, front), events[last], s);
      } else {
        LiveAreKept(front, n, s);
      }
    }
  }

  /** A live socket is registered from its connect until its disconnect. */
  lemma LiveUntilDisconnect(events: seq<FanOut.Event>, n: nat)
    requires n < |events| && events[n].Connect? && Enabled(After(EMPTY, events[..n]), events[n])
    requires forall m :: n < m < |events| ==> events[m] != Disconnect(events[n].s)
    requires var c := After(EMPTY, events); events[n].s in c.socks && c.socks[events[n].s].alive
    ensures Connected(After(EMPTY, events), events[n].s)
  {
    ConnectRegisters(events, n);
    LiveAreKept(events, n + 1, events[n].s);
  }

  lemma ConnectRegisters(events: seq<FanOut.Event>, n: nat)
    requires n < |events| && events[n].Connect? && Enabled(After(EMPTY, events[..n]), events[n])
    ensures Connected(After(EMPTY, events[..n + 1]), events[n].s)
  {
    assert events[..n + 1][..n] == events[..n];
  }

  // --- Progress ------------------------------------------------------------------------

  /** A step of the instance's listener: it takes a position, sends to one socket, or finishes. */
  predicate Listens(e: FanOut.Event, i: InstId) {
    e == Take(i) || e == Done(i) || (e.Send? && e.i == i)
  }

  /** A listener with anything left to deliver is never stuck, whatever has happened. */
  lemma NeverStuck(events: seq<FanOut.Event>, i: InstId)
    requires var c := After(EMPTY, events);
      i in c.insts && c.insts[i].subscribed && (c.insts[i].job.Some? || c.insts[i].cursor < |c.bus|)
    ensures exists e :: Listens(e, i) && Enabled(After(EMPTY, events), e)
  {
    var c := After(EMPTY, events);
    RunKeepsInv(events);
    assert InstOk(c, i);
    if c.insts[i].job.None? {
      assert Listens(Take(i), i) && Enabled(c, Take(i));
    } else {
      var pending := c.insts[i].job.value.pending;
      assert (forall s :: s !in pending) ==> pending == {};
      if pending == {} {
        assert Listens(Done(i), i) && Enabled(c, Done(i));
      } else {
        var s :| s in pending;
        assert Lives(c, s, i, c.insts[i].job.value.room);
        assert Listens(Send(i, s), i) && Enabled(c, Send(i, s));
      }
    }
  }
}
