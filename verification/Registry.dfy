/** One process's socket registry and its local delivery loop. */
module Registry {
  /** Rooms and sockets; only their identity matters. */
  type RoomId = int
  type Sock = int
  type Payload = int

  type Rooms = map<RoomId, set<Sock>>

  function Members(rooms: Rooms, room: RoomId): set<Sock> {
    if room in rooms then rooms[room] else {}
  }

  function Joined(rooms: Rooms, room: RoomId, s: Sock): Rooms {
    rooms[room := Members(rooms, room) + {s}]
  }

  /** Leaving drops the socket, and the room with its last socket. */
  function Left(rooms: Rooms, room: RoomId, gone: set<Sock>): Rooms {
    if Members(rooms, room) - gone == {} then rooms - {room} else rooms[room := Members(rooms, room) - gone]
  }

  /** No room is kept without sockets. */
  predicate Tidy(rooms: Rooms) {
    forall r :: r in rooms ==> rooms[r] != {}
  }

  /** A socket that connects and disconnects leaves the registry as it was, provided it was not
      connected to the room already. */
  lemma {:induction false} JoinThenLeave(rooms: Rooms, room: RoomId, s: Sock)
    requires Tidy(rooms) && s !in Members(rooms, room)
    ensures Left(Joined(rooms, room, s), room, {s}) == rooms
  {
    assert Members(Joined(rooms, room, s), room) - {s} == Members(rooms, room);
    if room in rooms {
      assert Left(Joined(rooms, room, s), room, {s})[room] == rooms[room];
    }
  }

  function Inbox(received: map<Sock, seq<Payload>>, s: Sock): seq<Payload> {
    if s in received then received[s] else []
  }

  /** Every socket of `to` was given the payload once, and no other socket anything. */
  ghost predicate Gave(before: map<Sock, seq<Payload>>, after: map<Sock, seq<Payload>>, to: set<Sock>, payload: Payload)
  {
    forall s :: Inbox(after, s) == Inbox(before, s) + (if s in to then [payload] else [])
  }

  /** The sockets as the network sees them: sending to a dead one raises. */
  class Network {
    var alive: set<Sock>
    var received: map<Sock, seq<Payload>>

    constructor ()
      ensures alive == {} && received == map[]
    {
      alive, received := {}, map[];
    }

    method Send(s: Sock, payload: Payload) returns (ok: bool)
      modifies this`received
      ensures ok == (s in alive)
      ensures received == if ok then old(received)[s := Inbox(old(received), s) + [payload]] else old(received)
    {
      ok := s in alive;
      if ok {
        received := received[s := Inbox(received, s) + [payload]];
      }
    }
  }

  class RoomManager {
    var rooms: Rooms
    const network: Network

    ghost predicate Valid()
      reads this
    {
      Tidy(rooms)
    }

    constructor (network: Network)
      ensures Valid() && rooms == map[] && this.network == network
    {
      rooms := map[];
      this.network := network;
    }

    method Connect(room: RoomId, s: Sock)
      requires Valid()
      modifies this
      ensures Valid() && rooms == Joined(old(rooms), room, s)
    {
      rooms := rooms[room := Members(rooms, room) + {s}];
    }

    method Disconnect(room: RoomId, s: Sock)
      requires Valid()
      modifies this
      ensures Valid() && rooms == Left(old(rooms), room, {s})
    {
      if room !in rooms || rooms[room] == {} {
        assert rooms - {room} == rooms;
        return;
      }
      var rest := rooms[room] - {s};
      rooms := rooms[room := rest];
      if rest == {} {
        rooms := rooms - {room};
      }
      assert rooms == Left(old(rooms), room, {s});
    }

    method Count(room: RoomId) returns (n: nat)
      ensures n == |Members(rooms, room)|
    {
      n := if room in rooms then |rooms[room]| else 0;
    }

    /** Deliver to a snapshot of the room, then drop the sockets that failed: every live member
        gets the payload once, nobody else gets anything, and the dead leave the room. */
    method DeliverLocal(room: RoomId, payload: Payload)
      requires Valid()
      modifies this, network`received
      ensures Valid() && network.alive == old(network.alive)
      ensures Gave(old(network.received), network.received, old(Members(rooms, room)) * network.alive, payload)
      ensures rooms == Left(old(rooms), room, old(Members(rooms, room)) - network.alive)
    {
      var dead := SendAll(Members(rooms, room), payload);
      DropAll(room, dead);
    }

    /** The sending loop: it returns the sockets whose send raised. */
    method SendAll(snapshot: set<Sock>, payload: Payload) returns (dead: set<Sock>)
      modifies network`received
      ensures dead == snapshot - network.alive
      ensures Gave(old(network.received), network.received, snapshot * network.alive, payload)
    {
      var pending: set<Sock> := snapshot;
      dead := {};
      while pending != {}
        invariant pending <= snapshot && network.alive == old(network.alive)
        invariant dead == (snapshot - pending) - network.alive
        invariant Gave(old(network.received), network.received, (snapshot - pending) * network.alive, payload)
        decreases pending
      {
        assert (forall s :: s !in pending) ==> pending == {};
        var s :| s in pending;
        var ok := network.Send(s, payload);
        if !ok {
          dead := dead + {s};
        }
        pending := pending - {s};
      }
      assert snapshot - {} == snapshot;
    }

    /** The dropping loop. */
    method DropAll(room: RoomId, dead: set<Sock>)
      requires Valid()
      modifies this
      ensures Valid() && rooms == Left(old(rooms), room, dead)
    {
      var pending := dead;
      assert dead - pending == {};
      LeaveNobody(rooms, room);
      while pending != {}
        invariant Valid() && pending <= dead && rooms == Left(old(rooms), room, dead - pending)
        decreases pending
      {
        assert (forall s :: s !in pending) ==> pending == {};
        var s :| s in pending;
        LeaveTwice(old(rooms), room, dead - pending, {s});
        assert dead - (pending - {s}) == (dead - pending) + {s};
        Disconnect(room, s);
        pending := pending - {s};
      }
      assert dead - {} == dead;
    }
  }

  lemma LeaveNobody(rooms: Rooms, room: RoomId)
    requires Tidy(rooms)
    ensures Left(rooms, room, {}) == rooms
  {
    assert Members(rooms, room) - {} == Members(rooms, room);
  }

  lemma LeaveTwice(rooms: Rooms, room: RoomId, some: set<Sock>, more: set<Sock>)
    ensures Left(Left(rooms, room, some), room, more) == Left(rooms, room, some + more)
  {
    assert (Members(rooms, room) - some) - more == Members(rooms, room) - (some + more);
  }
}
