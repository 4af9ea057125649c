/** One user's sends over every surface and every process of a cluster, all charged to the same
    limiter key, whatever Redis does. */
module SendBudget {
  import opened Common
  import opened Location
  import opened Sessions
  import opened RedisWindow
  import RateLimit
  import opened Failover

  /** Where a send comes from, with what its gate looks at. The socket surfaces carry the
      session's mirror; a photo upload says whether its body turned out to be a usable image. */
  datatype Surface =
    | RoomRest(roomExists: bool, self: UserRow)
    | RoomPhoto(roomExists: bool, self: UserRow, area: Geofence, usable: bool)
    | StartRoom
    | RoomLive(mirror: Option<int>)
    | DmRest(roomExists: bool, self: UserRow, peer: UserRow, area: Geofence)
    | DmPhoto(roomExists: bool, self: UserRow, peer: UserRow, area: Geofence, usable: bool)
    | DmLive(mirror: Option<int>, selfInside: bool, peer: UserRow, area: Geofence)

  /** A send with a non-blank text or a photo, to some instance, and what becomes of its Redis call. */
  datatype Post = Post(surface: Surface, now: int, limit: int, freshness: int, instance: nat, fate: Fate)

  /** What the surface decides before the limiter is asked. */
  function Gate(p: Post): Refusal {
    match p.surface
    case RoomRest(exists_, self) => RoomGate(exists_, self, p.now, p.freshness)
    case RoomPhoto(exists_, self, area, _) => RoomPhotoGate(exists_, self, area, p.now, p.freshness)
    case StartRoom => None
    case RoomLive(mirror) => if IsFresh(mirror, p.now, p.freshness) then None else Some(StaleLocation)
    case DmRest(exists_, self, peer, area) => DmGate(exists_, self, peer, area, p.now, p.freshness)
    case DmPhoto(exists_, self, peer, area, _) => DmGate(exists_, self, peer, area, p.now, p.freshness)
    case DmLive(mirror, selfInside, peer, area) =>
      if !IsFresh(mirror, p.now, p.freshness) then Some(StaleLocation)
      else if !selfInside then Some(OutOfRange)
      else if !IsPresent(peer, area, p.now, p.freshness) then Some(RecipientUnavailable)
      else None
  }

  predicate BodyUsable(s: Surface) {
    match s
    case RoomPhoto(_, _, _, usable) => usable
    case DmPhoto(_, _, _, _, usable) => usable
    case _ => true
  }

  function AsCheck(p: Post): Check {
    Check(p.instance, p.now, p.limit, p.fate)
  }

  /** The checks charged to the user's key after a sequence of posts: those no gate refused. */
  function Charged(posts: seq<Post>): seq<Check> {
    if posts == [] then [] else
    var n := |posts| - 1;
    Charged(posts[..n]) + (if Gate(posts[n]).None? then [AsCheck(posts[n])] else [])
  }

  /** The send is let through: past the gate, and allowed by the limiters. */
  predicate Passes(before: seq<Post>, p: Post, window: int) {
    Gate(p).None? && Outcome(Charged(before), AsCheck(p), window).Admit?
  }

  predicate Stored(before: seq<Post>, p: Post, window: int) {
    Passes(before, p, window) && BodyUsable(p.surface)
  }

  /** When each persisted message was let through, in order. A photo is read only after it was
      admitted, so an unusable body costs an admission and stores nothing. */
  function Persisted(posts: seq<Post>, window: int): seq<int> {
    if posts == [] then [] else
    var n := |posts| - 1;
    Persisted(posts[..n], window) + (if Stored(posts[..n], posts[n], window) then [posts[n].now] else [])
  }

  predicate Lawful(posts: seq<Post>, instances: nat, bound: int) {
    && (forall i, j :: 0 <= i < j < |posts| ==> posts[i].now <= posts[j].now)
    && (forall i :: 0 <= i < |posts| ==> posts[i].instance < instances && posts[i].limit <= bound)
  }

  /** No window holds more persisted messages than admissions. */
  predicate Covered(posts: seq<Post>, t: int, window: int) {
    CountEnding(Persisted(posts, window), t, window) <= CountEnding(Allowed(Charged(posts), window), t, window)
  }

  lemma CoveredStep(before: seq<Post>, p: Post, t: int, window: int)
    requires Covered(before, t, window)
    ensures Covered(before + [p], t, window)
  {
    PersistedStep(before, p, t, window);
    ChargedStep(before, p, t, window);
  }

  /** Each persisted message has an admission of its own. */
  lemma {:induction false} PersistedAreAdmitted(posts: seq<Post>, t: int, window: int)
    ensures Covered(posts, t, window)
  {
    if posts != [] {
      var n := |posts| - 1;
      PersistedAreAdmitted(posts[..n], t, window);
      CoveredStep(posts[..n], posts[n], t, window);
      assert posts == posts[..n] + [posts[n]];
    }
  }

  lemma PersistedStep(before: seq<Post>, p: Post, t: int, window: int)
    ensures CountEnding(Persisted(before + [p], window), t, window)
         == CountEnding(Persisted(before, window), t, window)
          + (if Stored(before, p, window) && t - window < p.now <= t then 1 else 0)
  {
    assert (before + [p])[..|before|] == before;
    WithinAppend(Persisted(before, window), p.now, t - window, t);
    assert Persisted(before, window) + [] == Persisted(before, window);
  }

  lemma ChargedStep(before: seq<Post>, p: Post, t: int, window: int)
    ensures CountEnding(Allowed(Charged(before + [p]), window), t, window)
         == CountEnding(Allowed(Charged(before), window), t, window)
          + (if Passes(before, p, window) && t - window < p.now <= t then 1 else 0)
  {
    assert (before + [p])[..|before|] == before;
    if Gate(p).None? {
      AllowedStep(Charged(before), AsCheck(p), t, window);
    } else {
      assert Charged(before) + [] == Charged(before);
    }
  }

  lemma ScheduleSnoc(calls: seq<Check>, c: Check, instances: nat, bound: int)
    requires Schedule(calls, instances, bound) && c.instance < instances && c.limit <= bound
    requires calls != [] ==> calls[|calls| - 1].now <= c.now
    ensures Schedule(calls + [c], instances, bound)
  {
  }

  lemma {:induction false} ChargedIsScheduled(posts: seq<Post>, instances: nat, bound: int)
    requires Lawful(posts, instances, bound)
    ensures Schedule(Charged(posts), instances, bound)
    ensures Charged(posts) != [] ==> posts != [] && Charged(posts)[|Charged(posts)| - 1].now <= posts[|posts| - 1].now
  {
    if posts != [] {
      var n := |posts| - 1;
      ChargedIsScheduled(posts[..n], instances, bound);
      if Gate(posts[n]).None? {
        ScheduleSnoc(Charged(posts[..n]), AsCheck(posts[n]), instances, bound);
      } else {
        assert Charged(posts) == Charged(posts[..n]);
      }
    }
  }

  lemma BoundCarries(posts: seq<Post>, bound: nat, window: int)
    requires Bounded(Allowed(Charged(posts), window), bound, window)
    ensures Bounded(Persisted(posts, window), bound, window)
  {
    forall t
      ensures CountEnding(Persisted(posts, window), t, window) <= bound
    {
      PersistedAreAdmitted(posts, t, window);
    }
  }

  /** Shared budget: across rooms and private messages, by REST or socket, text or photo, and
      whatever fails and when, `instances` instances together persist at most
      (instances + 1) * bound messages of a user in any window. */
  lemma SharedBudget(posts: seq<Post>, instances: nat, bound: nat, window: int)
    requires Lawful(posts, instances, bound) && window > 0
    ensures Bounded(Persisted(posts, window), (instances + 1) * bound, window)
  {
    ChargedIsScheduled(posts, instances, bound);
    FailoverBound(Charged(posts), instances, bound, window);
    BoundCarries(posts, (instances + 1) * bound, window);
  }

  /** While Redis answers every check, it is one budget for the whole cluster. */
  lemma SharedBudgetHealthy(posts: seq<Post>, instances: nat, bound: nat, window: int)
    requires Lawful(posts, instances, bound) && window > 0
    requires forall i :: 0 <= i < |Charged(posts)| ==> Charged(posts)[i].fate.Answered?
    ensures Bounded(Persisted(posts, window), bound, window)
  {
    ChargedIsScheduled(posts, instances, bound);
    HealthyBound(Charged(posts), instances, bound, window);
    BoundCarries(posts, bound, window);
  }

  /** Without an answer from Redis it is one budget for each process: the limit itself on a single server. */
  lemma SharedBudgetLocal(posts: seq<Post>, instances: nat, bound: nat, window: int)
    requires Lawful(posts, instances, bound) && window > 0
    requires forall i :: 0 <= i < |Charged(posts)| ==> !Charged(posts)[i].fate.Answered?
    ensures Bounded(Persisted(posts, window), instances * bound, window)
  {
    ChargedIsScheduled(posts, instances, bound);
    LocalBound(Charged(posts), instances, bound, window);
    BoundCarries(posts, instances * bound, window);
  }

  // --- The posts are sends ---------------------------------------------------------------

  lemma ChargedSnoc(before: seq<Post>, p: Post)
    ensures Charged(before + [p]) == Charged(before) + (if Gate(p).None? then [AsCheck(p)] else [])
  {
    assert (before + [p])[..|before|] == before;
  }

  lemma GateNeverAccepts(p: Post)
    ensures Gate(p) != Some(Accepted)
  {
  }

  /** A post is what a send through its instance's own limiter object is: it passes exactly when that send
      is accepted, and is charged exactly when that send is. */
  lemma SendIsPost(b: RateLimit.Budget, before: seq<Post>, p: Post, ask: RateLimit.Ask, windowSeconds: int)
    requires windowSeconds > 0 && Stands(b, Charged(before), p.instance, windowSeconds * RateLimit.MILLIS)
    requires Proper(b.shared + [ask.call]) && (b.wired || ask.fate.Unreached?)
    requires ask.fate == p.fate && ask.call.now == p.now && ask.call.limit == p.limit
    ensures var window := windowSeconds * RateLimit.MILLIS;
      var (verdict, b') := Send(Gate(p), b, p.now, ask, windowSeconds, RateLimit.MILLIS);
      && (verdict == Accepted <==> Passes(before, p, window))
      && Stands(b', Charged(before + [p]), p.instance, window)
  {
    ChargedSnoc(before, p);
    if Gate(p).None? {
      ChargeIsOutcome(b, Charged(before), AsCheck(p), ask, windowSeconds);
    } else {
      GateNeverAccepts(p);
      assert Charged(before) + [] == Charged(before);
    }
  }

  // --- What is persisted --------------------------------------------------------------

  /** What a post's message needs besides the limiter: for a room the sender's last fix, fresh; for a
      photo, and for any private message, also inside the area, and for the latter a recipient located
      there too; for a photo a usable image; for the first message of a new room nothing. */
  predicate Entitled(p: Post) {
    match p.surface
    case RoomRest(exists_, self) => exists_ && LocatedWithin(self, p.now, p.freshness)
    case RoomPhoto(exists_, self, area, usable) =>
      exists_ && LocatedWithin(self, p.now, p.freshness) && LastSeenIn(self, area) && usable
    case StartRoom => true
    case RoomLive(mirror) => LocatedWithin(UserRow(mirror, None), p.now, p.freshness)
    case DmRest(exists_, self, peer, area) =>
      && exists_ && LocatedWithin(self, p.now, p.freshness) && LastSeenIn(self, area)
      && LocatedWithin(peer, p.now, p.freshness) && LastSeenIn(peer, area)
    case DmPhoto(exists_, self, peer, area, usable) =>
      && exists_ && LocatedWithin(self, p.now, p.freshness) && LastSeenIn(self, area)
      && LocatedWithin(peer, p.now, p.freshness) && LastSeenIn(peer, area) && usable
    case DmLive(mirror, selfInside, peer, area) =>
      && LocatedWithin(UserRow(mirror, None), p.now, p.freshness) && selfInside
      && LocatedWithin(peer, p.now, p.freshness) && LastSeenIn(peer, area)
  }

  lemma StoredExactly(before: seq<Post>, p: Post, window: int)
    ensures Stored(before, p, window) <==> Entitled(p) && Outcome(Charged(before), AsCheck(p), window).Admit?
  {
    match p.surface {
      case RoomRest(exists_, self) => GatesExactly(exists_, self, self, _ => true, p.now, p.freshness);
      case RoomPhoto(exists_, self, area, _) => GatesExactly(exists_, self, self, area, p.now, p.freshness);
      case DmRest(exists_, self, peer, area) => GatesExactly(exists_, self, peer, area, p.now, p.freshness);
      case DmPhoto(exists_, self, peer, area, _) => GatesExactly(exists_, self, peer, area, p.now, p.freshness);
      case _ =>
    }
  }

  /** Post `i` met its surface's conditions and was admitted. */
  predicate PersistedAt(posts: seq<Post>, i: nat, window: int) {
    i < |posts| && Entitled(posts[i]) && Outcome(Charged(posts[..i]), AsCheck(posts[i]), window).Admit?
  }

  function PersistedIn(posts: seq<Post>, t: int, window: int): set<nat> {
    set i: nat | i < |posts| && PersistedAt(posts, i, window) && t - window < posts[i].now <= t
  }

  lemma PersistedInStep(before: seq<Post>, p: Post, t: int, window: int)
    ensures PersistedIn(before + [p], t, window)
         == PersistedIn(before, t, window)
          + (if Stored(before, p, window) && t - window < p.now <= t then {|before|} else {})
  {
    var all := before + [p];
    StoredExactly(before, p, window);
    assert all[..|before|] == before;
    forall i: nat | i < |before| ensures PersistedAt(all, i, window) <==> PersistedAt(before, i, window) {
      assert all[..i] == before[..i];
    }
  }

  /** Over any sequence of posts to any surfaces, the messages persisted in a window are exactly those of
      its posts that met the conditions of their surface and were admitted. */
  lemma {:induction false} PersistedExactly(posts: seq<Post>, t: int, window: int)
    ensures CountEnding(Persisted(posts, window), t, window) == |PersistedIn(posts, t, window)|
  {
    if posts == [] {
      assert PersistedIn(posts, t, window) == {};
    } else {
      var n := |posts| - 1;
      PersistedExactly(posts[..n], t, window);
      PersistedStep(posts[..n], posts[n], t, window);
      PersistedInStep(posts[..n], posts[n], t, window);
      assert posts == posts[..n] + [posts[n]];
      assert n !in PersistedIn(posts[..n], t, window);
    }
  }

  // --- The bound is attained ------------------------------------------------------

  /** First messages of new rooms, one for each check of a schedule. */
  function Starts(calls: seq<Check>): seq<Post> {
    seq(|calls|, i requires 0 <= i < |calls| =>
      AsStart(calls[i]))
  }

  function AsStart(c: Check): Post {
    Post(StartRoom, c.now, c.limit, 0, c.instance, c.fate)
  }

  lemma StartsSnoc(calls: seq<Check>)
    requires calls != []
    ensures Starts(calls) == Starts(calls[..|calls| - 1]) + [AsStart(calls[|calls| - 1])]
  {
  }

  lemma StartStep(posts: seq<Post>, c: Check, window: int)
    ensures Charged(posts + [AsStart(c)]) == Charged(posts) + [c]
    ensures Persisted(posts + [AsStart(c)], window)
         == Persisted(posts, window) + (if Outcome(Charged(posts), c, window).Admit? then [c.now] else [])
  {
    assert (posts + [AsStart(c)])[..|posts|] == posts;
  }

  lemma AllowedSnoc(calls: seq<Check>, c: Check, window: int)
    ensures Allowed(calls + [c], window)
         == Allowed(calls, window) + (if Outcome(calls, c, window).Admit? then [c.now] else [])
  {
    assert (calls + [c])[..|calls|] == calls;
  }

  /** Posting a schedule's checks charges exactly that schedule and stores what it allows. */
  ghost predicate Mirrored(calls: seq<Check>, window: int) {
    Charged(Starts(calls)) == calls && Persisted(Starts(calls), window) == Allowed(calls, window)
  }

  lemma MirroredStep(calls: seq<Check>, c: Check, window: int)
    requires Mirrored(calls, window)
    ensures Mirrored(calls + [c], window)
  {
    assert (calls + [c])[..|calls|] == calls;
    StartsSnoc(calls + [c]);
    StartStep(Starts(calls), c, window);
    AllowedSnoc(calls, c, window);
  }

  lemma {:induction false} StartsAreCharged(calls: seq<Check>, window: int)
    ensures Mirrored(calls, window)
  {
    if calls != [] {
      var n := |calls| - 1;
      StartsAreCharged(calls[..n], window);
      MirroredStep(calls[..n], calls[n], window);
      assert calls == calls[..n] + [calls[n]];
    }
  }

  predicate Attains(posts: seq<Post>, instances: nat, limit: nat, window: int) {
    Lawful(posts, instances, limit) && CountEnding(Persisted(posts, window), 0, window) == (instances + 1) * limit
  }

  /** For every number of instances and every limit some failures let (instances + 1) * limit
      messages of one user be persisted at one instant. */
  lemma SharedBudgetIsTight(instances: nat, limit: nat, window: int)
    requires instances >= 1 && window > 0
    ensures exists posts :: Attains(posts, instances, limit, window)
  {
    var calls := Flood(instances, limit, Unreached, true);
    FailoverBoundIsTight(instances, limit, window);
    StartsAreCharged(calls, window);
    assert Attains(Starts(calls), instances, limit, window);
  }

  // --- When the limit is one budget for a user ----------------------------------------

  predicate PostFatesIn(posts: seq<Post>, allowed: set<Fate>) {
    forall i :: 0 <= i < |posts| ==> posts[i].fate in allowed
  }

  lemma {:induction false} ChargedFates(posts: seq<Post>, allowed: set<Fate>)
    requires PostFatesIn(posts, allowed)
    ensures FatesIn(Charged(posts), allowed)
  {
    if posts != [] {
      ChargedFates(posts[..|posts| - 1], allowed);
    }
  }

  /** No user ever has more messages persisted in a window than the limit. */
  ghost predicate OneBudgetPerUser(instances: nat, limit: nat, allowed: set<Fate>, window: int) {
    forall posts :: Lawful(posts, instances, limit) && PostFatesIn(posts, allowed) ==>
      Bounded(Persisted(posts, window), limit, window)
  }

  /** The documented rule, one budget per user across both surfaces, holds exactly when Redis
      answers every check, or it answers none and there is a single process. */
  lemma OneBudgetPerUserExactly(instances: nat, limit: nat, allowed: set<Fate>, window: int)
    requires instances >= 1 && limit >= 1 && window > 0
    ensures OneBudgetPerUser(instances, limit, allowed, window)
       <==> allowed <= {Answered} || (instances == 1 && Answered !in allowed)
  {
    if allowed <= {Answered} || (instances == 1 && Answered !in allowed) {
      OneBudgetExactly(instances, limit, allowed, window);
      forall posts | Lawful(posts, instances, limit) && PostFatesIn(posts, allowed)
        ensures Bounded(Persisted(posts, window), limit, window)
      {
        ChargedIsScheduled(posts, instances, limit);
        ChargedFates(posts, allowed);
        BoundCarries(posts, limit, window);
      }
    } else {
      var calls := OverLimit(instances, limit, allowed, window);
      StartsAreCharged(calls, window);
      assert Lawful(Starts(calls), instances, limit) && PostFatesIn(Starts(calls), allowed);
      assert CountEnding(Persisted(Starts(calls), window), 0, window) > limit;
    }
  }
}
