/** What the room and private-message sockets share: client frames, the stored location
    row, and the gates the REST send paths evaluate on that row. */
module Sessions {
  import opened Common
  import opened SlidingWindow
  import opened Location
  import opened RedisWindow
  import opened RateLimit

  /** A received frame. A coordinate is None when it is missing or not a number. `typed` says
      whether a text frame carried the message type or, as older clients do, no type at all. A
      broken frame is one that handling raises on: not JSON, not an object, a coordinate too large
      for a float, or a text frame whose content is something other than text. */
  datatype Frame =
    | LocationFrame(lat: Option<real>, lng: Option<real>)
    | TextFrame(typed: bool, content: string)
    | OtherFrame
    | BrokenFrame

  function Coerce(lat: Option<real>, lng: Option<real>): Option<Pos> {
    if lat.None? || lng.None? then None
    else if -90.0 <= lat.value <= 90.0 && -180.0 <= lng.value <= 180.0 then Some(Pos(lat.value, lng.value))
    else None
  }

  /** A frame reports a position exactly when both coordinates are numbers in their ranges, poles and
      date line included, and then that position. */
  lemma CoerceExactly(lat: Option<real>, lng: Option<real>, pos: Pos)
    ensures Coerce(lat, lng) == Some(pos)
       <==> lat == Some(pos.lat) && lng == Some(pos.lng) && -90.0 <= pos.lat <= 90.0 && -180.0 <= pos.lng <= 180.0
  {
    if lat.Some? && lng.Some? {
      assert Coerce(lat, lng).Some? ==> Coerce(lat, lng).value == Pos(lat.value, lng.value);
    }
  }

  /** What `str.strip` removes: the characters for which `str.isspace` holds. */
  predicate IsSpace(c: char) {
    || '\U{9}' <= c <= '\U{D}' || '\U{1C}' <= c <= '\U{20}' || c == '\U{85}' || c == '\U{A0}' || c == '\U{1680}'
    || '\U{2000}' <= c <= '\U{200A}' || c == '\U{2028}' || c == '\U{2029}' || c == '\U{202F}' || c == '\U{205F}'
    || c == '\U{3000}'
  }

  function TrimLeft(s: string): string {
    if s != [] && IsSpace(s[0]) then TrimLeft(s[1..]) else s
  }

  function TrimRight(s: string): string {
    if s != [] && IsSpace(s[|s| - 1]) then TrimRight(s[..|s| - 1]) else s
  }

  const MAX_CONTENT := 2000

  /** The text that is sent: stripped, then cut to the maximum length. */
  function Clean(content: string): string {
    var s := TrimRight(TrimLeft(content));
    if |s| <= MAX_CONTENT then s else s[..MAX_CONTENT]
  }

  predicate Blank(content: string) {
    forall i :: 0 <= i < |content| ==> IsSpace(content[i])
  }

  /** A text frame is dropped exactly when it holds nothing but white space. */
  lemma {:induction false} CleanIsEmpty(content: string)
    ensures Clean(content) == [] <==> Blank(content)
    ensures |Clean(content)| <= MAX_CONTENT
  {
    TrimLeftKeeps(content);
    TrimRightKeeps(TrimLeft(content));
  }

  lemma {:induction false} TrimLeftKeeps(s: string)
    ensures TrimLeft(s) == [] <==> forall i :: 0 <= i < |s| ==> IsSpace(s[i])
    ensures TrimLeft(s) != [] ==> !IsSpace(TrimLeft(s)[0])
  {
    if s != [] && IsSpace(s[0]) {
      TrimLeftKeeps(s[1..]);
      assert forall i :: 1 <= i < |s| ==> s[i] == s[1..][i - 1];
    }
  }

  lemma {:induction false} TrimRightKeeps(s: string)
    ensures TrimRight(s) == [] <==> forall i :: 0 <= i < |s| ==> IsSpace(s[i])
  {
    if s != [] && IsSpace(s[|s| - 1]) {
      TrimRightKeeps(s[..|s| - 1]);
    }
  }

  /** Only white space lies before `i` and from `j` on, and what is between neither starts nor ends with it. */
  predicate Strips(content: string, i: nat, j: nat) {
    && i <= j <= |content|
    && (forall k :: 0 <= k < i ==> IsSpace(content[k])) && (forall k :: j <= k < |content| ==> IsSpace(content[k]))
    && (i < j ==> !IsSpace(content[i]) && !IsSpace(content[j - 1]))
  }

  /** What is sent is what lies between the white space at both ends, in full if it is short enough, and
      otherwise its first 2000 characters. */
  lemma {:induction false} CleanIsStripped(content: string, i: nat, j: nat)
    requires Strips(content, i, j)
    ensures Clean(content) == content[i..if j - i <= 2000 then j else i + 2000]
  {
    if i == j {
      CleanIsEmpty(content);
    } else {
      TrimLeftTo(content, i);
      TrimRightTo(content[i..], j - i);
      assert content[i..][..j - i] == content[i..j];
    }
  }

  lemma {:induction false} TrimLeftTo(s: string, i: nat)
    requires i < |s| && !IsSpace(s[i]) && forall k :: 0 <= k < i ==> IsSpace(s[k])
    ensures TrimLeft(s) == s[i..]
  {
    if i > 0 {
      TrimLeftTo(s[1..], i - 1);
    }
  }

  lemma {:induction false} TrimRightTo(s: string, j: nat)
    requires 0 < j <= |s| && !IsSpace(s[j - 1]) && forall k :: j <= k < |s| ==> IsSpace(s[k])
    ensures TrimRight(s) == s[..j]
  {
    if j < |s| {
      TrimRightTo(s[..|s| - 1], j);
      assert s[..|s| - 1][..j] == s[..j];
    }
  }

  /** The location columns of a user's row. */
  datatype UserRow = UserRow(updatedAt: Option<int>, position: Option<Pos>)

  predicate InRange(row: UserRow, area: Geofence) {
    row.position.Some? && area(row.position.value)
  }

  /** The presence gate: the last stored fix is inside the area and fresh. */
  predicate IsPresent(row: UserRow, area: Geofence, now: int, freshness: int) {
    InRange(row, area) && IsFresh(row.updatedAt, now, freshness)
  }

  /** How a send attempt can end. `Failed` is the exception a limit of zero can provoke. */
  datatype Verdict =
    | RoomMissing | StaleLocation | OutOfRange | RecipientUnavailable
    | RateLimited(retryAfter: int) | Accepted | Failed

  function Rated(reply: RateLimit.Reply): Verdict {
    match reply
    case Allowed => Accepted
    case Denied(seconds) => RateLimited(seconds)
    case Raised => Failed
  }

  /** What a send path decides before it asks the limiter: a refusal, or None to go on. */
  type Refusal = Option<Verdict>

  /** The two-sided gate of the private-message REST paths, evaluated on the stored rows. */
  function DmGate(roomExists: bool, self: UserRow, peer: UserRow, area: Geofence, now: int, freshness: int): Refusal {
    if !roomExists then Some(RoomMissing)
    else if !IsFresh(self.updatedAt, now, freshness) then Some(StaleLocation)
    else if !InRange(self, area) then Some(OutOfRange)
    else if !IsPresent(peer, area, now, freshness) then Some(RecipientUnavailable)
    else None
  }

  /** The gate of the room text REST path. */
  function RoomGate(roomExists: bool, self: UserRow, now: int, freshness: int): Refusal {
    if !roomExists then Some(RoomMissing)
    else if !IsFresh(self.updatedAt, now, freshness) then Some(StaleLocation)
    else None
  }

  /** The gate of the room photo REST path. */
  function RoomPhotoGate(roomExists: bool, self: UserRow, area: Geofence, now: int, freshness: int): Refusal {
    var gate := RoomGate(roomExists, self, now, freshness);
    if gate.None? && !InRange(self, area) then Some(OutOfRange) else gate
  }

  /** Located no longer ago than the freshness window; never, if not located at all. */
  predicate LocatedWithin(row: UserRow, now: int, freshness: int) {
    match row.updatedAt
    case None => false
    case Some(at) => at + freshness >= now
  }

  predicate LastSeenIn(row: UserRow, area: Geofence) {
    match row.position
    case None => false
    case Some(pos) => area(pos)
  }

  /** The three gates compared. Without the room every send is refused as such. With it, a user whose
      last fix is missing or too old is told so on every path; a located one writes in the room from
      anywhere, sends a photo there from inside the area only, and privately from inside if the
      recipient is located inside as well. */
  lemma GatesExactly(roomExists: bool, self: UserRow, peer: UserRow, area: Geofence, now: int, freshness: int)
    ensures var room := RoomGate(roomExists, self, now, freshness);
      var photo := RoomPhotoGate(roomExists, self, area, now, freshness);
      var dm := DmGate(roomExists, self, peer, area, now, freshness);
      if !roomExists then room == photo == dm == Some(RoomMissing)
      else if !LocatedWithin(self, now, freshness) then room == photo == dm == Some(StaleLocation)
      else if !LastSeenIn(self, area) then room == None && photo == dm == Some(OutOfRange)
      else room == photo == None
           && dm == if LocatedWithin(peer, now, freshness) && LastSeenIn(peer, area) then None
                    else Some(RecipientUnavailable)
  {
    assert IsFresh(self.updatedAt, now, freshness) == LocatedWithin(self, now, freshness);
    assert IsPresent(peer, area, now, freshness) == (LocatedWithin(peer, now, freshness) && LastSeenIn(peer, area));
  }

  /** A send: refused by the gate, or decided by the limiter, which only then records it. */
  function Send(gate: Refusal, b: Budget, now: int, ask: Ask, windowSeconds: int, ticks: Ticks): (Verdict, Budget) {
    if gate.Some? then (gate.value, b)
    else
      var (reply, b') := Charge(b, now, ask, windowSeconds, ticks);
      (Rated(reply), b')
  }

  /** Ask the user's limiter for one send. */
  method CheckSendRate(limiter: MessageRateLimiter, key: Key, now: int, ask: Ask) returns (v: Verdict)
    requires limiter.Valid()
    modifies limiter.local, limiter.redis
    ensures limiter.Valid() && limiter.redis == old(limiter.redis)
    ensures (v, limiter.Holdings(key))
         == Send(None, old(limiter.Holdings(key)), now, ask, limiter.windowSeconds, limiter.local.ticks)
    ensures forall k :: k != key ==> limiter.Holdings(k) == old(limiter.Holdings(k))
  {
    var reply := limiter.Check(key, now, ask);
    v := Rated(reply);
  }

  /** An accepted send is one hit in the history that decided it, a refused one none there; a send
      the gate refuses is not charged at all. */
  lemma SendAdmitsOnce(gate: Refusal, b: Budget, now: int, ask: Ask, windowSeconds: int, ticks: Ticks)
    requires gate.None? || !gate.value.Accepted?
    ensures var (v, b') := Send(gate, b, now, ask, windowSeconds, ticks);
      var shared, shared' := ScriptLog(b.shared, windowSeconds * MILLIS), ScriptLog(b'.shared, windowSeconds * MILLIS);
      var local, local' := Log(b.local, windowSeconds * ticks), Log(b'.local, windowSeconds * ticks);
      if gate.Some? then b' == b && !v.Accepted?
      else if Answer(b, ask, windowSeconds) != Fault
      then shared' == shared + (if v.Accepted? then [ask.call.now] else []) && b'.local == b.local
      else local' == local + (if v.Accepted? then [now] else [])
           && (shared' == shared || (b.wired && ask.fate.LostReply? && shared' == shared + [ask.call.now]))
  {
    ChargeRecords(b, now, ask, windowSeconds, ticks);
  }

  /** The settings a session reads once, at connect. Durations other than the grace are in ticks. */
  datatype Settings = Settings(freshness: int, graceSeconds: int, ticks: Ticks, windowSeconds: int, area: Geofence) {
    function Grace(): int {
      graceSeconds * ticks
    }
  }

  /** The stored location rows. */
  class UserTable {
    var row: UserRow

    constructor (row: UserRow)
      ensures this.row == row
    {
      this.row := row;
    }

    /** Store a fix: position and timestamp together. */
    method UpdateLocation(pos: Pos, now: int)
      modifies this
      ensures row == UserRow(Some(now), Some(pos))
    {
      row := UserRow(Some(now), Some(pos));
    }
  }
}
