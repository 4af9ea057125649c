/** Location freshness and the geofence hysteresis of a connected socket. */
module Location {
  import opened Common

  datatype Pos = Pos(lat: real, lng: real)

  /** Which positions count as inside a room's area. Distances are not modelled: any set of
      positions may be the area. */
  type Geofence = Pos -> bool

  /** A fix is usable until it is older than the freshness window; a missing one never is. */
  predicate IsFresh(updatedAt: Option<int>, now: int, freshness: int) {
    updatedAt.Some? && now - updatedAt.value <= freshness
  }

  datatype Action = Inside | Warn | Remove

  datatype Fix = Fix(inside: bool, now: int)

  function Begin(since: Option<int>, f: Fix): Option<int> {
    if f.inside then None else if since.None? then Some(f.now) else since
  }

  function React(since: Option<int>, f: Fix, grace: int): Action {
    if f.inside then Inside
    else if since.Some? && f.now - since.value >= grace then Remove
    else Warn
  }

  /** The tracker's `outside_since` after a sequence of fixes. */
  function SinceAfter(trace: seq<Fix>): Option<int> {
    if trace == [] then None else Begin(SinceAfter(trace[..|trace| - 1]), trace[|trace| - 1])
  }

  /** What `observe` returned for the last fix of a trace. */
  function LastAction(trace: seq<Fix>, grace: int): Action
    requires trace != []
  {
    React(SinceAfter(trace[..|trace| - 1]), trace[|trace| - 1], grace)
  }

  function Truncate(x: int, d: int): int
    requires d > 0
  {
    if x >= 0 then x / d else -(-x / d)
  }

  /** Whole seconds of grace left at `now`, given in ticks. */
  function SecondsRemaining(since: Option<int>, now: int, graceSeconds: int, ticks: int): int
    requires ticks > 0
  {
    if since.None? then graceSeconds
    else Max(Truncate(graceSeconds * ticks - (now - since.value), ticks), 0)
  }

  class GeofenceTracker {
    const graceSeconds: int
    const ticks: int
    var outsideSince: Option<int>
    ghost var trace: seq<Fix>

    ghost predicate Valid()
      reads this
    {
      ticks > 0 && outsideSince == SinceAfter(trace)
    }

    constructor (graceSeconds: int, ticksPerSecond: int)
      requires ticksPerSecond > 0
      ensures Valid() && trace == [] && this.graceSeconds == graceSeconds && ticks == ticksPerSecond
    {
      this.graceSeconds := graceSeconds;
      ticks := ticksPerSecond;
      outsideSince, trace := None, [];
    }

    method Observe(inside: bool, now: int) returns (action: Action)
      requires Valid()
      modifies this
      ensures Valid() && trace == old(trace) + [Fix(inside, now)]
      ensures action == LastAction(trace, graceSeconds * ticks)
      ensures outsideSince == Begin(old(outsideSince), Fix(inside, now))
      ensures action == React(old(outsideSince), Fix(inside, now), graceSeconds * ticks)
    {
      trace := trace + [Fix(inside, now)];
      assert trace[..|trace| - 1] == old(trace);
      if inside {
        outsideSince := None;
        return Inside;
      }
      if outsideSince.None? {
        outsideSince := Some(now);
        return Warn;
      }
      if now - outsideSince.value >= graceSeconds * ticks {
        return Remove;
      }
      return Warn;
    }

    function Remaining(now: int): int
      requires Valid()
      reads this
    {
      SecondsRemaining(outsideSince, now, graceSeconds, ticks)
    }
  }

  // --- What the hysteresis promises ------------------------------------------

  /** The fixes from `start` on are the maximal trailing run of outside fixes. */
  predicate TrailingOutside(trace: seq<Fix>, start: nat) {
    && start < |trace|
    && (forall i :: start <= i < |trace| ==> !trace[i].inside)
    && (start > 0 ==> trace[start - 1].inside)
  }

  /** The clock always shows when the trailing run of outside fixes began. */
  lemma {:induction false} SinceIsRunStart(trace: seq<Fix>, start: nat)
    requires TrailingOutside(trace, start)
    ensures SinceAfter(trace) == Some(trace[start].now)
  {
    var n := |trace| - 1;
    if start < n {
      SinceIsRunStart(trace[..n], start);
    } else if n > 0 {
      assert SinceAfter(trace[..n]) == Begin(SinceAfter(trace[..n][..n - 1]), trace[n - 1]);
    }
  }

  /** For every trace: removal comes with at least the second outside fix of the trailing run,
      and exactly when that run began at least the grace window ago. */
  lemma RemovalExactly(trace: seq<Fix>, start: nat, grace: int)
    requires TrailingOutside(trace, start)
    ensures LastAction(trace, grace).Remove?
       <==> start + 2 <= |trace| && trace[|trace| - 1].now - trace[start].now >= grace
    ensures !LastAction(trace, grace).Inside?
  {
    var n := |trace| - 1;
    if start < n {
      SinceIsRunStart(trace[..n], start);
    } else if n > 0 {
      assert SinceAfter(trace[..n]) == Begin(SinceAfter(trace[..n][..n - 1]), trace[n - 1]);
    }
  }

  /** The documented rule: an outside fix removes exactly when the trailing run of outside
      fixes began at least the grace window ago. */
  ghost predicate RemovesAfterGrace(grace: int) {
    forall trace: seq<Fix>, start: nat | TrailingOutside(trace, start) ::
      LastAction(trace, grace).Remove? <==> trace[|trace| - 1].now - trace[start].now >= grace
  }

  /** The rule holds exactly for positive grace windows: with a grace of zero or less the first
      outside fix should already remove, and only warns. */
  lemma RuleNeedsPositiveGrace(grace: int)
    ensures RemovesAfterGrace(grace) <==> grace > 0
  {
    if grace > 0 {
      forall trace: seq<Fix>, start: nat | TrailingOutside(trace, start)
        ensures LastAction(trace, grace).Remove? <==> trace[|trace| - 1].now - trace[start].now >= grace
      {
        RemovalExactly(trace, start, grace);
      }
    } else {
      var trace := [Fix(false, 0)];
      assert TrailingOutside(trace, 0);
      RemovalExactly(trace, 0, grace);
    }
  }

  lemma TruncateBounds(x: int, d: int)
    requires d > 0
    ensures x >= 0 ==> Truncate(x, d) * d <= x < (Truncate(x, d) + 1) * d
    ensures x < d ==> Truncate(x, d) <= 0
  {
    if x >= 0 {
      var q := x / d;
      assert x == q * d + x % d;
      assert (q + 1) * d == q * d + d;
      AtLeastOnce(q, d);
    } else {
      assert -x / d >= 0 by {
        var q := -x / d;
        assert -x == q * d + (-x) % d;
        AtLeastOnce(-q, d);
        assert -q * d == -(q * d);
      }
    }
  }

  /** A removal leaves no seconds of grace. */
  lemma {:induction false} RemovedHasNoTimeLeft(since: Option<int>, f: Fix, graceSeconds: int, ticks: int)
    requires ticks > 0 && React(since, f, graceSeconds * ticks).Remove?
    ensures SecondsRemaining(Begin(since, f), f.now, graceSeconds, ticks) == 0
  {
    TruncateBounds(graceSeconds * ticks - (f.now - since.value), ticks);
  }

  /** Outside fixes leave a running clock alone. */
  lemma {:induction false} OutsideKeepsClock(trace: seq<Fix>, more: seq<Fix>)
    requires SinceAfter(trace).Some? && forall i :: 0 <= i < |more| ==> !more[i].inside
    ensures SinceAfter(trace + more) == SinceAfter(trace)
  {
    if more == [] {
      assert trace + more == trace;
    } else {
      var n := |more| - 1;
      OutsideKeepsClock(trace, more[..n]);
      assert (trace + more)[..|trace + more| - 1] == trace + more[..n];
    }
  }

  /** Before the figure reported for a running clock has passed, the clock has not run out; one second
      past it, it has. */
  lemma FigureIsTight(began: int, read: int, graceSeconds: int, ticks: int, t: int)
    requires ticks > 0
    ensures var seconds := SecondsRemaining(Some(began), read, graceSeconds, ticks);
      && seconds >= 0
      && (t >= read + (seconds + 1) * ticks ==> t - began >= graceSeconds * ticks)
      && (read <= t < read + seconds * ticks ==> t - began < graceSeconds * ticks)
  {
    var left := graceSeconds * ticks - (read - began);
    var seconds := SecondsRemaining(Some(began), read, graceSeconds, ticks);
    TruncateBounds(left, ticks);
    assert (seconds + 1) * ticks == seconds * ticks + ticks;
    if left >= 0 {
      AtLeastOnce(-Truncate(left, ticks), ticks);
      assert -Truncate(left, ticks) * ticks == -(Truncate(left, ticks) * ticks);
      assert seconds * ticks <= left < (seconds + 1) * ticks;
    } else {
      assert seconds == 0;
    }
  }

  /** The figure sent with a warning is honest: however the warning's own clock reading was delayed
      and whatever outside fixes come in between, an outside fix at least one second past it is a
      removal, and one before it is not. */
  lemma WarnedIsThenRemoved(trace: seq<Fix>, read: int, more: seq<Fix>, t: int, graceSeconds: int, ticks: int)
    requires ticks > 0 && trace != [] && LastAction(trace, graceSeconds * ticks).Warn?
    requires forall i :: 0 <= i < |more| ==> !more[i].inside
    ensures var seconds := SecondsRemaining(SinceAfter(trace), read, graceSeconds, ticks);
      var action := LastAction(trace + more + [Fix(false, t)], graceSeconds * ticks);
      && (t >= read + (seconds + 1) * ticks ==> action.Remove?)
      && (read <= t < read + seconds * ticks ==> action.Warn?)
  {
    OutsideKeepsClock(trace, more);
    assert (trace + more + [Fix(false, t)])[..|trace + more|] == trace + more;
    FigureIsTight(SinceAfter(trace).value, read, graceSeconds, ticks, t);
  }
}
