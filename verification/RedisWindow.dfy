/** The Redis script's sorted set, command by command, and its agreement with the deque. */
module RedisWindow {
  import opened Common
  import opened SlidingWindow

  /** A random UUID; only equality matters. */
  type Uuid = int

  datatype Entry = Entry(score: int, member: Uuid)

  /** A sorted-set key with the instant its PEXPIRE falls due. A key that holds nothing does not exist. */
  datatype ZKey = ZKey(entries: seq<Entry>, expiresAt: int)

  /** ZREMRANGEBYSCORE key lo hi */
  function ZRemRangeByScore(z: seq<Entry>, lo: int, hi: int): seq<Entry> {
    if z == [] then [] else
    (if lo <= z[0].score <= hi then [] else [z[0]]) + ZRemRangeByScore(z[1..], lo, hi)
  }

  function WithoutMember(z: seq<Entry>, member: Uuid): seq<Entry> {
    if z == [] then [] else
    (if z[0].member == member then [] else [z[0]]) + WithoutMember(z[1..], member)
  }

  function InsertByScore(z: seq<Entry>, e: Entry): seq<Entry> {
    if z == [] || z[0].score > e.score then [e] + z else [z[0]] + InsertByScore(z[1..], e)
  }

  /** ZADD key score member: a member already present moves to its new score. */
  function ZAdd(z: seq<Entry>, score: int, member: Uuid): seq<Entry> {
    InsertByScore(WithoutMember(z, member), Entry(score, member))
  }

  function Scores(z: seq<Entry>): seq<int> {
    seq(|z|, i requires 0 <= i < |z| => z[i].score)
  }

  /** Redis may collect a key once its expiry is due; `swept` says whether it has. */
  function Collect(key: Option<ZKey>, now: int, swept: bool): seq<Entry> {
    if key.None? || (swept && key.value.expiresAt <= now) then [] else key.value.entries
  }

  function Expiry(key: Option<ZKey>): int {
    if key.None? then 0 else key.value.expiresAt
  }

  /** How Redis treats a check: it is not wired up or fails before the script ran, it answers, or
      it runs the script and then fails. */
  datatype Fate = Unreached | Answered | LostReply

  /** A script execution: the clock it reads, the limit and member it is passed, and whether
      the key's due expiry has been carried out. */
  datatype Call = Call(now: int, limit: int, member: Uuid, swept: bool)

  /** The script: trim, count, then reject with the remainder or add and renew the expiry.
      Reading the oldest of an empty set is a script error. */
  function Script(key: Option<ZKey>, c: Call, window: int): (Decision, Option<ZKey>) {
    Finish(key, ZRemRangeByScore(Collect(key, c.now, c.swept), 0, c.now - window), c, window)
  }

  function Finish(key: Option<ZKey>, live: seq<Entry>, c: Call, window: int): (Decision, Option<ZKey>) {
    if |live| < c.limit then (Admit, Some(ZKey(ZAdd(live, c.now, c.member), c.now + window)))
    else if live == [] then (Fault, None)
    else (Reject(window - (c.now - live[0].score)), Some(ZKey(live, Expiry(key))))
  }

  /** The key after a run of script executions. */
  function KeyAfter(run: seq<Call>, window: int): Option<ZKey> {
    if run == [] then None else Script(KeyAfter(run[..|run| - 1], window), run[|run| - 1], window).1
  }

  function Entries(key: Option<ZKey>): seq<Entry> {
    if key.None? then [] else key.value.entries
  }

  /** The same checks as the in-process limiter sees them. */
  function AsAttempts(run: seq<Call>): seq<Attempt> {
    seq(|run|, i requires 0 <= i < |run| => Attempt(run[i].now, run[i].limit))
  }

  /** What the script relies on: Redis TIME does not run backwards and is not negative, and
      every execution brings a member of its own. */
  ghost predicate Proper(run: seq<Call>) {
    && (forall i, j :: 0 <= i < j < |run| ==> run[i].now <= run[j].now && run[i].member != run[j].member)
    && (forall i :: 0 <= i < |run| ==> run[i].now >= 0)
  }

  lemma {:induction false} RemovalIsTrim(z: seq<Entry>, cutoff: int)
    requires Ascending(Scores(z)) && forall i :: 0 <= i < |z| ==> z[i].score >= 0
    ensures Scores(ZRemRangeByScore(z, 0, cutoff)) == Trim(Scores(z), cutoff)
    ensures forall e :: e in ZRemRangeByScore(z, 0, cutoff) ==> e in z
  {
    if z != [] {
      assert Scores(z)[1..] == Scores(z[1..]);
      assert Ascending(Scores(z[1..])) by {
        forall i, j | 0 <= i < j < |z[1..]| ensures Scores(z[1..])[i] <= Scores(z[1..])[j] {
          assert Scores(z)[i + 1] <= Scores(z)[j + 1];
        }
      }
      RemovalIsTrim(z[1..], cutoff);
      if z[0].score > cutoff {
        forall i | 0 <= i < |z| ensures z[i].score > cutoff {
          assert Scores(z)[0] <= Scores(z)[i] || i == 0;
        }
        NothingRemoved(z, cutoff);
      }
    }
  }

  lemma {:induction false} NothingRemoved(z: seq<Entry>, cutoff: int)
    requires forall i :: 0 <= i < |z| ==> z[i].score > cutoff
    ensures ZRemRangeByScore(z, 0, cutoff) == z
  {
    if z != [] {
      NothingRemoved(z[1..], cutoff);
    }
  }

  lemma {:induction false} FreshMemberAppends(z: seq<Entry>, score: int, member: Uuid)
    requires forall i :: 0 <= i < |z| ==> z[i].member != member && z[i].score <= score
    ensures ZAdd(z, score, member) == z + [Entry(score, member)]
  {
    assert WithoutMember(z, member) == z by { NoSuchMember(z, member); }
    AppendsLast(z, Entry(score, member));
  }

  lemma {:induction false} NoSuchMember(z: seq<Entry>, member: Uuid)
    requires forall i :: 0 <= i < |z| ==> z[i].member != member
    ensures WithoutMember(z, member) == z
  {
    if z != [] {
      NoSuchMember(z[1..], member);
    }
  }

  lemma {:induction false} AppendsLast(z: seq<Entry>, e: Entry)
    requires forall i :: 0 <= i < |z| ==> z[i].score <= e.score
    ensures InsertByScore(z, e) == z + [e]
  {
    if z != [] {
      AppendsLast(z[1..], e);
    }
  }

  /** The sorted set holds the deque's hits, one entry each, none newer than `clock`; its
      members are among `members`, and its expiry is a full window past every entry. */
  ghost predicate Agrees(key: Option<ZKey>, hits: seq<int>, clock: int, members: set<Uuid>, window: int) {
    && Scores(Entries(key)) == hits
    && Ascending(hits) && AtMost(hits, clock)
    && (forall e :: e in Entries(key) ==>
          e.score >= 0 && e.member in members && e.score + window <= key.value.expiresAt)
  }

  /** The deque after one check. */
  function NextHits(hits: seq<int>, c: Call, window: int): seq<int> {
    Settle(Trim(hits, c.now - window), Attempt(c.now, c.limit), window)
  }

  /** Entries of a key whose expiry is a full window past them. */
  ghost predicate Held(key: Option<ZKey>, live: seq<Entry>, members: set<Uuid>, window: int) {
    forall e :: e in live ==>
      e in Entries(key) && e.score >= 0 && e.member in members && e.score + window <= key.value.expiresAt
  }

  /** Carrying out a due expiry never loses a hit that trimming would have kept. */
  lemma ExpiryIsTrim(key: Option<ZKey>, hits: seq<int>, clock: int, members: set<Uuid>, c: Call, window: int)
    requires Agrees(key, hits, clock, members, window) && clock <= c.now && window > 0
    ensures var live := ZRemRangeByScore(Collect(key, c.now, c.swept), 0, c.now - window);
      && Scores(live) == Trim(hits, c.now - window)
      && Held(key, live, members, window)
  {
    var z := Entries(key);
    assert forall i :: 0 <= i < |z| ==> z[i] in z && z[i].score == hits[i];
    RemovalIsTrim(z, c.now - window);
    if Collect(key, c.now, c.swept) != z {
      assert forall i :: 0 <= i < |hits| ==> hits[i] <= c.now - window;
      TrimIsWithin(hits, c.now - window, c.now);
      WithinNone(hits, c.now - window, c.now);
    }
  }

  /** One script execution makes the decision the deque makes, with the same remainder. */
  lemma ScriptDecides(key: Option<ZKey>, hits: seq<int>, clock: int, members: set<Uuid>, c: Call, window: int)
    requires Agrees(key, hits, clock, members, window) && clock <= c.now && window > 0
    ensures Script(key, c, window).0 == Decide(Trim(hits, c.now - window), Attempt(c.now, c.limit), window)
  {
    var live := ZRemRangeByScore(Collect(key, c.now, c.swept), 0, c.now - window);
    ExpiryIsTrim(key, hits, clock, members, c, window);
    assert |live| == |Scores(live)| && (live != [] ==> live[0].score == Scores(live)[0]);
  }

  /** What a check finds in the sorted set after trimming agrees with the trimmed deque. */
  ghost predicate Trimmed(key: Option<ZKey>, live: seq<Entry>, rest: seq<int>, members: set<Uuid>, now: int,
                          window: int)
  {
    Scores(live) == rest && Ascending(rest) && AtMost(rest, now) && Held(key, live, members, window)
  }

  lemma TrimKeeps(key: Option<ZKey>, hits: seq<int>, clock: int, members: set<Uuid>, c: Call, window: int)
    requires Agrees(key, hits, clock, members, window) && clock <= c.now && window > 0
    ensures Trimmed(key, ZRemRangeByScore(Collect(key, c.now, c.swept), 0, c.now - window),
                    Trim(hits, c.now - window), members, c.now, window)
  {
    ExpiryIsTrim(key, hits, clock, members, c, window);
    RestIsOrderly(hits, c.now, window);
  }

  /** And it keeps the agreement. */
  lemma ScriptKeeps(key: Option<ZKey>, hits: seq<int>, clock: int, members: set<Uuid>, c: Call, window: int)
    requires Agrees(key, hits, clock, members, window) && clock <= c.now && 0 <= c.now && window > 0
    requires c.member !in members
    ensures Agrees(Script(key, c, window).1, NextHits(hits, c, window), c.now,
                   members + {c.member}, window)
  {
    var live := ZRemRangeByScore(Collect(key, c.now, c.swept), 0, c.now - window);
    TrimKeeps(key, hits, clock, members, c, window);
    FinishKeeps(key, live, Trim(hits, c.now - window), members, c, window);
  }

  lemma FinishKeeps(key: Option<ZKey>, live: seq<Entry>, rest: seq<int>, members: set<Uuid>, c: Call, window: int)
    requires Trimmed(key, live, rest, members, c.now, window) && 0 <= c.now && c.member !in members
    ensures Agrees(Finish(key, live, c, window).1, Settle(rest, Attempt(c.now, c.limit), window), c.now,
                   members + {c.member}, window)
  {
    assert |live| == |Scores(live)|;
    if |live| < c.limit {
      AddingAgrees(live, rest, members, c, window);
    } else if live != [] {
      assert live[0] in Entries(key);
      LeftAgrees(key, live, rest, members, c, window);
    }
  }

  lemma RestIsOrderly(hits: seq<int>, now: int, window: int)
    requires Ascending(hits) && AtMost(hits, now)
    ensures Ascending(Trim(hits, now - window)) && AtMost(Trim(hits, now - window), now)
  {
    TrimIsWithin(hits, now - window, now);
    WithinOrderly(hits, now - window, now);
  }

  lemma LeftAgrees(key: Option<ZKey>, live: seq<Entry>, hits: seq<int>, members: set<Uuid>, c: Call, window: int)
    requires Scores(live) == hits && Ascending(hits) && AtMost(hits, c.now) && key.Some?
    requires forall e :: e in live ==> e.score >= 0 && e.member in members && e.score + window <= key.value.expiresAt
    ensures Agrees(Some(ZKey(live, Expiry(key))), hits, c.now, members + {c.member}, window)
  {
  }

  lemma AddingAgrees(live: seq<Entry>, hits: seq<int>, members: set<Uuid>, c: Call, window: int)
    requires Scores(live) == hits && Ascending(hits) && AtMost(hits, c.now) && c.now >= 0
    requires forall e :: e in live ==> e.score >= 0 && e.member in members
    requires c.member !in members
    ensures Agrees(Some(ZKey(ZAdd(live, c.now, c.member), c.now + window)), hits + [c.now], c.now,
                   members + {c.member}, window)
  {
    var e := Entry(c.now, c.member);
    assert forall i :: 0 <= i < |live| ==> live[i] in live && hits[i] == live[i].score;
    FreshMemberAppends(live, c.now, c.member);
    assert Scores(live + [e]) == hits + [c.now];
    forall x | x in live + [e] ensures x.score <= c.now && x.score >= 0 && x.member in members + {c.member} {
      if x in live {
        var i :| 0 <= i < |live| && live[i] == x;
      }
    }
  }

  function Members(run: seq<Call>): set<Uuid> {
    set i | 0 <= i < |run| :: run[i].member
  }

  /** For every run of checks the sorted set and the deque hold the same hits, whichever due
      expiries Redis has carried out. */
  lemma {:induction false} SetIsDeque(run: seq<Call>, window: int, clock: int)
    requires Proper(run) && window > 0
    requires forall i :: 0 <= i < |run| ==> run[i].now <= clock
    ensures Agrees(KeyAfter(run, window), Hits(AsAttempts(run), window), clock, Members(run), window)
  {
    if run != [] {
      var n := |run| - 1;
      var before, c := run[..n], run[n];
      SetIsDeque(before, window, c.now);
      assert c.member !in Members(before);
      ScriptKeeps(KeyAfter(before, window), Hits(AsAttempts(before), window), c.now, Members(before), c, window);
      HitsNext(run, window);
      assert Members(run) == Members(before) + {c.member};
    }
  }

  lemma HitsNext(run: seq<Call>, window: int)
    requires run != []
    ensures var n := |run| - 1;
      Hits(AsAttempts(run), window)
        == NextHits(Hits(AsAttempts(run[..n]), window), run[n], window)
  {
    assert AsAttempts(run)[..|run| - 1] == AsAttempts(run[..|run| - 1]);
  }

  /** The two backends make identical decisions on the same timestamps, for all runs. */
  lemma SameDecisions(run: seq<Call>, c: Call, window: int)
    requires Proper(run + [c]) && window > 0
    ensures Script(KeyAfter(run, window), c, window).0
         == Verdict(AsAttempts(run), Attempt(c.now, c.limit), window)
  {
    ProperPrefix(run, c);
    SetIsDeque(run, window, c.now);
    SameVerdict(KeyAfter(run, window), AsAttempts(run), Members(run), c, window);
  }

  lemma SameVerdict(key: Option<ZKey>, run: seq<Attempt>, members: set<Uuid>, c: Call, window: int)
    requires Agrees(key, Hits(run, window), c.now, members, window) && window > 0
    ensures Script(key, c, window).0 == Verdict(run, Attempt(c.now, c.limit), window)
  {
    ScriptDecides(key, Hits(run, window), c.now, members, c, window);
  }

  lemma ProperPrefix(run: seq<Call>, c: Call)
    requires Proper(run + [c])
    ensures Proper(run) && c.now >= 0 && c.member !in Members(run)
    ensures forall i :: 0 <= i < |run| ==> run[i].now <= c.now
  {
    var all := run + [c];
    assert all[|run|] == c;
    assert forall i :: 0 <= i < |run| ==> all[i] == run[i];
  }

  /** The hits the script admitted over a run of executions. */
  function ScriptLog(run: seq<Call>, window: int): seq<int> {
    if run == [] then [] else
    var n := |run| - 1;
    ScriptLog(run[..n], window)
    + (if Script(KeyAfter(run[..n], window), run[n], window).0.Admit? then [run[n].now] else [])
  }

  lemma ScriptLogSnoc(run: seq<Call>, c: Call, window: int)
    ensures ScriptLog(run + [c], window) == ScriptLog(run, window)
      + (if Script(KeyAfter(run, window), c, window).0.Admit? then [c.now] else [])
  {
    assert (run + [c])[..|run|] == run;
  }

  /** A key that holds nothing is gone, and any other expires a full window after the last hit that
      was admitted, however many checks were rejected since. */
  lemma {:induction false} ExpiresAfterLastHit(run: seq<Call>, window: int)
    ensures var key, log := KeyAfter(run, window), ScriptLog(run, window);
      key.Some? ==> key.value.entries != [] && log != [] && key.value.expiresAt == log[|log| - 1] + window
  {
    if run != [] {
      var n := |run| - 1;
      ExpiresAfterLastHit(run[..n], window);
      Inserted(ZRemRangeByScore(Collect(KeyAfter(run[..n], window), run[n].now, run[n].swept), 0, run[n].now - window),
               run[n]);
    }
  }

  lemma Inserted(z: seq<Entry>, c: Call)
    ensures ZAdd(z, c.now, c.member) != []
  {
  }
}
