/** Opening a private chat: concurrent callers insert-or-ignore the canonical pair and then
    select it, each in two steps of its own. */
module Pairing {
  type UserId = int
  type ConnId = int
  type CallId = int

  datatype Pair = Pair(a: UserId, b: UserId)

  function CanonicalPair(x: UserId, y: UserId): Pair {
    if x < y then Pair(x, y) else Pair(y, x)
  }

  predicate IsParticipant(p: Pair, user: UserId) {
    user == p.a || user == p.b
  }

  function OtherUser(p: Pair, user: UserId): UserId {
    if p.a == user then p.b else p.a
  }

  /** The pair is ordered whoever starts, forgets who started, and each participant's other is
      the other's other. */
  lemma PairIsCanonical(x: UserId, y: UserId)
    requires x != y
    ensures CanonicalPair(x, y) == CanonicalPair(y, x)
    ensures CanonicalPair(x, y).a < CanonicalPair(x, y).b
    ensures forall u :: IsParticipant(CanonicalPair(x, y), u) <==> u == x || u == y
    ensures OtherUser(CanonicalPair(x, y), x) == y
    ensures OtherUser(CanonicalPair(x, y), OtherUser(CanonicalPair(x, y), x)) == x
  {
  }

  /** Two callers resolve to the same pair exactly when they name the same two users. */
  lemma {:induction false} PairIsUnordered(x: UserId, y: UserId, x': UserId, y': UserId)
    ensures CanonicalPair(x, y) == CanonicalPair(x', y') <==> {x, y} == {x', y'}
  {
    assert {x, y} == {x', y'} ==> x in {x', y'} && y in {x', y'} && x' in {x, y} && y' in {x, y};
  }

  /** Where a call stands. `Refused` is an integrity error: a pair of one user with itself. */
  datatype Stage = Started | Inserted | Found(row: ConnId) | Missing | Refused

  datatype Call = Call(me: UserId, other: UserId, stage: Stage)

  datatype State = State(table: map<ConnId, Pair>, calls: map<CallId, Call>)

  /** An insert brings the fresh identifier the database would generate. */
  datatype Event =
    | Begin(call: CallId, me: UserId, other: UserId)
    | Insert(call: CallId, id: ConnId)
    | Select(call: CallId)

  predicate Taken(table: map<ConnId, Pair>, p: Pair) {
    exists id :: id in table && table[id] == p
  }

  ghost function Advance(st: State, call: CallId, stage: Stage): State
    requires call in st.calls
  {
    st.(calls := st.calls[call := st.calls[call].(stage := stage)])
  }

  ghost predicate Step(st: State, e: Event, st': State) {
    match e
    case Begin(c, me, other) =>
      c !in st.calls && st' == st.(calls := st.calls[c := Call(me, other, Started)])
    case Insert(c, id) =>
      && c in st.calls && st.calls[c].stage == Started && id !in st.table
      && var p := CanonicalPair(st.calls[c].me, st.calls[c].other);
         if p.a == p.b then st' == Advance(st, c, Refused)
         else if Taken(st.table, p) then st' == Advance(st, c, Inserted)
         else st' == Advance(st, c, Inserted).(table := st.table[id := p])
    case Select(c) =>
      && c in st.calls && st.calls[c].stage == Inserted
      && var p := CanonicalPair(st.calls[c].me, st.calls[c].other);
         if Taken(st.table, p)
         then exists id :: id in st.table && st.table[id] == p && st' == Advance(st, c, Found(id))
         else st' == Advance(st, c, Missing)
  }

  /** A run: the states before and after each event. */
  ghost predicate Run(states: seq<State>, events: seq<Event>) {
    && |states| == |events| + 1
    && forall i :: 0 <= i < |events| ==> Step(states[i], events[i], states[i + 1])
  }

  /** One row per pair, every pair in canonical order, and every call that has inserted has a row. */
  ghost predicate Inv(st: State) {
    && (forall i, j :: i in st.table && j in st.table && st.table[i] == st.table[j] ==> i == j)
    && (forall i :: i in st.table ==> st.table[i].a < st.table[i].b)
    && (forall c :: c in st.calls ==>
          var p := CanonicalPair(st.calls[c].me, st.calls[c].other);
          && (st.calls[c].stage.Inserted? ==> Taken(st.table, p))
          && (st.calls[c].stage.Found? ==> st.calls[c].stage.row in st.table && st.table[st.calls[c].stage.row] == p)
          && st.calls[c].stage != Missing
          && (st.calls[c].stage.Refused? ==> st.calls[c].me == st.calls[c].other))
  }

  lemma {:induction false} StepKeepsInv(st: State, e: Event, st': State)
    requires Inv(st) && Step(st, e, st')
    ensures Inv(st')
  {
    forall p | Taken(st.table, p)
      ensures Taken(st'.table, p)
    {
      var id :| id in st.table && st.table[id] == p;
      assert id in st'.table && st'.table[id] == p;
    }
    if e.Insert? {
      var p := CanonicalPair(st.calls[e.call].me, st.calls[e.call].other);
      if p.a != p.b && !Taken(st.table, p) {
        assert e.id in st'.table && st'.table[e.id] == p;
      }
    }
  }

  lemma {:induction false} RunKeepsInv(states: seq<State>, events: seq<Event>, n: nat)
    requires Run(states, events) && Inv(states[0]) && n <= |events|
    ensures Inv(states[n])
  {
    if n > 0 {
      RunKeepsInv(states, events, n - 1);
      StepKeepsInv(states[n - 1], events[n - 1], states[n]);
    }
  }

  /** One connection per unordered pair: from an empty or any consistent table, under every
      interleaving of any number of callers, no call comes back without a row, two calls that
      name the same two users get the same row, and calls that name different users never do. */
  lemma OneConnectionPerPair(states: seq<State>, events: seq<Event>, c: CallId, d: CallId)
    requires Run(states, events) && Inv(states[0])
    requires var end := states[|events|]; c in end.calls && d in end.calls
    ensures var end := states[|events|];
      && end.calls[c].stage != Missing
      && (end.calls[c].stage.Found? && end.calls[d].stage.Found? ==>
           (end.calls[c].stage.row == end.calls[d].stage.row
            <==> {end.calls[c].me, end.calls[c].other} == {end.calls[d].me, end.calls[d].other}))
  {
    RunKeepsInv(states, events, |events|);
    var x, y := states[|events|].calls[c], states[|events|].calls[d];
    PairIsUnordered(x.me, x.other, y.me, y.other);
  }
}
