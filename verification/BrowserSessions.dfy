/**
  * The in-memory browser-session service: live sessions, ended records and the listeners told about endings. Ending
  * is one synchronous step; the listeners it found are then called one at a time, with any other operation in
  * between, until one of them rejects. Session ids are numbers here, ordered as the ids are.
  */
module BrowserSessions {
  import opened Text
  import Sorting

  datatype Session = Session(
    sid: nat, realm: string, user: string, createdAt: int, lastSeenAt: int, expiresAt: int,
    /** Authentication time, methods and assurance level, copied as they are. */
    details: string)

  datatype Record = Record(session: Session, revokedAt: int, reason: string)

  datatype Actor = UserActor | OtherActor

  datatype Event = Event(realm: string, reason: string, actor: Actor, sessions: seq<Record>)

  /** The calls an ending makes: the listeners it found, those still to call, and which of them rejected. */
  datatype Call = Call(event: Event, audience: seq<nat>, waiting: seq<nat>, failed: Option<nat>)

  /** Which sessions of a realm an operation ends. */
  datatype Selector =
    | One(sid: nat, userId: Option<string>)
    | OfUser(user: string, exceptSid: Option<nat>, createdBefore: Option<int>)
    | OfRealm(activeSince: Option<int>)

  predicate Owned(s: Session, userId: Option<string>) { userId.None? || s.user == userId.value }

  predicate Selects(sel: Selector, s: Session)
  {
    match sel
    case One(sid, userId) => s.sid == sid && Owned(s, userId)
    case OfUser(user, exceptSid, createdBefore) =>
      s.user == user && exceptSid != Some(s.sid) && (createdBefore.None? || s.createdAt < createdBefore.value)
    case OfRealm(activeSince) => activeSince.None? || s.lastSeenAt >= activeSince.value
  }

  /** The service, with what it has done so far: every session made, and which listener was called by which ending. */
  datatype State = State(
    sessions: map<nat, Session>, ended: map<nat, Record>, listeners: seq<nat>, calls: seq<Call>,
    made: seq<Session>, told: multiset<(nat, nat)>)

  datatype Outcome = Refused | NotFound | AlreadyEnded(before: Record) | Ended(record: Record)

  function Started(): (st: State) { State(map[], map[], [], [], [], multiset{}) }

  // ---------------------------------------------------------------- what one step does

  ghost function EndedBy(st: State, realm: string, sel: Selector): (r: set<nat>)
  {
    set sid | sid in st.sessions && st.sessions[sid].realm == realm && Selects(sel, st.sessions[sid])
  }

  ghost predicate Ascending(done: seq<Record>)
  {
    forall i, j :: 0 <= i < j < |done| ==> done[i].session.sid < done[j].session.sid
  }

  ghost predicate Names(records: seq<Record>, sid: nat) { exists i :: 0 <= i < |records| && records[i].session.sid == sid }

  /** One record for each of the sessions, at the time the clock gave when it was made. */
  ghost predicate AreRecordsOf(st: State, sids: set<nat>, reason: string, clock: nat -> int, done: seq<Record>)
    requires sids <= st.sessions.Keys
  {
    && (forall i :: 0 <= i < |done| ==> done[i].session.sid in sids && done[i] == Record(st.sessions[done[i].session.sid], clock(i), reason))
    && (forall sid :: sid in sids ==> Names(done, sid))
  }

  /** The live sessions without those that ended. */
  function Remaining(sessions: map<nat, Session>, done: seq<Record>): (r: map<nat, Session>)
  {
    if done == [] then sessions else Remaining(sessions, done[..|done| - 1]) - {done[|done| - 1].session.sid}
  }

  /** The ended records with the new ones. */
  function Recorded(ended: map<nat, Record>, done: seq<Record>): (r: map<nat, Record>)
  {
    if done == [] then ended
    else
      var last := done[|done| - 1];
      Recorded(ended, done[..|done| - 1])[last.session.sid := last]
  }

  /** The state after the synchronous part of an ending that ended `done`. */
  function AfterEnding(st: State, realm: string, reason: string, actor: Actor, done: seq<Record>): (r: State)
  {
    st.(sessions := Remaining(st.sessions, done), ended := Recorded(st.ended, done),
        calls := if done == [] then st.calls else st.calls + [Call(Event(realm, reason, actor, done), st.listeners, st.listeners, None)])
  }

  /** `endAll`: the matching sessions of the realm end together, in the order of their ids. */
  ghost predicate Ending(st: State, realm: string, reason: string, actor: Actor, sel: Selector, clock: nat -> int, done: seq<Record>, st': State)
  {
    && Ascending(done) && AreRecordsOf(st, EndedBy(st, realm, sel), reason, clock, done)
    && st' == AfterEnding(st, realm, reason, actor, done)
  }

  function Made(st: State, s: Session): (r: State)
  {
    st.(sessions := st.sessions[s.sid := s], made := st.made + [s])
  }

  function Subscribed(st: State, l: nat): (r: State)
  {
    if l in st.listeners then st else st.(listeners := st.listeners + [l])
  }

  function Without(xs: seq<nat>, l: nat): (r: seq<nat>)
    ensures forall x :: x in r <==> x in xs && x != l
  {
    if xs == [] then []
    else
      assert forall x :: x in xs <==> x == xs[0] || x in xs[1..];
      (if xs[0] == l then [] else [xs[0]]) + Without(xs[1..], l)
  }

  function Unsubscribed(st: State, l: nat): (r: State) { st.(listeners := Without(st.listeners, l)) }

  /** The ending numbered `k` still has listeners to call, the last ones of those it found. */
  predicate Waits(st: State, k: nat) { k < |st.calls| && 0 < |st.calls[k].waiting| <= |st.calls[k].audience| }

  /** The next waiting listener of an ending is called and resolves. */
  function Delivered(st: State, k: nat): (r: State)
    requires Waits(st, k)
  {
    var c := st.calls[k];
    st.(calls := st.calls[k := c.(waiting := c.waiting[1..])], told := st.told + multiset{(c.waiting[0], k)})
  }

  /** The next waiting listener of an ending is called and rejects: the others of that ending are not called. */
  function Rejected(st: State, k: nat): (r: State)
    requires Waits(st, k)
  {
    var c := st.calls[k];
    st.(calls := st.calls[k := c.(waiting := [], failed := Some(|c.audience| - |c.waiting|))], told := st.told + multiset{(c.waiting[0], k)})
  }

  // ---------------------------------------------------------------- the service

  class Service {
    var sessions: map<nat, Session>
    var ended: map<nat, Record>
    var listeners: seq<nat>
    var calls: seq<Call>
    ghost var made: seq<Session>
    ghost var told: multiset<(nat, nat)>

    ghost function View(): (st: State)
      reads this
    {
      State(sessions, ended, listeners, calls, made, told)
    }

    /** Sessions are stored under their own id. */
    ghost predicate Valid()
      reads this
    {
      forall sid :: sid in sessions ==> sessions[sid].sid == sid
    }

    constructor ()
      ensures Valid() && View() == Started()
    {
      sessions, ended, listeners, calls, made, told := map[], map[], [], [], [], multiset{};
    }

    /** `create` and `seed`: the session replaces a live one of the same id. */
    method Create(s: Session)
      requires Valid()
      modifies this
      ensures Valid()
      ensures View() == Made(old(View()), s)
    {
      sessions := sessions[s.sid := s];
      made := made + [s];
    }

    method Get(realm: string, sid: nat, now: int) returns (r: Option<Session>)
      ensures r.Some? <==> sid in sessions && sessions[sid].realm == realm && now < sessions[sid].expiresAt
      ensures r.Some? ==> r.value == sessions[sid]
    {
      if sid !in sessions || sessions[sid].realm != realm { return None; }
      r := if now < sessions[sid].expiresAt then Some(sessions[sid]) else None;
    }

    /** The clock is read once for each record; `clock(i)` is what it gives for the one numbered `i`. */
    method EndAll(realm: string, reason: string, actor: Actor, sel: Selector, clock: nat -> int) returns (done: seq<Record>)
      requires Valid()
      modifies this
      ensures Valid()
      ensures Ending(old(View()), realm, reason, actor, sel, clock, done, View())
    {
      hide Progress, Selects, Remaining, Recorded;
      ghost var st := View();
      var snapshot := sessions;
      var order := Sorting.Ascending(snapshot.Keys);
      done := [];
      ProgressStarts(st, realm, reason, sel, clock);
      assert order[..0] == [];
      var i := 0;
      while i < |order|
        invariant 0 <= i <= |order|
        invariant Progress(st, realm, reason, sel, clock, order[..i], done)
        invariant sessions == Remaining(st.sessions, done) && ended == Recorded(st.ended, done)
        invariant unchanged(`listeners, `calls, `made, `told)
      {
        var s := snapshot[order[i]];
        PrefixStep(order, i);
        ProgressStep(st, realm, reason, sel, clock, order[..i], done, order[i]);
        assert order[..i + 1] == order[..i] + [order[i]];
        if s.realm == realm && Selects(sel, s) {
          var record := Record(s, clock(|done|), reason);
          OneMoreDone(st, done, record);
          sessions := sessions - {s.sid};
          ended := ended[s.sid := record];
          done := done + [record];
        }
        i := i + 1;
      }
      assert order[..i] == order;
      ProgressEnds(st, realm, reason, sel, clock, order, done);
      forall sid ensures sid in sessions ==> sid in st.sessions && sessions[sid] == st.sessions[sid] {
        RemainingKeeps(st.sessions, done, sid);
      }
      if done != [] {
        calls := calls + [Call(Event(realm, reason, actor, done), listeners, listeners, None)];
      }
    }

    method Revoke(realm: string, sid: nat, userId: Option<string>, reason: string, actor: Actor, clock: nat -> int) returns (outcome: Outcome)
      requires Valid()
      modifies this
      ensures Valid()
      ensures RevokeOutcome(old(View()), realm, sid, userId, reason, actor, clock, outcome, View())
    {
      hide Ending;
      if actor.UserActor? && userId.None? { return Refused; }
      if sid in ended && ended[sid].session.realm == realm {
        outcome := if Owned(ended[sid].session, userId) then AlreadyEnded(ended[sid]) else NotFound;
        return;
      }
      var done := EndAll(realm, reason, actor, One(sid, userId), clock);
      outcome := if done == [] then NotFound else Ended(done[0]);
    }

    method RevokeAllForUser(realm: string, user: string, exceptSid: Option<nat>, createdBefore: Option<int>, reason: string, actor: Actor, clock: nat -> int)
      returns (done: seq<Record>)
      requires Valid()
      modifies this
      ensures Valid()
      ensures Ending(old(View()), realm, reason, actor, OfUser(user, exceptSid, createdBefore), clock, done, View())
    {
      done := EndAll(realm, reason, actor, OfUser(user, exceptSid, createdBefore), clock);
    }

    method RevokeAllForRealm(realm: string, activeSince: Option<int>, reason: string, actor: Actor, clock: nat -> int)
      returns (count: nat, batches: nat, ghost done: seq<Record>)
      requires Valid()
      modifies this
      ensures Valid()
      ensures Ending(old(View()), realm, reason, actor, OfRealm(activeSince), clock, done, View())
      ensures count == |done| && batches == (if done == [] then 0 else 1)
    {
      var d := EndAll(realm, reason, actor, OfRealm(activeSince), clock);
      done := d;
      count, batches := |d|, if d == [] then 0 else 1;
    }

    method OnSessionsEnded(l: nat)
      modifies this
      ensures View() == Subscribed(old(View()), l)
    {
      if l !in listeners { listeners := listeners + [l]; }
    }

    method Unsubscribe(l: nat)
      modifies this
      ensures View() == Unsubscribed(old(View()), l)
    {
      listeners := Without(listeners, l);
    }

    /** One turn of an ending's listener loop, in which the listener resolves. */
    method Deliver(k: nat) returns (l: nat, event: Event)
      requires Waits(View(), k)
      modifies this
      ensures View() == Delivered(old(View()), k)
      ensures l == old(calls[k].waiting[0]) && event == old(calls[k].event)
    {
      var c := calls[k];
      l, event := c.waiting[0], c.event;
      calls := calls[k := c.(waiting := c.waiting[1..])];
      told := told + multiset{(l, k)};
    }

    /** One turn in which the listener rejects, which ends the loop. */
    method Fail(k: nat) returns (l: nat, event: Event)
      requires Waits(View(), k)
      modifies this
      ensures View() == Rejected(old(View()), k)
      ensures l == old(calls[k].waiting[0]) && event == old(calls[k].event)
    {
      var c := calls[k];
      l, event := c.waiting[0], c.event;
      calls := calls[k := c.(waiting := [], failed := Some(|c.audience| - |c.waiting|))];
      told := told + multiset{(l, k)};
    }
  }

  ghost predicate RevokeOutcome(
    st: State, realm: string, sid: nat, userId: Option<string>, reason: string, actor: Actor, clock: nat -> int, outcome: Outcome, st': State)
  {
    if actor.UserActor? && userId.None? then outcome == Refused && st' == st
    else if sid in st.ended && st.ended[sid].session.realm == realm then
      && st' == st
      && outcome == if Owned(st.ended[sid].session, userId) then AlreadyEnded(st.ended[sid]) else NotFound
    else
      exists done: seq<Record> ::
        && Ending(st, realm, reason, actor, One(sid, userId), clock, done, st')
        && outcome == if done == [] then NotFound else Ended(done[0])
  }

  lemma PrefixStep(order: seq<nat>, i: nat)
    requires i < |order| && forall a, b :: 0 <= a < b < |order| ==> order[a] < order[b]
    ensures forall x :: x in order[..i] ==> x < order[i]
  {
  }

  ghost function Chosen(st: State, realm: string, sel: Selector, seen: seq<nat>): (r: set<nat>)
  {
    set sid | sid in seen && sid in st.sessions && st.sessions[sid].realm == realm && Selects(sel, st.sessions[sid])
  }

  /** The ending loop has looked at `seen`. */
  ghost predicate Progress(st: State, realm: string, reason: string, sel: Selector, clock: nat -> int, seen: seq<nat>, done: seq<Record>)
  {
    Ascending(done) && AreRecordsOf(st, Chosen(st, realm, sel, seen), reason, clock, done)
  }

  lemma ProgressStarts(st: State, realm: string, reason: string, sel: Selector, clock: nat -> int)
    ensures Progress(st, realm, reason, sel, clock, [], [])
    ensures Remaining(st.sessions, []) == st.sessions && Recorded(st.ended, []) == st.ended
  {
    assert Chosen(st, realm, sel, []) == {};
  }

  lemma OneMoreDone(st: State, done: seq<Record>, record: Record)
    ensures Remaining(st.sessions, done + [record]) == Remaining(st.sessions, done) - {record.session.sid}
    ensures Recorded(st.ended, done + [record]) == Recorded(st.ended, done)[record.session.sid := record]
  {
    assert (done + [record])[..|done|] == done;
  }

  lemma ChosenStep(st: State, realm: string, sel: Selector, seen: seq<nat>, sid: nat)
    requires sid in st.sessions
    ensures Chosen(st, realm, sel, seen + [sid]) ==
            if st.sessions[sid].realm == realm && Selects(sel, st.sessions[sid]) then Chosen(st, realm, sel, seen) + {sid}
            else Chosen(st, realm, sel, seen)
    ensures forall x :: x in Chosen(st, realm, sel, seen) ==> x in seen
  {
    hide Selects;
    assert forall x :: x in seen + [sid] <==> x in seen || x == sid;
  }

  lemma ProgressStep(
    st: State, realm: string, reason: string, sel: Selector, clock: nat -> int, seen: seq<nat>, done: seq<Record>, sid: nat)
    requires Progress(st, realm, reason, sel, clock, seen, done)
    requires sid in st.sessions && st.sessions[sid].sid == sid && forall x :: x in seen ==> x < sid
    ensures var s := st.sessions[sid];
            if s.realm == realm && Selects(sel, s) then
              Progress(st, realm, reason, sel, clock, seen + [sid], done + [Record(s, clock(|done|), reason)])
            else Progress(st, realm, reason, sel, clock, seen + [sid], done)
  {
    hide Selects, AreRecordsOf, Ascending;
    ChosenStep(st, realm, sel, seen, sid);
    if st.sessions[sid].realm == realm && Selects(sel, st.sessions[sid]) {
      AppendRecord(st, Chosen(st, realm, sel, seen), reason, clock, done, sid);
    }
  }

  lemma ProgressEnds(st: State, realm: string, reason: string, sel: Selector, clock: nat -> int, order: seq<nat>, done: seq<Record>)
    requires Progress(st, realm, reason, sel, clock, order, done) && forall x :: x in order <==> x in st.sessions
    ensures Ascending(done) && AreRecordsOf(st, EndedBy(st, realm, sel), reason, clock, done)
  {
    hide Selects, AreRecordsOf, Ascending;
    var sids, chosen := EndedBy(st, realm, sel), Chosen(st, realm, sel, order);
    forall x ensures x in chosen <==> x in sids {
    }
    assert chosen == sids;
  }

  lemma AppendRecord(st: State, sids: set<nat>, reason: string, clock: nat -> int, done: seq<Record>, sid: nat)
    requires sids <= st.sessions.Keys && Ascending(done) && AreRecordsOf(st, sids, reason, clock, done)
    requires sid in st.sessions && st.sessions[sid].sid == sid && forall x :: x in sids ==> x < sid
    ensures Ascending(done + [Record(st.sessions[sid], clock(|done|), reason)])
    ensures AreRecordsOf(st, sids + {sid}, reason, clock, done + [Record(st.sessions[sid], clock(|done|), reason)])
  {
    var longer := done + [Record(st.sessions[sid], clock(|done|), reason)];
    forall x | x in sids + {sid} ensures Names(longer, x) {
      if x == sid {
        assert longer[|done|].session.sid == x;
      } else {
        assert Names(done, x);
        var k :| 0 <= k < |done| && done[k].session.sid == x;
        assert longer[k] == done[k];
      }
    }
  }

  // ---------------------------------------------------------------- what an ending leaves under an id

  lemma {:induction false} RemainingKeeps(sessions: map<nat, Session>, done: seq<Record>, sid: nat)
    ensures sid in Remaining(sessions, done) <==> sid in sessions && !Names(done, sid)
    ensures sid in Remaining(sessions, done) ==> Remaining(sessions, done)[sid] == sessions[sid]
  {
    if done != [] {
      var n := |done| - 1;
      RemainingKeeps(sessions, done[..n], sid);
      NamesLast(done, sid);
    }
  }

  lemma NamesLast(done: seq<Record>, sid: nat)
    requires done != []
    ensures Names(done, sid) <==> done[|done| - 1].session.sid == sid || Names(done[..|done| - 1], sid)
  {
    var before := done[..|done| - 1];
    if Names(done, sid) {
      var i :| 0 <= i < |done| && done[i].session.sid == sid;
      assert i < |before| ==> before[i] == done[i];
    }
    if Names(before, sid) {
      var i :| 0 <= i < |before| && before[i].session.sid == sid;
      assert done[i] == before[i];
    }
  }

  lemma {:induction false} RecordedKeeps(ended: map<nat, Record>, done: seq<Record>, sid: nat)
    ensures sid in Recorded(ended, done) <==> sid in ended || Names(done, sid)
    ensures !Names(done, sid) && sid in ended ==> Recorded(ended, done)[sid] == ended[sid]
    ensures Names(done, sid) ==> Recorded(ended, done)[sid] in done && Recorded(ended, done)[sid].session.sid == sid
  {
    if done != [] {
      var n := |done| - 1;
      RecordedKeeps(ended, done[..n], sid);
      NamesLast(done, sid);
      assert forall r :: r in done[..n] ==> r in done;
    }
  }
}
