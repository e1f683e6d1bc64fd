/**
  * What the session service keeps over every interleaving of its operations and of the calls to its listeners: which
  * sessions are live or ended, that an ended record never changes, who is told of an ending, and that realms do not
  * touch each other. A session may be made under any id; where a promise depends on ids not being used again, the
  * exact condition is part of the statement.
  */
module BrowserSessionsProofs {
  import opened Text
  import opened BrowserSessions

  predicate Distinct(xs: seq<nat>) { forall i, j :: 0 <= i < j < |xs| ==> xs[i] != xs[j] }

  // ---------------------------------------------------------------- steps

  datatype Op =
    | Make(session: Session)
    | End(realm: string, reason: string, actor: Actor, sel: Selector, clock: nat -> int)
    | Subscribe(l: nat)
    | Unsubscribe(l: nat)
    | Tell(k: nat)
    | Reject(k: nat)
    | Read

  /** One atomic step: an operation up to its first await, or one call to a listener, which resolves or rejects. */
  ghost predicate Step(st: State, op: Op, st': State)
  {
    match op
    case Make(s) => st' == Made(st, s)
    case End(realm, reason, actor, sel, clock) => exists done :: Ending(st, realm, reason, actor, sel, clock, done, st')
    case Subscribe(l) => st' == Subscribed(st, l)
    case Unsubscribe(l) => st' == Unsubscribed(st, l)
    case Tell(k) => Waits(st, k) && st' == Delivered(st, k)
    case Reject(k) => Waits(st, k) && st' == Rejected(st, k)
    case Read => st' == st
  }

  ghost predicate Run(states: seq<State>, ops: seq<Op>)
  {
    && |states| == |ops| + 1
    && states[0] == Started()
    && forall i :: 0 <= i < |ops| ==> Step(states[i], ops[i], states[i + 1])
  }

  /** What an ending does to the maps, id by id. */
  lemma EndingAt(st: State, realm: string, reason: string, actor: Actor, sel: Selector, clock: nat -> int, done: seq<Record>, st': State, sid: nat)
    requires Ending(st, realm, reason, actor, sel, clock, done, st')
    ensures Names(done, sid) <==> sid in EndedBy(st, realm, sel)
    ensures sid in st'.sessions <==> sid in st.sessions && !Names(done, sid)
    ensures sid in st'.sessions ==> st'.sessions[sid] == st.sessions[sid]
    ensures sid in st'.ended <==> sid in st.ended || Names(done, sid)
    ensures !Names(done, sid) && sid in st.ended ==> st'.ended[sid] == st.ended[sid]
    ensures Names(done, sid) ==> st'.ended[sid] in done && sid in st.sessions && st'.ended[sid].session == st.sessions[sid]
    ensures Names(done, sid) ==> st'.ended[sid].session.sid == sid && st'.ended[sid].reason == reason
  {
    hide Selects, Ascending, Remaining, Recorded;
    RemainingKeeps(st.sessions, done, sid);
    RecordedKeeps(st.ended, done, sid);
    if Names(done, sid) {
      var i :| 0 <= i < |done| && done[i].session.sid == sid;
      assert done[i].session.sid in EndedBy(st, realm, sel);
      var r := st'.ended[sid];
      var j :| 0 <= j < |done| && done[j] == r;
    }
  }

  // ---------------------------------------------------------------- which sessions end

  ghost predicate Live(st: State, s: Session) { s.sid in st.sessions && st.sessions[s.sid] == s }

  /** The records hold one of that session, with the reason and what the clock gave for it. */
  ghost predicate Returned(done: seq<Record>, s: Session, reason: string, clock: nat -> int)
  {
    exists i :: 0 <= i < |done| && done[i] == Record(s, clock(i), reason)
  }

  /** A live session of the realm that is selected gets a record and ends; any other stays. */
  lemma EndingOf(st: State, realm: string, reason: string, actor: Actor, sel: Selector, clock: nat -> int, done: seq<Record>, st': State, s: Session)
    requires Ending(st, realm, reason, actor, sel, clock, done, st')
    ensures Live(st', s) <==> Live(st, s) && !(s.realm == realm && Selects(sel, s))
    ensures Returned(done, s, reason, clock) <==> Live(st, s) && s.realm == realm && Selects(sel, s)
  {
    EndingAt(st, realm, reason, actor, sel, clock, done, st', s.sid);
    hide Selects, AfterEnding;
    if Names(done, s.sid) {
      var i :| 0 <= i < |done| && done[i].session.sid == s.sid;
      assert done[i] == Record(st.sessions[s.sid], clock(i), reason);
    }
    if i :| 0 <= i < |done| && done[i] == Record(s, clock(i), reason) {
      assert Names(done, s.sid);
    }
  }

  /** After `revokeAllForUser`. */
  lemma RevokedForUser(
    st: State, realm: string, user: string, exceptSid: Option<nat>, createdBefore: Option<int>, reason: string, actor: Actor, clock: nat -> int,
    done: seq<Record>, st': State, s: Session)
    requires Ending(st, realm, reason, actor, OfUser(user, exceptSid, createdBefore), clock, done, st')
    ensures Live(st', s) <==>
            Live(st, s) && (s.realm != realm || s.user != user || exceptSid == Some(s.sid) || (createdBefore.Some? && createdBefore.value <= s.createdAt))
    ensures Returned(done, s, reason, clock) <==> Live(st, s) && !Live(st', s)
  {
    EndingOf(st, realm, reason, actor, OfUser(user, exceptSid, createdBefore), clock, done, st', s);
    hide Ending, Returned;
  }

  /** After `revokeAllForRealm`. */
  lemma RevokedForRealm(
    st: State, realm: string, activeSince: Option<int>, reason: string, actor: Actor, clock: nat -> int, done: seq<Record>, st': State, s: Session)
    requires Ending(st, realm, reason, actor, OfRealm(activeSince), clock, done, st')
    ensures Live(st', s) <==> Live(st, s) && (s.realm != realm || (activeSince.Some? && s.lastSeenAt < activeSince.value))
    ensures Returned(done, s, reason, clock) <==> Live(st, s) && !Live(st', s)
  {
    EndingOf(st, realm, reason, actor, OfRealm(activeSince), clock, done, st', s);
    hide Ending, Returned;
  }

  /** The session has that id, realm and, when one is named, owner. */
  ghost predicate IsNamed(s: Session, realm: string, sid: nat, userId: Option<string>)
  {
    s.sid == sid && s.realm == realm && userId in {None, Some(s.user)}
  }

  /**
    * After `revoke`: without an owner from a user nothing happens; with a record of that id in the realm the record is
    * returned to its owner and nothing happens; otherwise the named session ends, if it is live, and nothing else.
    */
  lemma RevokedOne(
    st: State, realm: string, sid: nat, userId: Option<string>, reason: string, actor: Actor, clock: nat -> int, outcome: Outcome, st': State, s: Session)
    requires RevokeOutcome(st, realm, sid, userId, reason, actor, clock, outcome, st')
    ensures outcome == Refused <==> actor == UserActor && userId == None
    ensures outcome.AlreadyEnded? <==> outcome != Refused && sid in st.ended && st.ended[sid].session.realm == realm && userId in {None, Some(st.ended[sid].session.user)}
    ensures outcome.AlreadyEnded? ==> outcome.before == st.ended[sid]
    ensures outcome == Refused || (sid in st.ended && st.ended[sid].session.realm == realm) ==> st' == st && !outcome.Ended?
    ensures outcome != Refused && !(sid in st.ended && st.ended[sid].session.realm == realm) ==>
              && (Live(st', s) <==> Live(st, s) && !IsNamed(s, realm, sid, userId))
              && (outcome == Ended(Record(s, clock(0), reason)) <==> Live(st, s) && IsNamed(s, realm, sid, userId))
              && (outcome.Ended? ==> Live(st, outcome.record.session) && outcome.record == Record(outcome.record.session, clock(0), reason))
  {
    if !(actor.UserActor? && userId.None?) && !(sid in st.ended && st.ended[sid].session.realm == realm) {
      var done: seq<Record> :| Ending(st, realm, reason, actor, One(sid, userId), clock, done, st')
                  && outcome == if done == [] then NotFound else Ended(done[0]);
      OneEnded(st, realm, sid, userId, reason, actor, clock, done, st', s);
      hide Ending, Live, IsNamed;
    }
  }

  lemma OneEnded(
    st: State, realm: string, sid: nat, userId: Option<string>, reason: string, actor: Actor, clock: nat -> int, done: seq<Record>, st': State, s: Session)
    requires Ending(st, realm, reason, actor, One(sid, userId), clock, done, st')
    ensures Live(st', s) <==> Live(st, s) && !IsNamed(s, realm, sid, userId)
    ensures (done != [] && done[0] == Record(s, clock(0), reason)) <==> Live(st, s) && IsNamed(s, realm, sid, userId)
    ensures done != [] ==> Live(st, done[0].session) && done[0] == Record(done[0].session, clock(0), reason)
  {
    EndingOf(st, realm, reason, actor, One(sid, userId), clock, done, st', s);
    hide AfterEnding;
    if done != [] {
      assert done[0].session.sid in EndedBy(st, realm, One(sid, userId));
      assert done[0] == Record(st.sessions[done[0].session.sid], clock(0), reason);
    }
    if Returned(done, s, reason, clock) {
      var i :| 0 <= i < |done| && done[i] == Record(s, clock(i), reason);
      assert done[0].session.sid in EndedBy(st, realm, One(sid, userId)) && done[i].session.sid in EndedBy(st, realm, One(sid, userId));
      assert i == 0;
    }
  }

  /** Unsubscribing takes out the listener and keeps the order of the others. */
  lemma OthersKeepOrder(before: seq<nat>, l: nat, after: seq<nat>)
    requires l !in before && l !in after
    ensures Without(before + [l] + after, l) == before + after
    ensures Without(before, l) == before
  {
    WithoutInTwo(before + [l], after, l);
    WithoutInTwo(before, [l], l);
    NothingLeaves(before, l);
    NothingLeaves(after, l);
    assert Without([l], l) == [] && before + [] == before;
  }

  /** What is left of the first listener, and of the others. */
  lemma WithoutStep(xs: seq<nat>, l: nat)
    requires xs != []
    ensures Without(xs, l) == Without([xs[0]], l) + Without(xs[1..], l)
  {
    var first := [xs[0]];
    assert first[1..] == [] && Without([], l) == [];
  }

  lemma {:induction false} WithoutInTwo(xs: seq<nat>, ys: seq<nat>, l: nat)
    ensures Without(xs + ys, l) == Without(xs, l) + Without(ys, l)
  {
    if xs == [] {
      assert xs + ys == ys;
    } else {
      WithoutStep(xs, l);
      WithoutStep(xs + ys, l);
      hide Without;
      WithoutInTwo(xs[1..], ys, l);
      assert (xs + ys)[0] == xs[0] && (xs + ys)[1..] == xs[1..] + ys;
      Joined(Without([xs[0]], l), Without(xs[1..], l), Without(ys, l));
    }
  }

  lemma Joined(a: seq<nat>, b: seq<nat>, c: seq<nat>)
    ensures a + (b + c) == (a + b) + c
  {
  }

  lemma {:induction false} NothingLeaves(xs: seq<nat>, l: nat)
    requires l !in xs
    ensures Without(xs, l) == xs
  {
    if xs != [] {
      NothingLeaves(xs[1..], l);
      assert xs == [xs[0]] + xs[1..];
    }
  }

  // ---------------------------------------------------------------- no session is lost

  /** The session last made under an id. */
  function Latest(made: seq<Session>, sid: nat): (r: Option<Session>)
    ensures r.Some? ==> r.value in made && r.value.sid == sid
    ensures r.None? ==> forall s :: s in made ==> s.sid != sid
  {
    if made == [] then None
    else
      var last := made[|made| - 1];
      assert forall s :: s in made <==> s == last || s in made[..|made| - 1];
      if last.sid == sid then Some(last) else Latest(made[..|made| - 1], sid)
  }

  lemma LatestAppend(made: seq<Session>, s: Session, sid: nat)
    ensures Latest(made + [s], sid) == if s.sid == sid then Some(s) else Latest(made, sid)
  {
    assert (made + [s])[..|made|] == made;
  }

  /** The session is live, or there is a record that it ended. */
  predicate Accounted(st: State, s: Session)
  {
    || (s.sid in st.sessions && st.sessions[s.sid] == s)
    || (s.sid in st.ended && st.ended[s.sid].session == s)
  }

  /** Live sessions are the latest of their ids, and a latest session that is not live has ended. */
  ghost predicate KeptAt(st: State, sid: nat)
  {
    && (sid in st.sessions ==> Latest(st.made, sid) == Some(st.sessions[sid]))
    && (sid in st.ended ==> st.ended[sid].session.sid == sid && st.ended[sid].session in st.made)
    && (Latest(st.made, sid).Some? && sid !in st.sessions ==>
          sid in st.ended && st.ended[sid].session == Latest(st.made, sid).value)
  }

  ghost predicate Kept(st: State) { forall sid :: KeptAt(st, sid) }

  lemma StepKept(st: State, op: Op, st': State)
    requires Kept(st) && Step(st, op, st')
    ensures Kept(st')
  {
    hide Latest, AfterEnding, Selects;
    forall sid ensures KeptAt(st', sid) {
      assert KeptAt(st, sid);
      match op
      case Make(s) => LatestAppend(st.made, s, sid);
      case End(realm, reason, actor, sel, clock) =>
        var done :| Ending(st, realm, reason, actor, sel, clock, done, st');
        EndingAt(st, realm, reason, actor, sel, clock, done, st', sid);
        assert st'.made == st.made by { EndingLeaves(st, realm, reason, actor, done); }
        assert sid in st.sessions ==> Latest(st.made, sid).Some?;
      case _ =>
    }
  }

  lemma EndingLeaves(st: State, realm: string, reason: string, actor: Actor, done: seq<Record>)
    ensures var r := AfterEnding(st, realm, reason, actor, done); r.made == st.made && r.listeners == st.listeners && r.told == st.told
  {
  }

  lemma {:induction false} RunKept(states: seq<State>, ops: seq<Op>, i: nat)
    requires Run(states, ops) && i < |states|
    ensures Kept(states[i])
  {
    hide Kept, Step;
    if i == 0 {
      StartedKept();
    } else {
      RunKept(states, ops, i - 1);
      assert Step(states[i - 1], ops[i - 1], states[i - 1 + 1]);
      StepKept(states[i - 1], ops[i - 1], states[i]);
    }
  }

  lemma StartedKept()
    ensures Kept(Started())
  {
  }

  /** No session is made under the id of an ended one. */
  ghost predicate EndedIdsUnused(states: seq<State>, ops: seq<Op>)
    requires Run(states, ops)
  {
    forall i :: 0 <= i < |ops| && ops[i].Make? ==> ops[i].session.sid !in states[i].ended
  }

  ghost predicate Apart(st: State) { st.sessions.Keys !! st.ended.Keys }

  lemma StepApart(st: State, op: Op, st': State)
    requires Apart(st) && Step(st, op, st')
    ensures Apart(st') <==> !(op.Make? && op.session.sid in st.ended)
  {
    hide AfterEnding, Selects, Ascending, AreRecordsOf;
    match op
    case Make(s) => assert s.sid in st'.sessions;
    case End(realm, reason, actor, sel, clock) =>
      var done :| Ending(st, realm, reason, actor, sel, clock, done, st');
      forall sid ensures !(sid in st'.sessions && sid in st'.ended) {
        EndingAt(st, realm, reason, actor, sel, clock, done, st', sid);
      }
    case _ =>
  }

  lemma {:induction false} RunApart(states: seq<State>, ops: seq<Op>, i: nat)
    requires Run(states, ops) && EndedIdsUnused(states, ops) && i < |states|
    ensures Apart(states[i])
  {
    hide Step;
    if i > 0 {
      RunApart(states, ops, i - 1);
      assert Step(states[i - 1], ops[i - 1], states[i - 1 + 1]);
      StepApart(states[i - 1], ops[i - 1], states[i]);
    }
  }

  /** Live and ended sessions are disjoint throughout a run exactly when no session is made under the id of an ended one. */
  lemma LiveAndEndedAreApart(states: seq<State>, ops: seq<Op>)
    requires Run(states, ops)
    ensures (forall i :: 0 <= i < |states| ==> Apart(states[i])) <==> EndedIdsUnused(states, ops)
  {
    hide Step, Apart;
    if EndedIdsUnused(states, ops) {
      forall i | 0 <= i < |states| ensures Apart(states[i]) { RunApart(states, ops, i); }
    } else {
      var i :| 0 <= i < |ops| && ops[i].Make? && ops[i].session.sid in states[i].ended;
      assert Step(states[i], ops[i], states[i + 1]);
      if Apart(states[i]) { StepApart(states[i], ops[i], states[i + 1]); }
    }
  }

  /**
    * Over every run the latest session made under an id is live or recorded as ended, live and recorded sessions are
    * sessions that were made, and while no ended id is used again the sessions accounted for are exactly the latest
    * ones: a session is lost if and only if a different one was later made under its id.
    */
  lemma NoSessionIsLost(states: seq<State>, ops: seq<Op>, i: nat, s: Session)
    requires Run(states, ops) && i < |states|
    ensures Latest(states[i].made, s.sid) == Some(s) ==> Accounted(states[i], s)
    ensures Accounted(states[i], s) ==> s in states[i].made
    ensures EndedIdsUnused(states, ops) ==> (Accounted(states[i], s) <==> Latest(states[i].made, s.sid) == Some(s))
  {
    hide Latest, Step;
    RunKept(states, ops, i);
    assert KeptAt(states[i], s.sid);
    if EndedIdsUnused(states, ops) {
      RunApart(states, ops, i);
    }
  }

  /** Every session of the list was made under an id of its own. */
  ghost predicate OwnIds(made: seq<Session>) { forall i, j :: 0 <= i < j < |made| ==> made[i].sid != made[j].sid }

  lemma {:induction false} LatestOfOwn(made: seq<Session>, i: nat)
    requires OwnIds(made) && i < |made|
    ensures Latest(made, made[i].sid) == Some(made[i])
  {
    if i < |made| - 1 {
      LatestOfOwn(made[..|made| - 1], i);
    }
  }

  lemma StepMakes(st: State, op: Op, st': State)
    requires Step(st, op, st')
    ensures st'.made == if op.Make? then st.made + [op.session] else st.made
  {
    hide Selects, Ascending, AreRecordsOf, Remaining, Recorded, Without;
  }

  lemma {:induction false} MadeGrows(states: seq<State>, ops: seq<Op>, i: nat, j: nat)
    requires Run(states, ops) && i <= j < |states|
    ensures states[i].made <= states[j].made
    decreases j
  {
    hide Step;
    if i < j {
      MadeGrows(states, ops, i, j - 1);
      assert Step(states[j - 1], ops[j - 1], states[j - 1 + 1]);
      StepMakes(states[j - 1], ops[j - 1], states[j]);
    }
  }

  /** A session made under an id that was used before shows in the list of sessions made. */
  lemma OwnIdIsNew(states: seq<State>, ops: seq<Op>, i: nat)
    requires Run(states, ops) && OwnIds(states[|ops|].made) && i < |ops| && ops[i].Make?
    ensures ops[i].session.sid !in states[i].sessions && ops[i].session.sid !in states[i].ended
  {
    hide Step, Latest;
    var s, made := ops[i].session, states[i].made;
    assert Step(states[i], ops[i], states[i + 1]);
    StepMakes(states[i], ops[i], states[i + 1]);
    MadeGrows(states, ops, i + 1, |ops|);
    assert states[|ops|].made[|made|] == s;
    assert forall n :: 0 <= n < |made| ==> states[|ops|].made[n] == made[n] && made[n].sid != s.sid;
    RunKept(states, ops, i);
    assert KeptAt(states[i], s.sid);
  }

  /** With ids of their own, every session ever made is either live or ended, and never both. */
  lemma EverySessionIsKept(states: seq<State>, ops: seq<Op>, i: nat, s: Session)
    requires Run(states, ops) && OwnIds(states[|ops|].made) && i < |states|
    ensures s in states[i].made <==> Accounted(states[i], s)
    ensures Apart(states[i]) && EndedIdsUnused(states, ops)
  {
    hide Step, Latest, Accounted;
    forall n | 0 <= n < |ops| && ops[n].Make? ensures ops[n].session.sid !in states[n].ended { OwnIdIsNew(states, ops, n); }
    RunApart(states, ops, i);
    NoSessionIsLost(states, ops, i, s);
    if s in states[i].made {
      MadeGrows(states, ops, i, |ops|);
      var made := states[i].made;
      assert OwnIds(made) by { assert forall n :: 0 <= n < |made| ==> states[|ops|].made[n] == made[n]; }
      var n :| 0 <= n < |made| && made[n] == s;
      LatestOfOwn(made, n);
    }
  }

  /** Two sessions of different realms made under one id: the first is gone without a record. */
  lemma ReusedIdLosesSession(s: Session, t: Session)
    requires s.sid == t.sid && s.realm != t.realm
    ensures var one := Made(Started(), s);
            var two := Made(one, t);
            && Run([Started(), one, two], [Make(s), Make(t)])
            && Accounted(one, s) && !Accounted(two, s)
  {
    var one := Made(Started(), s);
    var two := Made(one, t);
    assert Step(Started(), Make(s), one) && Step(one, Make(t), two);
  }

  // ---------------------------------------------------------------- ended records

  /** Ended records stay as they are. */
  ghost predicate EndedGrows(st: State, st': State)
  {
    forall sid :: sid in st.ended ==> sid in st'.ended && st'.ended[sid] == st.ended[sid]
  }

  /** The operation ends a live session under the id of an ended one. */
  ghost predicate EndsAgain(st: State, op: Op)
  {
    op.End? && exists sid :: sid in EndedBy(st, op.realm, op.sel) && sid in st.ended
  }

  /** The clock reads none of the times of the records there are. */
  ghost predicate ClockMoved(st: State, op: Op)
  {
    op.End? ==> forall n: nat, sid :: sid in st.ended ==> op.clock(n) != st.ended[sid].revokedAt
  }

  /**
    * A step keeps every record when it ends no live session under the id of an ended one; and, once the clock has moved
    * on since the records were made, exactly then.
    */
  lemma StepKeepsRecords(st: State, op: Op, st': State)
    requires Step(st, op, st')
    ensures !EndsAgain(st, op) ==> EndedGrows(st, st')
    ensures ClockMoved(st, op) ==> (EndedGrows(st, st') <==> !EndsAgain(st, op))
  {
    hide AfterEnding, Selects, Ascending;
    if op.End? {
      var done: seq<Record> :| Ending(st, op.realm, op.reason, op.actor, op.sel, op.clock, done, st');
      forall sid | sid in st.ended
        ensures sid in st'.ended && (sid !in EndedBy(st, op.realm, op.sel) ==> st'.ended[sid] == st.ended[sid])
        ensures sid in EndedBy(st, op.realm, op.sel) && ClockMoved(st, op) ==> st'.ended[sid] != st.ended[sid]
      {
        EndingAt(st, op.realm, op.reason, op.actor, op.sel, op.clock, done, st', sid);
        if sid in EndedBy(st, op.realm, op.sel) {
          var n :| 0 <= n < |done| && done[n] == st'.ended[sid];
          assert done[n].revokedAt == op.clock(n);
        }
      }
    }
  }

  /** A session ends once: its record never changes while no live session is ended under the id of an ended one. */
  lemma {:induction false} RecordsStay(states: seq<State>, ops: seq<Op>, i: nat, j: nat)
    requires Run(states, ops) && i <= j < |states| && forall n :: i <= n < j ==> !EndsAgain(states[n], ops[n])
    ensures EndedGrows(states[i], states[j])
    decreases j
  {
    hide Step, EndsAgain;
    if i < j {
      RecordsStay(states, ops, i, j - 1);
      assert Step(states[j - 1], ops[j - 1], states[j - 1 + 1]);
      StepKeepsRecords(states[j - 1], ops[j - 1], states[j]);
    }
  }

  /** So it never changes while no session is made under the id of an ended one. */
  lemma RecordNeverChanges(states: seq<State>, ops: seq<Op>, i: nat, j: nat)
    requires Run(states, ops) && EndedIdsUnused(states, ops) && i <= j < |states|
    ensures EndedGrows(states[i], states[j])
  {
    hide Step, Selects;
    forall n | i <= n < j ensures !EndsAgain(states[n], ops[n]) { RunApart(states, ops, n); }
    RecordsStay(states, ops, i, j);
  }

  /** After a session has ended, every revoke of it in its realm by its owner, or by no user, says so with the same record. */
  lemma RevokeAgain(
    states: seq<State>, ops: seq<Op>, i: nat, j: nat, sid: nat, userId: Option<string>, reason: string, actor: Actor, clock: nat -> int,
    outcome: Outcome, after: State)
    requires Run(states, ops) && EndedIdsUnused(states, ops) && i <= j < |states| && sid in states[i].ended
    requires Owned(states[i].ended[sid].session, userId) && !(actor.UserActor? && userId.None?)
    requires RevokeOutcome(states[j], states[i].ended[sid].session.realm, sid, userId, reason, actor, clock, outcome, after)
    ensures outcome == AlreadyEnded(states[i].ended[sid]) && after == states[j]
  {
    hide Ending;
    RecordNeverChanges(states, ops, i, j);
  }

  /** A session under an ended id of its realm cannot be revoked: the answer is the old record and it stays live. */
  lemma ReusedIdCannotBeRevoked(
    st: State, s: Session, userId: Option<string>, reason: string, actor: Actor, clock: nat -> int, outcome: Outcome, after: State)
    requires s.sid in st.ended && st.ended[s.sid].session.realm == s.realm && Owned(st.ended[s.sid].session, userId)
    requires !(actor.UserActor? && userId.None?)
    requires RevokeOutcome(Made(st, s), s.realm, s.sid, userId, reason, actor, clock, outcome, after)
    ensures outcome == AlreadyEnded(st.ended[s.sid]) && s.sid in after.sessions && after.sessions[s.sid] == s
  {
    hide Ending;
  }

  // ---------------------------------------------------------------- who is told

  /** How many of the listeners of an ending have been called. */
  function Reached(c: Call): (n: int) { if c.failed.Some? then c.failed.value + 1 else |c.audience| - |c.waiting| }

  ghost predicate WellCall(c: Call)
  {
    && Distinct(c.audience) && Ascending(c.event.sessions) && |c.waiting| <= |c.audience|
    && (if c.failed.Some? then c.waiting == [] && c.failed.value < |c.audience|
        else c.waiting == c.audience[|c.audience| - |c.waiting|..])
  }

  ghost predicate Called(c: Call, l: nat) { exists p :: 0 <= p < |c.audience| && p < Reached(c) && c.audience[p] == l }

  ghost predicate ToldAt(st: State, l: nat, k: nat)
  {
    st.told[(l, k)] == if k < |st.calls| && Called(st.calls[k], l) then 1 else 0
  }

  ghost predicate ToldOnce(st: State)
  {
    && Distinct(st.listeners) && (forall k :: 0 <= k < |st.calls| ==> WellCall(st.calls[k]))
    && forall l: nat, k: nat :: ToldAt(st, l, k)
  }

  lemma {:induction false} WithoutIsDistinct(xs: seq<nat>, l: nat)
    requires Distinct(xs)
    ensures Distinct(Without(xs, l))
  {
    if xs != [] {
      WithoutIsDistinct(xs[1..], l);
      var rest := Without(xs[1..], l);
      if xs[0] != l {
        forall j | 0 <= j < |rest| ensures rest[j] != xs[0] {
          assert rest[j] in xs[1..];
        }
      }
    }
  }

  /** A turn of the listener loop calls the first waiting listener, which had not been called. */
  lemma OneMoreCalled(c: Call, next: Call, l: nat)
    requires WellCall(c) && c.waiting != []
    requires next == c.(waiting := c.waiting[1..]) || next == c.(waiting := [], failed := Some(|c.audience| - |c.waiting|))
    ensures WellCall(next) && !Called(c, c.waiting[0])
    ensures Called(next, l) <==> Called(c, l) || l == c.waiting[0]
  {
    NextTurn(c, next);
    hide WellCall, Reached;
    var n := |c.audience| - |c.waiting|;
    if Called(next, l) {
      var p :| 0 <= p < |next.audience| && p < n + 1 && next.audience[p] == l;
      assert p < n ==> Called(c, l);
    }
    if Called(c, l) {
      var p :| 0 <= p < |c.audience| && p < n && c.audience[p] == l;
      assert next.audience[p] == l;
    }
    if l == c.waiting[0] { assert next.audience[n] == l; }
  }

  lemma NextTurn(c: Call, next: Call)
    requires WellCall(c) && c.waiting != []
    requires next == c.(waiting := c.waiting[1..]) || next == c.(waiting := [], failed := Some(|c.audience| - |c.waiting|))
    ensures WellCall(next)
    ensures var n := |c.audience| - |c.waiting|;
            && 0 <= n < |c.audience| && Reached(c) == n && Reached(next) == n + 1 && c.waiting[0] == c.audience[n]
            && forall p :: 0 <= p < n ==> c.audience[p] != c.waiting[0]
  {
    hide Ascending;
  }

  lemma TurnKeeps(st: State, k: nat, st': State)
    requires ToldOnce(st) && Waits(st, k) && (st' == Delivered(st, k) || st' == Rejected(st, k))
    ensures ToldOnce(st')
  {
    hide WellCall, Called;
    var c := st.calls[k];
    forall l: nat, m: nat ensures ToldAt(st', l, m) {
      assert ToldAt(st, l, m);
      OneMoreCalled(c, st'.calls[k], l);
      assert m < |st.calls| && m != k ==> st'.calls[m] == st.calls[m];
    }
    OneMoreCalled(c, st'.calls[k], 0);
  }

  lemma EndingTold(st: State, realm: string, reason: string, actor: Actor, done: seq<Record>)
    requires ToldOnce(st) && Ascending(done)
    ensures ToldOnce(AfterEnding(st, realm, reason, actor, done))
  {
    hide Remaining, Recorded, Ascending, Distinct;
    var st' := AfterEnding(st, realm, reason, actor, done);
    forall l: nat, k: nat ensures ToldAt(st', l, k) { assert ToldAt(st, l, k); }
  }

  lemma StepTold(st: State, op: Op, st': State)
    requires ToldOnce(st) && Step(st, op, st')
    ensures ToldOnce(st')
  {
    hide WellCall, Called, AfterEnding, Selects, Ascending, AreRecordsOf, ToldAt;
    match op
    case Make(s) => SameTold(st, st');
    case End(realm, reason, actor, sel, clock) =>
      var done :| Ending(st, realm, reason, actor, sel, clock, done, st');
      EndingTold(st, realm, reason, actor, done);
    case Subscribe(l) => SameTold(st, st');
    case Unsubscribe(l) =>
      WithoutIsDistinct(st.listeners, l);
      SameTold(st, st');
    case Tell(k) => TurnKeeps(st, k, st');
    case Reject(k) => TurnKeeps(st, k, st');
    case Read =>
  }

  lemma SameTold(st: State, st': State)
    requires ToldOnce(st) && st'.calls == st.calls && st'.told == st.told
    ensures forall l: nat, k: nat :: ToldAt(st', l, k)
  {
    forall l: nat, k: nat ensures ToldAt(st', l, k) { assert ToldAt(st, l, k); }
  }

  lemma {:induction false} RunTold(states: seq<State>, ops: seq<Op>, i: nat)
    requires Run(states, ops) && i < |states|
    ensures ToldOnce(states[i])
  {
    hide ToldOnce, Step;
    if i == 0 {
      StartedTold();
    } else {
      RunTold(states, ops, i - 1);
      assert Step(states[i - 1], ops[i - 1], states[i - 1 + 1]);
      StepTold(states[i - 1], ops[i - 1], states[i]);
    }
  }

  lemma StartedTold()
    ensures ToldOnce(Started())
  {
  }

  /**
    * Over every run an ending calls a listener at most once; and when it has no listener left to call, it has called
    * exactly those of its audience before which none rejected.
    */
  lemma CalledAtMostOnce(states: seq<State>, ops: seq<Op>, i: nat, k: nat, l: nat)
    requires Run(states, ops) && i < |states| && k < |states[i].calls|
    ensures states[i].told[(l, k)] <= 1
    ensures var c := states[i].calls[k];
            c.waiting == [] ==>
              (states[i].told[(l, k)] == 1 <==>
               exists p :: 0 <= p < |c.audience| && c.audience[p] == l && !(c.failed.Some? && c.failed.value < p))
  {
    hide Step;
    RunTold(states, ops, i);
    assert ToldAt(states[i], l, k);
    var c := states[i].calls[k];
    assert WellCall(c);
  }

  /** In every state of a run, an ending that has a listener left to call can call it, and the first one waiting is next. */
  lemma WaitingIsNext(states: seq<State>, ops: seq<Op>, i: nat, k: nat)
    requires Run(states, ops) && i < |states| && k < |states[i].calls|
    ensures states[i].calls[k].waiting != [] <==> exists st' :: Step(states[i], Tell(k), st')
    ensures states[i].calls[k].waiting != [] <==> exists st' :: Step(states[i], Reject(k), st')
    ensures forall st' :: Step(states[i], Tell(k), st') || Step(states[i], Reject(k), st') ==>
              st'.told == states[i].told + multiset{(states[i].calls[k].waiting[0], k)}
  {
    RunTold(states, ops, i);
    var st := states[i];
    assert WellCall(st.calls[k]);
    if st.calls[k].waiting != [] {
      assert Step(st, Tell(k), Delivered(st, k)) && Step(st, Reject(k), Rejected(st, k));
    }
  }

  /** A step leaves the calls there are, but for turns of their loops, and may add one. */
  lemma CallAfterStep(st: State, op: Op, st': State, k: nat)
    requires Step(st, op, st')
    ensures |st.calls| <= |st'.calls| <= |st.calls| + 1
    ensures k == |st.calls| < |st'.calls| ==> st'.calls[k].failed.None?
    ensures k < |st.calls| ==>
              && st'.calls[k].event == st.calls[k].event && st'.calls[k].audience == st.calls[k].audience
              && (if op.Reject? && op.k == k then
                    Waits(st, k) && st'.calls[k].failed == Some(|st.calls[k].audience| - |st.calls[k].waiting|)
                  else st'.calls[k].failed == st.calls[k].failed)
  {
    hide Selects, Ascending, AreRecordsOf, Remaining, Recorded, Without;
  }

  /** The listener that rejected is the one that was waiting first when a `Reject` step of the ending ran. */
  ghost predicate RejectedAt(states: seq<State>, ops: seq<Op>, n: nat, k: nat, p: nat)
    requires n < |ops| < |states|
  {
    && ops[n].Reject? && ops[n].k == k && Waits(states[n], k)
    && p == |states[n].calls[k].audience| - |states[n].calls[k].waiting|
  }

  lemma {:induction false} RejectionIsRecorded(states: seq<State>, ops: seq<Op>, i: nat, k: nat, p: nat)
    requires Run(states, ops) && i < |states| && k < |states[i].calls|
    ensures states[i].calls[k].failed == Some(p) <==> exists n :: 0 <= n < i && RejectedAt(states, ops, n, k, p)
    decreases i
  {
    hide Step;
    if i > 0 {
      var st, op := states[i - 1], ops[i - 1];
      assert Step(st, op, states[i - 1 + 1]);
      CallAfterStep(st, op, states[i], k);
      if k < |st.calls| {
        RejectionIsRecorded(states, ops, i - 1, k, p);
        if op.Reject? && op.k == k {
          RunTold(states, ops, i - 1);
          assert WellCall(st.calls[k]);
          NoEarlierRejection(states, ops, i - 1, k, p);
          assert states[i].calls[k].failed == Some(p) ==> RejectedAt(states, ops, i - 1, k, p);
        }
      } else {
        NoCallYet(states, ops, i - 1, k);
      }
    }
  }

  lemma NoEarlierRejection(states: seq<State>, ops: seq<Op>, i: nat, k: nat, p: nat)
    requires Run(states, ops) && i < |states| && k < |states[i].calls| && states[i].calls[k].failed.None?
    requires states[i].calls[k].failed == Some(p) <==> exists n :: 0 <= n < i && RejectedAt(states, ops, n, k, p)
    ensures !exists n :: 0 <= n < i && RejectedAt(states, ops, n, k, p)
  {
  }

  lemma {:induction false} NoCallYet(states: seq<State>, ops: seq<Op>, i: nat, k: nat)
    requires Run(states, ops) && i < |states| && k >= |states[i].calls|
    ensures forall n :: 0 <= n <= i ==> k >= |states[n].calls|
    decreases i
  {
    hide Step;
    if i > 0 {
      assert Step(states[i - 1], ops[i - 1], states[i - 1 + 1]);
      CallAfterStep(states[i - 1], ops[i - 1], states[i], k);
      NoCallYet(states, ops, i - 1, k);
    }
  }

  // ---------------------------------------------------------------- which ending reports a session

  /** The records an ending reported are those kept. */
  ghost predicate ReportsKept(st: State, k: nat)
    requires k < |st.calls|
  {
    forall r :: r in st.calls[k].event.sessions ==> r.session.sid in st.ended && st.ended[r.session.sid] == r
  }

  ghost predicate Reports(st: State, k: nat, sid: nat) { k < |st.calls| && Names(st.calls[k].event.sessions, sid) }

  /** Each ended session is reported by one ending. */
  ghost predicate ReportedOnce(st: State)
  {
    && (forall k :: 0 <= k < |st.calls| ==> ReportsKept(st, k))
    && (forall k, m, sid :: Reports(st, k, sid) && Reports(st, m, sid) ==> k == m)
    && (forall sid :: sid in st.ended ==> exists k :: Reports(st, k, sid))
  }

  lemma ReportedIsEnded(st: State, k: nat, sid: nat)
    requires k < |st.calls| && ReportsKept(st, k) && Reports(st, k, sid)
    ensures sid in st.ended && st.ended[sid] in st.calls[k].event.sessions
  {
    var i :| 0 <= i < |st.calls[k].event.sessions| && st.calls[k].event.sessions[i].session.sid == sid;
    assert st.calls[k].event.sessions[i] in st.calls[k].event.sessions;
  }

  lemma EndingReports(st: State, realm: string, reason: string, actor: Actor, sel: Selector, clock: nat -> int, done: seq<Record>, st': State)
    requires Apart(st) && ReportedOnce(st) && Ending(st, realm, reason, actor, sel, clock, done, st')
    ensures ReportedOnce(st')
  {
    hide Selects, Remaining, Recorded, Names;
    var n := |st.calls|;
    forall sid ensures Reports(st', n, sid) <==> Names(done, sid) { NoneNamed(sid); }
    forall sid ensures Names(done, sid) ==> sid !in st.ended
               ensures !Names(done, sid) && sid in st.ended ==> sid in st'.ended && st'.ended[sid] == st.ended[sid]
               ensures sid in st'.ended ==> sid in st.ended || Names(done, sid) {
      EndingAt(st, realm, reason, actor, sel, clock, done, st', sid);
    }
    forall k, sid | 0 <= k < n && Reports(st, k, sid) ensures !Names(done, sid) {
      ReportedIsEnded(st, k, sid);
    }
    forall k: nat, sid: nat | k < n ensures Reports(st', k, sid) <==> Reports(st, k, sid) {
      assert st'.calls[k] == st.calls[k];
    }
    forall k | 0 <= k < |st'.calls| ensures ReportsKept(st', k) {
      if k < n {
        assert st'.calls[k] == st.calls[k] && ReportsKept(st, k);
      } else {
        NewReportsKept(st, realm, reason, actor, sel, clock, done, st');
      }
    }
    forall sid | sid in st'.ended ensures exists k :: Reports(st', k, sid) {
      if sid in st.ended {
        var k :| Reports(st, k, sid);
        assert Reports(st', k, sid);
      } else {
        assert Reports(st', n, sid);
      }
    }
  }

  lemma NoneNamed(sid: nat)
    ensures !Names([], sid)
  {
  }

  lemma NewReportsKept(st: State, realm: string, reason: string, actor: Actor, sel: Selector, clock: nat -> int, done: seq<Record>, st': State)
    requires Ending(st, realm, reason, actor, sel, clock, done, st') && |st.calls| < |st'.calls|
    ensures ReportsKept(st', |st.calls|)
  {
    hide Selects, AreRecordsOf, Remaining, Recorded;
    forall r | r in done ensures r.session.sid in st'.ended && st'.ended[r.session.sid] == r {
      var i :| 0 <= i < |done| && done[i] == r;
      assert Names(done, r.session.sid);
      EndingAt(st, realm, reason, actor, sel, clock, done, st', r.session.sid);
      var j :| 0 <= j < |done| && done[j] == st'.ended[r.session.sid];
    }
  }

  lemma StepReports(st: State, op: Op, st': State)
    requires Apart(st) && ReportedOnce(st) && Step(st, op, st')
    ensures ReportedOnce(st')
  {
    hide Selects, Ascending, AreRecordsOf, AfterEnding, Names;
    if op.End? {
      var done: seq<Record> :| Ending(st, op.realm, op.reason, op.actor, op.sel, op.clock, done, st');
      EndingReports(st, op.realm, op.reason, op.actor, op.sel, op.clock, done, st');
    } else {
      SameReports(st, op, st');
    }
  }

  lemma SameReports(st: State, op: Op, st': State)
    requires ReportedOnce(st) && Step(st, op, st') && !op.End?
    ensures ReportedOnce(st')
  {
    hide Names;
    assert st'.ended == st.ended && |st'.calls| == |st.calls|;
    forall k: nat | k < |st.calls| ensures st'.calls[k].event == st.calls[k].event { CallAfterStep(st, op, st', k); }
    hide Step;
    forall k: nat, sid: nat ensures Reports(st', k, sid) <==> Reports(st, k, sid) {
    }
    forall k | 0 <= k < |st.calls| ensures ReportsKept(st', k) { assert ReportsKept(st, k); }
    forall sid | sid in st'.ended ensures exists k :: Reports(st', k, sid) {
      var k :| Reports(st, k, sid);
      assert Reports(st', k, sid);
    }
  }

  lemma {:induction false} RunReports(states: seq<State>, ops: seq<Op>, i: nat)
    requires Run(states, ops) && EndedIdsUnused(states, ops) && i < |states|
    ensures ReportedOnce(states[i])
  {
    hide ReportedOnce, Step, Apart;
    if i == 0 {
      StartedReports();
    } else {
      RunReports(states, ops, i - 1);
      RunApart(states, ops, i - 1);
      assert Step(states[i - 1], ops[i - 1], states[i - 1 + 1]);
      StepReports(states[i - 1], ops[i - 1], states[i]);
    }
  }

  lemma StartedReports()
    ensures ReportedOnce(Started())
  {
  }

  /**
    * A session that ended is reported by exactly one ending, with the record kept of it. That ending tells a listener
    * at most once; when it is over it has told a listener exactly if the listener was subscribed at the ending and no
    * listener before it rejected.
    */
  lemma ToldExactlyOnce(states: seq<State>, ops: seq<Op>, i: nat, l: nat, sid: nat) returns (k: nat)
    requires Run(states, ops) && EndedIdsUnused(states, ops) && i < |states| && sid in states[i].ended
    ensures k < |states[i].calls| && states[i].ended[sid] in states[i].calls[k].event.sessions
    ensures forall m :: Reports(states[i], m, sid) ==> m == k
    ensures states[i].told[(l, k)] <= 1
    ensures var c := states[i].calls[k];
            c.waiting == [] ==>
              (states[i].told[(l, k)] == 1 <==>
               exists p :: 0 <= p < |c.audience| && c.audience[p] == l && NoneRejected(states, ops, i, k, p))
  {
    hide Step, Reports;
    RunReports(states, ops, i);
    k :| Reports(states[i], k, sid);
    ReportsInRange(states[i], k, sid);
    ReportedIsEnded(states[i], k, sid);
    CalledAtMostOnce(states, ops, i, k, l);
    var c := states[i].calls[k];
    forall p: nat ensures NoneRejected(states, ops, i, k, p) <==> !(c.failed.Some? && c.failed.value < p) {
      NoneRejectedMeans(states, ops, i, k, p);
    }
  }

  /** No listener of the ending before the one at `p` has rejected. */
  ghost predicate NoneRejected(states: seq<State>, ops: seq<Op>, i: nat, k: nat, p: nat)
    requires i <= |ops| < |states|
  {
    forall n, q :: 0 <= n < i && RejectedAt(states, ops, n, k, q) ==> p <= q
  }

  lemma NoneRejectedMeans(states: seq<State>, ops: seq<Op>, i: nat, k: nat, p: nat)
    requires Run(states, ops) && i < |states| && k < |states[i].calls|
    ensures var c := states[i].calls[k]; NoneRejected(states, ops, i, k, p) <==> !(c.failed.Some? && c.failed.value < p)
  {
    hide Step, RejectedAt;
    var c := states[i].calls[k];
    if c.failed.Some? {
      RejectionIsRecorded(states, ops, i, k, c.failed.value);
      var n :| 0 <= n < i && RejectedAt(states, ops, n, k, c.failed.value);
    }
    forall n: nat, q: nat | n < i && RejectedAt(states, ops, n, k, q) ensures c.failed == Some(q) {
      RejectionIsRecorded(states, ops, i, k, q);
    }
  }

  lemma ReportsInRange(st: State, k: nat, sid: nat)
    requires Reports(st, k, sid)
    ensures k < |st.calls|
  {
  }

  /** The audience of an ending is who was subscribed at that moment, and it reports the records it made. */
  lemma AudienceIsSubscribed(st: State, realm: string, reason: string, actor: Actor, sel: Selector, clock: nat -> int, done: seq<Record>, st': State, sid: nat)
    requires Ending(st, realm, reason, actor, sel, clock, done, st') && sid in EndedBy(st, realm, sel)
    ensures |st'.calls| == |st.calls| + 1 && st'.calls[|st.calls|].audience == st.listeners && Reports(st', |st.calls|, sid)
    ensures sid in st.sessions && sid in st'.ended && st'.ended[sid].session == st.sessions[sid]
  {
    hide Selects, Remaining, Recorded;
    EndingAt(st, realm, reason, actor, sel, clock, done, st', sid);
  }

  /** Two listeners, and the first rejects: the ending is over and the second was never told. */
  lemma SecondIsNeverTold(s: Session, clock: nat -> int) returns (states: seq<State>, ops: seq<Op>)
    ensures Run(states, ops) && EndedIdsUnused(states, ops) && |ops| == 5
    ensures var st := states[5];
            && |st.calls| == 1 && st.calls[0].waiting == [] && st.calls[0].audience == [1, 2] && Reports(st, 0, s.sid)
            && st.told[(1, 0)] == 1 && st.told[(2, 0)] == 0
  {
    var sel := OfRealm(None);
    var a := Subscribed(Started(), 1);
    var b := Subscribed(a, 2);
    var c := Made(b, s);
    var done := [Record(s, clock(0), "logout")];
    var d := AfterEnding(c, s.realm, "logout", OtherActor, done);
    assert EndedBy(c, s.realm, sel) == {s.sid};
    assert done[0].session.sid == s.sid;
    assert Names(done, s.sid);
    assert Ending(c, s.realm, "logout", OtherActor, sel, clock, done, d);
    var e := Rejected(d, 0);
    states := [Started(), a, b, c, d, e];
    ops := [Subscribe(1), Subscribe(2), Make(s), End(s.realm, "logout", OtherActor, sel, clock), Reject(0)];
    assert Step(states[3], ops[3], states[4]);
  }

  // ---------------------------------------------------------------- realms

  /** The realm an operation names. */
  function RealmOf(op: Op): (r: Option<string>)
  {
    if op.Make? then Some(op.session.realm) else if op.End? then Some(op.realm) else None
  }

  function LiveIn(st: State, realm: string, sid: nat): (r: Option<Session>)
  {
    if sid in st.sessions && st.sessions[sid].realm == realm then Some(st.sessions[sid]) else None
  }

  function EndedIn(st: State, realm: string, sid: nat): (r: Option<Record>)
  {
    if sid in st.ended && st.ended[sid].session.realm == realm then Some(st.ended[sid]) else None
  }

  ghost predicate SameAt(st: State, st': State, realm: string, sid: nat)
  {
    LiveIn(st', realm, sid) == LiveIn(st, realm, sid) && EndedIn(st', realm, sid) == EndedIn(st, realm, sid)
  }

  /** The realm has the same live sessions and the same records. */
  ghost predicate SameRealm(st: State, st': State, realm: string) { forall sid :: SameAt(st, st', realm, sid) }

  /** The operation uses an id that is the realm's: it makes a session over a live one, or records an ending over a record. */
  ghost predicate Collides(st: State, op: Op, realm: string)
  {
    match op
    case Make(s) => LiveIn(st, realm, s.sid).Some?
    case End(other, _, _, sel, _) => exists sid :: sid in EndedBy(st, other, sel) && EndedIn(st, realm, sid).Some?
    case _ => false
  }

  /** An operation of another realm, or of none, leaves a realm alone exactly when it does not use one of the realm's ids. */
  lemma OtherRealmsLeave(st: State, op: Op, st': State, realm: string)
    requires Step(st, op, st') && RealmOf(op) != Some(realm)
    ensures SameRealm(st, st', realm) <==> !Collides(st, op, realm)
  {
    hide AfterEnding, Selects, Ascending, AreRecordsOf;
    match op
    case Make(s) => assert SameAt(st, st', realm, s.sid) <==> LiveIn(st, realm, s.sid).None?;
    case End(other, reason, actor, sel, clock) =>
      var done :| Ending(st, other, reason, actor, sel, clock, done, st');
      forall sid ensures SameAt(st, st', realm, sid) <==> !(sid in EndedBy(st, other, sel) && EndedIn(st, realm, sid).Some?) {
        EndingAt(st, other, reason, actor, sel, clock, done, st', sid);
      }
    case _ =>
  }

  /** Over any stretch of a run without operations on a realm, none of which uses its ids, the realm stays as it was. */
  lemma {:induction false} RealmsAreSeparate(states: seq<State>, ops: seq<Op>, i: nat, j: nat, realm: string)
    requires Run(states, ops) && i <= j < |states|
    requires forall n :: i <= n < j ==> RealmOf(ops[n]) != Some(realm) && !Collides(states[n], ops[n], realm)
    ensures SameRealm(states[i], states[j], realm)
    decreases j
  {
    hide Step, Collides, SameAt;
    if i == j {
      forall sid ensures SameAt(states[i], states[i], realm, sid) { SameAsItself(states[i], realm, sid); }
    } else {
      var n := j - 1;
      RealmsAreSeparate(states, ops, i, n, realm);
      assert Step(states[n], ops[n], states[n + 1]);
      OtherRealmsLeave(states[n], ops[n], states[j], realm);
      forall sid ensures SameAt(states[i], states[j], realm, sid) {
        assert SameAt(states[i], states[n], realm, sid) && SameAt(states[n], states[j], realm, sid);
        SameAtVia(states[i], states[n], states[j], realm, sid);
      }
    }
  }

  lemma SameAsItself(st: State, realm: string, sid: nat)
    ensures SameAt(st, st, realm, sid)
  {
  }

  lemma SameAtVia(a: State, b: State, c: State, realm: string, sid: nat)
    requires SameAt(a, b, realm, sid) && SameAt(b, c, realm, sid)
    ensures SameAt(a, c, realm, sid)
  {
  }

  /** While every session has an id of its own no operation uses the id of another realm. */
  lemma OwnIdsDoNotCollide(states: seq<State>, ops: seq<Op>, n: nat, realm: string)
    requires Run(states, ops) && OwnIds(states[|ops|].made) && n < |ops|
    ensures !Collides(states[n], ops[n], realm)
  {
    hide Step, OwnIds;
    if ops[n].Make? {
      OwnIdIsNew(states, ops, n);
    } else if ops[n].End? {
      EverySessionIsKept(states, ops, n, Session(0, "", "", 0, 0, 0, ""));
    }
  }

  /** So with ids of their own, the operations of the other realms never change a realm. */
  lemma OwnIdsKeepRealmsApart(states: seq<State>, ops: seq<Op>, i: nat, j: nat, realm: string)
    requires Run(states, ops) && OwnIds(states[|ops|].made) && i <= j < |states|
    requires forall n :: i <= n < j ==> RealmOf(ops[n]) != Some(realm)
    ensures SameRealm(states[i], states[j], realm)
  {
    hide Step, OwnIds, Collides, SameRealm;
    forall n | i <= n < j ensures !Collides(states[n], ops[n], realm) { OwnIdsDoNotCollide(states, ops, n, realm); }
    RealmsAreSeparate(states, ops, i, j, realm);
  }
}
