/**
  * The MULTI blocks the interaction records are kept with, and runs of two blocks that are not serial.
  */
module MultiInputs {
  import opened Text
  import opened InteractionStore
  import opened MultiQueues
  import opened MultiBlocks
  import opened MultiWrites

  // ---------------------------------------------------------------- the blocks of the interaction records

  /** The keys of one interaction: its record, its turn, and the expiry index that lists it. */
  datatype Interaction = Interaction(record: string, turn: string, index: string, member: string)

  predicate Distinct(i: Interaction) { i.record != i.turn && i.record != i.index && i.turn != i.index }

  function Until(deadline: int, flag: string): (r: seq<Arg>) { [Word("PXAT"), Number(deadline), Word(flag)] }

  /** A new interaction is stored. */
  function StoreNew(i: Interaction, value: string, revision: string, deadline: int, score: int, now: int): (r: seq<Op>)
  {
    [Set(i.record, value, Until(deadline, "NX"), now), Set(i.turn, revision, [Word("PXAT"), Number(deadline)], now),
     Zadd(i.index, [Number(score), Word(i.member)])]
  }

  /** An interaction is written with its next revision. */
  function WriteNext(i: Interaction, value: string, revision: string, deadline: int, score: int, now: int): (r: seq<Op>)
  {
    [Set(i.record, value, Until(deadline, "XX"), now), Set(i.turn, revision, Until(deadline, "NX"), now),
     Zadd(i.index, [Word("XX"), Number(score), Word(i.member)])]
  }

  /** An interaction is completed. */
  function Complete(i: Interaction): (r: seq<Op>) { [Del([i.record, i.turn]), Zrem(i.index, i.member)] }

  /** The sweep claims an expired interaction. */
  function Claim(i: Interaction, now: int): (r: seq<Op>) { [Zrem(i.index, i.member), Del([i.turn]), GetDel(i.record, now)] }

  /** A claimed interaction that could not be reported is put back, with its record if there was one. */
  function PutBack(i: Interaction, value: Option<string>, deadline: int, score: int, now: int): (r: seq<Op>)
  {
    [Zadd(i.index, [Number(score), Word(i.member)])] + (if value.Some? then [Set(i.record, value.value, Until(deadline, "NX"), now)] else [])
  }

  /** The two blocks name each key once at most, and those they both name in the same places. */
  predicate SameKind(a: seq<Op>, b: seq<Op>)
  {
    && (forall n, m :: 0 <= n < |a| && 0 <= m < |b| && n != m ==> KeysOf(a[n]) !! KeysOf(b[m]))
    && Once(a) && Once(b)
  }

  /** Every block names a key once at most, and blocks of one kind name the same keys in the same places. */
  lemma WritesOfOneKind(i: Interaction, v: string, rv: string, d: int, sc: int, now: int, v': string, rv': string, d': int, sc': int, now': int)
    requires Distinct(i)
    ensures SameKind(StoreNew(i, v, rv, d, sc, now), WriteNext(i, v', rv', d', sc', now'))
    ensures SameKind(StoreNew(i, v, rv, d, sc, now), StoreNew(i, v', rv', d', sc', now'))
    ensures SameKind(WriteNext(i, v, rv, d, sc, now), WriteNext(i, v', rv', d', sc', now'))
  {
    hide Until;
  }

  lemma ClaimsOfOneKind(i: Interaction, v: Option<string>, d: int, sc: int, now: int, v': Option<string>, d': int, sc': int, now': int)
    requires Distinct(i)
    ensures SameKind(Claim(i, now), Claim(i, now')) && SameKind(Complete(i), Complete(i))
    ensures SameKind(PutBack(i, v, d, sc, now), PutBack(i, v', d', sc', now'))
  {
    hide Until;
  }

  // ---------------------------------------------------------------- what each block does alone

  /** The store after a block that runs alone, and what `exec` returns. */
  ghost predicate Leaves(rt: Runtime, st: Store, block: seq<Op>, t: Store, answers: seq<Answer>)
  {
    AfterAll(rt, st, Marked(First, block)) == t && AnswersOf(rt, st, Marked(First, block), First) == answers
  }

  lemma OneByOne(rt: Runtime, st: Store, op: Op, rest: seq<Op>, t: Store, answers: seq<Answer>)
    requires Leaves(rt, After(rt, st, op), rest, t, answers)
    ensures Leaves(rt, st, [op] + rest, t, [AnswerOf(rt, st, op)] + answers)
  {
    hide After, AnswerOf;
    var whole := Marked(First, [op] + rest);
    assert ([op] + rest)[1..] == rest;
    assert whole == [Step(First, op)] + Marked(First, rest);
    assert whole[1..] == Marked(First, rest);
  }

  lemma NoMore(rt: Runtime, st: Store)
    ensures Leaves(rt, st, [], st, [])
  {
  }

  /** The member is scored, whatever the index held. */
  function Listed(st: Store, index: string, member: string, score: int): (r: Store)
  {
    st.(sortedSets := st.sortedSets[index := ScoresOf(st, index)[member := Some(score)]])
  }

  lemma ListEffect(rt: Runtime, st: Store, index: string, member: string, score: int)
    requires KeepsWords(rt)
    ensures ZaddEffect(rt, st, index, [Number(score), Word(member)]) ==
            (Listed(st, index, member, score), if member in ScoresOf(st, index) then 0 else 1)
    ensures ZaddEffect(rt, st, index, [Word("XX"), Number(score), Word(member)]) ==
            if member in ScoresOf(st, index) then (Listed(st, index, member, score), 0) else (st, 0)
  {
    assert "NX"[0] != "XX"[0];
    ZaddReads(rt, st, index, [], Number(score), [Word(member)]);
    ZaddReads(rt, st, index, [Word("XX")], Number(score), [Word(member)]);
    assert [] + [Number(score)] + [Word(member)] == [Number(score), Word(member)];
    assert [Word("XX")] + [Number(score)] + [Word(member)] == [Word("XX"), Number(score), Word(member)];
    assert !Lacks(rt, [Word("XX")], "XX") by { assert [Word("XX")][0] == Word("XX"); }
    hide ZaddEffect;
  }

  lemma PlainSets(rt: Runtime, st: Store, key: string, value: string, deadline: int, now: int)
    requires KeepsWords(rt) && now < deadline
    ensures SetEffect(rt, st, key, value, [Word("PXAT"), Number(deadline)], now) == (Put(st, key, Some(Entry(value, Some(deadline)))), Stored)
  {
    var args := [Word("PXAT"), Number(deadline)];
    SetPuts(rt, st, key, value, args, now);
    UpperAt(rt, args);
    assert Upper(rt, args) == args;
    assert "PXAT"[0] == 'P' && "NX"[0] == 'N' && "XX"[0] == 'X';
    hide SetEffect, Upper;
  }

  /** What `SET` with `PXAT` and a flag leaves under its key, and answers. */
  lemma FlagSets(rt: Runtime, st: Store, key: string, value: string, deadline: int, now: int)
    requires KeepsWords(rt) && now < deadline
    ensures var live := Live(Cell(st, key), now);
            && SetEffect(rt, st, key, value, Until(deadline, "NX"), now) ==
               (if live.Some? then (Put(st, key, live), Null) else (Put(st, key, Some(Entry(value, Some(deadline)))), Stored))
            && SetEffect(rt, st, key, value, Until(deadline, "XX"), now) ==
               (if live.None? then (Put(st, key, None), Null) else (Put(st, key, Some(Entry(value, Some(deadline)))), Stored))
  {
    UntilSets(rt, Cell(st, key), value, deadline, now);
    SetPuts(rt, st, key, value, Until(deadline, "NX"), now);
    SetPuts(rt, st, key, value, Until(deadline, "XX"), now);
    hide SetEffect, SetCell;
  }

  /** Storing a new interaction: a live record stays and `exec` says nil; the turn is set and the member listed either way. */
  lemma StoreNewMeans(rt: Runtime, st: Store, i: Interaction, value: string, revision: string, deadline: int, score: int, now: int)
    requires KeepsWords(rt) && Distinct(i) && now < deadline
    ensures var live := Live(Cell(st, i.record), now);
            var record := if live.Some? then live else Some(Entry(value, Some(deadline)));
            Leaves(rt, st, StoreNew(i, value, revision, deadline, score, now),
                   Listed(Put(Put(st, i.record, record), i.turn, Some(Entry(revision, Some(deadline)))), i.index, i.member, score),
                   [if live.Some? then Nil else Ok, Ok, Count(if i.member in ScoresOf(st, i.index) then 0 else 1)])
  {
    hide SetEffect, ZaddEffect, Leaves, Listed, ScoresOf, Live, Cell;
    var block := StoreNew(i, value, revision, deadline, score, now);
    var s1 := After(rt, st, block[0]);
    var s2 := After(rt, s1, block[1]);
    FlagSets(rt, st, i.record, value, deadline, now);
    PlainSets(rt, s1, i.turn, revision, deadline, now);
    ListEffect(rt, s2, i.index, i.member, score);
    assert ScoresOf(s2, i.index) == ScoresOf(st, i.index) by { SameScores(st, s2, i.index); }
    ThreeAlone(rt, st, block);
  }

  lemma SameScores(s: Store, t: Store, index: string)
    requires s.sortedSets == t.sortedSets
    ensures ScoresOf(s, index) == ScoresOf(t, index)
  {
  }

  lemma ThreeAlone(rt: Runtime, st: Store, block: seq<Op>)
    requires |block| == 3
    ensures var s1 := After(rt, st, block[0]);
            var s2 := After(rt, s1, block[1]);
            Leaves(rt, st, block, After(rt, s2, block[2]), [AnswerOf(rt, st, block[0]), AnswerOf(rt, s1, block[1]), AnswerOf(rt, s2, block[2])])
  {
    hide After, AnswerOf, Leaves;
    var s1 := After(rt, st, block[0]);
    var s2 := After(rt, s1, block[1]);
    assert [block[2]] + [] == [block[2]] && [AnswerOf(rt, s2, block[2])] + [] == [AnswerOf(rt, s2, block[2])];
    assert [block[1]] + [block[2]] == [block[1], block[2]];
    assert [block[0]] + [block[1], block[2]] == block;
    assert [AnswerOf(rt, s1, block[1])] + [AnswerOf(rt, s2, block[2])] == [AnswerOf(rt, s1, block[1]), AnswerOf(rt, s2, block[2])];
    assert [AnswerOf(rt, st, block[0])] + [AnswerOf(rt, s1, block[1]), AnswerOf(rt, s2, block[2])] ==
           [AnswerOf(rt, st, block[0]), AnswerOf(rt, s1, block[1]), AnswerOf(rt, s2, block[2])];
    NoMore(rt, After(rt, s2, block[2]));
    OneByOne(rt, s2, block[2], [], After(rt, s2, block[2]), []);
    OneByOne(rt, s1, block[1], [block[2]], After(rt, s2, block[2]), [AnswerOf(rt, s2, block[2])]);
    OneByOne(rt, st, block[0], [block[1], block[2]], After(rt, s2, block[2]), [AnswerOf(rt, s1, block[1]), AnswerOf(rt, s2, block[2])]);
  }

  /**
    * Writing the next state: only over a live record, and `exec` says nil without one; the turn only where none is live;
    * the member is moved only if it is listed.
    */
  lemma WriteNextMeans(rt: Runtime, st: Store, i: Interaction, value: string, revision: string, deadline: int, score: int, now: int)
    requires KeepsWords(rt) && Distinct(i) && now < deadline
    ensures var live, held := Live(Cell(st, i.record), now), Live(Cell(st, i.turn), now);
            var record := if live.Some? then Some(Entry(value, Some(deadline))) else None;
            var turn := if held.Some? then held else Some(Entry(revision, Some(deadline)));
            var t := Put(Put(st, i.record, record), i.turn, turn);
            Leaves(rt, st, WriteNext(i, value, revision, deadline, score, now),
                   if i.member in ScoresOf(st, i.index) then Listed(t, i.index, i.member, score) else t,
                   [if live.Some? then Ok else Nil, if held.Some? then Nil else Ok, Count(0)])
  {
    hide SetEffect, ZaddEffect, Leaves, Listed, ScoresOf, Live;
    var block := WriteNext(i, value, revision, deadline, score, now);
    var s1 := After(rt, st, block[0]);
    var s2 := After(rt, s1, block[1]);
    FlagSets(rt, st, i.record, value, deadline, now);
    FlagSets(rt, s1, i.turn, revision, deadline, now);
    assert Cell(s1, i.turn) == Cell(st, i.turn);
    ListEffect(rt, s2, i.index, i.member, score);
    assert ScoresOf(s2, i.index) == ScoresOf(st, i.index) by { SameScores(st, s2, i.index); }
    ThreeAlone(rt, st, block);
  }

  /** Putting back lists the member, and sets the record unless one is live. */
  lemma PutBackMeans(rt: Runtime, st: Store, i: Interaction, value: string, deadline: int, score: int, now: int)
    requires KeepsWords(rt) && Distinct(i) && now < deadline
    ensures var live := Live(Cell(st, i.record), now);
            var listed := Listed(st, i.index, i.member, score);
            var count := Count(if i.member in ScoresOf(st, i.index) then 0 else 1);
            && Leaves(rt, st, PutBack(i, None, deadline, score, now), listed, [count])
            && Leaves(rt, st, PutBack(i, Some(value), deadline, score, now),
                      Put(listed, i.record, if live.Some? then live else Some(Entry(value, Some(deadline)))),
                      [count, if live.Some? then Nil else Ok])
  {
    hide SetEffect, ZaddEffect, Leaves, ScoresOf, Live;
    ListEffect(rt, st, i.index, i.member, score);
    var listed := Listed(st, i.index, i.member, score);
    FlagSets(rt, listed, i.record, value, deadline, now);
    assert Cell(listed, i.record) == Cell(st, i.record);
    var list, put := Zadd(i.index, [Number(score), Word(i.member)]), Set(i.record, value, Until(deadline, "NX"), now);
    var after := After(rt, listed, put);
    assert [put] + [] == [put] && [AnswerOf(rt, listed, put)] + [] == [AnswerOf(rt, listed, put)];
    assert [AnswerOf(rt, st, list)] + [] == [AnswerOf(rt, st, list)];
    assert [AnswerOf(rt, st, list)] + [AnswerOf(rt, listed, put)] == [AnswerOf(rt, st, list), AnswerOf(rt, listed, put)];
    assert PutBack(i, Some(value), deadline, score, now) == [list] + [put] && PutBack(i, None, deadline, score, now) == [list] + [];
    NoMore(rt, listed);
    OneByOne(rt, st, list, [], listed, []);
    NoMore(rt, after);
    OneByOne(rt, listed, put, [], after, []);
    OneByOne(rt, st, list, [put], after, [AnswerOf(rt, listed, put)]);
  }

  /** So two blocks of one kind on one interaction are atomic, whenever the second starts: two claims, two writes, a store and a write. */
  lemma SameKindIsAtomic(rt: Runtime, st: Store, a: seq<Op>, b: seq<Op>, lead: int)
    requires SameKind(a, b)
    ensures Serial(rt, st, a, b, InStep(a, 0, b, lead))
  {
    hide Serial, InStep, Once, KeysOf;
    SameShapeIsAtomic(rt, st, a, b, lead);
  }

  // ---------------------------------------------------------------- a write against a claim

  /** Upper case leaves the words of the commands as they are. */
  predicate KeepsWords(rt: Runtime) { rt.upper("PXAT") == "PXAT" && rt.upper("NX") == "NX" && rt.upper("XX") == "XX" }

  lemma UntilRead(rt: Runtime, deadline: int, flag: string)
    requires KeepsWords(rt) && flag in ["NX", "XX"]
    ensures Upper(rt, Until(deadline, flag)) == Until(deadline, flag)
    ensures DeadlineOf(rt, Until(deadline, flag)) == Some(deadline)
    ensures Word("NX") in Until(deadline, flag) <==> flag == "NX"
    ensures Word("XX") in Until(deadline, flag) <==> flag == "XX"
  {
    UpperAt(rt, Until(deadline, flag));
    assert "PXAT"[0] == 'P' && "NX"[0] == 'N' && "XX"[0] == 'X';
  }

  /** What SET with a deadline to come leaves and says, with NX and with XX. */
  lemma UntilSets(rt: Runtime, cell: Option<Entry>, value: string, deadline: int, now: int)
    requires KeepsWords(rt) && now < deadline
    ensures SetCell(rt, cell, value, Until(deadline, "NX"), now) ==
            if Live(cell, now).Some? then (Live(cell, now), Null) else (Some(Entry(value, Some(deadline))), Stored)
    ensures SetCell(rt, cell, value, Until(deadline, "XX"), now) ==
            if Live(cell, now).None? then (None, Null) else (Some(Entry(value, Some(deadline))), Stored)
  {
    hide Upper, DeadlineOf;
    UntilRead(rt, deadline, "NX");
    UntilRead(rt, deadline, "XX");
    assert "NX"[0] != "XX"[0];
  }

  /** In step with this lead the first block comes first on the record, and the second on every other key both name. */
  ghost predicate SplitsAt(a: seq<Op>, b: seq<Op>, lead: int, record: string)
  {
    forall k :: Place(a, k) >= 0 && Place(b, k) >= 0 ==> (Distance(a, b, k) < lead <==> k == record)
  }

  lemma MixedOrders(a: seq<Op>, b: seq<Op>, lead: int, record: string, k: string)
    requires Once(a) && Once(b) && SplitsAt(a, b, lead, record)
    ensures Restrict(InStep(a, 0, b, lead), k) ==
            if k == record then Restrict(FirstThenSecond(a, b), k) else Restrict(SecondThenFirst(a, b), k)
  {
    hide Restrict, RestrictOps, Once, FirstThenSecond, SecondThenFirst, InStep, KeysOf;
    InStepOrder(a, 0, b, lead, k);
    RestrictSerial(a, b, k);
    RestrictedOnce(a, k);
    RestrictedOnce(b, k);
    OneSide(RestrictOps(a, k), RestrictOps(b, k));
  }

  /** The answer to a command of one key is its answer among the commands on that key. */
  lemma AnswerOn(rt: Runtime, st: Store, w: seq<Step>, x: Block, i: nat, k: string)
    requires i < |OpsOf(w, x)| && Once(OpsOf(w, x)) && k in KeysOf(OpsOf(w, x)[i]) && OnKey(OpsOf(w, x)[i], k) == OpsOf(w, x)[i]
    ensures |AnswersOf(rt, st, w, x)| == |OpsOf(w, x)| && AnswersOf(rt, st, Restrict(w, k), x) == [AnswersOf(rt, st, w, x)[i]]
  {
    hide AnswersOf, OpsOf, AnswerOf, Restrict, BeforeStep, Once, KeysOf, OnKey;
    AnswerAt(rt, st, w, x);
    OneAnswer(rt, st, w, x, i, k);
  }

  /** The store of such a run is that of the second block before the first, when both orders leave the same under the record. */
  lemma StoreOfSecondFirst(rt: Runtime, st: Store, a: seq<Op>, b: seq<Op>, lead: int, record: string)
    requires Once(a) && Once(b) && SplitsAt(a, b, lead, record)
    requires SameAt(AfterAll(rt, st, Restrict(FirstThenSecond(a, b), record)), AfterAll(rt, st, Restrict(SecondThenFirst(a, b), record)), record)
    ensures AfterAll(rt, st, InStep(a, 0, b, lead)) == AfterAll(rt, st, SecondThenFirst(a, b))
  {
    hide AfterAll, Restrict, FirstThenSecond, SecondThenFirst, InStep, Once, SameAt, SplitsAt;
    var w, ba := InStep(a, 0, b, lead), SecondThenFirst(a, b);
    forall k ensures SameAt(AfterAll(rt, st, w), AfterAll(rt, st, ba), k) {
      MixedOrders(a, b, lead, record, k);
      SameAsItself(AfterAll(rt, st, Restrict(ba, k)), k);
      StoreByKey(rt, st, w, ba, k);
    }
    SameEverywhere(AfterAll(rt, st, w), AfterAll(rt, st, ba));
  }

  /** The record is there at the time. */
  predicate LiveRecord(st: Store, key: string, now: int) { Live(Cell(st, key), now).Some? }

  /** SET XX against GETDEL and against DEL on a record that is there. */
  lemma OnRecord(rt: Runtime, st: Store, put: Op, take: Op, deadline: int)
    requires KeepsWords(rt) && put.Set? && take == GetDel(put.key, put.now) && put.args == Until(deadline, "XX") && put.now < deadline
    requires LiveRecord(st, put.key, put.now)
    ensures AnswerOf(rt, After(rt, st, put), take) == Bulk(put.value) && AnswerOf(rt, st, take) == Bulk(Cell(st, put.key).value.value)
    ensures SameAt(After(rt, After(rt, st, put), take), After(rt, After(rt, st, take), put), put.key)
  {
    hide SetEffect, SetCell;
    SetPuts(rt, st, put.key, put.value, put.args, put.now);
    SetPuts(rt, After(rt, st, take), put.key, put.value, put.args, put.now);
    UntilSets(rt, Cell(st, put.key), put.value, deadline, put.now);
    UntilSets(rt, None, put.value, deadline, put.now);
  }

  lemma OnRecordDeleted(rt: Runtime, st: Store, put: Op, del: Op, deadline: int)
    requires KeepsWords(rt) && put.Set? && del == Del([put.key]) && put.args == Until(deadline, "XX") && put.now < deadline
    requires LiveRecord(st, put.key, put.now)
    ensures AnswerOf(rt, st, put) == Ok && AnswerOf(rt, After(rt, st, del), put) == Nil
    ensures SameAt(After(rt, After(rt, st, put), del), After(rt, After(rt, st, del), put), put.key)
    ensures Cell(After(rt, After(rt, st, put), del), put.key).None?
  {
    hide SetEffect, SetCell, Deleted;
    var key := put.key;
    SetPuts(rt, st, key, put.value, put.args, put.now);
    UntilSets(rt, Cell(st, key), put.value, deadline, put.now);
    assert [key][1..] == [];
    DeletedHead(After(rt, st, put), [key]);
    DeletedHead(DeletedOne(After(rt, st, put), key), []);
    DeletedHead(st, [key]);
    DeletedHead(DeletedOne(st, key), []);
    SetPuts(rt, After(rt, st, del), key, put.value, put.args, put.now);
    UntilSets(rt, None, put.value, deadline, put.now);
  }

  /** SET NX and DEL on a turn. */
  lemma OnTurn(rt: Runtime, st: Store, put: Op, del: Op, deadline: int)
    requires KeepsWords(rt) && put.Set? && del == Del([put.key]) && put.args == Until(deadline, "NX") && put.now < deadline
    ensures Cell(After(rt, After(rt, st, put), del), put.key).None?
    ensures Cell(After(rt, After(rt, st, del), put), put.key).Some?
  {
    hide SetEffect, SetCell, Deleted;
    var key := put.key;
    SetPuts(rt, st, key, put.value, put.args, put.now);
    UntilSets(rt, Cell(st, key), put.value, deadline, put.now);
    DeletedHead(After(rt, st, put), [key]);
    DeletedHead(st, [key]);
    assert [key][1..] == [];
    DeletedHead(DeletedOne(After(rt, st, put), key), []);
    DeletedHead(DeletedOne(st, key), []);
    var gone := After(rt, st, del);
    SetPuts(rt, gone, key, put.value, put.args, put.now);
    UntilSets(rt, Cell(gone, key), put.value, deadline, put.now);
  }

  /** The places of the keys in a write, in a claim and in a completion. */
  lemma Places(i: Interaction, a: seq<Op>, b: seq<Op>, now: int)
    requires Distinct(i) && |a| == 3 && KeysOf(a[0]) == {i.record} && KeysOf(a[1]) == {i.turn} && KeysOf(a[2]) == {i.index}
    ensures Once(a)
    ensures b == Claim(i, now) ==>
              Once(b) && Place(b, i.record) == 2 && Place(b, i.turn) == 1 && Place(a, i.record) == 0 && Place(a, i.turn) == 1 && SplitsAt(a, b, 0, i.record)
    ensures b == Complete(i) ==>
              Once(b) && Place(b, i.record) == 0 && Place(b, i.turn) == 0 && Place(a, i.record) == 0 && Place(a, i.turn) == 1 && SplitsAt(a, b, 1, i.record)
  {
    if b == Claim(i, now) {
      assert KeysOf(b[0]) == {i.index} && KeysOf(b[1]) == {i.turn} && KeysOf(b[2]) == {i.record};
    }
    if b == Complete(i) {
      assert KeysOf(b[0]) == {i.record, i.turn} && KeysOf(b[1]) == {i.index};
    }
    hide KeysOf;
  }

  lemma WriteKeys(i: Interaction, value: string, revision: string, deadline: int, score: int, now: int)
    ensures var a := WriteNext(i, value, revision, deadline, score, now);
            KeysOf(a[0]) == {i.record} && KeysOf(a[1]) == {i.turn} && KeysOf(a[2]) == {i.index}
  {
    hide Until;
  }

  /** The end under the turn: a SET NX that comes after a DEL of the turn leaves it, before the DEL it does not. */
  lemma TurnIsLeft(rt: Runtime, st: Store, a: seq<Op>, b: seq<Op>, turn: string, deadline: int)
    requires KeepsWords(rt) && Once(a) && Once(b) && Place(a, turn) >= 0 && Place(b, turn) >= 0
    requires var put := a[Place(a, turn)]; put.Set? && put.key == turn && put.args == Until(deadline, "NX") && put.now < deadline
    requires OnKey(b[Place(b, turn)], turn) == Del([turn])
    ensures Cell(AfterAll(rt, st, SecondThenFirst(a, b)), turn).Some?
    ensures AfterAll(rt, st, FirstThenSecond(a, b)) != AfterAll(rt, st, SecondThenFirst(a, b))
  {
    hide AfterAll, AnswersOf, After, AnswerOf, Restrict, FirstThenSecond, SecondThenFirst, Once, SameAt, Until, Place;
    var ab, ba, put := FirstThenSecond(a, b), SecondThenFirst(a, b), a[Place(a, turn)];
    OnTurn(rt, st, put, Del([turn]), deadline);
    PairOn(a, b, turn);
    TwoSteps(rt, st, Step(First, put), Step(Second, Del([turn])));
    TwoSteps(rt, st, Step(Second, Del([turn])), Step(First, put));
    TurnsDiffer(rt, st, ab, ba, turn);
    SameAsItself(st, turn);
    RestrictAfter(rt, st, st, ba, turn);
    CellOfSame(AfterAll(rt, st, ba), AfterAll(rt, st, Restrict(ba, turn)), turn);
  }

  lemma CellOfSame(s: Store, t: Store, k: string)
    requires SameAt(s, t, k)
    ensures Cell(s, k) == Cell(t, k)
  {
  }

  /**
    * A write and a claim of one interaction that start together, with the record there: the store is that of the claim
    * before the write, yet the claim gets the new record; the run is not serial.
    */
  lemma WriteAgainstClaim(
    rt: Runtime, st: Store, i: Interaction, value: string, revision: string, deadline: int, score: int, now: int)
    requires KeepsWords(rt) && Distinct(i) && now < deadline && LiveRecord(st, i.record, now) && Cell(st, i.record).value.value != value
    ensures var a, b := WriteNext(i, value, revision, deadline, score, now), Claim(i, now);
            var w, ba := InStep(a, 0, b, 0), SecondThenFirst(a, b);
            && AfterAll(rt, st, w) == AfterAll(rt, st, ba)
            && |AnswersOf(rt, st, w, Second)| == |AnswersOf(rt, st, ba, Second)| == 3
            && AnswersOf(rt, st, w, Second)[2] == Bulk(value) && AnswersOf(rt, st, ba, Second)[2] == Bulk(Cell(st, i.record).value.value)
            && !Serial(rt, st, a, b, w)
  {
    var a, b := WriteNext(i, value, revision, deadline, score, now), Claim(i, now);
    var w, ab, ba := InStep(a, 0, b, 0), FirstThenSecond(a, b), SecondThenFirst(a, b);
    hide InStep, FirstThenSecond, SecondThenFirst, AfterAll, AnswersOf, AnswerOf, After, Restrict, OpsOf, SameAt, Cell, LiveRecord, Until, Copies, SplitsAt, Once, Place;
    WriteKeys(i, value, revision, deadline, score, now);
    Places(i, a, b, now);
    OneCopy(i.turn);
    assert OnKey(a[0], i.record) == a[0] && OnKey(b[2], i.record) == b[2] && OnKey(b[1], i.turn) == b[1];
    InStepInterleaves(a, 0, b, 0);
    SerialInterleaves(a, b);
    PairOn(a, b, i.record);
    OnRecord(rt, st, a[0], b[2], deadline);
    TwoSteps(rt, st, Step(First, a[0]), Step(Second, b[2]));
    TwoSteps(rt, st, Step(Second, b[2]), Step(First, a[0]));
    StoreOfSecondFirst(rt, st, a, b, 0, i.record);
    MixedOrders(a, b, 0, i.record, i.record);
    assert i.record in KeysOf(b[2]);
    AnswerOn(rt, st, w, Second, 2, i.record);
    AnswerOn(rt, st, ba, Second, 2, i.record);
    TurnIsLeft(rt, st, a, b, i.turn, deadline);
  }

  lemma OneCopy(k: string)
    ensures Copies([k], k) == [k]
  {
  }

  /**
    * A write and a completion of one interaction, the write started first, with the record there: the write is told OK,
    * the record is deleted, and the turn of a record that is gone is left behind; the run is not serial.
    */
  lemma WriteAgainstComplete(
    rt: Runtime, st: Store, i: Interaction, value: string, revision: string, deadline: int, score: int, now: int)
    requires KeepsWords(rt) && Distinct(i) && now < deadline && LiveRecord(st, i.record, now)
    ensures var a, b := WriteNext(i, value, revision, deadline, score, now), Complete(i);
            var w := InStep(a, 0, b, 1);
            && AnswersOf(rt, st, w, First) != [] && AnswersOf(rt, st, w, First)[0] == Ok
            && Cell(AfterAll(rt, st, w), i.record).None? && Cell(AfterAll(rt, st, w), i.turn).Some?
            && !Serial(rt, st, a, b, w)
  {
    var a, b := WriteNext(i, value, revision, deadline, score, now), Complete(i);
    var w, ab, ba := InStep(a, 0, b, 1), FirstThenSecond(a, b), SecondThenFirst(a, b);
    hide InStep, FirstThenSecond, SecondThenFirst, AfterAll, AnswersOf, AnswerOf, After, Restrict, OpsOf, SameAt, Cell, LiveRecord, Until, Copies, SplitsAt, Once, Place;
    WriteKeys(i, value, revision, deadline, score, now);
    Places(i, a, b, now);
    CopiesOfTwo(i.record, i.turn);
    assert OnKey(a[0], i.record) == a[0] && OnKey(b[0], i.record) == Del([i.record]) && OnKey(b[0], i.turn) == Del([i.turn]);
    InStepInterleaves(a, 0, b, 1);
    SerialInterleaves(a, b);
    PairOn(a, b, i.record);
    OnRecordDeleted(rt, st, a[0], Del([i.record]), deadline);
    TwoSteps(rt, st, Step(First, a[0]), Step(Second, Del([i.record])));
    TwoSteps(rt, st, Step(Second, Del([i.record])), Step(First, a[0]));
    StoreOfSecondFirst(rt, st, a, b, 1, i.record);
    MixedOrders(a, b, 1, i.record, i.record);
    assert i.record in KeysOf(a[0]);
    AnswerOn(rt, st, w, First, 0, i.record);
    AnswerOn(rt, st, ba, First, 0, i.record);
    TurnIsLeft(rt, st, a, b, i.turn, deadline);
    SameAsItself(st, i.record);
    RestrictAfter(rt, st, st, w, i.record);
    CellOfSame(AfterAll(rt, st, w), AfterAll(rt, st, Restrict(w, i.record)), i.record);
  }

  lemma CopiesOfTwo(k: string, m: string)
    requires k != m
    ensures Copies([k, m], k) == [k] && Copies([k, m], m) == [m]
  {
    assert [k, m][1..] == [m] && [m][1..] == [];
    assert Copies([m], m) == [m] && Copies([m], k) == [];
  }

  lemma TurnsDiffer(rt: Runtime, st: Store, v: seq<Step>, w: seq<Step>, k: string)
    requires Cell(AfterAll(rt, st, Restrict(v, k)), k) != Cell(AfterAll(rt, st, Restrict(w, k)), k)
    ensures AfterAll(rt, st, v) != AfterAll(rt, st, w)
  {
    hide AfterAll, Restrict;
    StoreByKey(rt, st, v, w, k);
    SameAsItself(AfterAll(rt, st, v), k);
  }

  // ---------------------------------------------------------------- writes

  function Plain(key: string, value: string): (op: Op) { Set(key, value, [], 0) }

  lemma PlainWrites(rt: Runtime, key: string, value: string)
    ensures Writes(rt, Plain(key, value)) && Left(rt, Plain(key, value)) == Some(Entry(value, None))
  {
  }

  lemma LastByPlace(rt: Runtime, ops: seq<Op>, k: string, i: nat)
    requires AllWrite(rt, ops) && i < |ops| && ops[i].key == k && forall j :: i < j < |ops| ==> ops[j].key != k
    ensures LastOn(rt, ops, k) == i
  {
  }

  function Sets(value: string, middle: bool): (r: seq<Op>)
  {
    if middle then [Plain("x", value), Plain("z", value), Plain("y", value)] else [Plain("x", value), Plain("y", value)]
  }

  lemma SetsWrite(rt: Runtime, value: string, middle: bool)
    ensures AllSet(rt, Sets(value, middle))
    ensures forall k :: LastOn(rt, Sets(value, middle), k) >= 0 <==> k == "x" || k == "y" || (middle && k == "z")
    ensures LastOn(rt, Sets(value, middle), "x") == 0 && LastOn(rt, Sets(value, middle), "y") == (if middle then 2 else 1)
    ensures Final(rt, Sets(value, middle), "x") == Final(rt, Sets(value, middle), "y") == Some(Entry(value, None))
  {
    hide Writes, Left;
    PlainWrites(rt, "x", value);
    PlainWrites(rt, "y", value);
    PlainWrites(rt, "z", value);
    var ops := Sets(value, middle);
    assert "x"[0] != "y"[0] && "y"[0] != "z"[0] && "z"[0] != "x"[0];
    LastByPlace(rt, ops, "x", 0);
    LastByPlace(rt, ops, "y", if middle then 2 else 1);
    if middle { LastByPlace(rt, ops, "z", 1); }
  }

  /**
    * Three SET against two leave `x` from one block and `y` from the other when the second starts with the first; two
    * against two never do.
    */
  lemma SetsInterleave(rt: Runtime)
    ensures exists st :: !Serial(rt, st, Sets("1", true), Sets("2", false), InStep(Sets("1", true), 0, Sets("2", false), 1))
    ensures forall lead, st :: Serial(rt, st, Sets("1", false), Sets("2", false), InStep(Sets("1", false), 0, Sets("2", false), lead))
  {
    hide Serial, InStep, AllSet, AllWrite, LastOn, Final, Sets;
    var a, b, short := Sets("1", true), Sets("2", false), Sets("1", false);
    SetsWrite(rt, "1", true);
    SetsWrite(rt, "2", false);
    SetsWrite(rt, "1", false);
    assert "1"[0] != "2"[0];
    assert AllWrite(rt, a) && AllWrite(rt, b) && AllWrite(rt, short) by { SetsAreWrites(rt, a); SetsAreWrites(rt, b); SetsAreWrites(rt, short); }
    assert Contested(rt, a, b, "x") && Contested(rt, a, b, "y");
    SetsInStep(rt, a, b, 1);
    SetBlocksAreAtomic(rt, short, b);
  }

  lemma SetsAreWrites(rt: Runtime, ops: seq<Op>)
    requires AllSet(rt, ops)
    ensures AllWrite(rt, ops)
  {
  }

  lemma ThreeSteps(rt: Runtime, st: Store, p: Step, q: Step, r: Step)
    ensures AfterAll(rt, st, [p, q, r]) == After(rt, After(rt, After(rt, st, p.op), q.op), r.op)
    ensures AnswersOf(rt, st, [p, q, r], Second) ==
            (if p.block == Second then [AnswerOf(rt, st, p.op)] else []) +
            (if q.block == Second then [AnswerOf(rt, After(rt, st, p.op), q.op)] else []) +
            (if r.block == Second then [AnswerOf(rt, After(rt, After(rt, st, p.op), q.op), r.op)] else [])
  {
    hide After, AnswerOf;
    var s1 := After(rt, st, p.op);
    var s2 := After(rt, s1, q.op);
    assert [p, q, r][1..] == [q, r] && [q, r][1..] == [r] && [r][1..] == [];
    assert AfterAll(rt, s2, [r]) == After(rt, s2, r.op);
    assert AnswersOf(rt, s2, [r], Second) == if r.block == Second then [AnswerOf(rt, s2, r.op)] else [];
    assert AnswersOf(rt, s1, [q, r], Second) == (if q.block == Second then [AnswerOf(rt, s1, q.op)] else []) + AnswersOf(rt, s2, [r], Second);
  }

  /**
    * `SET x 1, SET x 2` against `GETDEL x` that starts after the first SET, from the empty store: the store is a serial
    * one, and GETDEL answers 1, where the serial orders answer 2 and nothing.
    */
  lemma TakeInBetween(rt: Runtime)
    ensures var st, a, b := Store(map[], map[]), [Plain("x", "1"), Plain("x", "2")], [GetDel("x", 0)];
            var w := InStep(a, 0, b, 1);
            && w == [Step(First, a[0]), Step(Second, b[0]), Step(First, a[1])]
            && AfterAll(rt, st, w) == AfterAll(rt, st, SecondThenFirst(a, b))
            && AnswersOf(rt, st, w, Second) == [Bulk("1")]
            && AnswersOf(rt, st, FirstThenSecond(a, b), Second) == [Bulk("2")]
            && AnswersOf(rt, st, SecondThenFirst(a, b), Second) == [Nil]
            && !Serial(rt, st, a, b, w)
  {
    var st, a, b := Store(map[], map[]), [Plain("x", "1"), Plain("x", "2")], [GetDel("x", 0)];
    var p, q, r := Step(First, a[0]), Step(First, a[1]), Step(Second, b[0]);
    hide AfterAll, AnswersOf, After, AnswerOf;
    TakeSchedules(a[0], a[1], b[0]);
    hide InStep, FirstThenSecond, SecondThenFirst;
    ThreeSteps(rt, st, p, r, q);
    ThreeSteps(rt, st, p, q, r);
    ThreeSteps(rt, st, r, p, q);
    TakeAnswers(rt);
    assert "1"[0] != "2"[0];
  }

  lemma TakeSchedules(p: Op, q: Op, r: Op)
    ensures InStep([p, q], 0, [r], 1) == [Step(First, p), Step(Second, r), Step(First, q)]
    ensures FirstThenSecond([p, q], [r]) == [Step(First, p), Step(First, q), Step(Second, r)]
    ensures SecondThenFirst([p, q], [r]) == [Step(Second, r), Step(First, p), Step(First, q)]
  {
    MarkedTwo(p, q);
    MarkedShort(Second, [r]);
    MarkedShort(First, [q]);
    hide Marked;
    assert [p, q][1..] == [q] && [r][1..] == [];
    assert InStep([q], 1, [], 2) == [Step(First, q)];
    assert InStep([q], 1, [r], 1) == [Step(Second, r)] + [Step(First, q)];
  }

  lemma TakeAnswers(rt: Runtime)
    ensures var st, one, two, take := Store(map[], map[]), Plain("x", "1"), Plain("x", "2"), GetDel("x", 0);
            var s := After(rt, st, one);
            && AnswerOf(rt, s, take) == Bulk("1") && AnswerOf(rt, After(rt, s, two), take) == Bulk("2") && AnswerOf(rt, st, take) == Nil
            && After(rt, After(rt, s, take), two) == After(rt, After(rt, After(rt, st, take), one), two)
  {
    hide SetEffect, AnswerOf;
    var st, one, two, take := Store(map[], map[]), Plain("x", "1"), Plain("x", "2"), GetDel("x", 0);
    var s := After(rt, st, one);
    SetThenTake(rt, st, "1");
    SetThenTake(rt, s, "2");
    SetAnyway(rt, st, "1");
    SetAnyway(rt, After(rt, s, take), "2");
    SetAnyway(rt, After(rt, st, take), "1");
    SetAnyway(rt, After(rt, After(rt, st, take), one), "2");
  }

  lemma MarkedTwo(p: Op, q: Op)
    ensures Marked(First, [p, q]) == [Step(First, p), Step(First, q)]
  {
  }

  lemma SetThenTake(rt: Runtime, st: Store, value: string)
    ensures AnswerOf(rt, After(rt, st, Plain("x", value)), GetDel("x", 0)) == Bulk(value)
    ensures Cell(st, "x").None? ==> AnswerOf(rt, st, GetDel("x", 0)) == Nil
  {
    SetAnyway(rt, st, value);
    hide SetEffect;
  }

  lemma SetAnyway(rt: Runtime, st: Store, value: string)
    ensures After(rt, st, Plain("x", value)) == st.(strings := st.strings["x" := Entry(value, None)])
  {
  }
}
