/**
  * MULTI blocks of the interaction store: `exec` runs its commands one by one with an await after each, so the commands
  * of another block come in between. A run of two blocks is a list of their commands, each marked with its block; what
  * counts is the store it leaves and the answers `exec` returns to each block. What a run does, it does key by key.
  */
module MultiQueues {
  import opened Text
  import opened InteractionStore

  datatype Block = First | Second

  datatype Step = Step(block: Block, op: Op)

  function Marked(block: Block, ops: seq<Op>): (r: seq<Step>)
    ensures |r| == |ops| && forall i :: 0 <= i < |ops| ==> r[i] == Step(block, ops[i])
  {
    if ops == [] then [] else [Step(block, ops[0])] + Marked(block, ops[1..])
  }

  function OpsOf(whole: seq<Step>, block: Block): (r: seq<Op>)
  {
    if whole == [] then [] else (if whole[0].block == block then [whole[0].op] else []) + OpsOf(whole[1..], block)
  }

  /** `whole` is made of the two blocks, each in its own order. */
  ghost predicate Interleaves(a: seq<Op>, b: seq<Op>, whole: seq<Step>) { OpsOf(whole, First) == a && OpsOf(whole, Second) == b }

  function AfterAll(rt: Runtime, st: Store, whole: seq<Step>): (r: Store)
    decreases |whole|
  {
    if whole == [] then st else AfterAll(rt, After(rt, st, whole[0].op), whole[1..])
  }

  /** What `exec` of the block returns. */
  function AnswersOf(rt: Runtime, st: Store, whole: seq<Step>, block: Block): (r: seq<Answer>)
    decreases |whole|
  {
    if whole == [] then []
    else
      (if whole[0].block == block then [AnswerOf(rt, st, whole[0].op)] else []) +
      AnswersOf(rt, After(rt, st, whole[0].op), whole[1..], block)
  }

  /** Two runs leave one store and give both blocks the same answers. */
  ghost predicate SameRun(rt: Runtime, st: Store, v: seq<Step>, w: seq<Step>)
  {
    && AfterAll(rt, st, v) == AfterAll(rt, st, w)
    && AnswersOf(rt, st, v, First) == AnswersOf(rt, st, w, First)
    && AnswersOf(rt, st, v, Second) == AnswersOf(rt, st, w, Second)
  }

  function FirstThenSecond(a: seq<Op>, b: seq<Op>): (r: seq<Step>) { Marked(First, a) + Marked(Second, b) }

  function SecondThenFirst(a: seq<Op>, b: seq<Op>): (r: seq<Step>) { Marked(Second, b) + Marked(First, a) }

  /** The run is, in its store and in all answers, one of the two in which a block runs after the other. */
  ghost predicate Serial(rt: Runtime, st: Store, a: seq<Op>, b: seq<Op>, whole: seq<Step>)
  {
    SameRun(rt, st, whole, FirstThenSecond(a, b)) || SameRun(rt, st, whole, SecondThenFirst(a, b))
  }

  function HeadOf(step: Step, block: Block): (r: seq<Op>) { if step.block == block then [step.op] else [] }

  lemma OpsOfHead(whole: seq<Step>, block: Block)
    ensures OpsOf(whole, block) == if whole == [] then [] else HeadOf(whole[0], block) + OpsOf(whole[1..], block)
  {
  }

  lemma {:induction false} OpsOfJoined(v: seq<Step>, w: seq<Step>, block: Block)
    ensures OpsOf(v + w, block) == OpsOf(v, block) + OpsOf(w, block)
  {
    hide OpsOf, HeadOf;
    OpsOfHead(v, block);
    OpsOfHead(v + w, block);
    if v == [] {
      assert v + w == w;
    } else {
      OpsOfJoined(v[1..], w, block);
      assert (v + w)[0] == v[0] && (v + w)[1..] == v[1..] + w;
    }
  }

  lemma {:induction false} OpsOfMarked(block: Block, ops: seq<Op>, other: Block)
    ensures OpsOf(Marked(block, ops), other) == if block == other then ops else []
  {
    if ops != [] { OpsOfMarked(block, ops[1..], other); }
  }

  lemma SerialInterleaves(a: seq<Op>, b: seq<Op>)
    ensures Interleaves(a, b, FirstThenSecond(a, b)) && Interleaves(a, b, SecondThenFirst(a, b))
  {
    forall x ensures OpsOf(FirstThenSecond(a, b), x) == if x == First then a else b {
      OpsOfJoined(Marked(First, a), Marked(Second, b), x);
      OpsOfMarked(First, a, x);
      OpsOfMarked(Second, b, x);
    }
    forall x ensures OpsOf(SecondThenFirst(a, b), x) == if x == First then a else b {
      OpsOfJoined(Marked(Second, b), Marked(First, a), x);
      OpsOfMarked(First, a, x);
      OpsOfMarked(Second, b, x);
    }
  }

  // ---------------------------------------------------------------- a command works on its own keys

  function KeysOf(op: Op): (r: set<string>)
  {
    if op.Del? then set k | k in op.keys else {op.key}
  }

  predicate Touches(ops: seq<Op>, k: string) { exists i :: 0 <= i < |ops| && k in KeysOf(ops[i]) }

  /** Two stores hold the same under a key. */
  predicate SameAt(s: Store, t: Store, k: string)
  {
    && (k in s.strings <==> k in t.strings) && (k in s.strings ==> s.strings[k] == t.strings[k])
    && (k in s.sortedSets <==> k in t.sortedSets) && (k in s.sortedSets ==> s.sortedSets[k] == t.sortedSets[k])
  }

  lemma SameEverywhere(s: Store, t: Store)
    requires forall k :: SameAt(s, t, k)
    ensures s == t
  {
    assert forall k :: SameAt(s, t, k) ==> (k in s.strings <==> k in t.strings) && (k in s.sortedSets <==> k in t.sortedSets);
    assert s.strings == t.strings;
    assert s.sortedSets == t.sortedSets;
  }

  lemma SameAtVia(r: Store, s: Store, t: Store, k: string)
    requires SameAt(r, s, k) && SameAt(s, t, k)
    ensures SameAt(r, t, k)
  {
  }

  function DeletedOne(st: Store, key: string): (r: Store)
  {
    if key in st.strings then st.(strings := st.strings - {key}) else st.(sortedSets := st.sortedSets - {key})
  }

  predicate Holds(st: Store, key: string) { key in st.strings || key in st.sortedSets }

  lemma DeletedHead(st: Store, keys: seq<string>)
    ensures Deleted(st, keys) ==
            if keys == [] then (st, 0)
            else
              var rest := Deleted(DeletedOne(st, keys[0]), keys[1..]);
              (rest.0, rest.1 + if Holds(st, keys[0]) then 1 else 0)
  {
    if keys != [] && !Holds(st, keys[0]) {
      assert st.sortedSets - {keys[0]} == st.sortedSets;
    }
  }

  /** The occurrences of a key in a list of keys. */
  function Copies(keys: seq<string>, k: string): (r: seq<string>)
    ensures forall x :: x in r ==> x == k
    ensures r == [] <==> k !in keys
  {
    if keys == [] then [] else (if keys[0] == k then [k] else []) + Copies(keys[1..], k)
  }

  /** What DEL does to a key is what deleting its occurrences does, and depends on what is held under the key. */
  lemma {:induction false} DeletedAt(s: Store, t: Store, keys: seq<string>, k: string)
    requires SameAt(s, t, k)
    ensures SameAt(Deleted(s, keys).0, Deleted(t, Copies(keys, k)).0, k)
    decreases |keys|
  {
    hide Deleted;
    DeletedHead(s, keys);
    DeletedHead(t, Copies(keys, k));
    if keys != [] {
      if keys[0] == k {
        assert Copies(keys, k)[0] == k && Copies(keys, k)[1..] == Copies(keys[1..], k);
        DeletedAt(DeletedOne(s, k), DeletedOne(t, k), keys[1..], k);
      } else {
        assert SameAt(DeletedOne(s, keys[0]), s, k);
        assert [] + Copies(keys[1..], k) == Copies(keys[1..], k);
        DeletedAt(DeletedOne(s, keys[0]), t, keys[1..], k);
        DeletedHead(t, Copies(keys[1..], k));
      }
    }
  }

  /** The count of DEL over the occurrences of one key depends on what is held under it. */
  lemma {:induction false} DeletedCountSame(s: Store, t: Store, keys: seq<string>, k: string)
    requires SameAt(s, t, k) && forall x :: x in keys ==> x == k
    ensures Deleted(s, keys).1 == Deleted(t, keys).1
    decreases |keys|
  {
    hide Deleted;
    DeletedHead(s, keys);
    DeletedHead(t, keys);
    if keys != [] {
      assert keys[0] in keys && forall x :: x in keys[1..] ==> x in keys;
      DeletedCountSame(DeletedOne(s, k), DeletedOne(t, k), keys[1..], k);
    }
  }

  /** The command as it concerns one key. */
  function OnKey(op: Op, k: string): (r: Op) { if op.Del? then Del(Copies(op.keys, k)) else op }

  lemma SetSame(rt: Runtime, s: Store, t: Store, key: string, value: string, args: seq<Arg>, now: int, k: string)
    requires SameAt(s, t, k)
    ensures SameAt(SetEffect(rt, s, key, value, args, now).0, SetEffect(rt, t, key, value, args, now).0, k)
    ensures k != key ==> SameAt(SetEffect(rt, s, key, value, args, now).0, s, k)
    ensures k == key ==> SetEffect(rt, s, key, value, args, now).1 == SetEffect(rt, t, key, value, args, now).1
  {
    hide SetEffect, SetCell;
    SetPuts(rt, s, key, value, args, now);
    SetPuts(rt, t, key, value, args, now);
  }

  function Cell(st: Store, k: string): (r: Option<Entry>) { if k in st.strings then Some(st.strings[k]) else None }

  /** The store with a new string, or none, under a key. */
  function Put(st: Store, key: string, cell: Option<Entry>): (r: Store)
  {
    st.(strings := if cell.Some? then st.strings[key := cell.value] else st.strings - {key})
  }

  function Live(cell: Option<Entry>, now: int): (r: Option<Entry>)
  {
    if cell.Some? && cell.value.deadline.Some? && cell.value.deadline.value <= now then None else cell
  }

  /** What SET leaves under its key, from what it finds there, and what it says. */
  function SetCell(rt: Runtime, cell: Option<Entry>, value: string, args: seq<Arg>, now: int): (r: (Option<Entry>, SetResult))
  {
    var upper := Upper(rt, args);
    var nx, xx := Word("NX") in upper, Word("XX") in upper;
    var live := Live(cell, now);
    var deadline := DeadlineOf(rt, upper);
    if (nx && live.Some?) || (xx && live.None?) then (live, Null)
    else if deadline.Some? && deadline.value <= now then (None, Discarded)
    else (Some(Entry(value, deadline)), Stored)
  }

  lemma SetPuts(rt: Runtime, st: Store, key: string, value: string, args: seq<Arg>, now: int)
    ensures var (cell, said) := SetCell(rt, Cell(st, key), value, args, now);
            SetEffect(rt, st, key, value, args, now) == (Put(st, key, cell), said)
  {
    hide Upper, DeadlineOf;
    assert key in st.strings ==> st.strings[key := st.strings[key]] == st.strings;
    assert key !in st.strings ==> st.strings - {key} == st.strings;
    var stored := Entry(value, DeadlineOf(rt, Upper(rt, args)));
    assert (st.strings - {key})[key := stored] == st.strings[key := stored];
    assert st.strings - {key} - {key} == st.strings - {key};
  }

  lemma ScoresSame(rt: Runtime, s: Store, t: Store, op: Op, k: string)
    requires SameAt(s, t, k) && (op.Zadd? || op.Zrem?)
    ensures SameAt(After(rt, s, op), After(rt, t, op), k)
    ensures k != op.key ==> SameAt(After(rt, s, op), s, k)
    ensures k == op.key ==> AnswerOf(rt, s, op) == AnswerOf(rt, t, op)
  {
    hide ZaddScores, ZremScores, ZaddEffect, ZremEffect, PutScores, SameAt;
    var key := op.key;
    ScoresSameAt(s, t, k);
    if op.Zadd? {
      ZaddPuts(rt, s, key, op.args);
      ZaddPuts(rt, t, key, op.args);
      PutScoresSame(s, t, key, ZaddScores(rt, ScoresOf(s, key), op.args).0, ZaddScores(rt, ScoresOf(t, key), op.args).0, k);
    } else {
      ZremPuts(s, key, op.member);
      ZremPuts(t, key, op.member);
      PutScoresSame(s, t, key, ZremScores(ScoresOf(s, key), op.member).0, ZremScores(ScoresOf(t, key), op.member).0, k);
    }
  }

  lemma ScoresSameAt(s: Store, t: Store, k: string)
    requires SameAt(s, t, k)
    ensures ScoresOf(s, k) == ScoresOf(t, k)
  {
  }

  lemma PutScoresSame(s: Store, t: Store, key: string, change: Option<Scores>, other: Option<Scores>, k: string)
    requires SameAt(s, t, k) && (k == key ==> change == other)
    ensures SameAt(PutScores(s, key, change), PutScores(t, key, other), k)
    ensures k != key ==> SameAt(PutScores(s, key, change), s, k)
  {
  }

  /** The store with new scores under a key; none when the set goes, and the same store when nothing is new. */
  function PutScores(st: Store, key: string, change: Option<Scores>): (r: Store)
  {
    if change.None? then st
    else st.(sortedSets := if change.value == map[] then st.sortedSets - {key} else st.sortedSets[key := change.value])
  }

  function ZaddScores(rt: Runtime, scores: Scores, args: seq<Arg>): (r: (Option<Scores>, nat))
  {
    var n := FlagCount(rt, args);
    var flags := Upper(rt, args[..n]);
    var score, member := NumberAt(rt, args, n), TextAt(rt, args, n + 1);
    if (Word("NX") in flags && member in scores) || (Word("XX") in flags && member !in scores) then (None, 0)
    else (Some(scores[member := score]), if member in scores then 0 else 1)
  }

  function ZremScores(scores: Scores, member: string): (r: (Option<Scores>, nat))
  {
    if member !in scores then (None, 0) else (Some(scores - {member}), 1)
  }

  lemma ZaddPuts(rt: Runtime, st: Store, key: string, args: seq<Arg>)
    ensures var (change, n) := ZaddScores(rt, ScoresOf(st, key), args); ZaddEffect(rt, st, key, args) == (PutScores(st, key, change), n)
  {
    hide Upper, NumberAt, TextAt;
    var (change, n) := ZaddScores(rt, ScoresOf(st, key), args);
    var member := TextAt(rt, args, FlagCount(rt, args) + 1);
    assert change.Some? ==> member in change.value;
  }

  lemma ZremPuts(st: Store, key: string, member: string)
    ensures var (change, n) := ZremScores(ScoresOf(st, key), member); ZremEffect(st, key, member) == (PutScores(st, key, change), n)
  {
  }

  /**
    * Under a key, a command does what it does as far as it concerns that key, and that depends on what is held there;
    * it leaves the keys it does not name alone.
    */
  lemma AfterAt(rt: Runtime, s: Store, t: Store, op: Op, k: string)
    requires SameAt(s, t, k)
    ensures k in KeysOf(op) ==> SameAt(After(rt, s, op), After(rt, t, OnKey(op, k)), k)
    ensures k !in KeysOf(op) ==> SameAt(After(rt, s, op), s, k)
    ensures k in KeysOf(op) ==> AnswerOf(rt, s, OnKey(op, k)) == AnswerOf(rt, t, OnKey(op, k))
  {
    hide Deleted, SetEffect, ZaddEffect, ZremEffect, Copies;
    match op
    case Get(key, now) =>
    case GetDel(key, now) =>
    case Set(key, value, args, now) => SetSame(rt, s, t, key, value, args, now, k);
    case Del(keys) =>
      DeletedAt(s, t, keys, k);
      if k in keys {
        DeletedCountSame(s, t, Copies(keys, k), k);
      } else {
        DeletedHead(t, Copies(keys, k));
        SameAtVia(After(rt, s, op), t, s, k);
      }
    case Zadd(_, _) => ScoresSame(rt, s, t, op, k);
    case Zrem(_, _) => ScoresSame(rt, s, t, op, k);
  }

  /** The answer to a command follows from its answers key by key. */
  lemma AnswerByKeys(rt: Runtime, s: Store, t: Store, op: Op)
    requires forall k :: k in KeysOf(op) ==> AnswerOf(rt, s, OnKey(op, k)) == AnswerOf(rt, t, OnKey(op, k))
    ensures AnswerOf(rt, s, op) == AnswerOf(rt, t, op)
  {
    hide Deleted, SetEffect, ZaddEffect, ZremEffect, Value;
    if op.Del? {
      forall k | k in op.keys ensures Deleted(s, Copies(op.keys, k)).1 == Deleted(t, Copies(op.keys, k)).1 {
        assert k in KeysOf(op) && OnKey(op, k) == Del(Copies(op.keys, k));
      }
      CountByKeys(s, t, op.keys);
    } else {
      assert op.key in KeysOf(op) && OnKey(op, op.key) == op;
    }
  }

  lemma {:induction false} CountByKeys(s: Store, t: Store, keys: seq<string>)
    requires forall k :: k in keys ==> Deleted(s, Copies(keys, k)).1 == Deleted(t, Copies(keys, k)).1
    ensures Deleted(s, keys).1 == Deleted(t, keys).1
    decreases |keys|
  {
    hide Deleted, Copies, Holds;
    DeletedHead(s, keys);
    DeletedHead(t, keys);
    if keys != [] {
      var first, rest := keys[0], keys[1..];
      assert first in keys;
      FirstIsHeld(s, t, keys);
      forall k | k in rest ensures Deleted(DeletedOne(s, first), Copies(rest, k)).1 == Deleted(DeletedOne(t, first), Copies(rest, k)).1 {
        CountOfRest(s, t, keys, k);
      }
      CountByKeys(DeletedOne(s, first), DeletedOne(t, first), rest);
    }
  }

  lemma FirstIsHeld(s: Store, t: Store, keys: seq<string>)
    requires keys != [] && Deleted(s, Copies(keys, keys[0])).1 == Deleted(t, Copies(keys, keys[0])).1
    ensures Holds(s, keys[0]) <==> Holds(t, keys[0])
  {
    hide Deleted, Holds;
    HeldIsCounted(s, Copies(keys, keys[0]), keys[0]);
    HeldIsCounted(t, Copies(keys, keys[0]), keys[0]);
  }

  lemma CountOfRest(s: Store, t: Store, keys: seq<string>, k: string)
    requires keys != [] && k in keys[1..] && (Holds(s, keys[0]) <==> Holds(t, keys[0]))
    requires Deleted(s, Copies(keys, k)).1 == Deleted(t, Copies(keys, k)).1
    ensures Deleted(DeletedOne(s, keys[0]), Copies(keys[1..], k)).1 == Deleted(DeletedOne(t, keys[0]), Copies(keys[1..], k)).1
  {
    hide Deleted;
    var first, rest := keys[0], keys[1..];
    if k == first {
      assert Copies(keys, k)[0] == k && Copies(keys, k)[1..] == Copies(rest, k);
      DeletedHead(s, Copies(keys, k));
      DeletedHead(t, Copies(keys, k));
    } else {
      assert Copies(keys, k) == [] + Copies(rest, k) == Copies(rest, k);
      DeletedCountSame(DeletedOne(s, first), s, Copies(rest, k), k);
      DeletedCountSame(DeletedOne(t, first), t, Copies(rest, k), k);
    }
  }

  lemma {:induction false} HeldIsCounted(st: Store, keys: seq<string>, k: string)
    requires keys != [] && forall x :: x in keys ==> x == k
    ensures Deleted(st, keys).1 > 0 <==> Holds(st, k)
    decreases |keys|
  {
    hide Deleted;
    DeletedHead(st, keys);
    assert keys[0] in keys && forall x :: x in keys[1..] ==> x in keys;
    if |keys| > 1 {
      HeldIsCounted(DeletedOne(st, k), keys[1..], k);
    } else {
      DeletedHead(DeletedOne(st, k), keys[1..]);
    }
  }

  /** The keys other than one. */
  function Others(keys: seq<string>, k: string): (r: seq<string>)
    ensures k !in r && forall j :: j in r ==> j in keys
  {
    if keys == [] then []
    else
      assert forall j :: j in keys[1..] ==> j in keys;
      (if keys[0] == k then [] else [keys[0]]) + Others(keys[1..], k)
  }

  lemma {:induction false} OthersAt(keys: seq<string>, k: string, j: string)
    requires j != k
    ensures Copies(Others(keys, k), j) == Copies(keys, j)
  {
    if keys != [] {
      var first, rest := keys[0], keys[1..];
      OthersAt(rest, k, j);
      CopiesHead(first, rest, j);
      CopiesHead(first, Others(rest, k), j);
      assert [first] + rest == keys;
      assert Others(keys, k) == if first == k then Others(rest, k) else [first] + Others(rest, k);
    }
  }

  lemma CopiesHead(first: string, rest: seq<string>, k: string)
    ensures Copies([first] + rest, k) == if first == k then [k] + Copies(rest, k) else Copies(rest, k)
  {
    assert ([first] + rest)[1..] == rest;
  }

  lemma DeletedCountOn(s: Store, t: Store, keys: seq<string>)
    requires forall k :: k in keys ==> SameAt(s, t, k)
    ensures Deleted(s, keys).1 == Deleted(t, keys).1
  {
    hide Deleted, SameAt, Copies;
    forall k | k in keys ensures Deleted(s, Copies(keys, k)).1 == Deleted(t, Copies(keys, k)).1 {
      DeletedCountSame(s, t, Copies(keys, k), k);
    }
    CountByKeys(s, t, keys);
  }

  /** The count of DEL is its count on one key and on the others. */
  lemma {:induction false} CountSplits(st: Store, keys: seq<string>, k: string)
    ensures Deleted(st, keys).1 == Deleted(st, Copies(keys, k)).1 + Deleted(st, Others(keys, k)).1
    decreases |keys|
  {
    hide Deleted;
    DeletedHead(st, keys);
    DeletedHead(st, Copies(keys, k));
    DeletedHead(st, Others(keys, k));
    if keys != [] {
      var first, rest := keys[0], keys[1..];
      var next := DeletedOne(st, first);
      CountSplits(next, rest, k);
      if first == k {
        assert Copies(keys, k)[1..] == Copies(rest, k) && Others(keys, k) == Others(rest, k);
        DeletedCountOn(next, st, Others(rest, k)) by {
          forall j | j in Others(rest, k) ensures SameAt(next, st, j) { LeavesOthers(st, k, j); }
        }
      } else {
        assert Others(keys, k)[1..] == Others(rest, k) && Copies(keys, k) == Copies(rest, k);
        LeavesOthers(st, first, k);
        DeletedCountSame(next, st, Copies(rest, k), k);
      }
    }
  }

  lemma LeavesOthers(st: Store, key: string, j: string)
    requires j != key
    ensures SameAt(DeletedOne(st, key), st, j)
  {
  }

  /** Deleting a key that is held shows under it. */
  lemma DeletedShows(st: Store, keys: seq<string>, k: string)
    requires keys != [] && (forall x :: x in keys ==> x == k) && Holds(st, k)
    ensures !SameAt(Deleted(st, keys).0, st, k)
  {
    hide Deleted;
    assert keys[0] in keys;
    DeletedHead(st, keys);
    DeletedShrinks(DeletedOne(st, k), keys[1..], k);
  }

  lemma {:induction false} DeletedShrinks(st: Store, keys: seq<string>, k: string)
    ensures var r := Deleted(st, keys).0; (k in r.strings ==> k in st.strings) && (k in r.sortedSets ==> k in st.sortedSets)
    decreases |keys|
  {
    hide Deleted;
    DeletedHead(st, keys);
    if keys != [] { DeletedShrinks(DeletedOne(st, keys[0]), keys[1..], k); }
  }

  // ---------------------------------------------------------------- a run, key by key

  /** The commands on one key, as far as they concern it. */
  function RestrictOps(ops: seq<Op>, k: string): (r: seq<Op>)
  {
    if ops == [] then [] else (if k in KeysOf(ops[0]) then [OnKey(ops[0], k)] else []) + RestrictOps(ops[1..], k)
  }

  function Restrict(w: seq<Step>, k: string): (r: seq<Step>)
  {
    if w == [] then []
    else (if k in KeysOf(w[0].op) then [Step(w[0].block, OnKey(w[0].op, k))] else []) + Restrict(w[1..], k)
  }

  lemma RestrictHead(w: seq<Step>, k: string)
    requires w != []
    ensures var v := Restrict(w, k);
            if k in KeysOf(w[0].op) then v != [] && v[0] == Step(w[0].block, OnKey(w[0].op, k)) && v[1..] == Restrict(w[1..], k)
            else v == Restrict(w[1..], k)
  {
    hide KeysOf, OnKey;
  }

  lemma BlockHead(w: seq<Step>, x: Block)
    requires w != []
    ensures var ops := OpsOf(w, x);
            if w[0].block == x then ops != [] && ops[0] == w[0].op && ops[1..] == OpsOf(w[1..], x) else ops == OpsOf(w[1..], x)
  {
  }

  lemma RestrictOpsHead(ops: seq<Op>, k: string)
    requires ops != []
    ensures var r := RestrictOps(ops, k);
            if k in KeysOf(ops[0]) then r == [OnKey(ops[0], k)] + RestrictOps(ops[1..], k) else r == RestrictOps(ops[1..], k)
  {
    hide KeysOf, OnKey;
  }

  lemma {:induction false} RestrictBlocks(w: seq<Step>, k: string, x: Block)
    ensures OpsOf(Restrict(w, k), x) == RestrictOps(OpsOf(w, x), k)
  {
    if w != [] {
      hide KeysOf, OnKey, OpsOf, RestrictOps, Restrict;
      RestrictBlocks(w[1..], k, x);
      RestrictHead(w, k);
      BlockHead(w, x);
      if w[0].block == x { RestrictOpsHead(OpsOf(w, x), k); }
      if k in KeysOf(w[0].op) {
        BlockHead(Restrict(w, k), x);
        var r := OpsOf(Restrict(w, k), x);
        assert w[0].block == x ==> r == [r[0]] + r[1..];
      }
    }
  }

  /** Under a key a run leaves what its commands on that key leave. */
  lemma {:induction false} RestrictAfter(rt: Runtime, s: Store, t: Store, w: seq<Step>, k: string)
    requires SameAt(s, t, k)
    ensures SameAt(AfterAll(rt, s, w), AfterAll(rt, t, Restrict(w, k)), k)
    decreases |w|
  {
    hide After, KeysOf, OnKey, SameAt;
    if w != [] {
      var op := w[0].op;
      AfterAt(rt, s, t, op, k);
      if k in KeysOf(op) {
        RestrictAfter(rt, After(rt, s, op), After(rt, t, OnKey(op, k)), w[1..], k);
        assert Restrict(w, k)[0].op == OnKey(op, k) && Restrict(w, k)[1..] == Restrict(w[1..], k);
      } else {
        SameAtVia(After(rt, s, op), s, t, k);
        RestrictAfter(rt, After(rt, s, op), t, w[1..], k);
        assert Restrict(w, k) == Restrict(w[1..], k);
      }
    }
  }

  /** The store that command `i` of a block finds. */
  function BeforeStep(rt: Runtime, st: Store, w: seq<Step>, x: Block, i: nat): (r: Store)
    requires i < |OpsOf(w, x)|
    decreases |w|
  {
    var next := After(rt, st, w[0].op);
    if w[0].block != x then BeforeStep(rt, next, w[1..], x, i)
    else if i == 0 then st
    else BeforeStep(rt, next, w[1..], x, i - 1)
  }

  lemma {:induction false} AnswerAt(rt: Runtime, st: Store, w: seq<Step>, x: Block)
    ensures |AnswersOf(rt, st, w, x)| == |OpsOf(w, x)|
    ensures forall i :: 0 <= i < |OpsOf(w, x)| ==> AnswersOf(rt, st, w, x)[i] == AnswerOf(rt, BeforeStep(rt, st, w, x, i), OpsOf(w, x)[i])
    decreases |w|
  {
    hide After, AnswerOf;
    if w != [] { AnswerAt(rt, After(rt, st, w[0].op), w[1..], x); }
  }

  /** How many earlier commands of the block name the key. */
  function Rank(ops: seq<Op>, k: string, i: nat): (r: nat)
    requires i <= |ops|
  {
    if i == 0 then 0 else (if k in KeysOf(ops[0]) then 1 else 0) + Rank(ops[1..], k, i - 1)
  }

  /** A command finds under its key what it finds in the run of the commands on that key. */
  lemma {:induction false} BeforeRestrict(rt: Runtime, s: Store, t: Store, w: seq<Step>, x: Block, i: nat, k: string)
    requires SameAt(s, t, k) && i < |OpsOf(w, x)| && k in KeysOf(OpsOf(w, x)[i])
    ensures var r, v := Rank(OpsOf(w, x), k, i), Restrict(w, k);
            && r < |OpsOf(v, x)| && OpsOf(v, x)[r] == OnKey(OpsOf(w, x)[i], k)
            && SameAt(BeforeStep(rt, s, w, x, i), BeforeStep(rt, t, v, x, r), k)
    decreases |w|
  {
    hide After, KeysOf, OnKey, SameAt;
    hide OpsOf, Restrict, BeforeStep;
    NoSteps(x);
    var op, rest, v := w[0].op, w[1..], Restrict(w, k);
    var next := After(rt, s, op);
    AfterAt(rt, s, t, op, k);
    BlockHead(w, x);
    RestrictHead(w, k);
    BeforeHead(rt, s, w, x, i);
    if k in KeysOf(op) {
      var j := if w[0].block != x then i else i - 1;
      if j >= 0 { BeforeRestrict(rt, next, After(rt, t, OnKey(op, k)), rest, x, j, k); }
      BlockHead(v, x);
      BeforeHead(rt, t, v, x, Rank(OpsOf(w, x), k, i));
    } else {
      SameAtVia(next, s, t, k);
      BeforeRestrict(rt, next, t, rest, x, if w[0].block != x then i else i - 1, k);
    }
  }

  lemma NoSteps(x: Block)
    ensures OpsOf([], x) == []
  {
  }

  lemma BeforeHead(rt: Runtime, st: Store, w: seq<Step>, x: Block, i: nat)
    requires w != [] && i < |OpsOf(w, x)|
    ensures BeforeStep(rt, st, w, x, i) ==
            var next := After(rt, st, w[0].op);
            if w[0].block != x then BeforeStep(rt, next, w[1..], x, i)
            else if i == 0 then st
            else BeforeStep(rt, next, w[1..], x, i - 1)
  {
    hide After;
  }

  /** Two runs agree on a key: in what they leave there and in the answers to the commands on it. */
  ghost predicate KeySame(rt: Runtime, st: Store, v: seq<Step>, w: seq<Step>, k: string)
  {
    && SameAt(AfterAll(rt, st, Restrict(v, k)), AfterAll(rt, st, Restrict(w, k)), k)
    && forall x :: AnswersOf(rt, st, Restrict(v, k), x) == AnswersOf(rt, st, Restrict(w, k), x)
  }

  /** Runs that agree on every key leave one store and answer alike. */
  lemma SameOnKeys(rt: Runtime, st: Store, v: seq<Step>, w: seq<Step>)
    requires (forall x :: OpsOf(v, x) == OpsOf(w, x)) && forall k :: KeySame(rt, st, v, w, k)
    ensures SameRun(rt, st, v, w)
  {
    hide AfterAll, AnswersOf, OpsOf, SameAt, AnswerOf, BeforeStep, KeysOf;
    forall k ensures SameAt(AfterAll(rt, st, v), AfterAll(rt, st, w), k) {
      assert KeySame(rt, st, v, w, k);
      StoreByKey(rt, st, v, w, k);
    }
    SameEverywhere(AfterAll(rt, st, v), AfterAll(rt, st, w));
    forall x ensures AnswersOf(rt, st, v, x) == AnswersOf(rt, st, w, x) {
      AnswerAt(rt, st, v, x);
      AnswerAt(rt, st, w, x);
      forall i | 0 <= i < |OpsOf(v, x)| ensures AnswersOf(rt, st, v, x)[i] == AnswersOf(rt, st, w, x)[i] {
        forall k | k in KeysOf(OpsOf(v, x)[i])
          ensures AnswerOf(rt, BeforeStep(rt, st, v, x, i), OnKey(OpsOf(v, x)[i], k)) == AnswerOf(rt, BeforeStep(rt, st, w, x, i), OnKey(OpsOf(v, x)[i], k))
        {
          AnswerByKey(rt, st, v, x, i, k);
          AnswerByKey(rt, st, w, x, i, k);
          assert KeySame(rt, st, v, w, k);
        }
        AnswerByKeys(rt, BeforeStep(rt, st, v, x, i), BeforeStep(rt, st, w, x, i), OpsOf(v, x)[i]);
      }
    }
  }

  lemma StoreByKey(rt: Runtime, st: Store, v: seq<Step>, w: seq<Step>, k: string)
    ensures SameAt(AfterAll(rt, st, v), AfterAll(rt, st, w), k) <==>
            SameAt(AfterAll(rt, st, Restrict(v, k)), AfterAll(rt, st, Restrict(w, k)), k)
  {
    hide AfterAll;
    assert SameAt(st, st, k);
    RestrictAfter(rt, st, st, v, k);
    RestrictAfter(rt, st, st, w, k);
  }

  lemma AnswerByKey(rt: Runtime, st: Store, w: seq<Step>, x: Block, i: nat, k: string)
    requires i < |OpsOf(w, x)| && k in KeysOf(OpsOf(w, x)[i])
    ensures var r, v := Rank(OpsOf(w, x), k, i), Restrict(w, k);
            && r < |AnswersOf(rt, st, v, x)|
            && AnswersOf(rt, st, v, x)[r] == AnswerOf(rt, BeforeStep(rt, st, w, x, i), OnKey(OpsOf(w, x)[i], k))
  {
    hide AfterAll, AnswersOf, OpsOf, AnswerOf, BeforeStep, KeysOf, OnKey;
    var r, v, op := Rank(OpsOf(w, x), k, i), Restrict(w, k), OpsOf(w, x)[i];
    assert SameAt(st, st, k);
    BeforeRestrict(rt, st, st, w, x, i, k);
    AnswerAt(rt, st, v, x);
    AfterAt(rt, BeforeStep(rt, st, w, x, i), BeforeStep(rt, st, v, x, r), op, k);
  }

  /** Each command names one key. */
  predicate OneKeyed(ops: seq<Op>) { forall i :: 0 <= i < |ops| ==> (ops[i].Del? ==> |ops[i].keys| == 1) }

  lemma OnKeyOfOne(op: Op, k: string)
    requires k in KeysOf(op) && (op.Del? ==> |op.keys| == 1)
    ensures OnKey(op, k) == op
  {
    if op.Del? { assert op.keys == [k] && Copies(op.keys[1..], k) == []; }
  }

  /** Every command of the restricted block is one of the block. */
  lemma {:induction false} Unrank(ops: seq<Op>, k: string, r: nat) returns (i: nat)
    requires r < |RestrictOps(ops, k)|
    ensures i < |ops| && k in KeysOf(ops[i]) && Rank(ops, k, i) == r
  {
    hide KeysOf, OnKey;
    var named := k in KeysOf(ops[0]);
    if named && r == 0 {
      i := 0;
    } else {
      var j := Unrank(ops[1..], k, if named then r - 1 else r);
      i := j + 1;
    }
  }

  /** Runs of commands of one key each that leave one store and answer alike agree on every key. */
  lemma KeysOfSame(rt: Runtime, st: Store, v: seq<Step>, w: seq<Step>, k: string)
    requires (forall x :: OpsOf(v, x) == OpsOf(w, x) && OneKeyed(OpsOf(v, x))) && SameRun(rt, st, v, w)
    ensures KeySame(rt, st, v, w, k)
  {
    hide AfterAll, AnswersOf, OpsOf, SameAt, AnswerOf, BeforeStep, KeysOf, OnKey, RestrictOps;
    StoreByKey(rt, st, v, w, k);
    assert SameAt(AfterAll(rt, st, v), AfterAll(rt, st, w), k) by { SameAsItself(AfterAll(rt, st, v), k); }
    forall x ensures AnswersOf(rt, st, Restrict(v, k), x) == AnswersOf(rt, st, Restrict(w, k), x) {
      AnswerAt(rt, st, v, x);
      AnswerAt(rt, st, w, x);
      AnswerAt(rt, st, Restrict(v, k), x);
      AnswerAt(rt, st, Restrict(w, k), x);
      RestrictBlocks(v, k, x);
      RestrictBlocks(w, k, x);
      forall r | 0 <= r < |AnswersOf(rt, st, Restrict(v, k), x)|
        ensures AnswersOf(rt, st, Restrict(v, k), x)[r] == AnswersOf(rt, st, Restrict(w, k), x)[r]
      {
        var i := Unrank(OpsOf(v, x), k, r);
        OnKeyOfOne(OpsOf(v, x)[i], k);
        AnswerByKey(rt, st, v, x, i, k);
        AnswerByKey(rt, st, w, x, i, k);
        assert AnswersOf(rt, st, v, x)[i] == AnswersOf(rt, st, w, x)[i] by { assert x == First || x == Second; }
      }
    }
  }

  lemma SameAsItself(st: Store, k: string)
    ensures SameAt(st, st, k)
  {
  }

  /**
    * A run is serial exactly when there is one serial order that it agrees with on every key: what it leaves and
    * answers elsewhere has no say in what it does under a key.
    */
  lemma SerialByKey(rt: Runtime, st: Store, a: seq<Op>, b: seq<Op>, w: seq<Step>)
    requires Interleaves(a, b, w) && OneKeyed(a) && OneKeyed(b)
    ensures Serial(rt, st, a, b, w) <==>
            || (forall k :: KeySame(rt, st, w, FirstThenSecond(a, b), k))
            || (forall k :: KeySame(rt, st, w, SecondThenFirst(a, b), k))
  {
    hide SameRun, KeySame, OpsOf, FirstThenSecond, SecondThenFirst, OneKeyed;
    SerialInterleaves(a, b);
    var ab, ba := FirstThenSecond(a, b), SecondThenFirst(a, b);
    forall x ensures OpsOf(w, x) == OpsOf(ab, x) == OpsOf(ba, x) && OneKeyed(OpsOf(w, x)) {
      if x != First { assert x == Second; }
    }
    if SameRun(rt, st, w, ab) { forall k ensures KeySame(rt, st, w, ab, k) { KeysOfSame(rt, st, w, ab, k); } }
    if SameRun(rt, st, w, ba) { forall k ensures KeySame(rt, st, w, ba, k) { KeysOfSame(rt, st, w, ba, k); } }
    if forall k :: KeySame(rt, st, w, ab, k) { SameOnKeys(rt, st, w, ab); }
    if forall k :: KeySame(rt, st, w, ba, k) { SameOnKeys(rt, st, w, ba); }
  }
}
