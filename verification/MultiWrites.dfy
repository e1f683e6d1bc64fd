/**
  * MULTI blocks of commands that write without looking, any number of them to one key: a run is decided by which write
  * each GETDEL sees and which write of each key comes last.
  */
module MultiWrites {
  import opened Text
  import opened InteractionStore
  import opened MultiQueues
  import opened MultiBlocks

  /** A command whose effect on its key does not depend on what was there: GETDEL, and SET with neither NX nor XX. */
  predicate Writes(rt: Runtime, op: Op)
  {
    op.GetDel? || (op.Set? && Word("NX") !in Upper(rt, op.args) && Word("XX") !in Upper(rt, op.args))
  }

  predicate AllWrite(rt: Runtime, ops: seq<Op>) { forall i :: 0 <= i < |ops| ==> Writes(rt, ops[i]) }

  predicate StepsWrite(rt: Runtime, w: seq<Step>) { forall i :: 0 <= i < |w| ==> Writes(rt, w[i].op) }

  /** What such a command leaves under its key. */
  function Left(rt: Runtime, op: Op): (r: Option<Entry>)
    requires Writes(rt, op)
  {
    if op.GetDel? then None
    else
      var deadline := DeadlineOf(rt, Upper(rt, op.args));
      if deadline.Some? && deadline.value <= op.now then None else Some(Entry(op.value, deadline))
  }

  lemma WriteEffect(rt: Runtime, st: Store, op: Op, k: string)
    requires Writes(rt, op)
    ensures Cell(After(rt, st, op), k) == if k == op.key then Left(rt, op) else Cell(st, k)
    ensures After(rt, st, op).sortedSets == st.sortedSets
    ensures op.Set? ==> AnswerOf(rt, st, op) == Ok
    ensures op.GetDel? ==> AnswerOf(rt, st, op) == Seen(Cell(st, op.key), op.now)
  {
    hide SetEffect, Upper, DeadlineOf;
    if op.Set? { SetPuts(rt, st, op.key, op.value, op.args, op.now); }
  }

  /** What GETDEL answers from what it finds. */
  function Seen(cell: Option<Entry>, now: int): (r: Answer)
  {
    var live := Live(cell, now);
    if live.Some? then Bulk(live.value.value) else Nil
  }

  // ---------------------------------------------------------------- where what is found comes from

  /** What is under a key: what the run started with, or what a write left. */
  datatype Source = Initial | Written(cell: Option<Entry>)

  function Read(initial: Option<Entry>, src: Source): (r: Option<Entry>) { if src.Initial? then initial else src.cell }

  /** Where what a run leaves under the key comes from. */
  function SourceAfter(rt: Runtime, w: seq<Step>, k: string, src: Source): (r: Source)
    requires StepsWrite(rt, w)
  {
    if w == [] then src else SourceAfter(rt, w[1..], k, if w[0].op.key == k then Written(Left(rt, w[0].op)) else src)
  }

  /** Where what command `i` of the block finds under the key comes from. */
  function SourceBefore(rt: Runtime, w: seq<Step>, x: Block, i: nat, k: string, src: Source): (r: Source)
    requires StepsWrite(rt, w) && i < |OpsOf(w, x)|
  {
    var next := if w[0].op.key == k then Written(Left(rt, w[0].op)) else src;
    if w[0].block != x then SourceBefore(rt, w[1..], x, i, k, next)
    else if i == 0 then src
    else SourceBefore(rt, w[1..], x, i - 1, k, next)
  }

  lemma {:induction false} SourceTells(rt: Runtime, st: Store, w: seq<Step>, k: string, initial: Option<Entry>, src: Source)
    requires StepsWrite(rt, w) && Cell(st, k) == Read(initial, src)
    ensures Cell(AfterAll(rt, st, w), k) == Read(initial, SourceAfter(rt, w, k, src))
    ensures AfterAll(rt, st, w).sortedSets == st.sortedSets
    decreases |w|
  {
    hide After, Left, Cell, Upper;
    if w != [] {
      WriteEffect(rt, st, w[0].op, k);
      SourceTells(rt, After(rt, st, w[0].op), w[1..], k, initial, if w[0].op.key == k then Written(Left(rt, w[0].op)) else src);
    }
  }

  lemma {:induction false} SourceBeforeTells(rt: Runtime, st: Store, w: seq<Step>, x: Block, i: nat, k: string, initial: Option<Entry>, src: Source)
    requires StepsWrite(rt, w) && i < |OpsOf(w, x)| && Cell(st, k) == Read(initial, src)
    ensures Cell(BeforeStep(rt, st, w, x, i), k) == Read(initial, SourceBefore(rt, w, x, i, k, src))
    decreases |w|
  {
    hide After, Left, Cell, Upper;
    WriteEffect(rt, st, w[0].op, k);
    var next, later := After(rt, st, w[0].op), if w[0].op.key == k then Written(Left(rt, w[0].op)) else src;
    if w[0].block != x {
      SourceBeforeTells(rt, next, w[1..], x, i, k, initial, later);
    } else if i > 0 {
      SourceBeforeTells(rt, next, w[1..], x, i - 1, k, initial, later);
    }
  }

  /** A GETDEL answers the same: it finds what the run started with in both, or writes that read alike at its time. */
  predicate ReadsAlike(s: Source, t: Source, now: int)
  {
    (s.Initial? && t.Initial?) || (s.Written? && t.Written? && Seen(s.cell, now) == Seen(t.cell, now))
  }

  /** In both runs the last write of each key leaves the same, and each GETDEL sees writes that read alike. */
  ghost predicate SeesAlike(rt: Runtime, v: seq<Step>, w: seq<Step>)
    requires StepsWrite(rt, v) && StepsWrite(rt, w) && forall x :: OpsOf(v, x) == OpsOf(w, x)
  {
    && (forall k :: SourceAfter(rt, v, k, Initial) == SourceAfter(rt, w, k, Initial))
    && (forall x, i :: 0 <= i < |OpsOf(v, x)| && OpsOf(v, x)[i].GetDel? ==>
          var op := OpsOf(v, x)[i];
          ReadsAlike(SourceBefore(rt, v, x, i, op.key, Initial), SourceBefore(rt, w, x, i, op.key, Initial), op.now))
  }

  lemma SameCells(s: Store, t: Store)
    requires s.sortedSets == t.sortedSets && forall k :: Cell(s, k) == Cell(t, k)
    ensures s == t
  {
    forall k ensures SameAt(s, t, k) { assert Cell(s, k) == Cell(t, k); }
    SameEverywhere(s, t);
  }

  lemma {:induction false} BlockWrites(rt: Runtime, w: seq<Step>, x: Block)
    requires StepsWrite(rt, w)
    ensures AllWrite(rt, OpsOf(w, x))
  {
    hide Writes;
    if w != [] { BlockWrites(rt, w[1..], x); }
  }

  /** What a command of such a run answers. */
  lemma WriteAnswer(rt: Runtime, st: Store, w: seq<Step>, x: Block, i: nat)
    requires StepsWrite(rt, w) && i < |OpsOf(w, x)|
    ensures i < |AnswersOf(rt, st, w, x)| && Writes(rt, OpsOf(w, x)[i])
    ensures var op := OpsOf(w, x)[i];
            AnswersOf(rt, st, w, x)[i] ==
            if op.Set? then Ok else Seen(Read(Cell(st, op.key), SourceBefore(rt, w, x, i, op.key, Initial)), op.now)
  {
    hide OpsOf, AnswersOf, AnswerOf, BeforeStep, SourceBefore, Upper, Seen, Cell;
    BlockWrites(rt, w, x);
    AnswerAt(rt, st, w, x);
    var op := OpsOf(w, x)[i];
    WriteEffect(rt, BeforeStep(rt, st, w, x, i), op, op.key);
    SourceBeforeTells(rt, st, w, x, i, op.key, Cell(st, op.key), Initial);
  }

  /** Runs that see alike leave one store and answer alike, whatever the store held. */
  lemma AlikeIsSame(rt: Runtime, st: Store, v: seq<Step>, w: seq<Step>)
    requires StepsWrite(rt, v) && StepsWrite(rt, w) && (forall x :: OpsOf(v, x) == OpsOf(w, x)) && SeesAlike(rt, v, w)
    ensures SameRun(rt, st, v, w)
  {
    hide AfterAll, AnswersOf, OpsOf, StepsWrite, Cell, SourceAfter, SourceBefore, Seen;
    forall k ensures Cell(AfterAll(rt, st, v), k) == Cell(AfterAll(rt, st, w), k)
             ensures AfterAll(rt, st, v).sortedSets == AfterAll(rt, st, w).sortedSets {
      SourceTells(rt, st, v, k, Cell(st, k), Initial);
      SourceTells(rt, st, w, k, Cell(st, k), Initial);
    }
    assert AfterAll(rt, st, v).sortedSets == AfterAll(rt, st, w).sortedSets by {
      SourceTells(rt, st, v, "", Cell(st, ""), Initial);
      SourceTells(rt, st, w, "", Cell(st, ""), Initial);
    }
    SameCells(AfterAll(rt, st, v), AfterAll(rt, st, w));
    forall x ensures AnswersOf(rt, st, v, x) == AnswersOf(rt, st, w, x) {
      AnswerAt(rt, st, v, x);
      AnswerAt(rt, st, w, x);
      forall i | 0 <= i < |OpsOf(v, x)| ensures AnswersOf(rt, st, v, x)[i] == AnswersOf(rt, st, w, x)[i] {
        WriteAnswer(rt, st, v, x, i);
        WriteAnswer(rt, st, w, x, i);
      }
    }
  }

  // ---------------------------------------------------------------- a store that tells every source apart

  /** A text that no SET of the block writes. */
  function Unwritten(ops: seq<Op>): (r: string)
    ensures r != "" && forall i :: 0 <= i < |ops| && ops[i].Set? ==> |ops[i].value| < |r|
  {
    if ops == [] then "x" else Unwritten(ops[1..]) + (if ops[0].Set? then ops[0].value else "")
  }

  ghost function KeySet(ops: seq<Op>): (r: set<string>)
    ensures forall i :: 0 <= i < |ops| && !ops[i].Del? ==> ops[i].key in r
  {
    if ops == [] then {} else KeySet(ops[1..]) + (if ops[0].Del? then {} else {ops[0].key})
  }

  /** Under every key of the blocks, a text that none of their commands writes. */
  ghost function Telling(ops: seq<Op>): (r: Store) { Store(map k | k in KeySet(ops) :: Entry(Unwritten(ops), None), map[]) }

  /** The source is not a write of the text. */
  ghost predicate Foreign(src: Source, text: string) { src.Written? ==> src.cell.None? || src.cell.value.value != text }

  lemma {:induction false} SourcesAreForeign(rt: Runtime, w: seq<Step>, k: string, src: Source, text: string)
    requires StepsWrite(rt, w) && Foreign(src, text) && forall i :: 0 <= i < |w| && w[i].op.Set? ==> w[i].op.value != text
    ensures Foreign(SourceAfter(rt, w, k, src), text)
    ensures forall x, i :: 0 <= i < |OpsOf(w, x)| ==> Foreign(SourceBefore(rt, w, x, i, k, src), text)
    ensures (forall i :: 0 <= i < |w| ==> w[i].op.key != k) ==> SourceAfter(rt, w, k, src) == src
  {
    hide Upper;
    if w != [] {
      var next := if w[0].op.key == k then Written(Left(rt, w[0].op)) else src;
      SourcesAreForeign(rt, w[1..], k, next, text);
      hide Left;
    }
  }

  lemma {:induction false} StepsOf(w: seq<Step>, i: nat) returns (j: nat)
    requires i < |w|
    ensures j < |OpsOf(w, w[i].block)| && OpsOf(w, w[i].block)[j] == w[i].op
  {
    if i == 0 {
      j := 0;
    } else {
      j := StepsOf(w[1..], i - 1);
      if w[0].block == w[i].block { j := j + 1; }
    }
  }

  /** From the store that tells them apart, only runs that see alike leave one store and answer alike. */
  lemma SameIsAlike(rt: Runtime, v: seq<Step>, w: seq<Step>, ops: seq<Op>)
    requires StepsWrite(rt, v) && StepsWrite(rt, w) && forall x :: OpsOf(v, x) == OpsOf(w, x)
    requires forall i :: 0 <= i < |v| ==> v[i].op in ops
    requires forall i :: 0 <= i < |w| ==> w[i].op in ops
    requires SameRun(rt, Telling(ops), v, w)
    ensures SeesAlike(rt, v, w)
  {
    hide AfterAll, AnswersOf, OpsOf, Upper, SourceAfter, SourceBefore, Unwritten;
    var st, text := Telling(ops), Unwritten(ops);
    forall k ensures SourceAfter(rt, v, k, Initial) == SourceAfter(rt, w, k, Initial) {
      SourcesAreForeign(rt, v, k, Initial, text);
      SourcesAreForeign(rt, w, k, Initial, text);
      SourceTells(rt, st, v, k, Cell(st, k), Initial);
      SourceTells(rt, st, w, k, Cell(st, k), Initial);
    }
    forall x, i | 0 <= i < |OpsOf(v, x)| && OpsOf(v, x)[i].GetDel?
      ensures var op := OpsOf(v, x)[i];
              ReadsAlike(SourceBefore(rt, v, x, i, op.key, Initial), SourceBefore(rt, w, x, i, op.key, Initial), op.now)
    {
      var op := OpsOf(v, x)[i];
      SourcesAreForeign(rt, v, op.key, Initial, text);
      SourcesAreForeign(rt, w, op.key, Initial, text);
      WriteAnswer(rt, st, v, x, i);
      WriteAnswer(rt, st, w, x, i);
      StepInBlock(v, x, i);
      assert op.key in st.strings;
      assert AnswersOf(rt, st, v, x)[i] == AnswersOf(rt, st, w, x)[i] by { if x != First { assert x == Second; } }
    }
  }

  lemma {:induction false} StepInBlock(w: seq<Step>, x: Block, i: nat)
    requires i < |OpsOf(w, x)|
    ensures exists j :: 0 <= j < |w| && w[j].op == OpsOf(w, x)[i]
  {
    if w[0].block == x && i == 0 {
      assert w[0].op == OpsOf(w, x)[i];
    } else {
      var n := if w[0].block == x then i - 1 else i;
      StepInBlock(w[1..], x, n);
      var j :| 0 <= j < |w[1..]| && w[1..][j].op == OpsOf(w[1..], x)[n];
      assert w[j + 1].op == OpsOf(w, x)[i];
    }
  }

  lemma {:induction false} StepsWriteOf(rt: Runtime, a: seq<Op>, b: seq<Op>, w: seq<Step>)
    requires AllWrite(rt, a) && AllWrite(rt, b) && Interleaves(a, b, w)
    ensures StepsWrite(rt, w) && forall i :: 0 <= i < |w| ==> w[i].op in a + b
  {
    hide Writes, OpsOf;
    forall i | 0 <= i < |w| ensures Writes(rt, w[i].op) && w[i].op in a + b {
      var j := StepsOf(w, i);
      if w[i].block == First { assert w[i].op == a[j] == (a + b)[j]; } else { assert w[i].op == b[j] == (a + b)[|a| + j]; }
    }
  }

  /** The run sees what one of the serial orders sees. */
  ghost predicate SeesSerial(rt: Runtime, a: seq<Op>, b: seq<Op>, w: seq<Step>)
    requires AllWrite(rt, a) && AllWrite(rt, b) && Interleaves(a, b, w)
  {
    Ready(rt, a, b, w);
    SeesAlike(rt, w, FirstThenSecond(a, b)) || SeesAlike(rt, w, SecondThenFirst(a, b))
  }

  lemma Ready(rt: Runtime, a: seq<Op>, b: seq<Op>, w: seq<Step>)
    requires AllWrite(rt, a) && AllWrite(rt, b) && Interleaves(a, b, w)
    ensures StepsWrite(rt, w) && StepsWrite(rt, FirstThenSecond(a, b)) && StepsWrite(rt, SecondThenFirst(a, b))
    ensures forall x :: OpsOf(w, x) == OpsOf(FirstThenSecond(a, b), x) == OpsOf(SecondThenFirst(a, b), x)
  {
    hide AllWrite, StepsWrite, OpsOf, FirstThenSecond, SecondThenFirst;
    SerialInterleaves(a, b);
    StepsWriteOf(rt, a, b, w);
    StepsWriteOf(rt, a, b, FirstThenSecond(a, b));
    StepsWriteOf(rt, a, b, SecondThenFirst(a, b));
    forall x ensures OpsOf(w, x) == OpsOf(FirstThenSecond(a, b), x) == OpsOf(SecondThenFirst(a, b), x) {
      if x != First { assert x == Second; }
    }
  }

  /**
    * An interleaving of two blocks of GETDEL and of SET without NX and XX is serial, in its store and in all answers and
    * whatever the store held, exactly when one of the serial orders leaves every key with the same last write and shows
    * every GETDEL a write that reads alike.
    */
  lemma WritesAreSerial(rt: Runtime, a: seq<Op>, b: seq<Op>, w: seq<Step>)
    requires AllWrite(rt, a) && AllWrite(rt, b) && Interleaves(a, b, w)
    ensures (forall st :: Serial(rt, st, a, b, w)) <==> SeesSerial(rt, a, b, w)
  {
    hide SeesAlike, SameRun, OpsOf, FirstThenSecond, SecondThenFirst, StepsWrite, AllWrite;
    Ready(rt, a, b, w);
    var ab, ba := FirstThenSecond(a, b), SecondThenFirst(a, b);
    forall st ensures SeesAlike(rt, w, ab) ==> SameRun(rt, st, w, ab)
              ensures SeesAlike(rt, w, ba) ==> SameRun(rt, st, w, ba) {
      if SeesAlike(rt, w, ab) { AlikeIsSame(rt, st, w, ab); }
      if SeesAlike(rt, w, ba) { AlikeIsSame(rt, st, w, ba); }
    }
    SerialInterleaves(a, b);
    StepsWriteOf(rt, a, b, w);
    StepsWriteOf(rt, a, b, ab);
    StepsWriteOf(rt, a, b, ba);
    var st := Telling(a + b);
    if SameRun(rt, st, w, ab) { SameIsAlike(rt, w, ab, a + b); }
    if SameRun(rt, st, w, ba) { SameIsAlike(rt, w, ba, a + b); }
    assert (forall s :: Serial(rt, s, a, b, w)) ==> Serial(rt, st, a, b, w);
  }

  // ---------------------------------------------------------------- blocks of SET

  predicate AllSet(rt: Runtime, ops: seq<Op>) { AllWrite(rt, ops) && forall i :: 0 <= i < |ops| ==> ops[i].Set? }

  /** The last command of the block on a key, -1 when there is none. */
  function LastOn(rt: Runtime, ops: seq<Op>, k: string): (i: int)
    requires AllWrite(rt, ops)
    ensures -1 <= i < |ops|
    ensures i >= 0 ==> ops[i].key == k
    ensures forall j :: i < j < |ops| ==> ops[j].key != k
  {
    if ops == [] then -1
    else if ops[|ops| - 1].key == k then |ops| - 1
    else LastOn(rt, ops[..|ops| - 1], k)
  }

  /** What the block leaves under a key it writes. */
  function Final(rt: Runtime, ops: seq<Op>, k: string): (r: Option<Entry>)
    requires AllWrite(rt, ops) && LastOn(rt, ops, k) >= 0
  {
    Left(rt, ops[LastOn(rt, ops, k)])
  }

  lemma LastOnTail(rt: Runtime, ops: seq<Op>, k: string)
    requires AllWrite(rt, ops) && ops != []
    ensures LastOn(rt, ops, k) ==
            if LastOn(rt, ops[1..], k) >= 0 then LastOn(rt, ops[1..], k) + 1 else if ops[0].key == k then 0 else -1
    ensures LastOn(rt, ops[1..], k) >= 0 ==> Final(rt, ops, k) == Final(rt, ops[1..], k)
  {
    hide Upper, Left;
    var tail := ops[1..];
    assert forall j :: 0 <= j < |tail| ==> tail[j] == ops[j + 1];
    var i, t := LastOn(rt, ops, k), LastOn(rt, tail, k);
    if t >= 0 { assert ops[t + 1].key == k; }
    if i >= 1 { assert tail[i - 1].key == k; }
  }

  lemma NoWrite(rt: Runtime, k: string)
    ensures LastOn(rt, [], k) == -1
  {
  }

  lemma SourceHead(rt: Runtime, w: seq<Step>, k: string, src: Source)
    requires StepsWrite(rt, w)
    ensures SourceAfter(rt, w, k, src) ==
            if w == [] then src else SourceAfter(rt, w[1..], k, if w[0].op.key == k then Written(Left(rt, w[0].op)) else src)
  {
    hide Upper, Left;
  }

  lemma {:induction false} MarkedSource(rt: Runtime, x: Block, ops: seq<Op>, k: string, src: Source)
    requires AllWrite(rt, ops)
    ensures StepsWrite(rt, Marked(x, ops))
    ensures SourceAfter(rt, Marked(x, ops), k, src) == if LastOn(rt, ops, k) >= 0 then Written(Final(rt, ops, k)) else src
  {
    hide Upper, Left, LastOn, SourceAfter;
    var w := Marked(x, ops);
    SourceHead(rt, w, k, src);
    if ops == [] {
      NoWrite(rt, k);
    } else {
      assert w[1..] == Marked(x, ops[1..]);
      MarkedSource(rt, x, ops[1..], k, if ops[0].key == k then Written(Left(rt, ops[0])) else src);
      LastOnTail(rt, ops, k);
    }
  }

  /** What two blocks in step leave: under a key both write, what the later of the two last writes left. */
  lemma {:induction false} InStepSource(rt: Runtime, a: seq<Op>, ta: int, b: seq<Op>, tb: int, k: string, src: Source)
    requires AllWrite(rt, a) && AllWrite(rt, b)
    ensures var w, i, j := InStep(a, ta, b, tb), LastOn(rt, a, k), LastOn(rt, b, k);
            && StepsWrite(rt, w)
            && SourceAfter(rt, w, k, src) ==
               if i < 0 && j < 0 then src
               else if j < 0 || (i >= 0 && ta + i >= tb + j) then Written(Final(rt, a, k))
               else Written(Final(rt, b, k))
    decreases |a| + |b|
  {
    hide Upper, Left, LastOn, SourceAfter;
    var w := InStep(a, ta, b, tb);
    NoWrite(rt, k);
    if a == [] {
      MarkedSource(rt, Second, b, k, src);
    } else if b == [] {
      MarkedSource(rt, First, a, k, src);
    } else if ta < tb {
      assert w[1..] == InStep(a[1..], ta + 1, b, tb) && w[0].op == a[0];
      InStepSource(rt, a[1..], ta + 1, b, tb, k, if a[0].key == k then Written(Left(rt, a[0])) else src);
      LastOnTail(rt, a, k);
      assert StepsWrite(rt, w) by { hide Writes; assert w == [w[0]] + w[1..]; }
      SourceHead(rt, w, k, src);
    } else {
      assert w[1..] == InStep(a, ta, b[1..], tb + 1) && w[0].op == b[0];
      InStepSource(rt, a, ta, b[1..], tb + 1, k, if b[0].key == k then Written(Left(rt, b[0])) else src);
      LastOnTail(rt, b, k);
      assert StepsWrite(rt, w) by { hide Writes; assert w == [w[0]] + w[1..]; }
      SourceHead(rt, w, k, src);
    }
  }

  lemma {:induction false} JoinedSource(rt: Runtime, v: seq<Step>, w: seq<Step>, k: string, src: Source)
    requires StepsWrite(rt, v) && StepsWrite(rt, w)
    ensures StepsWrite(rt, v + w) && SourceAfter(rt, v + w, k, src) == SourceAfter(rt, w, k, SourceAfter(rt, v, k, src))
  {
    hide Upper, Left, SourceAfter;
    SourceHead(rt, v, k, src);
    SourceHead(rt, v + w, k, src);
    if v == [] {
      assert v + w == w;
    } else {
      assert (v + w)[1..] == v[1..] + w;
      JoinedSource(rt, v[1..], w, k, if v[0].op.key == k then Written(Left(rt, v[0].op)) else src);
    }
  }

  /** What the serial orders leave under a key. */
  lemma SerialSources(rt: Runtime, a: seq<Op>, b: seq<Op>, k: string)
    requires AllWrite(rt, a) && AllWrite(rt, b)
    ensures var i, j, ab, ba := LastOn(rt, a, k), LastOn(rt, b, k), FirstThenSecond(a, b), SecondThenFirst(a, b);
            && StepsWrite(rt, ab) && StepsWrite(rt, ba)
            && SourceAfter(rt, ab, k, Initial) == (if j >= 0 then Written(Final(rt, b, k)) else if i >= 0 then Written(Final(rt, a, k)) else Initial)
            && SourceAfter(rt, ba, k, Initial) == (if i >= 0 then Written(Final(rt, a, k)) else if j >= 0 then Written(Final(rt, b, k)) else Initial)
  {
    hide AllWrite, StepsWrite, LastOn, Final, SourceAfter, Marked;
    MarkedSource(rt, First, a, k, Initial);
    MarkedSource(rt, Second, b, k, Initial);
    MarkedSource(rt, Second, b, k, SourceAfter(rt, Marked(First, a), k, Initial));
    MarkedSource(rt, First, a, k, SourceAfter(rt, Marked(Second, b), k, Initial));
    JoinedSource(rt, Marked(First, a), Marked(Second, b), k, Initial);
    JoinedSource(rt, Marked(Second, b), Marked(First, a), k, Initial);
  }

  /** The keys both blocks write and do not leave alike. */
  ghost predicate Contested(rt: Runtime, a: seq<Op>, b: seq<Op>, k: string)
    requires AllWrite(rt, a) && AllWrite(rt, b)
  {
    LastOn(rt, a, k) >= 0 && LastOn(rt, b, k) >= 0 && Final(rt, a, k) != Final(rt, b, k)
  }

  /** The first block's last write of the key comes later in the run than the second's. */
  ghost predicate FirstWins(rt: Runtime, a: seq<Op>, b: seq<Op>, w: seq<Step>, k: string)
    requires AllWrite(rt, a) && AllWrite(rt, b) && Contested(rt, a, b, k) && StepsWrite(rt, w)
  {
    SourceAfter(rt, w, k, Initial) == Written(Final(rt, a, k))
  }

  /** A run in which every key ends with the last write of one of the blocks that write it. */
  ghost predicate EitherWins(rt: Runtime, a: seq<Op>, b: seq<Op>, w: seq<Step>, k: string)
    requires AllWrite(rt, a) && AllWrite(rt, b) && StepsWrite(rt, w)
  {
    var i, j, src := LastOn(rt, a, k), LastOn(rt, b, k), SourceAfter(rt, w, k, Initial);
    || (i >= 0 && src == Written(Final(rt, a, k))) || (j >= 0 && src == Written(Final(rt, b, k)))
    || (i < 0 && j < 0 && src == Initial)
  }

  /** Blocks of SET: a run is serial from every store exactly when one block wins all contested keys. */
  lemma SetsAreSerial(rt: Runtime, a: seq<Op>, b: seq<Op>, w: seq<Step>)
    requires AllSet(rt, a) && AllSet(rt, b) && Interleaves(a, b, w) && StepsWrite(rt, w)
    requires forall k :: EitherWins(rt, a, b, w, k)
    ensures (forall st :: Serial(rt, st, a, b, w)) <==>
            forall k, m :: Contested(rt, a, b, k) && Contested(rt, a, b, m) ==> (FirstWins(rt, a, b, w, k) <==> FirstWins(rt, a, b, w, m))
  {
    hide Serial, OpsOf, AllWrite, StepsWrite, SourceAfter, SourceBefore, LastOn, Final, FirstThenSecond, SecondThenFirst;
    WritesAreSerial(rt, a, b, w);
    Ready(rt, a, b, w);
    var ab, ba := FirstThenSecond(a, b), SecondThenFirst(a, b);
    forall x ensures forall i :: 0 <= i < |OpsOf(w, x)| ==> OpsOf(w, x)[i].Set? { if x != First { assert x == Second; } }
    forall k ensures Contested(rt, a, b, k) ==>
                       && (SourceAfter(rt, w, k, Initial) == SourceAfter(rt, ab, k, Initial) <==> !FirstWins(rt, a, b, w, k))
                       && (SourceAfter(rt, w, k, Initial) == SourceAfter(rt, ba, k, Initial) <==> FirstWins(rt, a, b, w, k))
             ensures !Contested(rt, a, b, k) ==> SourceAfter(rt, w, k, Initial) == SourceAfter(rt, ab, k, Initial) == SourceAfter(rt, ba, k, Initial)
    {
      SerialSources(rt, a, b, k);
      assert EitherWins(rt, a, b, w, k);
    }
    if exists k :: Contested(rt, a, b, k) && FirstWins(rt, a, b, w, k) {
      var k :| Contested(rt, a, b, k) && FirstWins(rt, a, b, w, k);
      assert !SeesAlike(rt, w, ab);
    }
  }

  /** Whatever the order, a key ends with the last write of one of the blocks that write it. */
  lemma {:induction false} InterleavedSource(rt: Runtime, a: seq<Op>, b: seq<Op>, w: seq<Step>, k: string, src: Source)
    requires AllWrite(rt, a) && AllWrite(rt, b) && StepsWrite(rt, w) && Interleaves(a, b, w)
    ensures var i, j, r := LastOn(rt, a, k), LastOn(rt, b, k), SourceAfter(rt, w, k, src);
            || (i >= 0 && r == Written(Final(rt, a, k))) || (j >= 0 && r == Written(Final(rt, b, k))) || (i < 0 && j < 0 && r == src)
    decreases |w|
  {
    SourceHead(rt, w, k, src);
    if w == [] {
      NoWrite(rt, k);
    } else {
      hide Upper, Left, LastOn, SourceAfter, OpsOf;
      BlockHead(w, First);
      BlockHead(w, Second);
      var next := if w[0].op.key == k then Written(Left(rt, w[0].op)) else src;
      if w[0].block == First {
        InterleavedSource(rt, a[1..], b, w[1..], k, next);
        LastOnTail(rt, a, k);
      } else {
        InterleavedSource(rt, a, b[1..], w[1..], k, next);
        LastOnTail(rt, b, k);
      }
    }
  }

  /** How much later the last write of the key stands in the first block than in the second. */
  ghost function LastDistance(rt: Runtime, a: seq<Op>, b: seq<Op>, k: string): (d: int)
    requires AllWrite(rt, a) && AllWrite(rt, b)
  {
    LastOn(rt, a, k) - LastOn(rt, b, k)
  }

  /**
    * Two MULTI blocks of SET in step are serial, in store and answers, whenever the second starts and whatever the store
    * held, exactly when all keys they leave differently are last written at one distance.
    */
  lemma SetBlocksAreAtomic(rt: Runtime, a: seq<Op>, b: seq<Op>)
    requires AllSet(rt, a) && AllSet(rt, b)
    ensures (forall lead, st :: Serial(rt, st, a, b, InStep(a, 0, b, lead))) <==>
            forall k, m :: Contested(rt, a, b, k) && Contested(rt, a, b, m) ==> LastDistance(rt, a, b, k) == LastDistance(rt, a, b, m)
  {
    hide Serial, AllWrite, InStep, LastDistance, Contested;
    if k, m :| Contested(rt, a, b, k) && Contested(rt, a, b, m) && LastDistance(rt, a, b, k) < LastDistance(rt, a, b, m) {
      var lead := LastDistance(rt, a, b, m);
      SetsInStep(rt, a, b, lead);
      assert LastDistance(rt, a, b, m) >= lead && !(LastDistance(rt, a, b, k) >= lead);
      var st :| !Serial(rt, st, a, b, InStep(a, 0, b, lead));
    } else {
      forall lead, st ensures Serial(rt, st, a, b, InStep(a, 0, b, lead)) { SetsInStep(rt, a, b, lead); }
    }
  }

  lemma SetsInStep(rt: Runtime, a: seq<Op>, b: seq<Op>, lead: int)
    requires AllSet(rt, a) && AllSet(rt, b)
    ensures (forall st :: Serial(rt, st, a, b, InStep(a, 0, b, lead))) <==>
            forall k, m :: Contested(rt, a, b, k) && Contested(rt, a, b, m) ==>
              (LastDistance(rt, a, b, k) >= lead <==> LastDistance(rt, a, b, m) >= lead)
  {
    hide Serial, AllWrite, StepsWrite, InStep, SourceAfter, LastOn, Final;
    var w := InStep(a, 0, b, lead);
    InStepInterleaves(a, 0, b, lead);
    InStepSource(rt, a, 0, b, lead, "", Initial);
    forall k ensures EitherWins(rt, a, b, w, k)
             ensures Contested(rt, a, b, k) ==> (FirstWins(rt, a, b, w, k) <==> LastDistance(rt, a, b, k) >= lead) {
      InStepSource(rt, a, 0, b, lead, k, Initial);
    }
    SetsAreSerial(rt, a, b, w);
  }

  /** When a block may stall anywhere, every interleaving of two blocks of SET is serial exactly when they contest one key at most. */
  lemma StallingSetsAreAtomic(rt: Runtime, a: seq<Op>, b: seq<Op>)
    requires AllSet(rt, a) && AllSet(rt, b)
    ensures (forall w, st :: Interleaves(a, b, w) ==> Serial(rt, st, a, b, w)) <==>
            forall k, m :: Contested(rt, a, b, k) && Contested(rt, a, b, m) ==> k == m
  {
    hide Serial, AllWrite, StepsWrite, Interleaves, SourceAfter, Stalled;
    if forall k, m :: Contested(rt, a, b, k) && Contested(rt, a, b, m) ==> k == m {
      forall w, st | Interleaves(a, b, w) ensures Serial(rt, st, a, b, w) {
        StepsWriteOf(rt, a, b, w);
        forall k ensures EitherWins(rt, a, b, w, k) { InterleavedSource(rt, a, b, w, k, Initial); }
        SetsAreSerial(rt, a, b, w);
      }
    } else {
      var k, m :| Contested(rt, a, b, k) && Contested(rt, a, b, m) && k != m;
      if LastOn(rt, a, k) < LastOn(rt, a, m) {
        SetsStall(rt, a, b, k, m);
      } else {
        SetsStall(rt, a, b, m, k);
      }
    }
  }

  lemma SetsStall(rt: Runtime, a: seq<Op>, b: seq<Op>, k: string, m: string)
    requires AllSet(rt, a) && AllSet(rt, b) && Contested(rt, a, b, k) && Contested(rt, a, b, m)
    requires LastOn(rt, a, k) < LastOn(rt, a, m)
    ensures exists w, st :: Interleaves(a, b, w) && !Serial(rt, st, a, b, w)
  {
    hide Serial, AllWrite, StepsWrite, Interleaves, SourceAfter, Stalled, LastOn, Final;
    var i := LastOn(rt, a, m);
    var w := Stalled(a, b, i);
    StalledInterleaves(a, b, i);
    StepsWriteOf(rt, a, b, w);
    forall key ensures EitherWins(rt, a, b, w, key) { InterleavedSource(rt, a, b, w, key, Initial); }
    StalledSource(rt, a, b, i, k);
    StalledSource(rt, a, b, i, m);
    SetsAreSerial(rt, a, b, w);
  }

  lemma StalledSource(rt: Runtime, a: seq<Op>, b: seq<Op>, i: nat, k: string)
    requires AllWrite(rt, a) && AllWrite(rt, b) && i <= |a| && LastOn(rt, a, k) >= 0 && LastOn(rt, b, k) >= 0
    ensures StepsWrite(rt, Stalled(a, b, i))
    ensures SourceAfter(rt, Stalled(a, b, i), k, Initial) ==
            if LastOn(rt, a, k) < i then Written(Final(rt, b, k)) else Written(Final(rt, a, k))
  {
    hide AllWrite, SourceAfter, Marked, StepsWrite, LastOn, Final;
    CutLast(rt, a, i, k);
    var u, v, w := Marked(First, a[..i]), Marked(Second, b), Marked(First, a[i..]);
    MarkedSource(rt, First, a[..i], k, Initial);
    MarkedSource(rt, Second, b, k, SourceAfter(rt, u, k, Initial));
    JoinedSource(rt, u, v, k, Initial);
    MarkedSource(rt, First, a[i..], k, SourceAfter(rt, u + v, k, Initial));
    JoinedSource(rt, u + v, w, k, Initial);
  }

  lemma CutLast(rt: Runtime, ops: seq<Op>, i: nat, k: string)
    requires AllWrite(rt, ops) && i <= |ops| && LastOn(rt, ops, k) >= 0
    ensures AllWrite(rt, ops[..i]) && AllWrite(rt, ops[i..])
    ensures LastOn(rt, ops[i..], k) >= 0 <==> LastOn(rt, ops, k) >= i
    ensures LastOn(rt, ops, k) >= i ==> Final(rt, ops[i..], k) == Final(rt, ops, k)
  {
    hide Upper, Left;
    var after := ops[i..];
    assert forall j :: 0 <= j < |after| ==> after[j] == ops[i + j];
    var last, t := LastOn(rt, ops, k), LastOn(rt, after, k);
    if last >= i { assert after[last - i].key == k; }
    if t >= 0 { assert ops[i + t].key == k; }
  }

  /** With GETDEL among the commands: whenever the second block starts, each GETDEL must see what it sees in one serial order. */
  lemma WriteBlocksAreAtomic(rt: Runtime, a: seq<Op>, b: seq<Op>)
    requires AllWrite(rt, a) && AllWrite(rt, b)
    ensures (forall lead, st :: Serial(rt, st, a, b, InStep(a, 0, b, lead))) <==>
            forall lead :: Interleaves(a, b, InStep(a, 0, b, lead)) && SeesSerial(rt, a, b, InStep(a, 0, b, lead))
  {
    hide Serial, AllWrite, Interleaves, InStep, SeesSerial;
    forall lead ensures Interleaves(a, b, InStep(a, 0, b, lead)) { InStepInterleaves(a, 0, b, lead); }
    forall lead ensures (forall st :: Serial(rt, st, a, b, InStep(a, 0, b, lead))) <==> SeesSerial(rt, a, b, InStep(a, 0, b, lead)) {
      WritesAreSerial(rt, a, b, InStep(a, 0, b, lead));
    }
  }
}
