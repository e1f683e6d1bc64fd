/**
  * When two MULTI blocks end, in their store and in the answers both get, as if one had run before the other: blocks
  * with no key in common, and blocks that name each key at most once, which all blocks of the program are.
  */
module MultiBlocks {
  import opened Text
  import opened InteractionStore
  import opened MultiQueues

  // ---------------------------------------------------------------- the commands on one key

  lemma {:induction false} RestrictJoined(v: seq<Step>, w: seq<Step>, k: string)
    ensures Restrict(v + w, k) == Restrict(v, k) + Restrict(w, k)
  {
    if v == [] {
      assert v + w == w && Restrict(v, k) == [];
    } else {
      hide KeysOf, OnKey, Restrict;
      RestrictJoined(v[1..], w, k);
      assert (v + w)[0] == v[0] && (v + w)[1..] == v[1..] + w;
      RestrictHead(v, k);
      RestrictHead(v + w, k);
      if k in KeysOf(v[0].op) {
        var r, rw := Restrict(v, k), Restrict(v + w, k);
        assert r == [r[0]] + r[1..] && rw == [rw[0]] + rw[1..];
      }
    }
  }

  lemma {:induction false} RestrictMarked(x: Block, ops: seq<Op>, k: string)
    ensures Restrict(Marked(x, ops), k) == Marked(x, RestrictOps(ops, k))
  {
    if ops != [] {
      hide KeysOf, OnKey, Restrict, RestrictOps;
      RestrictMarked(x, ops[1..], k);
      var w := Marked(x, ops);
      assert w[1..] == Marked(x, ops[1..]);
      RestrictHead(w, k);
      RestrictOpsHead(ops, k);
      if k in KeysOf(ops[0]) {
        var r := Restrict(w, k);
        assert r == [r[0]] + r[1..];
      }
    }
  }

  lemma RestrictSerial(a: seq<Op>, b: seq<Op>, k: string)
    ensures Restrict(FirstThenSecond(a, b), k) == FirstThenSecond(RestrictOps(a, k), RestrictOps(b, k))
    ensures Restrict(SecondThenFirst(a, b), k) == SecondThenFirst(RestrictOps(a, k), RestrictOps(b, k))
  {
    hide Restrict, Marked;
    RestrictJoined(Marked(First, a), Marked(Second, b), k);
    RestrictJoined(Marked(Second, b), Marked(First, a), k);
    RestrictMarked(First, a, k);
    RestrictMarked(Second, b, k);
  }

  lemma {:induction false} Untouched(ops: seq<Op>, k: string)
    requires !Touches(ops, k)
    ensures RestrictOps(ops, k) == []
  {
    hide KeysOf, OnKey;
    if ops != [] {
      assert k !in KeysOf(ops[0]) && !Touches(ops[1..], k);
      Untouched(ops[1..], k);
    }
  }

  lemma {:induction false} OnlyOneBlock(w: seq<Step>, x: Block, y: Block)
    requires x != y && OpsOf(w, y) == []
    ensures w == Marked(x, OpsOf(w, x))
  {
    if w != [] {
      hide OpsOf;
      BlockHead(w, x);
      BlockHead(w, y);
      assert w[0].block == x;
      OnlyOneBlock(w[1..], x, y);
      var ops := OpsOf(w, x);
      assert w == [w[0]] + w[1..] && ops == [ops[0]] + ops[1..];
      assert Marked(x, ops) == [Step(x, ops[0])] + Marked(x, ops[1..]);
    }
  }

  // ---------------------------------------------------------------- keys of one block

  /** On a key that only one of the two blocks names, every interleaving is both serial orders. */
  lemma OwnKeyIsSerial(a: seq<Op>, b: seq<Op>, w: seq<Step>, k: string)
    requires Interleaves(a, b, w) && !(Touches(a, k) && Touches(b, k))
    ensures Restrict(w, k) == Restrict(FirstThenSecond(a, b), k) == Restrict(SecondThenFirst(a, b), k)
  {
    hide OpsOf, Restrict, RestrictOps, Touches;
    RestrictSerial(a, b, k);
    RestrictBlocks(w, k, First);
    RestrictBlocks(w, k, Second);
    var r := Restrict(w, k);
    if !Touches(b, k) {
      Untouched(b, k);
      OnlyOneBlock(r, First, Second);
      assert Marked(Second, []) == [] && r + [] == r && [] + r == r;
    } else {
      Untouched(a, k);
      OnlyOneBlock(r, Second, First);
      assert Marked(First, []) == [] && r + [] == r && [] + r == r;
    }
  }

  /** The block and the other one have no key in common there. */
  predicate Private(op: Op, a: seq<Op>, b: seq<Op>) { forall k :: k in KeysOf(op) ==> !(Touches(a, k) && Touches(b, k)) }

  /**
    * Under a key that only one of two blocks names every interleaving leaves what both serial orders leave, and a
    * command whose keys are all such gets the answer it gets in both serial orders.
    */
  lemma OwnKeysAreSerial(rt: Runtime, st: Store, a: seq<Op>, b: seq<Op>, w: seq<Step>, serial: seq<Step>)
    requires Interleaves(a, b, w) && serial in [FirstThenSecond(a, b), SecondThenFirst(a, b)]
    ensures forall k :: !(Touches(a, k) && Touches(b, k)) ==> SameAt(AfterAll(rt, st, w), AfterAll(rt, st, serial), k)
    ensures forall x :: |AnswersOf(rt, st, w, x)| == |AnswersOf(rt, st, serial, x)| == |OpsOf(w, x)|
    ensures forall x, i :: 0 <= i < |OpsOf(w, x)| && Private(OpsOf(w, x)[i], a, b) ==>
              AnswersOf(rt, st, w, x)[i] == AnswersOf(rt, st, serial, x)[i]
  {
    hide AfterAll, AnswersOf, OpsOf, Touches, SameAt, AnswerOf, BeforeStep, KeysOf, Restrict;
    SerialInterleaves(a, b);
    forall k | !(Touches(a, k) && Touches(b, k)) ensures SameAt(AfterAll(rt, st, w), AfterAll(rt, st, serial), k) {
      OwnKeyIsSerial(a, b, w, k);
      SameAsItself(AfterAll(rt, st, Restrict(w, k)), k);
      StoreByKey(rt, st, w, serial, k);
    }
    forall x ensures OpsOf(w, x) == OpsOf(serial, x) && |AnswersOf(rt, st, w, x)| == |AnswersOf(rt, st, serial, x)| == |OpsOf(w, x)| {
      if x != First { assert x == Second; }
      AnswerAt(rt, st, w, x);
      AnswerAt(rt, st, serial, x);
    }
    forall x, i | 0 <= i < |OpsOf(w, x)| && Private(OpsOf(w, x)[i], a, b)
      ensures AnswersOf(rt, st, w, x)[i] == AnswersOf(rt, st, serial, x)[i]
    {
      var op := OpsOf(w, x)[i];
      forall k | k in KeysOf(op)
        ensures AnswerOf(rt, BeforeStep(rt, st, w, x, i), OnKey(op, k)) == AnswerOf(rt, BeforeStep(rt, st, serial, x, i), OnKey(op, k))
      {
        OwnKeyIsSerial(a, b, w, k);
        AnswerByKey(rt, st, w, x, i, k);
        AnswerByKey(rt, st, serial, x, i, k);
      }
      AnswerByKeys(rt, BeforeStep(rt, st, w, x, i), BeforeStep(rt, st, serial, x, i), op);
      AnswerAt(rt, st, w, x);
      AnswerAt(rt, st, serial, x);
    }
  }

  lemma AgreeingOrder(rt: Runtime, st: Store, v: seq<Step>, w: seq<Step>, k: string)
    requires Restrict(v, k) == Restrict(w, k)
    ensures KeySame(rt, st, v, w, k)
  {
  }

  /** Blocks with no key in common: every interleaving is both serial orders, in its store and in all answers. */
  lemma DisjointBlocksAreAtomic(rt: Runtime, st: Store, a: seq<Op>, b: seq<Op>, w: seq<Step>)
    requires Interleaves(a, b, w) && forall k :: !(Touches(a, k) && Touches(b, k))
    ensures SameRun(rt, st, w, FirstThenSecond(a, b)) && SameRun(rt, st, w, SecondThenFirst(a, b))
  {
    hide KeySame, SameRun, OpsOf, Touches, Restrict;
    SerialInterleaves(a, b);
    var ab, ba := FirstThenSecond(a, b), SecondThenFirst(a, b);
    forall k ensures KeySame(rt, st, w, ab, k) && KeySame(rt, st, w, ba, k) {
      OwnKeyIsSerial(a, b, w, k);
      AgreeingOrder(rt, st, w, ab, k);
      AgreeingOrder(rt, st, w, ba, k);
    }
    forall x ensures OpsOf(w, x) == OpsOf(ab, x) == OpsOf(ba, x) { if x != First { assert x == Second; } }
    SameOnKeys(rt, st, w, ab);
    SameOnKeys(rt, st, w, ba);
  }

  // ---------------------------------------------------------------- schedules

  /**
    * Two blocks in step: the effect of command `i` of the first comes before that of command `j` of the second exactly
    * when `i < j + lead`. Here `ta` and `tb` are the turns of the two heads.
    */
  function InStep(a: seq<Op>, ta: int, b: seq<Op>, tb: int): (r: seq<Step>)
    decreases |a| + |b|
  {
    if a == [] then Marked(Second, b)
    else if b == [] then Marked(First, a)
    else if ta < tb then [Step(First, a[0])] + InStep(a[1..], ta + 1, b, tb)
    else [Step(Second, b[0])] + InStep(a, ta, b[1..], tb + 1)
  }

  lemma {:induction false} InStepInterleaves(a: seq<Op>, ta: int, b: seq<Op>, tb: int)
    ensures Interleaves(a, b, InStep(a, ta, b, tb))
    decreases |a| + |b|
  {
    hide OpsOf, Marked;
    var w := InStep(a, ta, b, tb);
    if a == [] {
      OpsOfMarked(Second, b, First);
      OpsOfMarked(Second, b, Second);
    } else if b == [] {
      OpsOfMarked(First, a, First);
      OpsOfMarked(First, a, Second);
    } else {
      BlockHead(w, First);
      BlockHead(w, Second);
      if ta < tb {
        assert w[0] == Step(First, a[0]) && w[1..] == InStep(a[1..], ta + 1, b, tb);
        hide InStep;
        InStepInterleaves(a[1..], ta + 1, b, tb);
        assert OpsOf(w, First) == [a[0]] + a[1..];
      } else {
        assert w[0] == Step(Second, b[0]) && w[1..] == InStep(a, ta, b[1..], tb + 1);
        hide InStep;
        InStepInterleaves(a, ta, b[1..], tb + 1);
        assert OpsOf(w, Second) == [b[0]] + b[1..];
      }
    }
  }

  /** The first block stalls before its command `i` while the second runs whole. */
  function Stalled(a: seq<Op>, b: seq<Op>, i: nat): (r: seq<Step>)
    requires i <= |a|
  {
    Marked(First, a[..i]) + Marked(Second, b) + Marked(First, a[i..])
  }

  lemma StalledInterleaves(a: seq<Op>, b: seq<Op>, i: nat)
    requires i <= |a|
    ensures Interleaves(a, b, Stalled(a, b, i))
  {
    hide OpsOf, Marked;
    forall x ensures OpsOf(Stalled(a, b, i), x) == if x == First then a else b {
      OpsOfJoined(Marked(First, a[..i]) + Marked(Second, b), Marked(First, a[i..]), x);
      OpsOfJoined(Marked(First, a[..i]), Marked(Second, b), x);
      OpsOfMarked(First, a[..i], x);
      OpsOfMarked(Second, b, x);
      OpsOfMarked(First, a[i..], x);
      assert a[..i] + a[i..] == a;
    }
  }

  // ---------------------------------------------------------------- blocks that name a key once

  /** No two commands of the block name one key. */
  predicate Once(ops: seq<Op>) { forall i, j :: 0 <= i < j < |ops| ==> KeysOf(ops[i]) !! KeysOf(ops[j]) }

  /** The place of the first command that names the key, -1 when none does. */
  function Place(ops: seq<Op>, k: string): (i: int)
    ensures -1 <= i < |ops|
    ensures i >= 0 ==> k in KeysOf(ops[i])
    ensures forall j :: 0 <= j < (if i < 0 then |ops| else i) ==> k !in KeysOf(ops[j])
  {
    if ops == [] then -1
    else if k in KeysOf(ops[0]) then 0
    else
      var i := Place(ops[1..], k);
      if i < 0 then -1 else i + 1
  }

  lemma {:induction false} RestrictedOnce(ops: seq<Op>, k: string)
    requires Once(ops)
    ensures RestrictOps(ops, k) == if Place(ops, k) < 0 then [] else [OnKey(ops[Place(ops, k)], k)]
  {
    if ops != [] {
      hide KeysOf, OnKey, RestrictOps;
      RestrictOpsHead(ops, k);
      assert Once(ops[1..]);
      RestrictedOnce(ops[1..], k);
      if k in KeysOf(ops[0]) {
        assert forall j :: 0 <= j < |ops[1..]| ==> ops[1..][j] == ops[j + 1];
      }
    }
  }

  lemma OneEach(w: seq<Step>)
    requires |OpsOf(w, First)| <= 1 && |OpsOf(w, Second)| <= 1
    ensures w == FirstThenSecond(OpsOf(w, First), OpsOf(w, Second)) || w == SecondThenFirst(OpsOf(w, First), OpsOf(w, Second))
  {
    if w != [] {
      var x := w[0].block;
      var y := if x == First then Second else First;
      BlockHead(w, x);
      BlockHead(w, y);
      var rest := w[1..];
      OnlyOneBlock(rest, y, x);
      assert w == [w[0]] + rest;
      var ops := OpsOf(w, x);
      assert ops == [ops[0]];
      assert Marked(x, ops) == [w[0]] + Marked(x, ops[1..]) == [w[0]];
    } else {
      assert Marked(First, []) == [] && Marked(Second, []) == [];
    }
  }

  /** On a key that each block names once at most, every interleaving is one of the serial orders. */
  lemma OnceOrder(a: seq<Op>, b: seq<Op>, w: seq<Step>, k: string)
    requires Once(a) && Once(b) && Interleaves(a, b, w)
    ensures Restrict(w, k) == Restrict(FirstThenSecond(a, b), k) || Restrict(w, k) == Restrict(SecondThenFirst(a, b), k)
  {
    hide OpsOf, Restrict, RestrictOps, Once, OnKey;
    RestrictSerial(a, b, k);
    RestrictBlocks(w, k, First);
    RestrictBlocks(w, k, Second);
    RestrictedOnce(a, k);
    RestrictedOnce(b, k);
    OneEach(Restrict(w, k));
  }

  /** The first block's command on the key comes first, if both have one. */
  ghost predicate FirstLeads(a: seq<Op>, b: seq<Op>, w: seq<Step>, k: string) { Restrict(w, k) == Restrict(FirstThenSecond(a, b), k) }

  /** From some store the two serial orders differ on the key: the commands on it do not commute. */
  ghost predicate Clash(rt: Runtime, a: seq<Op>, b: seq<Op>, k: string)
  {
    exists st :: !KeySame(rt, st, FirstThenSecond(a, b), SecondThenFirst(a, b), k)
  }

  lemma KeySameVia(rt: Runtime, st: Store, u: seq<Step>, v: seq<Step>, w: seq<Step>, k: string)
    requires Restrict(u, k) == Restrict(v, k)
    ensures KeySame(rt, st, u, w, k) <==> KeySame(rt, st, v, w, k)
    ensures KeySame(rt, st, u, w, k) <==> KeySame(rt, st, w, u, k)
  {
    hide AfterAll, AnswersOf;
  }

  /** A run is serial when it takes all keys on which the orders differ in one order. */
  lemma OneOrderIsSerial(rt: Runtime, st: Store, a: seq<Op>, b: seq<Op>, w: seq<Step>)
    requires Once(a) && Once(b) && Interleaves(a, b, w)
    requires forall k, m :: Clash(rt, a, b, k) && Clash(rt, a, b, m) ==> (FirstLeads(a, b, w, k) <==> FirstLeads(a, b, w, m))
    ensures Serial(rt, st, a, b, w)
  {
    hide KeySame, SameRun, OpsOf, Restrict, Once, FirstThenSecond, SecondThenFirst;
    SerialInterleaves(a, b);
    var ab, ba := FirstThenSecond(a, b), SecondThenFirst(a, b);
    forall x ensures OpsOf(w, x) == OpsOf(ab, x) == OpsOf(ba, x) { if x != First { assert x == Second; } }
    var reversed := exists m :: Clash(rt, a, b, m) && !FirstLeads(a, b, w, m);
    var serial := if reversed then ba else ab;
    forall k ensures KeySame(rt, st, w, serial, k) {
      OnceOrder(a, b, w, k);
      KeySameVia(rt, st, ab, ab, ba, k);
      if FirstLeads(a, b, w, k) {
        AgreeingOrder(rt, st, w, ab, k);
        KeySameVia(rt, st, w, ab, ba, k);
        if reversed { assert !Clash(rt, a, b, k); }
      } else {
        AgreeingOrder(rt, st, w, ba, k);
        KeySameVia(rt, st, w, ba, ab, k);
        if !reversed { assert !Clash(rt, a, b, k); }
      }
    }
    SameOnKeys(rt, st, w, serial);
  }

  // ---------------------------------------------------------------- two keys in two orders

  /** The answers to the commands on a key depend on what is held under it. */
  lemma {:induction false} AnswersSame(rt: Runtime, s: Store, t: Store, w: seq<Step>, k: string, x: Block)
    requires SameAt(s, t, k)
    ensures AnswersOf(rt, s, Restrict(w, k), x) == AnswersOf(rt, t, Restrict(w, k), x)
    decreases |w|
  {
    if w != [] {
      hide After, AnswerOf, KeysOf, OnKey, SameAt, Restrict;
      RestrictHead(w, k);
      var op := w[0].op;
      if k in KeysOf(op) {
        AfterAt(rt, s, t, op, k);
        AfterAt(rt, s, s, op, k) by { SameAsItself(s, k); }
        SameAtBack(After(rt, s, op), After(rt, s, OnKey(op, k)), k);
        SameAtVia(After(rt, s, OnKey(op, k)), After(rt, s, op), After(rt, t, OnKey(op, k)), k);
        AnswersSame(rt, After(rt, s, OnKey(op, k)), After(rt, t, OnKey(op, k)), w[1..], k, x);
      } else {
        AnswersSame(rt, s, t, w[1..], k, x);
      }
    }
  }

  lemma SameAtBack(s: Store, t: Store, k: string)
    requires SameAt(s, t, k)
    ensures SameAt(t, s, k)
  {
  }

  lemma KeySameDepends(rt: Runtime, s: Store, t: Store, v: seq<Step>, w: seq<Step>, k: string)
    requires SameAt(s, t, k) && KeySame(rt, s, v, w, k)
    ensures KeySame(rt, t, v, w, k)
  {
    hide AfterAll, AnswersOf, Restrict;
    forall x ensures AnswersOf(rt, t, Restrict(v, k), x) == AnswersOf(rt, t, Restrict(w, k), x) {
      AnswersSame(rt, s, t, v, k, x);
      AnswersSame(rt, s, t, w, k, x);
    }
    RestrictAfter(rt, s, s, v, k);
    RestrictAfter(rt, s, t, v, k);
    RestrictAfter(rt, s, s, w, k);
    RestrictAfter(rt, s, t, w, k);
  }

  /** The first store, with what the second holds under the key. */
  function Graft(s: Store, t: Store, k: string): (r: Store)
    ensures SameAt(r, t, k) && forall m :: m != k ==> SameAt(r, s, m)
  {
    Store(if k in t.strings then s.strings[k := t.strings[k]] else s.strings - {k},
          if k in t.sortedSets then s.sortedSets[k := t.sortedSets[k]] else s.sortedSets - {k})
  }

  lemma TwoSteps(rt: Runtime, st: Store, p: Step, q: Step)
    ensures AfterAll(rt, st, [p, q]) == After(rt, After(rt, st, p.op), q.op)
    ensures p.block != q.block ==>
              && AnswersOf(rt, st, [p, q], p.block) == [AnswerOf(rt, st, p.op)]
              && AnswersOf(rt, st, [p, q], q.block) == [AnswerOf(rt, After(rt, st, p.op), q.op)]
  {
    hide After, AnswerOf;
    assert [p, q][1..] == [q] && [q][1..] == [];
    assert AfterAll(rt, After(rt, st, p.op), [q]) == After(rt, After(rt, st, p.op), q.op);
    assert AnswersOf(rt, After(rt, st, p.op), [q], q.block) == [AnswerOf(rt, After(rt, st, p.op), q.op)];
    if p.block != q.block {
      assert AnswersOf(rt, After(rt, st, p.op), [q], p.block) == [];
    }
  }

  /** The command names the key and no other. */
  predicate NamesOnly(op: Op, k: string) { if op.Del? then op.keys != [] && forall x :: x in op.keys ==> x == k else op.key == k }

  lemma {:induction false} CopiesOwn(keys: seq<string>, k: string)
    requires forall x :: x in keys ==> x == k
    ensures Copies(keys, k) == keys
  {
    if keys != [] {
      assert keys[0] in keys && forall x :: x in keys[1..] ==> x in keys;
      CopiesOwn(keys[1..], k);
      CopiesHead(keys[0], keys[1..], k);
      assert keys == [keys[0]] + keys[1..];
    }
  }

  lemma OwnKeyDepends(rt: Runtime, s: Store, t: Store, op: Op, k: string)
    requires NamesOnly(op, k) && SameAt(s, t, k)
    ensures SameAt(After(rt, s, op), After(rt, t, op), k)
  {
    hide After, SameAt;
    if op.Del? {
      CopiesOwn(op.keys, k);
      assert op.keys[0] in op.keys;
    }
    assert OnKey(op, k) == op && k in KeysOf(op);
    AfterAt(rt, s, t, op, k);
  }

  /** On a key with nothing under it, two orders that leave the same there count a DEL alike. */
  lemma EmptyCounts(rt: Runtime, st: Store, del: Op, op: Op, k: string)
    requires del.Del? && NamesOnly(del, k) && NamesOnly(op, k) && !Holds(st, k)
    requires SameAt(After(rt, After(rt, st, del), op), After(rt, After(rt, st, op), del), k)
    ensures AnswerOf(rt, st, del) == AnswerOf(rt, After(rt, st, op), del)
  {
    var gone, made := After(rt, st, del), After(rt, st, op);
    NothingGoes(st, del.keys, k);
    hide After, SameAt, Deleted;
    OwnKeyDepends(rt, gone, st, op, k) by { assert gone == Deleted(st, del.keys).0; }
    SameAtBack(After(rt, gone, op), After(rt, made, del), k);
    SameAtVia(After(rt, made, del), After(rt, gone, op), made, k);
    HeldIsCounted(st, del.keys, k);
    HeldIsCounted(made, del.keys, k);
    if Holds(made, k) { DeletedShows(made, del.keys, k); }
  }

  lemma {:induction false} NothingGoes(st: Store, keys: seq<string>, k: string)
    requires (forall x :: x in keys ==> x == k) && !Holds(st, k)
    ensures SameAt(Deleted(st, keys).0, st, k)
    decreases |keys|
  {
    hide Deleted;
    DeletedHead(st, keys);
    if keys != [] {
      assert keys[0] in keys && forall x :: x in keys[1..] ==> x in keys;
      NothingGoes(DeletedOne(st, k), keys[1..], k);
    }
  }

  lemma OnKeyNames(op: Op, k: string)
    requires k in KeysOf(op)
    ensures NamesOnly(OnKey(op, k), k)
  {
  }

  lemma {:induction false} RankOfPlace(ops: seq<Op>, k: string, i: nat)
    requires i <= |ops| && forall j :: 0 <= j < i ==> k !in KeysOf(ops[j])
    ensures Rank(ops, k, i) == 0
  {
    hide KeysOf;
    if i > 0 { RankOfPlace(ops[1..], k, i - 1); }
  }

  /** The one command of a block on a key is alone among the commands of the block on that key. */
  lemma OneAnswer(rt: Runtime, st: Store, w: seq<Step>, x: Block, i: nat, k: string)
    requires i < |OpsOf(w, x)| && Once(OpsOf(w, x)) && k in KeysOf(OpsOf(w, x)[i])
    ensures AnswersOf(rt, st, Restrict(w, k), x) == [AnswerOf(rt, BeforeStep(rt, st, w, x, i), OnKey(OpsOf(w, x)[i], k))]
    ensures OpsOf(Restrict(w, k), x) == [OnKey(OpsOf(w, x)[i], k)]
  {
    hide AnswersOf, OpsOf, AnswerOf, BeforeStep, KeysOf, OnKey, Restrict, RestrictOps;
    var ops := OpsOf(w, x);
    assert forall j :: 0 <= j < i ==> k !in KeysOf(ops[j]);
    assert Place(ops, k) == i;
    RankOfPlace(ops, k, i);
    RestrictBlocks(w, k, x);
    RestrictedOnce(ops, k);
    AnswerByKey(rt, st, w, x, i, k);
    AnswerAt(rt, st, Restrict(w, k), x);
  }

  /** Two runs that leave the same under a key, and take it in one order or find nothing there, count a DEL alike on it. */
  lemma OtherCount(rt: Runtime, st: Store, a: seq<Op>, b: seq<Op>, v: seq<Step>, w: seq<Step>, x: Block, i: nat, j: string)
    requires Once(a) && Once(b) && Interleaves(a, b, v) && Interleaves(a, b, w) && i < |OpsOf(v, x)|
    requires OpsOf(v, x)[i].Del? && j in KeysOf(OpsOf(v, x)[i]) && OpsOf(v, x) == OpsOf(w, x)
    requires Restrict(v, j) == Restrict(w, j) || !Holds(st, j)
    requires SameAt(AfterAll(rt, st, v), AfterAll(rt, st, w), j)
    ensures AnswersOf(rt, st, Restrict(v, j), x) == AnswersOf(rt, st, Restrict(w, j), x)
  {
    hide AfterAll, AnswersOf, AnswerOf, After, OpsOf, BeforeStep, KeysOf, Restrict, Once, SameAt, Holds, FirstThenSecond, SecondThenFirst, RestrictOps;
    if Restrict(v, j) != Restrict(w, j) {
      var op := OpsOf(v, x)[i];
      var y := if x == First then Second else First;
      OnceOrder(a, b, v, j);
      OnceOrder(a, b, w, j);
      RestrictSerial(a, b, j);
      RestrictBlocks(v, j, First);
      RestrictBlocks(v, j, Second);
      OneAnswer(rt, st, v, x, i, j) by { assert OpsOf(v, x) == if x == First then a else b; }
      StoreByKey(rt, st, v, w, j);
      OnKeyNames(op, j);
      BothNamed(a, b, j);
      var p, q := RestrictOps(if x == First then a else b, j)[0], RestrictOps(if x == First then b else a, j)[0];
      TwoSteps(rt, st, Step(x, p), Step(y, q));
      TwoSteps(rt, st, Step(y, q), Step(x, p));
      if Restrict(v, j) == [Step(x, p), Step(y, q)] {
        EmptyCounts(rt, st, p, q, j);
      } else {
        SameAtBack(AfterAll(rt, st, Restrict(v, j)), AfterAll(rt, st, Restrict(w, j)), j);
        EmptyCounts(rt, st, p, q, j);
      }
    }
  }

  /** Where the two serial orders differ as lists of commands on a key, each block has one command on it. */
  lemma BothNamed(a: seq<Op>, b: seq<Op>, k: string)
    requires Once(a) && Once(b)
    requires FirstThenSecond(RestrictOps(a, k), RestrictOps(b, k)) != SecondThenFirst(RestrictOps(a, k), RestrictOps(b, k))
    ensures |RestrictOps(a, k)| == |RestrictOps(b, k)| == 1
    ensures NamesOnly(RestrictOps(a, k)[0], k) && NamesOnly(RestrictOps(b, k)[0], k)
    ensures FirstThenSecond(RestrictOps(a, k), RestrictOps(b, k)) == [Step(First, RestrictOps(a, k)[0]), Step(Second, RestrictOps(b, k)[0])]
    ensures SecondThenFirst(RestrictOps(a, k), RestrictOps(b, k)) == [Step(Second, RestrictOps(b, k)[0]), Step(First, RestrictOps(a, k)[0])]
  {
    hide RestrictOps, Once, OnKey, NamesOnly;
    RestrictedOnce(a, k);
    RestrictedOnce(b, k);
    MarkedShort(First, RestrictOps(a, k));
    MarkedShort(Second, RestrictOps(b, k));
    hide Marked;
    if Place(a, k) >= 0 { OnKeyNames(a[Place(a, k)], k); }
    if Place(b, k) >= 0 { OnKeyNames(b[Place(b, k)], k); }
  }

  /** The part of a DEL on one key, when its whole count and its parts on the other keys are alike. */
  lemma PartOfCount(s: Store, t: Store, keys: seq<string>, k: string)
    requires Deleted(s, keys).1 == Deleted(t, keys).1
    requires forall j :: j in keys && j != k ==> Deleted(s, Copies(keys, j)).1 == Deleted(t, Copies(keys, j)).1
    ensures Deleted(s, Copies(keys, k)).1 == Deleted(t, Copies(keys, k)).1
  {
    hide Deleted, Copies;
    var others := Others(keys, k);
    forall j | j in others ensures Deleted(s, Copies(others, j)).1 == Deleted(t, Copies(others, j)).1 { OthersAt(keys, k, j); }
    CountByKeys(s, t, others);
    CountSplits(s, keys, k);
    CountSplits(t, keys, k);
  }

  /** Runs that leave one store and answer alike agree on a key, if they take every other key in one order or find nothing there. */
  lemma KeyOfSame(rt: Runtime, st: Store, a: seq<Op>, b: seq<Op>, v: seq<Step>, w: seq<Step>, k: string)
    requires Once(a) && Once(b) && Interleaves(a, b, v) && Interleaves(a, b, w) && SameRun(rt, st, v, w)
    requires forall j :: j != k ==> Restrict(v, j) == Restrict(w, j) || !Holds(st, j)
    ensures KeySame(rt, st, v, w, k)
  {
    hide AfterAll, AnswersOf, OpsOf, Restrict, Once, SameAt, Holds;
    StoreByKey(rt, st, v, w, k);
    SameAsItself(AfterAll(rt, st, v), k);
    forall x ensures AnswersOf(rt, st, Restrict(v, k), x) == AnswersOf(rt, st, Restrict(w, k), x) {
      OpsOfEither(a, b, v, w, x);
      BlockOfSame(rt, st, a, b, v, w, k, x);
    }
  }

  lemma OpsOfEither(a: seq<Op>, b: seq<Op>, v: seq<Step>, w: seq<Step>, x: Block)
    requires Interleaves(a, b, v) && Interleaves(a, b, w)
    ensures OpsOf(v, x) == OpsOf(w, x) == if x == First then a else b
  {
    hide OpsOf;
    if x != First { assert x == Second; }
  }

  lemma BlockOfSame(rt: Runtime, st: Store, a: seq<Op>, b: seq<Op>, v: seq<Step>, w: seq<Step>, k: string, x: Block)
    requires Once(a) && Once(b) && Interleaves(a, b, v) && Interleaves(a, b, w) && SameRun(rt, st, v, w)
    requires OpsOf(v, x) == OpsOf(w, x) == if x == First then a else b
    requires forall j :: j != k ==> Restrict(v, j) == Restrict(w, j) || !Holds(st, j)
    ensures AnswersOf(rt, st, Restrict(v, k), x) == AnswersOf(rt, st, Restrict(w, k), x)
  {
    hide AfterAll, AnswersOf, AnswerOf, OpsOf, BeforeStep, Restrict, RestrictOps, Once, SameAt, Holds, KeysOf;
    var ops := OpsOf(v, x);
    var i := Place(ops, k);
    if i < 0 {
      RestrictBlocks(v, k, x);
      RestrictBlocks(w, k, x);
      RestrictedOnce(ops, k);
      AnswerAt(rt, st, Restrict(v, k), x);
      AnswerAt(rt, st, Restrict(w, k), x);
    } else {
      OneAnswer(rt, st, v, x, i, k);
      OneAnswer(rt, st, w, x, i, k);
      AnswerAt(rt, st, v, x);
      AnswerAt(rt, st, w, x);
      var s, t, op := BeforeStep(rt, st, v, x, i), BeforeStep(rt, st, w, x, i), ops[i];
      assert AnswerOf(rt, s, op) == AnswerOf(rt, t, op) by { if x != First { assert x == Second; } }
      if op.Del? {
        forall j | j in KeysOf(op) && j != k ensures AnswerOf(rt, s, OnKey(op, j)) == AnswerOf(rt, t, OnKey(op, j)) {
          OneAnswer(rt, st, v, x, i, j);
          OneAnswer(rt, st, w, x, i, j);
          SameAsItself(AfterAll(rt, st, v), j);
          OtherCount(rt, st, a, b, v, w, x, i, j);
        }
        DelPart(rt, s, t, op, k);
      }
    }
  }

  lemma DelPart(rt: Runtime, s: Store, t: Store, op: Op, k: string)
    requires op.Del? && AnswerOf(rt, s, op) == AnswerOf(rt, t, op)
    requires forall j :: j in KeysOf(op) && j != k ==> AnswerOf(rt, s, OnKey(op, j)) == AnswerOf(rt, t, OnKey(op, j))
    ensures AnswerOf(rt, s, OnKey(op, k)) == AnswerOf(rt, t, OnKey(op, k))
  {
    hide Deleted, Copies;
    forall j | j in op.keys && j != k ensures Deleted(s, Copies(op.keys, j)).1 == Deleted(t, Copies(op.keys, j)).1 {
      assert j in KeysOf(op);
      assert OnKey(op, j) == Del(Copies(op.keys, j));
    }
    PartOfCount(s, t, op.keys, k);
  }

  /** A run that takes two keys on which the orders differ in different orders is, from some store, not serial. */
  lemma TwoOrdersAreNotSerial(rt: Runtime, a: seq<Op>, b: seq<Op>, w: seq<Step>, k: string, m: string) returns (st: Store)
    requires Once(a) && Once(b) && Interleaves(a, b, w)
    requires Clash(rt, a, b, k) && Clash(rt, a, b, m) && FirstLeads(a, b, w, k) && !FirstLeads(a, b, w, m)
    ensures !Serial(rt, st, a, b, w)
  {
    hide KeySame, SameRun, OpsOf, Restrict, Once, FirstThenSecond, SecondThenFirst, SameAt;
    var ab, ba := FirstThenSecond(a, b), SecondThenFirst(a, b);
    var s :| !KeySame(rt, s, ab, ba, k);
    var t :| !KeySame(rt, t, ab, ba, m);
    st := Graft(Graft(Store(map[], map[]), s, k), t, m);
    SameAtVia(st, Graft(Store(map[], map[]), s, k), s, k);
    forall j | j != k && j != m ensures !Holds(st, j) {
      SameAtVia(st, Graft(Store(map[], map[]), s, k), Store(map[], map[]), j);
      NothingHeld(st, j);
    }
    OnceOrder(a, b, w, m);
    SerialInterleaves(a, b);
    if KeySame(rt, st, ab, ba, k) { KeySameDepends(rt, st, s, ab, ba, k); }
    if KeySame(rt, st, ab, ba, m) { KeySameDepends(rt, st, t, ab, ba, m); }
    KeySameVia(rt, st, w, ab, ba, k);
    KeySameVia(rt, st, w, ba, ab, m);
    KeySameVia(rt, st, ab, ab, ba, m);
    if SameRun(rt, st, w, ba) { KeyOfSame(rt, st, a, b, w, ba, k); }
    if SameRun(rt, st, w, ab) { KeyOfSame(rt, st, a, b, w, ab, m); }
  }

  lemma NothingHeld(st: Store, j: string)
    requires SameAt(st, Store(map[], map[]), j)
    ensures !Holds(st, j)
  {
  }

  // ---------------------------------------------------------------- the exact conditions

  /** Blocks in step take a key in the order of the turns of the two commands on it. */
  lemma {:induction false} InStepOrder(a: seq<Op>, ta: int, b: seq<Op>, tb: int, k: string)
    requires Once(a) && Once(b)
    ensures var i, j, ra, rb := Place(a, k), Place(b, k), RestrictOps(a, k), RestrictOps(b, k);
            Restrict(InStep(a, ta, b, tb), k) == if i >= 0 && j >= 0 && ta + i >= tb + j then SecondThenFirst(ra, rb) else FirstThenSecond(ra, rb)
    decreases |a| + |b|
  {
    hide Restrict, RestrictOps, KeysOf, OnKey, Marked, FirstThenSecond, SecondThenFirst;
    var w := InStep(a, ta, b, tb);
    RestrictedOnce(a, k);
    RestrictedOnce(b, k);
    OneSide(RestrictOps(a, k), RestrictOps(b, k));
    if a == [] {
      RestrictMarked(Second, b, k);
    } else if b == [] {
      RestrictMarked(First, a, k);
    } else if ta < tb {
      assert w[0] == Step(First, a[0]) && w[1..] == InStep(a[1..], ta + 1, b, tb);
      OnceTail(a);
      hide Once, InStep;
      RestrictHead(w, k);
      InStepOrder(a[1..], ta + 1, b, tb, k);
      RestrictedOnce(a[1..], k);
      if k in KeysOf(a[0]) { ConsFirst(Restrict(w, k), RestrictOps(a, k), RestrictOps(b, k)); }
    } else {
      assert w[0] == Step(Second, b[0]) && w[1..] == InStep(a, ta, b[1..], tb + 1);
      OnceTail(b);
      hide Once, InStep;
      RestrictHead(w, k);
      InStepOrder(a, ta, b[1..], tb + 1, k);
      RestrictedOnce(b[1..], k);
      if k in KeysOf(b[0]) { ConsSecond(Restrict(w, k), RestrictOps(a, k), RestrictOps(b, k)); }
    }
  }

  lemma OneSide(ra: seq<Op>, rb: seq<Op>)
    ensures ra == [] ==> FirstThenSecond(ra, rb) == Marked(Second, rb) == SecondThenFirst(ra, rb)
    ensures rb == [] ==> FirstThenSecond(ra, rb) == Marked(First, ra) == SecondThenFirst(ra, rb)
  {
  }

  lemma ConsFirst(v: seq<Step>, ra: seq<Op>, rb: seq<Op>)
    requires |ra| == 1 && v != [] && v[0] == Step(First, ra[0]) && v[1..] == FirstThenSecond([], rb)
    ensures v == FirstThenSecond(ra, rb)
  {
    assert v == [v[0]] + v[1..];
    MarkedShort(First, ra);
  }

  lemma ConsSecond(v: seq<Step>, ra: seq<Op>, rb: seq<Op>)
    requires |rb| == 1 && v != [] && v[0] == Step(Second, rb[0]) && v[1..] == FirstThenSecond(ra, [])
    ensures v == SecondThenFirst(ra, rb)
  {
    assert v == [v[0]] + v[1..];
    MarkedShort(Second, rb);
    OneSide(ra, []);
  }

  lemma MarkedShort(x: Block, ops: seq<Op>)
    requires |ops| <= 1
    ensures Marked(x, ops) == if ops == [] then [] else [Step(x, ops[0])]
  {
  }

  lemma OnceTail(ops: seq<Op>)
    requires Once(ops) && ops != []
    ensures Once(ops[1..])
    ensures forall k :: k in KeysOf(ops[0]) ==> Place(ops[1..], k) < 0
  {
    hide KeysOf;
    assert forall j :: 0 <= j < |ops[1..]| ==> ops[1..][j] == ops[j + 1];
  }

  /** The commands of the two blocks on a key that both name. */
  lemma PairOn(a: seq<Op>, b: seq<Op>, k: string)
    requires Once(a) && Once(b) && Place(a, k) >= 0 && Place(b, k) >= 0
    ensures var p, q := Step(First, OnKey(a[Place(a, k)], k)), Step(Second, OnKey(b[Place(b, k)], k));
            Restrict(FirstThenSecond(a, b), k) == [p, q] && Restrict(SecondThenFirst(a, b), k) == [q, p]
  {
    hide Restrict, RestrictOps, Once, KeysOf, OnKey;
    RestrictedOnce(a, k);
    RestrictedOnce(b, k);
    RestrictSerial(a, b, k);
    MarkedShort(First, RestrictOps(a, k));
    MarkedShort(Second, RestrictOps(b, k));
  }

  /** How much later the first block names the key than the second. */
  function Distance(a: seq<Op>, b: seq<Op>, k: string): (d: int) { Place(a, k) - Place(b, k) }

  /** A key on which the orders differ is named by both blocks, and a run shows which of them came first. */
  lemma ClashShows(rt: Runtime, a: seq<Op>, b: seq<Op>, k: string)
    requires Clash(rt, a, b, k) && Once(a) && Once(b)
    ensures Place(a, k) >= 0 && Place(b, k) >= 0
    ensures FirstThenSecond(RestrictOps(a, k), RestrictOps(b, k)) != SecondThenFirst(RestrictOps(a, k), RestrictOps(b, k))
  {
    hide KeySame, Restrict, RestrictOps, Once, OnKey;
    RestrictSerial(a, b, k);
    RestrictedOnce(a, k);
    RestrictedOnce(b, k);
    MarkedShort(First, RestrictOps(a, k));
    MarkedShort(Second, RestrictOps(b, k));
    if Restrict(FirstThenSecond(a, b), k) == Restrict(SecondThenFirst(a, b), k) {
      forall st ensures KeySame(rt, st, FirstThenSecond(a, b), SecondThenFirst(a, b), k) {
        AgreeingOrder(rt, st, FirstThenSecond(a, b), SecondThenFirst(a, b), k);
      }
    }
  }

  lemma LeadInStep(rt: Runtime, a: seq<Op>, b: seq<Op>, lead: int, k: string)
    requires Once(a) && Once(b) && Clash(rt, a, b, k)
    ensures FirstLeads(a, b, InStep(a, 0, b, lead), k) <==> Distance(a, b, k) < lead
  {
    hide Clash, InStep, Restrict, RestrictOps, Once, FirstThenSecond, SecondThenFirst;
    ClashShows(rt, a, b, k);
    InStepOrder(a, 0, b, lead, k);
    RestrictSerial(a, b, k);
  }

  /** Both blocks name all the keys on which the orders differ at one distance. */
  ghost predicate Aligned(rt: Runtime, a: seq<Op>, b: seq<Op>)
  {
    forall k, m :: Clash(rt, a, b, k) && Clash(rt, a, b, m) ==> Distance(a, b, k) == Distance(a, b, m)
  }

  /** Aligned blocks in step, DEL of several keys among them, are serial from every store whenever the second starts. */
  lemma AlignedIsSerial(rt: Runtime, st: Store, a: seq<Op>, b: seq<Op>, lead: int)
    requires Once(a) && Once(b) && Aligned(rt, a, b)
    ensures Serial(rt, st, a, b, InStep(a, 0, b, lead))
  {
    hide Clash, InStep, FirstLeads, Distance, Once, Serial;
    var w := InStep(a, 0, b, lead);
    InStepInterleaves(a, 0, b, lead);
    forall k, m | Clash(rt, a, b, k) && Clash(rt, a, b, m) ensures FirstLeads(a, b, w, k) <==> FirstLeads(a, b, w, m) {
      LeadInStep(rt, a, b, lead, k);
      LeadInStep(rt, a, b, lead, m);
    }
    OneOrderIsSerial(rt, st, a, b, w);
  }

  /**
    * Two MULTI blocks that name each key once at most and run in step end as if one had run before the other, in the
    * store and in all answers, whenever the second starts and whatever the store held, exactly when they name all keys
    * on which their commands do not commute at one distance.
    */
  lemma BlocksAreAtomic(rt: Runtime, a: seq<Op>, b: seq<Op>)
    requires Once(a) && Once(b)
    ensures (forall lead, st :: Serial(rt, st, a, b, InStep(a, 0, b, lead))) <==> Aligned(rt, a, b)
  {
    hide Serial, Clash, Distance, Once, InStep, FirstLeads;
    if Aligned(rt, a, b) {
      forall lead, st ensures Serial(rt, st, a, b, InStep(a, 0, b, lead)) { AlignedIsSerial(rt, st, a, b, lead); }
    } else {
      var k, m :| Clash(rt, a, b, k) && Clash(rt, a, b, m) && Distance(a, b, k) < Distance(a, b, m);
      var lead := Distance(a, b, m);
      LeadInStep(rt, a, b, lead, k);
      LeadInStep(rt, a, b, lead, m);
      InStepInterleaves(a, 0, b, lead);
      var st := TwoOrdersAreNotSerial(rt, a, b, InStep(a, 0, b, lead), k, m);
    }
  }

  /** Blocks that name the same keys in the same places are atomic. */
  lemma SameShapeIsAtomic(rt: Runtime, st: Store, a: seq<Op>, b: seq<Op>, lead: int)
    requires Once(a) && Once(b) && forall i, j :: 0 <= i < |a| && 0 <= j < |b| && i != j ==> KeysOf(a[i]) !! KeysOf(b[j])
    ensures Serial(rt, st, a, b, InStep(a, 0, b, lead))
  {
    hide Serial, Clash, Once, InStep, KeysOf;
    forall k, m | Clash(rt, a, b, k) && Clash(rt, a, b, m) ensures Distance(a, b, k) == Distance(a, b, m) {
      ClashShows(rt, a, b, k);
      ClashShows(rt, a, b, m);
    }
    AlignedIsSerial(rt, st, a, b, lead);
  }

  // ---------------------------------------------------------------- blocks that may stall

  /** A key goes to the first block when its command on it comes before the stall. */
  lemma StalledOrder(a: seq<Op>, b: seq<Op>, i: nat, k: string)
    requires Once(a) && Once(b) && i <= |a| && Place(a, k) >= 0
    ensures var ra, rb := RestrictOps(a, k), RestrictOps(b, k);
            Restrict(Stalled(a, b, i), k) == if Place(a, k) < i then FirstThenSecond(ra, rb) else SecondThenFirst(ra, rb)
  {
    hide Restrict, RestrictOps, Marked, Once, KeysOf, Place;
    var before, after := a[..i], a[i..];
    RestrictJoined(Marked(First, before) + Marked(Second, b), Marked(First, after), k);
    RestrictJoined(Marked(First, before), Marked(Second, b), k);
    RestrictMarked(First, before, k);
    RestrictMarked(Second, b, k);
    RestrictMarked(First, after, k);
    CutRestricted(a, i, k);
    MarkedShort(First, []);
    var ra, rb := Marked(First, RestrictOps(a, k)), Marked(Second, RestrictOps(b, k));
    assert Restrict(Stalled(a, b, i), k) == if Place(a, k) < i then ra + rb + [] else [] + rb + ra;
  }

  lemma CutRestricted(ops: seq<Op>, i: nat, k: string)
    requires Once(ops) && i <= |ops| && Place(ops, k) >= 0
    ensures RestrictOps(ops[..i], k) == if Place(ops, k) < i then RestrictOps(ops, k) else []
    ensures RestrictOps(ops[i..], k) == if Place(ops, k) < i then [] else RestrictOps(ops, k)
  {
    hide RestrictOps, KeysOf, OnKey;
    assert Once(ops[..i]) && Once(ops[i..]);
    RestrictedOnce(ops, k);
    RestrictedOnce(ops[..i], k);
    RestrictedOnce(ops[i..], k);
    PlaceCut(ops, i, k);
  }

  lemma PlaceCut(ops: seq<Op>, i: nat, k: string)
    requires Once(ops) && i <= |ops| && Place(ops, k) >= 0
    ensures if Place(ops, k) < i then Place(ops[..i], k) == Place(ops, k) && Place(ops[i..], k) < 0
            else Place(ops[..i], k) < 0 && Place(ops[i..], k) == Place(ops, k) - i
  {
    hide KeysOf;
    var p := Place(ops, k);
    var before, after := ops[..i], ops[i..];
    assert forall j :: 0 <= j < |after| ==> after[j] == ops[i + j];
    if p < i {
      assert before[p] == ops[p];
    } else {
      assert after[p - i] == ops[p];
    }
  }

  /** The first block's command `i` comes before the second's command `j`. */
  function Earlier(w: seq<Step>, i: nat, j: nat): (r: bool)
  {
    if w == [] then false
    else if w[0].block == First then i == 0 || Earlier(w[1..], i - 1, j)
    else j > 0 && Earlier(w[1..], i, j - 1)
  }

  /** An interleaving takes a key in the order of the two commands on it. */
  lemma {:induction false} OrderOfPlaces(a: seq<Op>, b: seq<Op>, w: seq<Step>, k: string)
    requires Once(a) && Once(b) && Interleaves(a, b, w) && Place(a, k) >= 0 && Place(b, k) >= 0
    ensures var ra, rb := RestrictOps(a, k), RestrictOps(b, k);
            Restrict(w, k) == if Earlier(w, Place(a, k), Place(b, k)) then FirstThenSecond(ra, rb) else SecondThenFirst(ra, rb)
    decreases |w|
  {
    NoSteps(First);
    BlockHead(w, First);
    BlockHead(w, Second);
    hide Restrict, RestrictOps, KeysOf, OnKey, OpsOf, FirstThenSecond, SecondThenFirst, Marked, Once;
    RestrictedOnce(a, k);
    RestrictedOnce(b, k);
    RestrictHead(w, k);
    if w[0].block == First {
      OnceTail(a);
      RestrictedOnce(a[1..], k);
      if k in KeysOf(a[0]) {
        OneLeft(a[1..], b, w[1..], k);
        ConsFirst(Restrict(w, k), RestrictOps(a, k), RestrictOps(b, k));
      } else {
        OrderOfPlaces(a[1..], b, w[1..], k);
      }
    } else {
      OnceTail(b);
      RestrictedOnce(b[1..], k);
      if k in KeysOf(b[0]) {
        OneLeft(a, b[1..], w[1..], k);
        ConsSecond(Restrict(w, k), RestrictOps(a, k), RestrictOps(b, k));
      } else {
        OrderOfPlaces(a, b[1..], w[1..], k);
      }
    }
  }

  /** Once one block has no command on the key, there is one order. */
  lemma OneLeft(a: seq<Op>, b: seq<Op>, w: seq<Step>, k: string)
    requires Once(a) && Once(b) && Interleaves(a, b, w) && (Place(a, k) < 0 || Place(b, k) < 0)
    ensures Restrict(w, k) == FirstThenSecond(RestrictOps(a, k), RestrictOps(b, k)) == SecondThenFirst(RestrictOps(a, k), RestrictOps(b, k))
  {
    hide Restrict, RestrictOps, OpsOf, FirstThenSecond, SecondThenFirst, Once;
    OnceOrder(a, b, w, k);
    RestrictSerial(a, b, k);
    RestrictedOnce(a, k);
    RestrictedOnce(b, k);
    OneSide(RestrictOps(a, k), RestrictOps(b, k));
  }

  /** All keys on which the orders differ are named by one command of the first block and by one of the second. */
  ghost predicate OneSpot(rt: Runtime, a: seq<Op>, b: seq<Op>)
  {
    forall k, m :: Clash(rt, a, b, k) && Clash(rt, a, b, m) ==> Place(a, k) == Place(a, m) && Place(b, k) == Place(b, m)
  }

  /**
    * When a block may stall anywhere (a GETDEL waits for its hook), every interleaving of two such blocks is serial from
    * every store exactly when one command of each names all the keys on which their commands do not commute.
    */
  lemma StallingBlocksAreAtomic(rt: Runtime, a: seq<Op>, b: seq<Op>)
    requires Once(a) && Once(b)
    ensures (forall w, st :: Interleaves(a, b, w) ==> Serial(rt, st, a, b, w)) <==> OneSpot(rt, a, b)
  {
    hide Serial, Clash, Once, Interleaves, FirstLeads, Stalled, KeysOf, InStep;
    if OneSpot(rt, a, b) {
      forall w, st | Interleaves(a, b, w) ensures Serial(rt, st, a, b, w) { OneSpotIsSerial(rt, st, a, b, w); }
    } else {
      var k, m :| Clash(rt, a, b, k) && Clash(rt, a, b, m) && !(Place(a, k) == Place(a, m) && Place(b, k) == Place(b, m));
      ClashShows(rt, a, b, k);
      ClashShows(rt, a, b, m);
      if Distance(a, b, k) != Distance(a, b, m) {
        BlocksAreAtomic(rt, a, b);
        var lead, st :| !Serial(rt, st, a, b, InStep(a, 0, b, lead));
        InStepInterleaves(a, 0, b, lead);
      } else if Place(a, k) < Place(a, m) {
        StallSplits(rt, a, b, k, m);
      } else {
        StallSplits(rt, a, b, m, k);
      }
    }
  }

  lemma OneSpotIsSerial(rt: Runtime, st: Store, a: seq<Op>, b: seq<Op>, w: seq<Step>)
    requires Once(a) && Once(b) && Interleaves(a, b, w) && OneSpot(rt, a, b)
    ensures Serial(rt, st, a, b, w)
  {
    hide Serial, Clash, Once, Interleaves, Restrict, RestrictOps, FirstThenSecond, SecondThenFirst;
    forall k, m | Clash(rt, a, b, k) && Clash(rt, a, b, m) ensures FirstLeads(a, b, w, k) <==> FirstLeads(a, b, w, m) {
      ClashShows(rt, a, b, k);
      forall j | Clash(rt, a, b, j) ensures FirstLeads(a, b, w, j) <==> Earlier(w, Place(a, k), Place(b, k)) {
        ClashShows(rt, a, b, j);
        OrderOfPlaces(a, b, w, j);
        RestrictSerial(a, b, j);
      }
    }
    OneOrderIsSerial(rt, st, a, b, w);
  }

  lemma StallSplits(rt: Runtime, a: seq<Op>, b: seq<Op>, k: string, m: string)
    requires Once(a) && Once(b)
    requires Clash(rt, a, b, k) && Clash(rt, a, b, m) && 0 <= Place(a, k) < Place(a, m)
    ensures exists w, st :: Interleaves(a, b, w) && !Serial(rt, st, a, b, w)
  {
    hide Serial, Clash, Once, Interleaves, Stalled, KeysOf, Restrict, RestrictOps, FirstThenSecond, SecondThenFirst;
    var i := Place(a, m);
    var w := Stalled(a, b, i);
    StalledInterleaves(a, b, i);
    StalledOrder(a, b, i, k);
    StalledOrder(a, b, i, m);
    RestrictSerial(a, b, k);
    RestrictSerial(a, b, m);
    ClashShows(rt, a, b, m);
    var st := TwoOrdersAreNotSerial(rt, a, b, w, k, m);
  }
}
