/**
  * Which two commands on one key commute, whatever is held there: the table that decides, from the commands alone, on
  * which keys two MULTI blocks clash.
  */
module MultiCommute {
  import opened Text
  import opened InteractionStore
  import opened MultiQueues
  import opened MultiBlocks

  /** What is held under a key. */
  datatype Held = Held(text: Option<Entry>, scores: Option<Scores>)

  function HeldAt(st: Store, k: string): (h: Held)
  {
    Held(Cell(st, k), if k in st.sortedSets then Some(st.sortedSets[k]) else None)
  }

  /**
    * A command on one key by what it does: reads (GET), takes (GETDEL), writes `cell` (SET) always, when there is nothing,
    * when there is something, or never (both NX and XX), deletes `copies` times (DEL), adds or removes a member.
    */
  datatype Kind =
    | Look(now: int)
    | Take(now: int)
    | Put(cell: Option<Entry>)
    | PutNew(cell: Option<Entry>, now: int)
    | PutOver(cell: Option<Entry>, now: int)
    | PutNever(now: int)
    | Drop(copies: nat)
    | Add(nx: bool, xx: bool, member: string, score: Option<int>)
    | Remove(member: string)

  function KindOf(rt: Runtime, op: Op): (r: Kind)
  {
    match op
    case Get(_, now) => Look(now)
    case GetDel(_, now) => Take(now)
    case Set(_, value, args, now) =>
      var upper := Upper(rt, args);
      var deadline := DeadlineOf(rt, upper);
      var cell := if deadline.Some? && deadline.value <= now then None else Some(Entry(value, deadline));
      if Word("NX") in upper then (if Word("XX") in upper then PutNever(now) else PutNew(cell, now))
      else if Word("XX") in upper then PutOver(cell, now) else Put(cell)
    case Del(keys) => Drop(|keys|)
    case Zadd(_, args) =>
      var n := FlagCount(rt, args);
      var flags := Upper(rt, args[..n]);
      Add(Word("NX") in flags, Word("XX") in flags, TextAt(rt, args, n + 1), NumberAt(rt, args, n))
    case Zrem(_, member) => Remove(member)
  }

  /** A SET with NX or XX writes nothing, or an entry that is live at its time. */
  predicate Sound(p: Kind)
  {
    (p.PutNew? || p.PutOver? ==> p.cell.Some? ==> Live(p.cell, p.now).Some?) && (p.Drop? ==> p.copies > 0)
  }

  predicate OnText(p: Kind) { p.Look? || p.Take? || p.Put? || p.PutNew? || p.PutOver? || p.PutNever? }

  // ---------------------------------------------------------------- what a command does to what is held

  function Seen(cell: Option<Entry>): (r: Answer) { if cell.Some? then Bulk(cell.value.value) else Nil }

  function TextAct(p: Kind, c: Option<Entry>): (r: (Option<Entry>, Answer))
    requires OnText(p)
  {
    match p
    case Look(now) => (Live(c, now), Seen(Live(c, now)))
    case Take(now) => (None, Seen(Live(c, now)))
    case Put(cell) => (cell, Ok)
    case PutNew(cell, now) => if Live(c, now).Some? then (c, Nil) else (cell, Ok)
    case PutOver(cell, now) => if Live(c, now).Some? then (cell, Ok) else (None, Nil)
    case PutNever(now) => (Live(c, now), Nil)
  }

  /** The scores with a change, as they are kept: a set without members goes. */
  function Kept(scores: Option<Scores>, change: Scores): (r: Option<Scores>) { if change == map[] then None else Some(change) }

  function Scored(scores: Option<Scores>): (r: Scores) { if scores.Some? then scores.value else map[] }

  function ScoreAct(p: Kind, s: Option<Scores>): (r: (Option<Scores>, Answer))
    requires p.Add? || p.Remove?
  {
    var scores := Scored(s);
    match p
    case Add(nx, xx, member, score) =>
      if (nx && member in scores) || (xx && member !in scores) then (s, Count(0))
      else (Some(scores[member := score]), Count(if member in scores then 0 else 1))
    case Remove(member) => if member !in scores then (s, Count(0)) else (Kept(s, scores - {member}), Count(1))
  }

  function DropAct(copies: nat, h: Held): (r: (Held, nat))
  {
    if copies == 0 then (h, 0)
    else if h.text.Some? then
      var rest := DropAct(copies - 1, h.(text := None));
      (rest.0, rest.1 + 1)
    else if h.scores.Some? then
      var rest := DropAct(copies - 1, h.(scores := None));
      (rest.0, rest.1 + 1)
    else (h, 0)
  }

  function Act(p: Kind, h: Held): (r: (Held, Answer))
  {
    if OnText(p) then
      var (text, answer) := TextAct(p, h.text);
      (h.(text := text), answer)
    else if p.Drop? then
      var (left, n) := DropAct(p.copies, h);
      (left, Count(n))
    else
      var (scores, answer) := ScoreAct(p, h.scores);
      (h.(scores := scores), answer)
  }

  /** A command does to what is held under its key what its kind does. */
  lemma ActTells(rt: Runtime, st: Store, op: Op, k: string)
    requires NamesOnly(op, k)
    ensures Act(KindOf(rt, op), HeldAt(st, k)) == (HeldAt(After(rt, st, op), k), AnswerOf(rt, st, op))
  {
    match op
    case Get(_, _) =>
    case GetDel(_, _) =>
    case Set(_, _, _, _) => SetTells(rt, st, op);
    case Del(keys) => DropTells(st, keys, k);
    case Zadd(_, _) => AddTells(rt, st, op);
    case Zrem(_, _) =>
  }

  lemma SetTells(rt: Runtime, st: Store, op: Op)
    requires op.Set?
    ensures Act(KindOf(rt, op), HeldAt(st, op.key)) == (HeldAt(After(rt, st, op), op.key), AnswerOf(rt, st, op))
  {
    hide SetEffect, Upper, DeadlineOf;
    SetPuts(rt, st, op.key, op.value, op.args, op.now);
  }

  lemma AddTells(rt: Runtime, st: Store, op: Op)
    requires op.Zadd?
    ensures Act(KindOf(rt, op), HeldAt(st, op.key)) == (HeldAt(After(rt, st, op), op.key), AnswerOf(rt, st, op))
  {
    hide Upper, NumberAt, TextAt;
  }

  lemma {:induction false} DropTells(st: Store, keys: seq<string>, k: string)
    requires forall x :: x in keys ==> x == k
    ensures DropAct(|keys|, HeldAt(st, k)) == (HeldAt(Deleted(st, keys).0, k), Deleted(st, keys).1)
    decreases |keys|
  {
    hide Deleted;
    DeletedHead(st, keys);
    if keys != [] {
      assert keys[0] in keys && forall x :: x in keys[1..] ==> x in keys;
      DropTells(DeletedOne(st, k), keys[1..], k);
      if !Holds(st, k) { DropNothing(|keys| - 1); }
    }
  }

  lemma DropNothing(copies: nat)
    ensures DropAct(copies, Held(None, None)) == (Held(None, None), 0)
  {
  }

  lemma KindIsSound(rt: Runtime, op: Op, k: string)
    requires NamesOnly(op, k)
    ensures Sound(KindOf(rt, op))
  {
    hide Upper, DeadlineOf, NumberAt, TextAt;
  }

  // ---------------------------------------------------------------- commuting

  /** From what is held, both orders leave the same and answer both commands alike. */
  predicate Commute(p: Kind, q: Kind, h: Held)
  {
    var (hp, ap) := Act(p, h);
    var (hq, aq) := Act(q, h);
    var (hpq, aq') := Act(q, hp);
    var (hqp, ap') := Act(p, hq);
    hpq == hqp && ap == ap' && aq == aq'
  }

  /** Two commands on a string fail to commute for some string. */
  predicate TextClash(p: Kind, q: Kind)
    requires OnText(p) && OnText(q)
  {
    match p
    case Look(n) =>
      (match q
       case Look(m) => n != m
       case PutNew(y, m) => y.Some? || n != m
       case PutNever(m) => n < m
       case _ => true)
    case Take(n) => if q.PutNever? then n < q.now else true
    case Put(x) =>
      (match q
       case Put(y) => x != y
       case PutNever(m) => Live(x, m) != x
       case _ => true)
    case PutNew(x, n) =>
      (match q
       case Look(m) => x.Some? || n != m
       case PutNew(y, m) => n != m || x.Some? || y.Some?
       case PutOver(y, m) => n != m || x.Some? || y.None?
       case PutNever(m) => n < m
       case _ => true)
    case PutOver(x, n) =>
      (match q
       case PutNew(y, m) => n != m || y.Some? || x.None?
       case PutOver(y, m) => n != m || x != y || x.None?
       case PutNever(m) => n < m
       case _ => true)
    case PutNever(n) =>
      (match q
       case Look(m) => m < n
       case Take(m) => m < n
       case Put(y) => Live(y, n) != y
       case PutNew(y, m) => m < n
       case PutOver(y, m) => m < n
       case PutNever(_) => false)
  }

  predicate ScoreClash(p: Kind, q: Kind)
    requires (p.Add? || p.Remove?) && (q.Add? || q.Remove?)
  {
    p.member == q.member &&
    if p.Add? && q.Add? then !(p.nx && p.xx) && !(q.nx && q.xx) && ((p.xx || q.xx) ==> p.score != q.score)
    else if p.Add? then !p.xx
    else if q.Add? then !q.xx
    else true
  }

  /** The table. */
  predicate KindsClash(p: Kind, q: Kind)
  {
    if OnText(p) && OnText(q) then TextClash(p, q)
    else if p.Drop? then !(q.Add? && q.xx)
    else if q.Drop? then !(p.Add? && p.xx)
    else if OnText(p) || OnText(q) then false
    else ScoreClash(p, q)
  }

  predicate TextCommute(p: Kind, q: Kind, c: Option<Entry>)
    requires OnText(p) && OnText(q)
  {
    var (cp, ap) := TextAct(p, c);
    var (cq, aq) := TextAct(q, c);
    TextAct(q, cp) == (TextAct(p, cq).0, aq) && TextAct(p, cq).1 == ap
  }

  lemma TextsCommute(p: Kind, q: Kind, c: Option<Entry>)
    requires OnText(p) && OnText(q) && Sound(p) && Sound(q) && !TextClash(p, q)
    ensures TextCommute(p, q, c)
  {
  }

  /** A text that neither command writes. */
  function Fresh(p: Kind, q: Kind): (r: string) { Written(p) + Written(q) + "x" }

  function Written(p: Kind): (r: string)
  {
    if (p.Put? || p.PutNew? || p.PutOver?) && p.cell.Some? then p.cell.value.value else ""
  }

  function Time(p: Kind): (n: int) { if p.Look? || p.Take? || p.PutNew? || p.PutOver? || p.PutNever? then p.now else 0 }

  /** Three strings tell: none, one that never expires, and one that expires at the later of the two times. */
  function Probe(p: Kind, q: Kind, n: nat): (c: Option<Entry>)
  {
    if n == 0 then None
    else Some(Entry(Fresh(p, q), if n == 1 then None else Some(if Time(p) < Time(q) then Time(q) else Time(p))))
  }

  lemma FreshDiffers(p: Kind, q: Kind)
    ensures (p.Put? || p.PutNew? || p.PutOver?) && p.cell.Some? ==> p.cell.value.value != Fresh(p, q)
    ensures (q.Put? || q.PutNew? || q.PutOver?) && q.cell.Some? ==> q.cell.value.value != Fresh(p, q)
  {
    assert |Written(p)| < |Fresh(p, q)| && |Written(q)| < |Fresh(p, q)|;
  }

  lemma TextsClash(p: Kind, q: Kind)
    requires OnText(p) && OnText(q) && Sound(p) && Sound(q) && TextClash(p, q)
    ensures !TextCommute(p, q, Probe(p, q, 0)) || !TextCommute(p, q, Probe(p, q, 1)) || !TextCommute(p, q, Probe(p, q, 2))
  {
    FreshDiffers(p, q);
    hide Fresh;
  }

  predicate ScoreCommute(p: Kind, q: Kind, s: Option<Scores>)
    requires (p.Add? || p.Remove?) && (q.Add? || q.Remove?)
  {
    var (sp, ap) := ScoreAct(p, s);
    var (sq, aq) := ScoreAct(q, s);
    ScoreAct(q, sp) == (ScoreAct(p, sq).0, aq) && ScoreAct(p, sq).1 == ap
  }

  lemma ScoresCommute(p: Kind, q: Kind, s: Option<Scores>)
    requires (p.Add? || p.Remove?) && (q.Add? || q.Remove?) && !ScoreClash(p, q)
    ensures ScoreCommute(p, q, s)
  {
    var scores, m := Scored(s), p.member;
    if m == q.member {
      if p.Add? { OneMember(scores, m, p.score, if q.Add? then q.score else None); }
      if q.Add? { OneMember(scores, m, q.score, if p.Add? then p.score else None); }
    } else {
      TwoMembers(scores, m, if p.Add? then p.score else None, q.member, if q.Add? then q.score else None);
      hide Kept;
      TwoMembersKept(p, q, s);
    }
  }

  lemma OneMember(scores: Scores, m: string, x: Option<int>, y: Option<int>)
    ensures scores[m := x] - {m} == scores - {m} && scores[m := x][m := y] == scores[m := y]
    ensures m in scores && scores - {m} == map[] ==> scores[m := x] - {m} == map[]
  {
  }

  lemma TwoMembers(scores: Scores, m: string, x: Option<int>, n: string, y: Option<int>)
    requires m != n
    ensures scores[m := x][n := y] == scores[n := y][m := x]
    ensures scores[m := x] - {n} == (scores - {n})[m := x] && scores[n := y] - {m} == (scores - {m})[n := y]
    ensures scores - {m} - {n} == scores - {n} - {m}
  {
  }

  lemma TwoMembersKept(p: Kind, q: Kind, s: Option<Scores>)
    requires (p.Add? || p.Remove?) && (q.Add? || q.Remove?) && p.member != q.member
    ensures ScoreCommute(p, q, s)
  {
    var scores := Scored(s);
    TwoMembers(scores, p.member, if p.Add? then p.score else None, q.member, if q.Add? then q.score else None);
    EmptySet(scores, p.member, q.member);
    EmptySet(scores, q.member, p.member);
  }

  /** A set that loses its last member is like the empty one. */
  lemma EmptySet(scores: Scores, m: string, n: string)
    requires m != n
    ensures n in scores ==> n in scores - {m} && scores - {m} != map[]
    ensures forall x: Option<int> :: scores - {m} == map[] ==> scores[n := x] - {m} == map[n := x]
  {
    forall x: Option<int> | scores - {m} == map[] ensures scores[n := x] - {m} == map[n := x] {
      assert forall j :: j in scores ==> j == m by { assert forall j :: j in scores && j != m ==> j in scores - {m}; }
    }
  }

  /** Two score sets tell: the empty one, and the one with the member and a score that neither command gives it. */
  lemma ScoresClash(p: Kind, q: Kind) returns (s: Option<Scores>)
    requires (p.Add? || p.Remove?) && (q.Add? || q.Remove?) && ScoreClash(p, q)
    ensures !ScoreCommute(p, q, s)
  {
    var m := p.member;
    if (p.Add? && !p.xx) || (q.Add? && !q.xx) {
      s := None;
      assert p.Add? && q.Add? ==> map[m := p.score][m := q.score][m] == q.score && map[m := q.score][m := p.score][m] == p.score;
    } else {
      s := Some(map[m := None]);
      assert s.value - {m} == map[];
      assert p.Add? && q.Add? ==> s.value[m := p.score][m := q.score][m] == q.score && s.value[m := q.score][m := p.score][m] == p.score;
    }
  }

  // ---------------------------------------------------------------- deleting

  lemma DropForm(copies: nat, h: Held)
    requires copies > 0
    ensures DropAct(copies, h) ==
            if h.text.None? then (Held(None, None), if h.scores.Some? then 1 else 0)
            else if copies == 1 then (h.(text := None), 1)
            else (Held(None, None), if h.scores.Some? then 2 else 1)
  {
    DropNothing(copies - 1);
    if copies > 1 {
      DropNothing(copies - 2);
      assert DropAct(copies - 1, Held(None, h.scores)) == (Held(None, None), if h.scores.Some? then 1 else 0);
    }
  }

  lemma DropsCommute(p: Kind, q: Kind, h: Held)
    requires p.Drop? && p.copies > 0 && q.Add? && q.xx
    ensures Commute(p, q, h) && Commute(q, p, h)
  {
    var after := h.(scores := ScoreAct(q, h.scores).0);
    DropForm(p.copies, h);
    DropForm(p.copies, after);
    hide DropAct;
  }

  /** A held value that tells DEL from any command it does not commute with. */
  lemma DropsClash(p: Kind, q: Kind) returns (h: Held)
    requires p.Drop? && p.copies > 0 && Sound(q) && !(q.Add? && q.xx)
    ensures !Commute(p, q, h) && !Commute(q, p, h)
  {
    if q.Add? || ((q.Put? || q.PutNew?) && q.cell.Some?) {
      h := Held(None, None);
    } else if q.Remove? {
      h := Held(None, Some(map[q.member := None]));
    } else {
      h := Held(Some(Entry("x", if q.PutNever? then Some(q.now) else None)), None);
    }
    DropForm(p.copies, h);
    DropForm(p.copies, Act(q, h).0);
    if q.Drop? {
      DropForm(q.copies, h);
      DropNothing(q.copies);
      DropNothing(p.copies);
    }
    hide DropAct;
  }

  // ---------------------------------------------------------------- the table

  /** Two commands on one key commute whatever is held there exactly when the table says so. */
  lemma CommuteTable(p: Kind, q: Kind)
    requires Sound(p) && Sound(q)
    ensures (forall h :: Commute(p, q, h)) <==> !KindsClash(p, q)
  {
    if !KindsClash(p, q) {
      forall h ensures Commute(p, q, h) { KindsCommute(p, q, h); }
    } else {
      var h := KindsTell(p, q);
    }
  }

  lemma KindsCommute(p: Kind, q: Kind, h: Held)
    requires Sound(p) && Sound(q) && !KindsClash(p, q)
    ensures Commute(p, q, h)
  {
    hide TextAct, ScoreAct, DropAct, TextClash, ScoreClash, Sound;
    if OnText(p) && OnText(q) {
      TextsCommute(p, q, h.text);
    } else if p.Drop? {
      DropsCommute(p, q, h) by { SoundDrop(p); }
    } else if q.Drop? {
      DropsCommute(q, p, h) by { SoundDrop(q); }
    } else if !OnText(p) && !OnText(q) {
      ScoresCommute(p, q, h.scores);
    }
  }

  lemma SoundDrop(p: Kind)
    requires Sound(p) && p.Drop?
    ensures p.copies > 0
  {
  }

  lemma KindsTell(p: Kind, q: Kind) returns (h: Held)
    requires Sound(p) && Sound(q) && KindsClash(p, q)
    ensures !Commute(p, q, h)
  {
    hide TextAct, ScoreAct, DropAct, TextClash, ScoreClash, Sound, Probe;
    if OnText(p) && OnText(q) {
      TextsClash(p, q);
      h := Held(if !TextCommute(p, q, Probe(p, q, 0)) then Probe(p, q, 0) else if !TextCommute(p, q, Probe(p, q, 1)) then Probe(p, q, 1) else Probe(p, q, 2), None);
    } else if p.Drop? {
      SoundDrop(p);
      h := DropsClash(p, q);
    } else if q.Drop? {
      SoundDrop(q);
      h := DropsClash(q, p);
    } else {
      var s := ScoresClash(p, q);
      h := Held(None, s);
    }
  }

  function StoreWith(k: string, h: Held): (st: Store)
    ensures HeldAt(st, k) == h
  {
    Store(if h.text.Some? then map[k := h.text.value] else map[], if h.scores.Some? then map[k := h.scores.value] else map[])
  }

  lemma SameHeld(s: Store, t: Store, k: string)
    ensures SameAt(s, t, k) <==> HeldAt(s, k) == HeldAt(t, k)
  {
  }

  /** The kinds of the commands the two blocks have on a key. */
  function KindOn(rt: Runtime, ops: seq<Op>, k: string): (p: Kind)
    requires Place(ops, k) >= 0
  {
    KindOf(rt, OnKey(ops[Place(ops, k)], k))
  }

  lemma OrdersCommute(rt: Runtime, st: Store, a: seq<Op>, b: seq<Op>, k: string)
    requires Once(a) && Once(b) && Place(a, k) >= 0 && Place(b, k) >= 0
    ensures KeySame(rt, st, FirstThenSecond(a, b), SecondThenFirst(a, b), k) <==> Commute(KindOn(rt, a, k), KindOn(rt, b, k), HeldAt(st, k))
  {
    var p, q := OnKey(a[Place(a, k)], k), OnKey(b[Place(b, k)], k);
    OnKeyNames(a[Place(a, k)], k);
    OnKeyNames(b[Place(b, k)], k);
    hide After, AnswerOf, AfterAll, AnswersOf, Restrict, Act, SameAt, HeldAt, Once, Place, OnKey, KindOf;
    PairOn(a, b, k);
    TwoSteps(rt, st, Step(First, p), Step(Second, q));
    TwoSteps(rt, st, Step(Second, q), Step(First, p));
    ActTells(rt, st, p, k);
    ActTells(rt, st, q, k);
    ActTells(rt, After(rt, st, p), q, k);
    ActTells(rt, After(rt, st, q), p, k);
    SameHeld(After(rt, After(rt, st, p), q), After(rt, After(rt, st, q), p), k);
    BothBlocks(rt, st, [Step(First, p), Step(Second, q)], [Step(Second, q), Step(First, p)]);
  }

  lemma BothBlocks(rt: Runtime, st: Store, v: seq<Step>, w: seq<Step>)
    ensures (forall x :: AnswersOf(rt, st, v, x) == AnswersOf(rt, st, w, x)) <==>
            AnswersOf(rt, st, v, First) == AnswersOf(rt, st, w, First) && AnswersOf(rt, st, v, Second) == AnswersOf(rt, st, w, Second)
  {
    hide AnswersOf;
    if AnswersOf(rt, st, v, First) == AnswersOf(rt, st, w, First) && AnswersOf(rt, st, v, Second) == AnswersOf(rt, st, w, Second) {
      forall x ensures AnswersOf(rt, st, v, x) == AnswersOf(rt, st, w, x) { if x != First { assert x == Second; } }
    }
  }

  /** Two blocks that name each key once at most clash on a key exactly when both name it and the table says so of their commands on it. */
  lemma ClashTable(rt: Runtime, a: seq<Op>, b: seq<Op>, k: string)
    requires Once(a) && Once(b)
    ensures Clash(rt, a, b, k) <==> Place(a, k) >= 0 && Place(b, k) >= 0 && KindsClash(KindOn(rt, a, k), KindOn(rt, b, k))
  {
    hide KeySame, Once, Place, FirstThenSecond, SecondThenFirst, KindsClash, Commute, HeldAt, OnKey, KindOf, Sound, KeysOf;
    if Place(a, k) >= 0 && Place(b, k) >= 0 {
      var p, q := KindOn(rt, a, k), KindOn(rt, b, k);
      forall st ensures KeySame(rt, st, FirstThenSecond(a, b), SecondThenFirst(a, b), k) <==> Commute(p, q, HeldAt(st, k)) {
        OrdersCommute(rt, st, a, b, k);
      }
      KindsAreSound(rt, a, k);
      KindsAreSound(rt, b, k);
      CommuteTable(p, q);
      if h :| !Commute(p, q, h) {
        assert HeldAt(StoreWith(k, h), k) == h;
      }
    } else if Clash(rt, a, b, k) {
      ClashShows(rt, a, b, k);
    }
  }

  lemma KindsAreSound(rt: Runtime, ops: seq<Op>, k: string)
    requires Place(ops, k) >= 0
    ensures Sound(KindOn(rt, ops, k))
  {
    hide OnKey, Sound, KindOf;
    OnKeyNames(ops[Place(ops, k)], k);
    KindIsSound(rt, OnKey(ops[Place(ops, k)], k), k);
  }

  /** Both blocks name the key with commands that the table says do not commute. */
  predicate Contend(rt: Runtime, a: seq<Op>, b: seq<Op>, k: string)
  {
    Place(a, k) >= 0 && Place(b, k) >= 0 && KindsClash(KindOn(rt, a, k), KindOn(rt, b, k))
  }

  /** The exact conditions for two blocks, in step and with stalls, read off their commands. */
  lemma AtomicByTable(rt: Runtime, a: seq<Op>, b: seq<Op>)
    requires Once(a) && Once(b)
    ensures (forall lead, st :: Serial(rt, st, a, b, InStep(a, 0, b, lead))) <==>
            forall k, m :: Contend(rt, a, b, k) && Contend(rt, a, b, m) ==> Distance(a, b, k) == Distance(a, b, m)
    ensures (forall w, st :: Interleaves(a, b, w) ==> Serial(rt, st, a, b, w)) <==>
            forall k, m :: Contend(rt, a, b, k) && Contend(rt, a, b, m) ==> Place(a, k) == Place(a, m) && Place(b, k) == Place(b, m)
  {
    hide Serial, Interleaves, InStep, Once, Clash, Contend, Place, Distance;
    forall k ensures Clash(rt, a, b, k) <==> Contend(rt, a, b, k) { ContendMeans(rt, a, b, k); }
    BlocksAreAtomic(rt, a, b);
    StallingBlocksAreAtomic(rt, a, b);
  }

  lemma ContendMeans(rt: Runtime, a: seq<Op>, b: seq<Op>, k: string)
    requires Once(a) && Once(b)
    ensures Clash(rt, a, b, k) <==> Contend(rt, a, b, k)
  {
    hide Clash, Once, Place, KindsClash;
    ClashTable(rt, a, b, k);
  }
}
