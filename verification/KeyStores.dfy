/** The expiring key store of the ID-JAG tests: `get` and `set key value [EX seconds] [NX]` on a manual clock. */
module ExpiringStore {
  import opened Text

  /** An argument of `set`: a word, a whole number, or a number that is not whole. */
  datatype Arg = Word(s: string) | Whole(n: int) | Fraction

  datatype Entry = Entry(value: string, expiresAt: Option<int>)

  datatype Store = Store(entries: map<string, Entry>, nowMs: int)

  datatype Options = Options(seconds: Option<int>, onlyIfAbsent: bool)

  /** The options read, or the error thrown. */
  datatype Parsed = Read(options: Options) | InvalidExpire | UnsupportedOption

  datatype SetResult = Stored | Kept | Error

  function ParseFrom(options: seq<Arg>, so: Options): (r: Parsed)
    ensures r.Read? && r.options.seconds.Some? && (so.seconds.None? || so.seconds.value > 0) ==> r.options.seconds.value > 0
    decreases |options|
  {
    if options == [] then Read(so)
    else if options[0] == Word("EX") then
      if |options| < 2 || !options[1].Whole? || options[1].n <= 0 then InvalidExpire
      else ParseFrom(options[2..], so.(seconds := Some(options[1].n)))
    else if options[0] == Word("NX") then ParseFrom(options[1..], so.(onlyIfAbsent := true))
    else UnsupportedOption
  }

  function Parse(options: seq<Arg>): (r: Parsed) { ParseFrom(options, Options(None, false)) }

  predicate Expired(st: Store, key: string)
  {
    key in st.entries && st.entries[key].expiresAt.Some? && st.entries[key].expiresAt.value <= st.nowMs
  }

  /** `live`: an expired entry is dropped when it is looked at. */
  function Swept(st: Store, key: string): (r: Store)
  {
    if Expired(st, key) then st.(entries := st.entries - {key}) else st
  }

  function Value(st: Store, key: string): (r: Option<string>)
  {
    if key in Swept(st, key).entries then Some(st.entries[key].value) else None
  }

  function SetEffect(st: Store, key: string, value: string, options: seq<Arg>): (r: (Store, SetResult))
  {
    match Parse(options)
    case InvalidExpire => (st, Error)
    case UnsupportedOption => (st, Error)
    case Read(o) =>
      var looked := if o.onlyIfAbsent then Swept(st, key) else st;
      if o.onlyIfAbsent && Value(st, key).Some? then (looked, Kept)
      else
        var expiresAt := if o.seconds.Some? then Some(st.nowMs + o.seconds.value * 1000) else None;
        (looked.(entries := looked.entries[key := Entry(value, expiresAt)]), Stored)
  }

  class ExpiringRedis {
    var entries: map<string, Entry>
    var nowMs: int

    ghost function View(): (st: Store)
      reads this
    {
      Store(entries, nowMs)
    }

    constructor ()
      ensures View() == Store(map[], 0)
    {
      entries, nowMs := map[], 0;
    }

    method Live(key: string) returns (r: Option<Entry>)
      modifies this`entries
      ensures View() == Swept(old(View()), key)
      ensures r == if key in entries then Some(entries[key]) else None
    {
      if key in entries && entries[key].expiresAt.Some? && entries[key].expiresAt.value <= nowMs {
        entries := entries - {key};
        return None;
      }
      r := if key in entries then Some(entries[key]) else None;
    }

    method Get(key: string) returns (r: Option<string>)
      modifies this`entries
      ensures View() == Swept(old(View()), key) == After(old(View()), Op.Get(key))
      ensures r == Value(old(View()), key)
    {
      var entry := Live(key);
      r := if entry.Some? then Some(entry.value.value) else None;
    }

    method Set(key: string, value: string, options: seq<Arg>) returns (r: SetResult)
      modifies this`entries
      ensures (View(), r) == SetEffect(old(View()), key, value, options) && View() == After(old(View()), Op.Set(key, value, options))
    {
      var expiresAt: Option<int>, onlyIfAbsent, failed := None, false, false;
      ghost var seconds: Option<int> := None;
      var i := 0;
      while i < |options|
        invariant 0 <= i <= |options|
        invariant View() == old(View())
        invariant expiresAt == if seconds.Some? then Some(nowMs + seconds.value * 1000) else None
        invariant Parse(options) == ParseFrom(options[i..], Options(seconds, onlyIfAbsent))
      {
        assert options[i..][0] == options[i] && options[i..][1..] == options[i + 1..];
        if options[i] == Word("EX") {
          if i + 1 >= |options| || !options[i + 1].Whole? || options[i + 1].n <= 0 { return Error; }
          assert options[i..][1] == options[i + 1] && options[i..][2..] == options[i + 2..];
          expiresAt := Some(nowMs + options[i + 1].n * 1000);
          seconds := Some(options[i + 1].n);
          i := i + 1;
        } else if options[i] == Word("NX") {
          onlyIfAbsent := true;
        } else {
          return Error;
        }
        i := i + 1;
      }
      if onlyIfAbsent {
        var entry := Live(key);
        if entry.Some? { return Kept; }
      }
      entries := entries[key := Entry(value, expiresAt)];
      r := Stored;
    }

    method Advance(seconds: nat)
      modifies this`nowMs
      ensures View() == old(View()).(nowMs := old(nowMs) + seconds * 1000) == After(old(View()), Op.Advance(seconds))
    {
      nowMs := nowMs + seconds * 1000;
    }
  }

  // ---------------------------------------------------------------- runs

  datatype Op = Get(key: string) | Set(key: string, value: string, options: seq<Arg>) | Advance(seconds: nat)

  function After(st: Store, op: Op): (r: Store)
  {
    match op
    case Get(key) => Swept(st, key)
    case Set(key, value, options) => SetEffect(st, key, value, options).0
    case Advance(seconds) => st.(nowMs := st.nowMs + seconds * 1000)
  }

  ghost predicate Run(states: seq<Store>, ops: seq<Op>)
  {
    |states| == |ops| + 1 && forall i :: 0 <= i < |ops| ==> states[i + 1] == After(states[i], ops[i])
  }

  /** The operation is a `SET` of the key that stored its value, only if absent or not. */
  predicate Stores(st: Store, op: Op, key: string, onlyIfAbsent: bool)
  {
    && op.Set? && op.key == key && SetEffect(st, key, op.value, op.options).1 == Stored
    && Parse(op.options).Read? && Parse(op.options).options.onlyIfAbsent == onlyIfAbsent
  }

  /** The key is held until `deadline` at least, or that time has come. */
  predicate HeldUntil(st: Store, key: string, deadline: int)
  {
    st.nowMs >= deadline || (key in st.entries && (st.entries[key].expiresAt.None? || st.entries[key].expiresAt.value >= deadline))
  }

  lemma HeldStep(st: Store, op: Op, key: string, deadline: int)
    requires HeldUntil(st, key, deadline) && !Stores(st, op, key, false)
    ensures HeldUntil(After(st, op), key, deadline) && After(st, op).nowMs >= st.nowMs
    ensures Stores(st, op, key, true) ==> st.nowMs >= deadline
  {
    hide ParseFrom;
  }

  lemma {:induction false} HeldAlong(states: seq<Store>, ops: seq<Op>, key: string, deadline: int, first: nat, last: nat)
    requires Run(states, ops) && first <= last <= |ops| && HeldUntil(states[first], key, deadline)
    requires forall m :: first <= m < last ==> !Stores(states[m], ops[m], key, false)
    ensures HeldUntil(states[last], key, deadline)
    decreases last
  {
    hide HeldUntil, Stores, After;
    if first < last {
      HeldAlong(states, ops, key, deadline, first, last - 1);
      HeldStep(states[last - 1], ops[last - 1], key, deadline);
      assert states[last - 1 + 1] == After(states[last - 1], ops[last - 1]);
    }
  }

  /**
    * Over every run, two stores of one key by `SET ... EX s NX` with no plain store of it between them are at least
    * `s` seconds apart.
    */
  lemma LocksDoNotOverlap(states: seq<Store>, ops: seq<Op>, key: string, i: nat, j: nat, seconds: int)
    requires Run(states, ops) && i < j < |ops|
    requires Stores(states[i], ops[i], key, true) && Stores(states[j], ops[j], key, true)
    requires Parse(ops[i].options).options.seconds == Some(seconds)
    requires forall m :: i < m < j ==> !Stores(states[m], ops[m], key, false)
    ensures states[j].nowMs - states[i].nowMs >= seconds * 1000 > 0
  {
    hide ParseFrom, HeldUntil, After;
    var deadline := states[i].nowMs + seconds * 1000;
    assert states[i + 1] == After(states[i], ops[i]);
    StoreHolds(states[i], ops[i], key, deadline, seconds);
    HeldAlong(states, ops, key, deadline, i + 1, j);
    HeldStep(states[j], ops[j], key, deadline);
  }

  lemma StoreHolds(st: Store, op: Op, key: string, deadline: int, seconds: int)
    requires Stores(st, op, key, true) && Parse(op.options).options.seconds == Some(seconds)
    requires deadline == st.nowMs + seconds * 1000
    ensures HeldUntil(After(st, op), key, deadline) && seconds > 0
  {
    hide ParseFrom;
  }

  /** The key holds that entry, or the entry has expired and is gone. */
  predicate HoldsEntry(st: Store, key: string, entry: Entry)
  {
    if key in st.entries then st.entries[key] == entry else entry.expiresAt.Some? && entry.expiresAt.value <= st.nowMs
  }

  lemma HoldsStep(st: Store, op: Op, key: string, entry: Entry)
    requires HoldsEntry(st, key, entry) && !Stores(st, op, key, false) && !Stores(st, op, key, true)
    ensures HoldsEntry(After(st, op), key, entry)
  {
    hide ParseFrom;
  }

  lemma {:induction false} HoldsAlong(states: seq<Store>, ops: seq<Op>, key: string, entry: Entry, first: nat, last: nat)
    requires Run(states, ops) && first <= last <= |ops| && HoldsEntry(states[first], key, entry)
    requires forall m :: first <= m < last ==> !Stores(states[m], ops[m], key, false) && !Stores(states[m], ops[m], key, true)
    ensures HoldsEntry(states[last], key, entry)
    decreases last
  {
    hide HoldsEntry, Stores, After;
    if first < last {
      HoldsAlong(states, ops, key, entry, first, last - 1);
      HoldsStep(states[last - 1], ops[last - 1], key, entry);
      assert states[last - 1 + 1] == After(states[last - 1], ops[last - 1]);
    }
  }

  /**
    * A key stored with `EX s`, and not since, has its value for exactly `s` seconds; then it is free again, and `NX`
    * stores. Stored without `EX` it has its value for good.
    */
  lemma FreeAgain(states: seq<Store>, ops: seq<Op>, key: string, i: nat, j: nat, onlyIfAbsent: bool, value: string, options: seq<Arg>)
    requires Run(states, ops) && i < j <= |ops| && Stores(states[i], ops[i], key, onlyIfAbsent)
    requires forall m :: i < m < j ==> !Stores(states[m], ops[m], key, false) && !Stores(states[m], ops[m], key, true)
    ensures var seconds := Parse(ops[i].options).options.seconds;
            var held := seconds == None || states[j].nowMs < states[i].nowMs + 1000 * seconds.value;
            && Value(states[j], key) == (if held then Some(ops[i].value) else None)
            && (Parse(options) == Read(Options(None, true)) ==>
                  SetEffect(states[j], key, value, options).1 == if held then Kept else Stored)
  {
    hide ParseFrom;
    var seconds := Parse(ops[i].options).options.seconds;
    var entry := Entry(ops[i].value, if seconds.Some? then Some(states[i].nowMs + seconds.value * 1000) else None);
    StoresEntry(states[i], ops[i], key, onlyIfAbsent);
    assert states[i + 1] == After(states[i], ops[i]);
    HoldsAlong(states, ops, key, entry, i + 1, j);
    hide After, Stores;
  }

  lemma StoresEntry(st: Store, op: Op, key: string, onlyIfAbsent: bool)
    requires Stores(st, op, key, onlyIfAbsent)
    ensures var seconds := Parse(op.options).options.seconds;
            HoldsEntry(After(st, op), key, Entry(op.value, if seconds.Some? then Some(st.nowMs + seconds.value * 1000) else None))
  {
    hide ParseFrom;
  }

  /** The options in their usual forms. */
  lemma OptionsRead(seconds: int)
    ensures Parse([]) == Read(Options(None, false)) && Parse([Word("NX")]) == Read(Options(None, true))
    ensures Parse([Word("EX"), Whole(seconds), Word("NX")]) == if seconds > 0 then Read(Options(Some(seconds), true)) else InvalidExpire
    ensures Parse([Word("EX"), Whole(seconds)]) == if seconds > 0 then Read(Options(Some(seconds), false)) else InvalidExpire
  {
    EndsRead(Options(None, false));
    EndsRead(Options(Some(seconds), false));
    var both := [Word("EX"), Whole(seconds), Word("NX")];
    var one := [Word("EX"), Whole(seconds)];
    assert both[2..] == [Word("NX")] && one[2..] == [];
    assert both[0] == Word("EX") && both[1] == Whole(seconds) && one[0] == Word("EX") && one[1] == Whole(seconds);
  }

  lemma EndsRead(o: Options)
    ensures ParseFrom([], o) == Read(o) && ParseFrom([Word("NX")], o) == Read(o.(onlyIfAbsent := true))
  {
    assert [Word("NX")][1..] == [] && "EX"[0] != "NX"[0];
  }
}

/**
  * The key store of the interaction tests: strings with an absolute deadline, and sorted sets. Every command does its work in one step
  * after an await, so a run is any sequence of those steps: other clients' commands, those of a hook before a GETDEL
  * and those of a MULTI queue may come between any two.
  */
module InteractionStore {
  import opened Text

  datatype Arg = Word(s: string) | Number(n: int)

  /** The runtime calls left open: upper case, `Number` of a text (None for NaN) and `String` of a number. */
  datatype Runtime = Runtime(upper: string -> string, number: string -> Option<int>, text: int -> string)

  /** A deadline of None never passes: no PXAT was given, or its argument was no number. */
  datatype Entry = Entry(value: string, deadline: Option<int>)

  /** The members of a sorted set with their scores. */
  type Scores = map<string, Option<int>>

  datatype Store = Store(strings: map<string, Entry>, sortedSets: map<string, Scores>)

  function Upper(rt: Runtime, args: seq<Arg>): (r: seq<Arg>)
    ensures |r| == |args|
  {
    if args == [] then [] else [if args[0].Word? then Word(rt.upper(args[0].s)) else args[0]] + Upper(rt, args[1..])
  }

  function IndexOfArg(args: seq<Arg>, a: Arg): (r: int)
    ensures -1 <= r < |args|
  {
    if args == [] then -1
    else if args[0] == a then 0
    else
      var k := IndexOfArg(args[1..], a);
      if k == -1 then -1 else k + 1
  }

  /** `Number(upper[at + 1])` */
  function NumberAt(rt: Runtime, args: seq<Arg>, i: nat): (r: Option<int>)
  {
    if i >= |args| then None
    else if args[i].Number? then Some(args[i].n)
    else rt.number(args[i].s)
  }

  function DeadlineOf(rt: Runtime, upper: seq<Arg>): (r: Option<int>)
  {
    var at := IndexOfArg(upper, Word("PXAT"));
    if at == -1 then None else NumberAt(rt, upper, at + 1)
  }

  predicate Expired(st: Store, key: string, now: int)
  {
    key in st.strings && st.strings[key].deadline.Some? && st.strings[key].deadline.value <= now
  }

  function Swept(st: Store, key: string, now: int): (r: Store)
  {
    if Expired(st, key, now) then st.(strings := st.strings - {key}) else st
  }

  function Value(st: Store, key: string, now: int): (r: Option<string>)
  {
    if key in Swept(st, key, now).strings then Some(st.strings[key].value) else None
  }

  datatype SetResult = Stored | Discarded | Null

  /** `SET`: NX and XX look at the key first; a deadline already past removes the key and answers OK. */
  function SetEffect(rt: Runtime, st: Store, key: string, value: string, args: seq<Arg>, now: int): (r: (Store, SetResult))
  {
    var upper := Upper(rt, args);
    var nx, xx := Word("NX") in upper, Word("XX") in upper;
    var looked := if nx || xx then Swept(st, key, now) else st;
    var held := Value(st, key, now).Some?;
    if nx && held then (looked, Null)
    else if xx && !held then (looked, Null)
    else
      var deadline := DeadlineOf(rt, upper);
      if deadline.Some? && deadline.value <= now then (looked.(strings := looked.strings - {key}), Discarded)
      else (looked.(strings := looked.strings[key := Entry(value, deadline)]), Stored)
  }

  /** `DEL`: a key that is both a string and a sorted set loses its string only. */
  function Deleted(st: Store, keys: seq<string>): (r: (Store, nat))
    decreases |keys|
  {
    if keys == [] then (st, 0)
    else if keys[0] in st.strings then
      var (rest, n) := Deleted(st.(strings := st.strings - {keys[0]}), keys[1..]);
      (rest, n + 1)
    else if keys[0] in st.sortedSets then
      var (rest, n) := Deleted(st.(sortedSets := st.sortedSets - {keys[0]}), keys[1..]);
      (rest, n + 1)
    else Deleted(st, keys[1..])
  }

  predicate IsFlag(rt: Runtime, a: Arg) { a.Word? && rt.upper(a.s) in ["NX", "XX"] }

  /** How many of the leading arguments of ZADD are flags. */
  function FlagCount(rt: Runtime, args: seq<Arg>): (n: nat)
    ensures n <= |args| && (n < |args| ==> !IsFlag(rt, args[n]))
  {
    if args == [] || !IsFlag(rt, args[0]) then 0 else 1 + FlagCount(rt, args[1..])
  }

  /** `String(args[i])` */
  function TextAt(rt: Runtime, args: seq<Arg>, i: nat): (r: string)
  {
    if i >= |args| then "undefined" else if args[i].Number? then rt.text(args[i].n) else args[i].s
  }

  function ScoresOf(st: Store, key: string): (r: Scores) { if key in st.sortedSets then st.sortedSets[key] else map[] }

  /** `ZADD`: NX refuses a member that is there, XX one that is not; the answer counts a new member. */
  function ZaddEffect(rt: Runtime, st: Store, key: string, args: seq<Arg>): (r: (Store, nat))
  {
    var n := FlagCount(rt, args);
    var flags := Upper(rt, args[..n]);
    var score, member := NumberAt(rt, args, n), TextAt(rt, args, n + 1);
    var scores := ScoresOf(st, key);
    if (Word("NX") in flags && member in scores) || (Word("XX") in flags && member !in scores) then (st, 0)
    else (st.(sortedSets := st.sortedSets[key := scores[member := score]]), if member in scores then 0 else 1)
  }

  /** `ZREM`: a set that loses its last member goes. */
  function ZremEffect(st: Store, key: string, member: string): (r: (Store, nat))
  {
    var scores := ScoresOf(st, key);
    if member !in scores then (st, 0)
    else if scores - {member} == map[] then (st.(sortedSets := st.sortedSets - {key}), 1)
    else (st.(sortedSets := st.sortedSets[key := scores - {member}]), 1)
  }

  class InteractionRedis {
    const rt: Runtime
    var strings: map<string, Entry>
    var sortedSets: map<string, Scores>

    ghost function View(): (st: Store)
      reads this
    {
      Store(strings, sortedSets)
    }

    constructor (runtime: Runtime)
      ensures rt == runtime && View() == Store(map[], map[])
    {
      rt, strings, sortedSets := runtime, map[], map[];
    }

    method Live(key: string, now: int) returns (r: Option<string>)
      modifies this`strings
      ensures View() == Swept(old(View()), key, now) && r == Value(old(View()), key, now)
      ensures View() == After(rt, old(View()), Op.Get(key, now)) && AnswerOf(rt, old(View()), Op.Get(key, now)) == (if r.Some? then Bulk(r.value) else Nil)
    {
      if key !in strings { return None; }
      if strings[key].deadline.Some? && strings[key].deadline.value <= now {
        strings := strings - {key};
        return None;
      }
      r := Some(strings[key].value);
    }

    method GetDel(key: string, now: int) returns (r: Option<string>)
      modifies this`strings
      ensures r == Value(old(View()), key, now)
      ensures View() == old(View()).(strings := old(strings) - {key}) == After(rt, old(View()), Op.GetDel(key, now))
      ensures AnswerOf(rt, old(View()), Op.GetDel(key, now)) == if r.Some? then Bulk(r.value) else Nil
    {
      r := Live(key, now);
      strings := strings - {key};
    }

    method Set(key: string, value: string, args: seq<Arg>, now: int) returns (r: SetResult)
      modifies this`strings
      ensures (View(), r) == SetEffect(rt, old(View()), key, value, args, now)
      ensures View() == After(rt, old(View()), Op.Set(key, value, args, now))
      ensures (if r.Null? then Nil else Ok) == AnswerOf(rt, old(View()), Op.Set(key, value, args, now))
    {
      var upper := Upper(rt, args);
      if Word("NX") in upper {
        var held := Live(key, now);
        if held.Some? { return Null; }
      }
      if Word("XX") in upper {
        var held := Live(key, now);
        if held.None? { return Null; }
      }
      var deadline := DeadlineOf(rt, upper);
      if deadline.Some? && deadline.value <= now {
        strings := strings - {key};
        return Discarded;
      }
      strings := strings[key := Entry(value, deadline)];
      r := Stored;
    }

    method Del(keys: seq<string>) returns (removed: nat)
      modifies this`strings, this`sortedSets
      ensures (View(), removed) == Deleted(old(View()), keys) && View() == After(rt, old(View()), Op.Del(keys))
      ensures Count(removed) == AnswerOf(rt, old(View()), Op.Del(keys))
    {
      removed := 0;
      var i := 0;
      while i < |keys|
        invariant 0 <= i <= |keys|
        invariant Deleted(old(View()), keys) == (Deleted(View(), keys[i..]).0, removed + Deleted(View(), keys[i..]).1)
      {
        assert keys[i..][0] == keys[i] && keys[i..][1..] == keys[i + 1..];
        if keys[i] in strings {
          strings := strings - {keys[i]};
          removed := removed + 1;
        } else if keys[i] in sortedSets {
          sortedSets := sortedSets - {keys[i]};
          removed := removed + 1;
        }
        i := i + 1;
      }
    }

    method Zadd(key: string, args: seq<Arg>) returns (added: nat)
      modifies this`sortedSets
      ensures (View(), added) == ZaddEffect(rt, old(View()), key, args) && View() == After(rt, old(View()), Op.Zadd(key, args))
      ensures Count(added) == AnswerOf(rt, old(View()), Op.Zadd(key, args))
    {
      hide Upper, NumberAt, TextAt;
      NoFlags(rt, args);
      var nx, xx, n := false, false, 0;
      while n < |args| && IsFlag(rt, args[n])
        invariant View() == old(View())
        invariant 0 <= n <= |args| && FlagCount(rt, args) == n + FlagCount(rt, args[n..])
        invariant nx == (Word("NX") in Upper(rt, args[..n])) && xx == (Word("XX") in Upper(rt, args[..n]))
      {
        UpperMore(rt, args, n);
        assert args[n..][1..] == args[n + 1..];
        nx, xx := nx || rt.upper(args[n].s) == "NX", xx || rt.upper(args[n].s) == "XX";
        n := n + 1;
      }
      assert n < |args| ==> args[n..][0] == args[n];
      assert FlagCount(rt, args) == n;
      var score, member := NumberAt(rt, args, n), TextAt(rt, args, n + 1);
      var scores: Scores := if key in sortedSets then sortedSets[key] else map[];
      var present := member in scores;
      if (nx && present) || (xx && !present) { return 0; }
      sortedSets := sortedSets[key := scores[member := score]];
      added := if present then 0 else 1;
    }

    method Zrem(key: string, member: string) returns (removed: nat)
      modifies this`sortedSets
      ensures (View(), removed) == ZremEffect(old(View()), key, member) && View() == After(rt, old(View()), Op.Zrem(key, member))
      ensures Count(removed) == AnswerOf(rt, old(View()), Op.Zrem(key, member))
    {
      if key !in sortedSets || member !in sortedSets[key] { return 0; }
      var scores := sortedSets[key] - {member};
      sortedSets := if scores == map[] then sortedSets - {key} else sortedSets[key := scores];
      removed := 1;
    }
  }

  lemma NoFlags(rt: Runtime, args: seq<Arg>)
    ensures Upper(rt, args[..0]) == [] && args[0..] == args
  {
  }

  lemma UpperMore(rt: Runtime, args: seq<Arg>, n: nat)
    requires n < |args| && args[n].Word?
    ensures forall w :: w in Upper(rt, args[..n + 1]) <==> w in Upper(rt, args[..n]) || w == Word(rt.upper(args[n].s))
  {
    UpperAt(rt, args[..n + 1]);
    UpperAt(rt, args[..n]);
    var more, some := Upper(rt, args[..n + 1]), Upper(rt, args[..n]);
    assert forall i :: 0 <= i < n ==> more[i] == some[i];
    assert more == some + [more[n]];
  }

  lemma {:induction false} UpperAt(rt: Runtime, args: seq<Arg>)
    ensures forall i :: 0 <= i < |args| ==> Upper(rt, args)[i] == if args[i].Word? then Word(rt.upper(args[i].s)) else args[i]
  {
    if args != [] { UpperAt(rt, args[1..]); }
  }

  // ---------------------------------------------------------------- runs

  datatype Op =
    | Get(key: string, now: int)
    | GetDel(key: string, now: int)
    | Set(key: string, value: string, args: seq<Arg>, now: int)
    | Del(keys: seq<string>)
    | Zadd(key: string, args: seq<Arg>)
    | Zrem(key: string, member: string)

  function After(rt: Runtime, st: Store, op: Op): (r: Store)
  {
    match op
    case Get(key, now) => Swept(st, key, now)
    case GetDel(key, now) => st.(strings := st.strings - {key})
    case Set(key, value, args, now) => SetEffect(rt, st, key, value, args, now).0
    case Del(keys) => Deleted(st, keys).0
    case Zadd(key, args) => ZaddEffect(rt, st, key, args).0
    case Zrem(key, member) => ZremEffect(st, key, member).0
  }

  /** What a command answers. */
  datatype Answer = Ok | Nil | Bulk(s: string) | Count(n: nat)

  function AnswerOf(rt: Runtime, st: Store, op: Op): (r: Answer)
  {
    match op
    case Get(key, now) => ValueAnswer(Value(st, key, now))
    case GetDel(key, now) => ValueAnswer(Value(st, key, now))
    case Set(key, value, args, now) => if SetEffect(rt, st, key, value, args, now).1.Null? then Nil else Ok
    case Del(keys) => Count(Deleted(st, keys).1)
    case Zadd(key, args) => Count(ZaddEffect(rt, st, key, args).1)
    case Zrem(key, member) => Count(ZremEffect(st, key, member).1)
  }

  function ValueAnswer(v: Option<string>): (r: Answer) { if v.Some? then Bulk(v.value) else Nil }

  ghost predicate Run(rt: Runtime, states: seq<Store>, ops: seq<Op>)
  {
    && |states| == |ops| + 1 && states[0].strings == map[]
    && forall i :: 0 <= i < |ops| ==> states[i + 1] == After(rt, states[i], ops[i])
  }

  predicate Stores(rt: Runtime, st: Store, op: Op, key: string)
  {
    op.Set? && op.key == key && SetEffect(rt, st, key, op.value, op.args, op.now).1 == Stored
  }

  /** A GETDEL of the key that returned a value. */
  predicate Takes(st: Store, op: Op, key: string)
  {
    op.GetDel? && op.key == key && Value(st, key, op.now).Some?
  }

  lemma {:induction false} DeletedKeeps(st: Store, keys: seq<string>, key: string)
    ensures var r := Deleted(st, keys).0; key in r.strings ==> key in st.strings && r.strings[key] == st.strings[key]
    decreases |keys|
  {
    if keys != [] {
      if keys[0] in st.strings {
        DeletedKeeps(st.(strings := st.strings - {keys[0]}), keys[1..], key);
      } else if keys[0] in st.sortedSets {
        DeletedKeeps(st.(sortedSets := st.sortedSets - {keys[0]}), keys[1..], key);
      } else {
        DeletedKeeps(st, keys[1..], key);
      }
    }
  }

  /** An entry found after a step was stored by it or was there before. */
  lemma EntryComesFrom(rt: Runtime, st: Store, op: Op, key: string)
    requires key in After(rt, st, op).strings
    ensures Stores(rt, st, op, key) ==> After(rt, st, op).strings[key].value == op.value
    ensures !Stores(rt, st, op, key) ==> key in st.strings && st.strings[key] == After(rt, st, op).strings[key]
  {
    hide Upper, DeadlineOf, Deleted;
    if op.Del? { DeletedKeeps(st, op.keys, key); }
  }

  /** The step that stored what a key holds: nothing has touched the key since. */
  lemma {:induction false} Origin(rt: Runtime, states: seq<Store>, ops: seq<Op>, key: string, j: nat) returns (i: nat)
    requires Run(rt, states, ops) && j <= |ops| && key in states[j].strings
    ensures i < j && Stores(rt, states[i], ops[i], key) && ops[i].value == states[j].strings[key].value
    ensures forall m :: i < m <= j ==> key in states[m].strings && states[m].strings[key] == states[j].strings[key]
    ensures forall m :: i < m < j ==> !Stores(rt, states[m], ops[m], key)
    decreases j
  {
    hide After, Stores;
    assert j > 0;
    assert states[j - 1 + 1] == After(rt, states[j - 1], ops[j - 1]);
    EntryComesFrom(rt, states[j - 1], ops[j - 1], key);
    if Stores(rt, states[j - 1], ops[j - 1], key) {
      i := j - 1;
    } else {
      i := Origin(rt, states, ops, key, j - 1);
    }
  }

  /** Each successful GETDEL returns the value of the latest stored SET of its key. */
  lemma TakeReturnsLatest(rt: Runtime, states: seq<Store>, ops: seq<Op>, key: string, j: nat) returns (i: nat)
    requires Run(rt, states, ops) && j < |ops| && Takes(states[j], ops[j], key)
    ensures i < j && Stores(rt, states[i], ops[i], key) && Value(states[j], key, ops[j].now) == Some(ops[i].value)
    ensures forall m :: i < m < j ==> !Stores(rt, states[m], ops[m], key) && !Takes(states[m], ops[m], key)
  {
    hide Stores;
    i := Origin(rt, states, ops, key, j);
    forall m | i < m < j ensures !Takes(states[m], ops[m], key) {
      assert states[m + 1] == After(rt, states[m], ops[m]);
      assert key in states[m + 1].strings;
    }
  }

  /** Two successful GETDELs of a key have a stored SET of it between them: a value is taken at most once. */
  lemma TakenAtMostOnce(rt: Runtime, states: seq<Store>, ops: seq<Op>, key: string, first: nat, second: nat) returns (i: nat)
    requires Run(rt, states, ops) && first < second < |ops|
    requires Takes(states[first], ops[first], key) && Takes(states[second], ops[second], key)
    ensures first < i < second && Stores(rt, states[i], ops[i], key)
  {
    hide Stores, After, Takes;
    i := TakeReturnsLatest(rt, states, ops, key, second);
    if i <= first {
      TakeDoesNotStore(rt, states[first], ops[first], key);
    }
  }

  lemma TakeDoesNotStore(rt: Runtime, st: Store, op: Op, key: string)
    requires Takes(st, op, key)
    ensures !Stores(rt, st, op, key)
  {
  }

  // ---------------------------------------------------------------- what the arguments say

  /** No argument of the list is that word, in any case. */
  ghost predicate Lacks(rt: Runtime, args: seq<Arg>, word: string)
  {
    forall i :: 0 <= i < |args| && args[i].Word? ==> rt.upper(args[i].s) != word
  }

  lemma {:induction false} FirstWord(rt: Runtime, before: seq<Arg>, word: string, after: seq<Arg>)
    requires Lacks(rt, before, rt.upper(word))
    ensures IndexOfArg(Upper(rt, before + [Word(word)] + after), Word(rt.upper(word))) == |before|
  {
    var args := before + [Word(word)] + after;
    if before == [] {
      assert args == [Word(word)] + after;
    } else {
      FirstWord(rt, before[1..], word, after);
      assert args[1..] == before[1..] + [Word(word)] + after && args[0] == before[0];
      assert Upper(rt, args)[1..] == Upper(rt, args[1..]);
    }
  }

  lemma {:induction false} NoWord(rt: Runtime, args: seq<Arg>, word: string)
    ensures Word(word) in Upper(rt, args) <==> !Lacks(rt, args, word)
    ensures IndexOfArg(Upper(rt, args), Word(word)) == -1 <==> Lacks(rt, args, word)
  {
    if args != [] {
      NoWord(rt, args[1..], word);
      var rest := Upper(rt, args[1..]);
      assert Upper(rt, args)[0] == (if args[0].Word? then Word(rt.upper(args[0].s)) else args[0]) && Upper(rt, args)[1..] == rest;
      assert Lacks(rt, args, word) <==> (args[0].Word? ==> rt.upper(args[0].s) != word) && Lacks(rt, args[1..], word) by {
        assert forall i :: 0 < i < |args| ==> args[i] == args[1..][i - 1];
      }
    }
  }

  /** `SET key value PXAT n`: the deadline is the number after the first PXAT; without PXAT there is none. */
  lemma DeadlineIsRead(rt: Runtime, before: seq<Arg>, pxat: string, n: int, after: seq<Arg>)
    requires rt.upper(pxat) == "PXAT" && Lacks(rt, before, "PXAT")
    ensures DeadlineOf(rt, Upper(rt, before + [Word(pxat), Number(n)] + after)) == Some(n)
    ensures DeadlineOf(rt, Upper(rt, before + [Word(pxat)])) == None
    ensures DeadlineOf(rt, Upper(rt, before)) == None
  {
    hide Upper, IndexOfArg, Lacks;
    var args := before + [Word(pxat), Number(n)] + after;
    var bare := before + [Word(pxat)];
    assert args == before + [Word(pxat)] + ([Number(n)] + after) && bare == before + [Word(pxat)] + [];
    FirstWord(rt, before, pxat, [Number(n)] + after);
    FirstWord(rt, before, pxat, []);
    UpperAt(rt, args);
    NoWord(rt, before, "PXAT");
    assert args[|before| + 1] == Number(n);
  }

  /** A deadline given as text is what `Number` makes of it. */
  lemma DeadlineText(rt: Runtime, before: seq<Arg>, pxat: string, text: string, after: seq<Arg>)
    requires rt.upper(pxat) == "PXAT" && Lacks(rt, before, "PXAT")
    ensures DeadlineOf(rt, Upper(rt, before + [Word(pxat), Word(text)] + after)) == rt.number(rt.upper(text))
  {
    hide Upper, IndexOfArg, Lacks;
    var args := before + [Word(pxat), Word(text)] + after;
    assert args == before + [Word(pxat)] + ([Word(text)] + after);
    FirstWord(rt, before, pxat, [Word(text)] + after);
    UpperAt(rt, args);
    assert args[|before| + 1] == Word(text);
  }

  /** What `SET` does, by the words among its arguments and the deadline they give. */
  lemma SetMeans(rt: Runtime, st: Store, key: string, value: string, args: seq<Arg>, now: int)
    ensures var (t, r) := SetEffect(rt, st, key, value, args, now);
            var held := key in st.strings && (st.strings[key].deadline == None || now < st.strings[key].deadline.value);
            var deadline := DeadlineOf(rt, Upper(rt, args));
            && (r == Null <==> (held && !Lacks(rt, args, "NX")) || (!held && !Lacks(rt, args, "XX")))
            && (r != Null && (deadline == None || now < deadline.value) ==>
                  r == Stored && t == st.(strings := st.strings[key := Entry(value, deadline)]))
            && (r != Null && deadline.Some? && deadline.value <= now ==> r == Discarded && t == st.(strings := st.strings - {key}))
            && (r == Null ==> t == (if held then st else st.(strings := st.strings - {key})))
  {
    hide Upper, DeadlineOf, Lacks;
    NoWord(rt, args, "NX");
    NoWord(rt, args, "XX");
    assert key !in st.strings ==> st.strings - {key} == st.strings;
    var entry := Entry(value, DeadlineOf(rt, Upper(rt, args)));
    assert (st.strings - {key})[key := entry] == st.strings[key := entry];
    assert st.strings - {key} - {key} == st.strings - {key};
  }

  /** The flags of `ZADD` are the leading words NX and XX; the score and the member follow them. */
  lemma ZaddReads(rt: Runtime, st: Store, key: string, flags: seq<Arg>, score: Arg, rest: seq<Arg>)
    requires forall i :: 0 <= i < |flags| ==> flags[i].Word? && rt.upper(flags[i].s) in {"NX", "XX"}
    requires score.Word? ==> rt.upper(score.s) !in {"NX", "XX"}
    ensures var (t, n) := ZaddEffect(rt, st, key, flags + [score] + rest);
            var scores := if key in st.sortedSets then st.sortedSets[key] else map[];
            var value := match score { case Number(x) => Some(x) case Word(text) => rt.number(text) };
            var member := if rest == [] then "undefined" else match rest[0] { case Number(x) => rt.text(x) case Word(text) => text };
            if (member in scores && !Lacks(rt, flags, "NX")) || (member !in scores && !Lacks(rt, flags, "XX")) then t == st && n == 0
            else t == st.(sortedSets := st.sortedSets[key := scores[member := value]]) && n == if member in scores then 0 else 1
  {
    hide Upper, Lacks;
    var args := flags + [score] + rest;
    FlagsAreCounted(rt, flags, [score] + rest);
    assert args == flags + ([score] + rest);
    assert args[..|flags|] == flags && args[|flags|] == score && (rest != [] ==> args[|flags| + 1] == rest[0]);
    NoWord(rt, flags, "NX");
    NoWord(rt, flags, "XX");
  }

  lemma {:induction false} FlagsAreCounted(rt: Runtime, flags: seq<Arg>, rest: seq<Arg>)
    requires forall i :: 0 <= i < |flags| ==> flags[i].Word? && rt.upper(flags[i].s) in {"NX", "XX"}
    requires rest != [] && (rest[0].Word? ==> rt.upper(rest[0].s) !in {"NX", "XX"})
    ensures FlagCount(rt, flags + rest) == |flags|
  {
    var args := flags + rest;
    if flags == [] {
      assert args == rest;
    } else {
      FlagsAreCounted(rt, flags[1..], rest);
      assert args[1..] == flags[1..] + rest && args[0] == flags[0];
    }
  }
}
