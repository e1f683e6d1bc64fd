/**
  * How two MULTI blocks share the microtask queue, and why they run in step. A call of a command runs up to its await of
  * one tick, which queues the job with its effect; the effect ends the command, which queues the job that resumes
  * `exec`; and that one calls the next command. Jobs run first in, first out.
  */
module Microtasks {
  import opened InteractionStore
  import opened MultiQueues
  import opened MultiBlocks

  datatype Job = Effect(block: Block) | Resume(block: Block)

  /** The queued jobs, and the commands of each block whose effect is still to come. */
  datatype Machine = Machine(queue: seq<Job>, first: seq<Op>, second: seq<Op>)

  function Left(m: Machine, x: Block): (r: seq<Op>) { if x == First then m.first else m.second }

  function Dropped(m: Machine, x: Block): (r: Machine)
    requires Left(m, x) != []
  {
    if x == First then m.(first := m.first[1..]) else m.(second := m.second[1..])
  }

  /** A call of `exec` queues the effect of its first command. */
  function Start(m: Machine, x: Block, ops: seq<Op>): (r: Machine)
  {
    var n := if x == First then m.(first := ops) else m.(second := ops);
    if ops == [] then n else n.(queue := n.queue + [Effect(x)])
  }

  /** One job runs. */
  function Next(m: Machine): (r: Machine)
    requires m.queue != []
  {
    var job, rest := m.queue[0], m.(queue := m.queue[1..]);
    var x := job.block;
    if job.Effect? then (if Left(m, x) == [] then rest else Dropped(rest, x).(queue := rest.queue + [Resume(x)]))
    else if Left(m, x) == [] then rest
    else rest.(queue := rest.queue + [Effect(x)])
  }

  /** The effect of that job, if it has one. */
  function Shown(m: Machine): (r: seq<Step>)
    requires m.queue != []
  {
    var job := m.queue[0];
    if job.Effect? && Left(m, job.block) != [] then [Step(job.block, Left(m, job.block)[0])] else []
  }

  function Weight(queue: seq<Job>): (n: nat) { if queue == [] then 0 else (if queue[0].Effect? then 1 else 2) + Weight(queue[1..]) }

  lemma {:induction false} WeightJoined(p: seq<Job>, q: seq<Job>)
    ensures Weight(p + q) == Weight(p) + Weight(q)
  {
    if p == [] {
      assert p + q == q;
    } else {
      WeightJoined(p[1..], q);
      assert (p + q)[0] == p[0] && (p + q)[1..] == p[1..] + q;
    }
  }

  function Work(m: Machine): (n: nat) { 3 * (|m.first| + |m.second|) + Weight(m.queue) }

  lemma NextIsLess(m: Machine)
    requires m.queue != []
    ensures Work(Next(m)) < Work(m)
  {
    var x := m.queue[0].block;
    WeightJoined(m.queue[1..], [Resume(x)]);
    WeightJoined(m.queue[1..], [Effect(x)]);
    assert Weight([Resume(x)]) == 2 && Weight([Effect(x)]) == 1;
  }

  /** The effects of all jobs until the queue is empty, in order. */
  function Effects(m: Machine): (r: seq<Step>)
    decreases Work(m)
  {
    if m.queue == [] then [] else
      NextIsLess(m);
      Shown(m) + Effects(Next(m))
  }

  /** The effects when block `x` is started after `n` jobs, or when the queue is empty. */
  function StartedAfter(m: Machine, n: nat, x: Block, ops: seq<Op>): (r: seq<Step>)
    decreases n
  {
    if n == 0 || m.queue == [] then Effects(Start(m, x, ops)) else Shown(m) + StartedAfter(Next(m), n - 1, x, ops)
  }

  /** Block `x` is started, `n` jobs run, the other block is started, and both run to their ends. */
  function Schedule(a: seq<Op>, b: seq<Op>, x: Block, n: nat): (r: seq<Step>)
  {
    if x == First then StartedAfter(Start(Machine([], [], []), First, a), n, Second, b)
    else StartedAfter(Start(Machine([], [], []), Second, b), n, First, a)
  }

  // ---------------------------------------------------------------- two blocks at a time

  /** The only job left is one of the block, which then runs to its end. */
  lemma {:induction false} OneRuns(m: Machine, x: Block)
    requires |m.queue| <= 1 && forall i :: 0 <= i < |m.queue| ==> m.queue[i].block == x
    requires m.queue == [] ==> Left(m, x) == []
    ensures Effects(m) == Marked(x, Left(m, x))
    decreases Work(m)
  {
    if m.queue != [] {
      NextIsLess(m);
      var n := Next(m);
      assert m.queue[1..] == [];
      OneRuns(n, x);
      assert Left(m, x) != [] && m.queue[0].Effect? ==> Marked(x, Left(m, x)) == [Step(x, Left(m, x)[0])] + Marked(x, Left(m, x)[1..]);
    }
  }

  lemma {:induction false} InStepShift(a: seq<Op>, ta: int, b: seq<Op>, tb: int, c: int)
    ensures InStep(a, ta, b, tb) == InStep(a, ta + c, b, tb + c)
    decreases |a| + |b|
  {
    hide Marked;
    if a != [] && b != [] {
      if ta < tb {
        assert InStep(a, ta, b, tb) == [Step(First, a[0])] + InStep(a[1..], ta + 1, b, tb);
        assert InStep(a, ta + c, b, tb + c) == [Step(First, a[0])] + InStep(a[1..], ta + 1 + c, b, tb + c);
        hide InStep;
        InStepShift(a[1..], ta + 1, b, tb, c);
      } else {
        assert InStep(a, ta, b, tb) == [Step(Second, b[0])] + InStep(a, ta, b[1..], tb + 1);
        assert InStep(a, ta + c, b, tb + c) == [Step(Second, b[0])] + InStep(a, ta + c, b[1..], tb + 1 + c);
        hide InStep;
        InStepShift(a, ta, b[1..], tb + 1, c);
      }
    }
  }

  /** How many jobs come before the next effect of the block that has job `i` of two. */
  function Due(job: Job, i: nat): (n: nat) { if job.Effect? then i else i + 2 }

  /** The queue holds one job of each block. */
  predicate Both(m: Machine) { |m.queue| == 2 && m.queue[0].block != m.queue[1].block }

  /** The turn of the second block, when the first block's is 0: 1 when the first is due earlier, and 0 otherwise. */
  function Turn(m: Machine): (t: int)
    requires Both(m)
  {
    if (Due(m.queue[0], 0) < Due(m.queue[1], 1)) == (m.queue[0].block == First) then 1 else 0
  }

  /** Two blocks that each have a job in the queue go on in step. */
  lemma {:induction false} BothRun(m: Machine)
    requires Both(m)
    ensures Effects(m) == InStep(m.first, 0, m.second, Turn(m))
    decreases Work(m)
  {
    NextIsLess(m);
    var n, x, y := Next(m), m.queue[0].block, m.queue[1].block;
    assert m.queue[1..] == [m.queue[1]];
    if Left(m, x) == [] {
      assert n.queue == [m.queue[1]];
      OneRuns(n, y);
      assert [] + Effects(n) == Effects(n);
    } else {
      BothRun(n);
      if m.queue[0].Effect? {
        EffectTurn(m);
      } else {
        assert [] + Effects(n) == Effects(n);
      }
    }
  }

  lemma EffectTurn(m: Machine)
    requires Both(m) && m.queue[0].Effect? && Left(m, m.queue[0].block) != []
    ensures var n := Next(m);
            Both(n) && InStep(m.first, 0, m.second, Turn(m)) == Shown(m) + InStep(n.first, 0, n.second, Turn(n))
  {
    var n, x := Next(m), m.queue[0].block;
    assert n.queue == [m.queue[1], Resume(x)];
    if x == First {
      InStepShift(m.first[1..], 0, m.second, 0, 1);
      assert m.second == [] ==> Marked(First, m.first) == [Step(First, m.first[0])] + Marked(First, m.first[1..]);
      assert m.second == [] ==> InStep(n.first, 0, [], 0) == Marked(First, n.first);
    } else {
      assert m.first == [] ==> Marked(Second, m.second) == [Step(Second, m.second[0])] + Marked(Second, m.second[1..]);
    }
  }

  // ---------------------------------------------------------------- when the other block starts

  lemma OneMore(a: seq<Op>, b: seq<Op>, lead: int)
    ensures a != [] && lead >= 1 ==> InStep(a, 0, b, lead) == [Step(First, a[0])] + InStep(a[1..], 0, b, lead - 1)
    ensures b != [] && lead <= 0 ==> InStep(a, 0, b, lead) == [Step(Second, b[0])] + InStep(a, 0, b[1..], lead + 1)
  {
    if a != [] && lead >= 1 {
      InStepShift(a[1..], 0, b, lead - 1, 1);
      if b == [] { assert InStep(a[1..], 1, b, lead) == Marked(First, a[1..]); }
    }
    if b != [] && lead <= 0 && a == [] { assert Marked(Second, b) == [Step(Second, b[0])] + Marked(Second, b[1..]); }
  }

  /** The machine with one block's job, or with none when the block is over. */
  function Alone(x: Block, ops: seq<Op>): (m: Machine) { Start(Machine([], [], []), x, ops) }

  lemma AloneRuns(x: Block, ops: seq<Op>)
    requires ops != []
    ensures var m := Alone(x, ops);
            && m.queue == [Effect(x)] && Shown(m) == [Step(x, ops[0])]
            && var one := Next(m);
               one.queue == [Resume(x)] && Shown(one) == [] && Next(one) == Alone(x, ops[1..]) && Left(one, x) == ops[1..]
               && one.first + one.second == ops[1..]
  {
    var m := Alone(x, ops);
    assert m.queue[1..] == [];
    var one := Next(m);
    assert one.queue[1..] == [];
  }

  /** The other block joins a block that is alone. */
  lemma Joins(x: Block, ops: seq<Op>, y: Block, others: seq<Op>, m: Machine)
    requires x != y && |m.queue| <= 1 && (m.queue == [] ==> ops == []) && (m.queue != [] ==> m.queue[0].block == x)
    requires Left(m, x) == ops && Left(m, y) == []
    ensures var a, b := if x == First then ops else others, if x == First then others else ops;
            && (m.queue == [] ==> Effects(Start(m, y, others)) == Marked(y, others) == InStep(a, 0, b, 0))
            && (m.queue != [] ==>
                  Effects(Start(m, y, others)) == InStep(a, 0, b, if m.queue[0].Effect? == (x == First) then 1 else 0))
  {
    hide Effects, Marked;
    var n := Start(m, y, others);
    if m.queue == [] {
      OneRuns(n, y);
    } else if others == [] {
      OneRuns(n, x);
      InStepAlone(ops);
    } else {
      BothRun(n);
    }
  }

  lemma InStepAlone(ops: seq<Op>)
    ensures forall t :: InStep(ops, 0, [], t) == Marked(First, ops) && InStep([], 0, ops, t) == Marked(Second, ops)
  {
    assert Marked(First, []) == [] && Marked(Second, []) == [];
  }

  /** The second block starts after `n` jobs of the first: the first is ahead by one command for every two jobs, and one. */
  lemma {:induction false} SecondJoins(a: seq<Op>, b: seq<Op>, n: nat)
    ensures StartedAfter(Alone(First, a), n, Second, b) == InStep(a, 0, b, n / 2 + 1)
    decreases n
  {
    hide Effects, InStep, Marked, Shown, Next;
    var m := Alone(First, a);
    if a == [] {
      Joins(First, a, Second, b, m);
      InStepAlone(b);
    } else {
      AloneRuns(First, a);
      OneMore(a, b, n / 2 + 1);
      if n == 0 {
        Joins(First, a, Second, b, m);
      } else {
        var one := Next(m);
        if n == 1 {
          Joins(First, a[1..], Second, b, one);
        } else {
          SecondJoins(a[1..], b, n - 2);
          assert [] + StartedAfter(Next(one), n - 2, Second, b) == StartedAfter(Next(one), n - 2, Second, b);
          assert StartedAfter(one, n - 1, Second, b) == [] + StartedAfter(Next(one), n - 2, Second, b);
        }
      }
    }
  }

  lemma {:induction false} FirstJoins(a: seq<Op>, b: seq<Op>, n: nat)
    ensures StartedAfter(Alone(Second, b), n, First, a) == InStep(a, 0, b, -(n / 2))
    decreases n
  {
    hide Effects, InStep, Marked, Shown, Next;
    var m := Alone(Second, b);
    if b == [] {
      Joins(Second, b, First, a, m);
      InStepAlone(a);
    } else {
      AloneRuns(Second, b);
      OneMore(a, b, -(n / 2));
      if n == 0 {
        Joins(Second, b, First, a, m);
      } else {
        var one := Next(m);
        if n == 1 {
          Joins(Second, b[1..], First, a, one);
        } else {
          FirstJoins(a, b[1..], n - 2);
          assert [] + StartedAfter(Next(one), n - 2, First, a) == StartedAfter(Next(one), n - 2, First, a);
          assert StartedAfter(one, n - 1, First, a) == [] + StartedAfter(Next(one), n - 2, First, a);
        }
      }
    }
  }

  /** Two blocks run in step, whichever starts first and whenever the other starts. */
  lemma BlocksRunInStep(a: seq<Op>, b: seq<Op>, x: Block, n: nat)
    ensures Schedule(a, b, x, n) == InStep(a, 0, b, if x == First then n / 2 + 1 else -(n / 2))
  {
    hide StartedAfter, InStep;
    if x == First { SecondJoins(a, b, n); } else { FirstJoins(a, b, n); }
  }

  /** Every lead is that of some start. */
  lemma EveryLeadHasItsStart(a: seq<Op>, b: seq<Op>, lead: int) returns (x: Block, n: nat)
    ensures Schedule(a, b, x, n) == InStep(a, 0, b, lead)
  {
    hide Schedule, InStep;
    x, n := if lead >= 1 then First else Second, if lead >= 1 then 2 * (lead - 1) else -2 * lead;
    BlocksRunInStep(a, b, x, n);
  }
}
