/**
  * The least set closed under the edges of a finite graph, and what a depth-first search that marks nodes adds to it.
  */
module Reachability {

  type Graph<N> = map<N, set<N>>

  function Elements<N>(xs: seq<N>): (r: set<N>) { set x | x in xs }

  ghost function Succ<N>(g: Graph<N>, n: N): (r: set<N>) { if n in g then g[n] else {} }

  ghost predicate Closed<N(!new)>(g: Graph<N>, s: set<N>)
  {
    forall n :: n in s ==> Succ(g, n) <= s
  }

  /** `s` is the least closed set that holds the seeds. */
  ghost predicate IsClosure<N(!new)>(g: Graph<N>, seeds: set<N>, s: set<N>)
  {
    && seeds <= s && Closed(g, s)
    && forall t :: Closed(g, t) && seeds <= t ==> s <= t
  }

  /** A walk along edges from a seed to `n`. */
  ghost predicate IsWalk<N(!new)>(g: Graph<N>, seeds: set<N>, walk: seq<N>, n: N)
  {
    && walk != [] && walk[0] in seeds && walk[|walk| - 1] == n
    && forall i :: 0 < i < |walk| ==> walk[i] in Succ(g, walk[i - 1])
  }

  /** The least closed set is exactly what walks from the seeds reach. */
  lemma ClosureIsReachable<N(!new)>(g: Graph<N>, seeds: set<N>, s: set<N>, n: N)
    requires IsClosure(g, seeds, s)
    ensures n in s <==> exists walk :: IsWalk(g, seeds, walk, n)
  {
    forall walk | IsWalk(g, seeds, walk, n) ensures n in s {
      WalkStaysInside(g, seeds, s, walk, n);
    }
    var reached := set x | x in s && exists walk :: IsWalk(g, seeds, walk, x);
    forall x | x in seeds ensures x in reached {
      assert IsWalk(g, seeds, [x], x);
    }
    forall x, y | x in reached && y in Succ(g, x) ensures y in reached {
      var walk :| IsWalk(g, seeds, walk, x);
      assert IsWalk(g, seeds, walk + [y], y);
    }
    assert Closed(g, reached);
  }

  lemma {:induction false} WalkStaysInside<N(!new)>(g: Graph<N>, seeds: set<N>, s: set<N>, walk: seq<N>, n: N)
    requires seeds <= s && Closed(g, s) && IsWalk(g, seeds, walk, n)
    ensures n in s
    decreases |walk|
  {
    if |walk| > 1 {
      var before := walk[..|walk| - 1];
      assert IsWalk(g, seeds, before, before[|before| - 1]);
      WalkStaysInside(g, seeds, s, before, before[|before| - 1]);
    }
  }

  lemma ClosureIsUnique<N(!new)>(g: Graph<N>, seeds: set<N>, s: set<N>, t: set<N>)
    requires IsClosure(g, seeds, s) && IsClosure(g, seeds, t)
    ensures s == t
  {
  }

  /** The closure of a union is the union of the closures. */
  lemma ClosureOfUnion<N(!new)>(g: Graph<N>, a: set<N>, b: set<N>, s: set<N>, t: set<N>)
    requires IsClosure(g, a, s) && IsClosure(g, b, t)
    ensures IsClosure(g, a + b, s + t)
  {
    forall n | n in s + t ensures Succ(g, n) <= s + t {
    }
  }

  // ---------------------------------------------------------------- depth-first search

  /**
    * A search that had marked `before` and was sent to `seeds` has marked `after`: nothing it did not have to, and
    * every node it marked is done.
    */
  ghost predicate Grown<N(!new)>(g: Graph<N>, before: set<N>, seeds: set<N>, after: set<N>)
  {
    && before + seeds <= after
    && (forall n :: n in after && n !in before ==> Succ(g, n) <= after)
    && (forall t :: Closed(g, t) && before + seeds <= t ==> after <= t)
  }

  lemma GrownNothing<N(!new)>(g: Graph<N>, before: set<N>, seeds: set<N>)
    requires seeds <= before
    ensures Grown(g, before, seeds, before)
  {
  }

  lemma GrownContains<N(!new)>(g: Graph<N>, before: set<N>, seeds: set<N>, after: set<N>)
    requires Grown(g, before, seeds, after)
    ensures before <= after && seeds <= after
  {
    assert before + seeds <= after;
  }

  lemma GrownTwice<N(!new)>(g: Graph<N>, a: set<N>, s: set<N>, b: set<N>, t: set<N>, c: set<N>)
    requires Grown(g, a, s, b) && Grown(g, b, t, c)
    ensures Grown(g, a, s + t, c)
  {
    forall u | Closed(g, u) && a + (s + t) <= u ensures c <= u {
      assert b <= u;
    }
  }

  /** Marking a node and then searching its successors is searching the node. */
  lemma GrownNode<N(!new)>(g: Graph<N>, before: set<N>, n: N, after: set<N>)
    requires Grown(g, before + {n}, Succ(g, n), after)
    ensures Grown(g, before, {n}, after)
  {
    forall u | Closed(g, u) && before + {n} <= u ensures after <= u {
      assert Succ(g, n) <= u;
    }
  }

  /** A search from nothing finds the closure of its seeds. */
  lemma GrownFromNothing<N(!new)>(g: Graph<N>, seeds: set<N>, after: set<N>)
    requires Grown(g, {}, seeds, after)
    ensures IsClosure(g, seeds, after)
  {
    forall u | Closed(g, u) && seeds <= u ensures after <= u {
      assert {} + seeds <= u;
    }
  }
}
