/**
 * `epsilon_closure` of src/custom_regex.rs: the states reachable from one state
 * by moves that read nothing, collected with a stack worklist.
 */
module Closure {
  import opened Automaton

  /** The destinations of the transitions in `ts`. */
  function Dsts(ts: seq<Edge>): set<nat> {
    set i | 0 <= i < |ts| :: ts[i].dst
  }

  /** Every move that reads nothing and leaves `c` stays in `c`. */
  ghost predicate EpsClosed(ts: seq<Edge>, c: set<nat>) {
    forall i :: 0 <= i < |ts| && ts[i].sym == Epsilon && ts[i].src in c ==> ts[i].dst in c
  }

  /** Some member of `s` reaches `q` by moves that read nothing. */
  ghost predicate EpsReachFrom(ts: seq<Edge>, s: set<nat>, q: nat) {
    exists p :: p in s && EpsReach(ts, p, q)
  }

  /** The states reachable from some member of `s` by moves that read nothing. */
  ghost function EpsClosure(ts: seq<Edge>, s: set<nat>): set<nat> {
    set q | q in s + Dsts(ts) && EpsReachFrom(ts, s, q)
  }

  /** A state reached by a non-empty walk is the destination of a transition. */
  lemma RunEndsAtDst(ts: seq<Edge>, p: nat, es: seq<Edge>, q: nat)
    requires IsRun(ts, p, es, q) && es != []
    ensures q in Dsts(ts)
  {
    RunSplit(ts, p, es, q, |es| - 1);
    var last := es[|es| - 1];
    assert es[|es| - 1..] == [last];
    assert last in ts;
    var i :| 0 <= i < |ts| && ts[i] == last;
    assert q == last.dst == ts[i].dst;
  }

  /** A set closed under moves that read nothing holds every state they reach from it. */
  lemma {:induction false} ClosedHoldsReach(ts: seq<Edge>, c: set<nat>, p: nat, es: seq<Edge>, q: nat)
    requires EpsClosed(ts, c) && p in c
    requires IsRun(ts, p, es, q) && Label(es) == []
    ensures q in c
    decreases |es|
  {
    if es != [] {
      SilentRunIsEpsilon(ts, p, es, q);
      assert es[0].sym == Epsilon;
      var i :| 0 <= i < |ts| && ts[i] == es[0];
      assert Label(es) == Label(es[1..]);
      ClosedHoldsReach(ts, c, es[0].dst, es[1..], q);
    }
  }

  /** Membership in the closure, without the bound the comprehension needs. */
  lemma InEpsClosure(ts: seq<Edge>, s: set<nat>, q: nat)
    ensures q in EpsClosure(ts, s) <==> EpsReachFrom(ts, s, q)
  {
    if p :| p in s && EpsReach(ts, p, q) {
      var es :| IsRun(ts, p, es, q) && Label(es) == [];
      if es != [] {
        RunEndsAtDst(ts, p, es, q);
      }
    }
  }

  /** The closure of `s` contains `s`. */
  lemma EpsClosureContains(ts: seq<Edge>, s: set<nat>)
    ensures s <= EpsClosure(ts, s)
  {
    forall p | p in s
      ensures p in EpsClosure(ts, s)
    {
      EpsReachRefl(ts, p);
      InEpsClosure(ts, s, p);
    }
  }

  /** The closure of `s` is closed under moves that read nothing. */
  lemma EpsClosureIsClosed(ts: seq<Edge>, s: set<nat>)
    ensures EpsClosed(ts, EpsClosure(ts, s))
  {
    forall i | 0 <= i < |ts| && ts[i].sym == Epsilon && ts[i].src in EpsClosure(ts, s)
      ensures ts[i].dst in EpsClosure(ts, s)
    {
      InEpsClosure(ts, s, ts[i].src);
      assert EpsReachFrom(ts, s, ts[i].src);
      var p :| p in s && EpsReach(ts, p, ts[i].src);
      EpsReachStep(ts, p, ts[i]);
      InEpsClosure(ts, s, ts[i].dst);
    }
  }

  /** The closure of `s` lies inside every closed set that contains `s`. */
  lemma EpsClosureIsLeast(ts: seq<Edge>, s: set<nat>, c: set<nat>)
    requires s <= c && EpsClosed(ts, c)
    ensures EpsClosure(ts, s) <= c
  {
    forall q | q in EpsClosure(ts, s)
      ensures q in c
    {
      InEpsClosure(ts, s, q);
      var p :| p in s && EpsReach(ts, p, q);
      var es :| IsRun(ts, p, es, q) && Label(es) == [];
      ClosedHoldsReach(ts, c, p, es, q);
    }
  }

  /** A closed set that contains `s` and reaches only what `s` reaches is the closure of `s`. */
  lemma EpsClosureUnique(ts: seq<Edge>, s: set<nat>, c: set<nat>)
    requires s <= c && EpsClosed(ts, c)
    requires forall q :: q in c ==> EpsReachFrom(ts, s, q)
    ensures c == EpsClosure(ts, s)
  {
    EpsClosureIsLeast(ts, s, c);
    forall q | q in c
      ensures q in EpsClosure(ts, s)
    {
      InEpsClosure(ts, s, q);
    }
    assert c <= EpsClosure(ts, s);
  }

  /** Closure distributes over union. */
  lemma EpsClosureUnion(ts: seq<Edge>, a: set<nat>, b: set<nat>)
    ensures EpsClosure(ts, a + b) == EpsClosure(ts, a) + EpsClosure(ts, b)
  {
    forall q
      ensures q in EpsClosure(ts, a + b) <==> q in EpsClosure(ts, a) + EpsClosure(ts, b)
    {
      InEpsClosure(ts, a + b, q);
      InEpsClosure(ts, a, q);
      InEpsClosure(ts, b, q);
    }
  }

  lemma SubsetCardinality<T>(a: set<T>, b: set<T>)
    requires a <= b
    ensures |a| <= |b|
    decreases |a|
  {
    if a != {} {
      var x :| x in a;
      SubsetCardinality(a - {x}, b - {x});
    }
  }

  /** Growing a set inside a finite universe shrinks what is left of the universe. */
  lemma ShrinkingRemainder<T>(u: set<T>, a: set<T>, b: set<T>, x: T)
    requires a <= b && x in b && x !in a && x in u
    ensures |u - b| < |u - a|
  {
    SubsetCardinality(u - b, (u - a) - {x});
  }

  /** The states on a stack. */
  function Members(st: seq<nat>): set<nat> {
    set k | 0 <= k < |st| :: st[k]
  }

  lemma MembersPush(st: seq<nat>, x: nat)
    ensures Members(st + [x]) == Members(st) + {x}
  {
    assert (st + [x])[|st|] == x;
    forall y | y in Members(st)
      ensures y in Members(st + [x])
    {
      var k :| 0 <= k < |st| && st[k] == y;
      assert (st + [x])[k] == y;
    }
  }

  lemma MembersPop(st: seq<nat>)
    requires st != []
    ensures Members(st) == Members(st[..|st| - 1]) + {st[|st| - 1]}
  {
    assert st == st[..|st| - 1] + [st[|st| - 1]];
    MembersPush(st[..|st| - 1], st[|st| - 1]);
  }

  /** Every member of `c` is reachable from `start` by moves that read nothing. */
  ghost predicate AllReached(ts: seq<Edge>, start: nat, c: set<nat>) {
    forall q :: q in c ==> EpsReach(ts, start, q)
  }

  /** Moves that read nothing out of `c` stay in `c`, except from the states in `pending`. */
  ghost predicate ClosedExcept(ts: seq<Edge>, c: set<nat>, pending: set<nat>) {
    forall i :: 0 <= i < |ts| && ts[i].sym == Epsilon && ts[i].src in c && ts[i].src !in pending
      ==> ts[i].dst in c
  }

  /** Every move that reads nothing out of `s` among the first `n` transitions ends in `c`. */
  ghost predicate Followed(ts: seq<Edge>, s: nat, c: set<nat>, n: nat) {
    forall j :: 0 <= j < n && j < |ts| && ts[j].src == s && ts[j].sym == Epsilon ==> ts[j].dst in c
  }

  lemma FollowedStep(ts: seq<Edge>, s: nat, c: set<nat>, d: set<nat>, i: nat)
    requires Followed(ts, s, c, i) && c <= d && i < |ts|
    requires ts[i].src == s && ts[i].sym == Epsilon ==> ts[i].dst in d
    ensures Followed(ts, s, d, i + 1)
  {
  }

  /**
   * `epsilon_closure(transitions, start)`: pop a state, push every state one
   * move that reads nothing away from it that is not yet in the closure.
   */
  method EpsilonClosure(ts: seq<Edge>, start: nat) returns (closure: set<nat>)
    ensures start in closure
    ensures EpsClosed(ts, closure)
    ensures forall q :: q in closure ==> EpsReach(ts, start, q)
    ensures closure == EpsClosure(ts, {start})
  {
    ghost var universe := {start} + Dsts(ts);
    var stack := [start];
    closure := {start};
    EpsReachRefl(ts, start);
    assert Members(stack) == {start} by {
      assert stack[0] == start;
    }
    while stack != []
      invariant start in closure && closure <= universe
      invariant Members(stack) <= closure
      invariant AllReached(ts, start, closure)
      invariant ClosedExcept(ts, closure, Members(stack))
      decreases |universe - closure|, |stack|
    {
      var s := stack[|stack| - 1];
      MembersPop(stack);
      stack := stack[..|stack| - 1];
      ghost var before, popped := closure, stack;
      for i := 0 to |ts|
        invariant before <= closure <= universe
        invariant closure == before ==> stack == popped
        invariant Members(stack) <= closure
        invariant AllReached(ts, start, closure)
        invariant ClosedExcept(ts, closure, Members(stack) + {s})
        invariant Followed(ts, s, closure, i)
      {
        var e := ts[i];
        ghost var seen := closure;
        if e.src == s && e.sym == Epsilon && e.dst !in closure {
          EpsReachStep(ts, start, e);
          assert e.dst in Dsts(ts);
          MembersPush(stack, e.dst);
          closure := closure + {e.dst};
          stack := stack + [e.dst];
        }
        FollowedStep(ts, s, seen, closure, i);
      }
      if closure != before {
        var x :| x in closure && x !in before;
        ShrinkingRemainder(universe, before, closure, x);
      }
    }
    ReachedFromStart(ts, start, closure);
  }

  /** A closed set of states all reachable from `start`, holding `start`, is the closure of `start`. */
  lemma ReachedFromStart(ts: seq<Edge>, start: nat, c: set<nat>)
    requires start in c && EpsClosed(ts, c)
    requires forall q :: q in c ==> EpsReach(ts, start, q)
    ensures c == EpsClosure(ts, {start})
  {
    forall q | q in c
      ensures EpsReachFrom(ts, {start}, q)
    {
      assert start in {start} && EpsReach(ts, start, q);
    }
    EpsClosureUnique(ts, {start}, c);
  }
}
