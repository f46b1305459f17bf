/**
 * What the automaton built by `DFA::from_nfa` (src/custom_regex.rs) accepts:
 * walking it along a string follows the set of automaton states reachable
 * reading that string, so it accepts exactly the strings the automaton it was
 * built from accepts. It also does not depend on the order in which the
 * construction visited states or characters.
 */
module SubsetLanguage {
  import opened Syntax
  import opened Automaton
  import opened Closure
  import opened Subset

  /** `DFA::matches` as a function: walk from the start, accept in an accepting state. */
  function DfaAccepts(d: Dfa, w: seq<char>): bool {
    match Walk(d.transitions, d.start, w)
    case None => false
    case Some(s) => s in d.acceptStates
  }

  /** The subset simulation: from `cur`, move to the closure of the targets on each character in turn. */
  ghost function Simulate(ts: seq<Edge>, cur: set<nat>, w: seq<char>): set<nat>
    decreases |w|
  {
    if w == [] then cur else Simulate(ts, Step(ts, cur, w[0]), w[1..])
  }

  /** Some member of `s` reaches `q` reading `w`. */
  ghost predicate ReachesFrom(ts: seq<Edge>, s: set<nat>, w: seq<char>, q: nat) {
    exists p :: p in s && Reaches(ts, p, w, q)
  }

  // ---------------------------------------------------------------------------
  // The simulation follows the automaton
  // ---------------------------------------------------------------------------

  /** Nothing is reached from no state. */
  lemma {:induction false} SimulateEmpty(ts: seq<Edge>, w: seq<char>)
    ensures Simulate(ts, {}, w) == {}
    decreases |w|
  {
    if w != [] {
      assert Targets(ts, {}, w[0]) == {};
      EpsClosureEmpty(ts);
      SimulateEmpty(ts, w[1..]);
    }
  }

  /**
   * A walk reading `[c] + w` from `p` is a silent walk to the source of a
   * transition reading `c`, then a walk reading `w` from its destination.
   */
  lemma {:induction false} FirstRead(ts: seq<Edge>, p: nat, es: seq<Edge>, c: char, w: seq<char>, q: nat) returns (i: nat)
    requires IsRun(ts, p, es, q) && Label(es) == [c] + w
    ensures i < |ts| && ts[i].sym == Char(c)
    ensures EpsReach(ts, p, ts[i].src) && Reaches(ts, ts[i].dst, w, q)
    decreases |es|
  {
    FirstStep(ts, p, es, q);
    var e := es[0];
    assert e in ts;
    var lbl := Label(es);
    if e.sym == Epsilon {
      assert Read(e.sym) == [];
      assert Label(es[1..]) == [c] + w;
      i := FirstRead(ts, e.dst, es[1..], c, w, q);
      SilentBefore(ts, e, [], ts[i].src);
    } else {
      assert Read(e.sym) == [e.sym.c];
      assert lbl[0] == e.sym.c == c;
      assert lbl[1..] == Label(es[1..]) == w;
      i :| 0 <= i < |ts| && ts[i] == e;
      EpsReachRefl(ts, p);
    }
  }

  /** The converse of `FirstRead`. */
  lemma ReadFirst(ts: seq<Edge>, p: nat, i: nat, c: char, w: seq<char>, q: nat)
    requires i < |ts| && ts[i].sym == Char(c)
    requires EpsReach(ts, p, ts[i].src) && Reaches(ts, ts[i].dst, w, q)
    ensures Reaches(ts, p, [c] + w, q)
  {
    EdgeReaches(ts, ts[i]);
    ReachesAppend(ts, ts[i].src, [c], ts[i].dst, w, q);
    ReachesAppend(ts, p, [], ts[i].src, [c] + w, q);
    assert [] + ([c] + w) == [c] + w;
  }

  /** One character: reading `[c] + w` from `s` is reading `w` from the targets on `c` of the closure of `s`. */
  lemma ReachesFromStep(ts: seq<Edge>, s: set<nat>, c: char, w: seq<char>, q: nat)
    ensures ReachesFrom(ts, s, [c] + w, q) <==> ReachesFrom(ts, Targets(ts, EpsClosure(ts, s), c), w, q)
  {
    if ReachesFrom(ts, s, [c] + w, q) {
      var p :| p in s && Reaches(ts, p, [c] + w, q);
      var es :| IsRun(ts, p, es, q) && Label(es) == [c] + w;
      var i := FirstRead(ts, p, es, c, w, q);
      InEpsClosure(ts, s, ts[i].src);
      assert ts[i].dst in Targets(ts, EpsClosure(ts, s), c);
    }
    if ReachesFrom(ts, Targets(ts, EpsClosure(ts, s), c), w, q) {
      var t :| t in Targets(ts, EpsClosure(ts, s), c) && Reaches(ts, t, w, q);
      var i :| 0 <= i < |ts| && ts[i].src in EpsClosure(ts, s) && ts[i].sym == Char(c) && ts[i].dst == t;
      InEpsClosure(ts, s, ts[i].src);
      var p :| p in s && EpsReach(ts, p, ts[i].src);
      ReadFirst(ts, p, i, c, w, q);
    }
  }

  /** The simulation from the closure of `s` holds exactly the states `s` reaches reading `w`. */
  lemma {:induction false} SimulateReaches(ts: seq<Edge>, s: set<nat>, w: seq<char>, q: nat)
    ensures q in Simulate(ts, EpsClosure(ts, s), w) <==> ReachesFrom(ts, s, w, q)
    decreases |w|
  {
    if w == [] {
      InEpsClosure(ts, s, q);
    } else {
      var c, rest := w[0], w[1..];
      assert w == [c] + rest;
      SimulateReaches(ts, Targets(ts, EpsClosure(ts, s), c), rest, q);
      ReachesFromStep(ts, s, c, rest, q);
    }
  }

  // ---------------------------------------------------------------------------
  // The automaton built follows the simulation
  // ---------------------------------------------------------------------------

  /**
   * From a state of a subset automaton of `n`, the walk ends in the simulated
   * set, which is again a state; a missing transition means the simulation
   * dies out.
   */
  lemma {:induction false} WalkSimulates(n: Nfa, d: Dfa, cur: set<nat>, w: seq<char>)
    requires IsSubsetDfa(n, d) && cur in States(d)
    ensures Walk(d.transitions, cur, w).Some? ==>
              Walk(d.transitions, cur, w).value == Simulate(n.transitions, cur, w)
              && Walk(d.transitions, cur, w).value in States(d)
    ensures Walk(d.transitions, cur, w).None? ==> Simulate(n.transitions, cur, w) == {}
    decreases |w|
  {
    if w != [] {
      var ts, c := n.transitions, w[0];
      if (cur, c) in d.transitions {
        var next := d.transitions[(cur, c)];
        assert next == Step(ts, cur, c);
        assert next in States(d);
        WalkSimulates(n, d, next, w[1..]);
      } else {
        assert c !in Labels(ts, cur);
        LabelsHaveTargets(ts, cur, c);
        EpsClosureEmpty(ts);
        SimulateEmpty(ts, w[1..]);
      }
    }
  }

  /** The automaton `from_nfa` builds for `n` accepts exactly the strings `n` accepts. */
  lemma SubsetCorrect(n: Nfa, d: Dfa, w: seq<char>)
    requires IsSubsetDfa(n, d)
    ensures DfaAccepts(d, w) <==> Accepts(n, w)
  {
    WalkSimulates(n, d, d.start, w);
    SimulateReaches(n.transitions, {n.start}, w, n.accept);
    assert ReachesFrom(n.transitions, {n.start}, w, n.accept) <==> Accepts(n, w);
  }

  // ---------------------------------------------------------------------------
  // The order of the worklist and of `char_map` does not matter
  // ---------------------------------------------------------------------------

  /** Two subset automata of `n` walk alike from a state they share. */
  lemma {:induction false} WalkAgree(n: Nfa, d1: Dfa, d2: Dfa, cur: set<nat>, w: seq<char>)
    requires IsSubsetDfa(n, d1) && IsSubsetDfa(n, d2)
    requires cur in States(d1) && cur in States(d2)
    ensures Walk(d1.transitions, cur, w) == Walk(d2.transitions, cur, w)
    ensures Walk(d1.transitions, cur, w).Some? ==>
              Walk(d1.transitions, cur, w).value in States(d1) && Walk(d1.transitions, cur, w).value in States(d2)
    decreases |w|
  {
    if w != [] {
      var c := w[0];
      assert (cur, c) in d1.transitions <==> c in Labels(n.transitions, cur);
      assert (cur, c) in d2.transitions <==> c in Labels(n.transitions, cur);
      if (cur, c) in d1.transitions {
        assert d1.transitions[(cur, c)] == d2.transitions[(cur, c)];
        assert d1.transitions[(cur, c)] in States(d1) && d2.transitions[(cur, c)] in States(d2);
        WalkAgree(n, d1, d2, d1.transitions[(cur, c)], w[1..]);
      }
    }
  }

  /** Every state of `d1` is a state of `d2`. */
  lemma StatesAgree(n: Nfa, d1: Dfa, d2: Dfa)
    requires IsSubsetDfa(n, d1) && IsSubsetDfa(n, d2)
    ensures States(d1) <= States(d2)
  {
    forall s | s in States(d1)
      ensures s in States(d2)
    {
      var w :| Walk(d1.transitions, d1.start, w) == Some(s);
      WalkAgree(n, d1, d2, d1.start, w);
    }
  }

  /** The transitions of `d1` are transitions of `d2` when its states are. */
  lemma TransitionsAgree(n: Nfa, d1: Dfa, d2: Dfa)
    requires IsSubsetDfa(n, d1) && IsSubsetDfa(n, d2) && States(d1) <= States(d2)
    ensures forall k :: k in d1.transitions ==> k in d2.transitions && d2.transitions[k] == d1.transitions[k]
  {
    forall k | k in d1.transitions
      ensures k in d2.transitions && d2.transitions[k] == d1.transitions[k]
    {
      assert k.0 in States(d2) && k.1 in Labels(n.transitions, k.0);
    }
  }

  /**
   * `from_nfa` yields the same start, the same transitions and the same
   * accepting states whatever order it visits states and characters in; only
   * the order of `accept_states` may differ.
   */
  lemma SubsetDeterminate(n: Nfa, d1: Dfa, d2: Dfa)
    requires IsSubsetDfa(n, d1) && IsSubsetDfa(n, d2)
    ensures d1.start == d2.start
    ensures d1.transitions == d2.transitions
    ensures forall s :: s in d1.acceptStates <==> s in d2.acceptStates
  {
    StatesAgree(n, d1, d2);
    StatesAgree(n, d2, d1);
    TransitionsAgree(n, d1, d2);
    TransitionsAgree(n, d2, d1);
    assert d1.transitions.Keys == d2.transitions.Keys;
  }
}
