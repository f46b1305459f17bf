/**
 * The nondeterministic automaton of src/custom_regex.rs (`State`, `NFASymbol`,
 * `NFA`) and what it means for one to read a string: a walk along its
 * transitions whose characters spell the string.
 */
module Automaton {

  /** A transition label: a character, or a move that reads nothing. */
  datatype Sym = Char(c: char) | Epsilon

  /** A transition `(src, sym, dst)`; states are plain numbers. */
  datatype Edge = Edge(src: nat, sym: Sym, dst: nat)

  datatype Nfa = Nfa(start: nat, accept: nat, transitions: seq<Edge>, stateCount: nat)

  /** Every state the automaton mentions is below `stateCount`. */
  predicate WellFormed(n: Nfa) {
    && n.start < n.stateCount
    && n.accept < n.stateCount
    && forall i :: 0 <= i < |n.transitions| ==>
         n.transitions[i].src < n.stateCount && n.transitions[i].dst < n.stateCount
  }

  /** What one transition reads: its character, or nothing. */
  function Read(s: Sym): seq<char> {
    match s
    case Char(c) => [c]
    case Epsilon => []
  }

  /** The characters read along a sequence of edges. */
  function Label(es: seq<Edge>): seq<char> {
    if es == [] then [] else Read(es[0].sym) + Label(es[1..])
  }

  /** `es` is a walk from `p` to `q` along transitions of `ts`. */
  ghost predicate IsRun(ts: seq<Edge>, p: nat, es: seq<Edge>, q: nat)
    decreases |es|
  {
    if es == [] then p == q
    else es[0] in ts && es[0].src == p && IsRun(ts, es[0].dst, es[1..], q)
  }

  /** Some walk from `p` to `q` reads exactly `w`. */
  ghost predicate Reaches(ts: seq<Edge>, p: nat, w: seq<char>, q: nat) {
    exists es :: IsRun(ts, p, es, q) && Label(es) == w
  }

  /** `q` is reachable from `p` by moves that read nothing. */
  ghost predicate EpsReach(ts: seq<Edge>, p: nat, q: nat) {
    Reaches(ts, p, [], q)
  }

  /** The automaton accepts `w`: some walk from start to accept reads `w`. */
  ghost predicate Accepts(n: Nfa, w: seq<char>) {
    Reaches(n.transitions, n.start, w, n.accept)
  }

  // ---------------------------------------------------------------------------
  // Walks: joining, cutting, and changing the transition list
  // ---------------------------------------------------------------------------

  lemma {:induction false} LabelAppend(a: seq<Edge>, b: seq<Edge>)
    ensures Label(a + b) == Label(a) + Label(b)
  {
    if a == [] {
      assert a + b == b;
    } else {
      assert (a + b)[0] == a[0];
      assert (a + b)[1..] == a[1..] + b;
      LabelAppend(a[1..], b);
    }
  }

  lemma {:induction false} RunAppend(ts: seq<Edge>, p: nat, a: seq<Edge>, m: nat, b: seq<Edge>, q: nat)
    requires IsRun(ts, p, a, m) && IsRun(ts, m, b, q)
    ensures IsRun(ts, p, a + b, q)
    ensures Label(a + b) == Label(a) + Label(b)
    decreases |a|
  {
    LabelAppend(a, b);
    if a == [] {
      assert a + b == b;
    } else {
      assert (a + b)[0] == a[0];
      assert (a + b)[1..] == a[1..] + b;
      RunAppend(ts, a[0].dst, a[1..], m, b, q);
    }
  }

  /** The state a walk from `p` is in after its first `k` edges. */
  function StateAfter(p: nat, es: seq<Edge>, k: nat): nat
    requires k <= |es|
  {
    if k == 0 then p else es[k - 1].dst
  }

  lemma {:induction false} RunSplit(ts: seq<Edge>, p: nat, es: seq<Edge>, q: nat, k: nat)
    requires IsRun(ts, p, es, q) && k <= |es|
    ensures IsRun(ts, p, es[..k], StateAfter(p, es, k))
    ensures IsRun(ts, StateAfter(p, es, k), es[k..], q)
    ensures Label(es) == Label(es[..k]) + Label(es[k..])
    decreases k
  {
    assert es == es[..k] + es[k..];
    LabelAppend(es[..k], es[k..]);
    if k > 0 {
      RunSplit(ts, es[0].dst, es[1..], q, k - 1);
      assert es[1..][..k - 1] == es[..k][1..];
      assert es[1..][k - 1..] == es[k..];
      assert StateAfter(es[0].dst, es[1..], k - 1) == StateAfter(p, es, k);
    }
  }

  /** A single transition is a walk. */
  lemma OneStep(ts: seq<Edge>, e: Edge)
    requires e in ts
    ensures IsRun(ts, e.src, [e], e.dst)
    ensures Label([e]) == Read(e.sym)
  {
    assert [e][1..] == [];
  }

  /** A walk that reads nothing uses only moves that read nothing. */
  lemma {:induction false} SilentRunIsEpsilon(ts: seq<Edge>, p: nat, es: seq<Edge>, q: nat)
    requires IsRun(ts, p, es, q) && Label(es) == []
    ensures forall i :: 0 <= i < |es| ==> es[i].sym == Epsilon
    decreases |es|
  {
    if es != [] {
      SilentRunIsEpsilon(ts, es[0].dst, es[1..], q);
    }
  }

  /** A walk along the transitions of `ts` is one along any list holding them all. */
  lemma {:induction false} RunWiden(ts: seq<Edge>, us: seq<Edge>, p: nat, es: seq<Edge>, q: nat)
    requires IsRun(ts, p, es, q)
    requires forall e :: e in ts ==> e in us
    ensures IsRun(us, p, es, q)
    decreases |es|
  {
    if es != [] {
      RunWiden(ts, us, es[0].dst, es[1..], q);
    }
  }

  /** Reachability by moves that read nothing is reflexive and transitive. */
  lemma EpsReachRefl(ts: seq<Edge>, p: nat)
    ensures EpsReach(ts, p, p)
  {
    assert IsRun(ts, p, [], p) && Label([]) == [];
  }

  lemma EpsReachStep(ts: seq<Edge>, p: nat, e: Edge)
    requires EpsReach(ts, p, e.src) && e in ts && e.sym == Epsilon
    ensures EpsReach(ts, p, e.dst)
  {
    var es :| IsRun(ts, p, es, e.src) && Label(es) == [];
    OneStep(ts, e);
    RunAppend(ts, p, es, e.src, [e], e.dst);
  }

  lemma ReachesAppend(ts: seq<Edge>, p: nat, u: seq<char>, m: nat, v: seq<char>, q: nat)
    requires Reaches(ts, p, u, m) && Reaches(ts, m, v, q)
    ensures Reaches(ts, p, u + v, q)
  {
    var a :| IsRun(ts, p, a, m) && Label(a) == u;
    var b :| IsRun(ts, m, b, q) && Label(b) == v;
    RunAppend(ts, p, a, m, b, q);
  }

  /** A single transition reads its symbol. */
  lemma EdgeReaches(ts: seq<Edge>, e: Edge)
    requires e in ts
    ensures Reaches(ts, e.src, Read(e.sym), e.dst)
  {
    OneStep(ts, e);
  }

  /** A move that reads nothing, then a walk reading `w`, reads `w`. */
  lemma SilentBefore(ts: seq<Edge>, e: Edge, w: seq<char>, q: nat)
    requires e in ts && e.sym == Epsilon
    requires Reaches(ts, e.dst, w, q)
    ensures Reaches(ts, e.src, w, q)
  {
    var es :| IsRun(ts, e.dst, es, q) && Label(es) == w;
    OneStep(ts, e);
    RunAppend(ts, e.src, [e], e.dst, es, q);
    assert [] + w == w;
  }

  /** A walk reading `w`, then a move that reads nothing, reads `w`. */
  lemma SilentAfter(ts: seq<Edge>, p: nat, w: seq<char>, e: Edge)
    requires e in ts && e.sym == Epsilon
    requires Reaches(ts, p, w, e.src)
    ensures Reaches(ts, p, w, e.dst)
  {
    var es :| IsRun(ts, p, es, e.src) && Label(es) == w;
    OneStep(ts, e);
    RunAppend(ts, p, es, e.src, [e], e.dst);
    assert w + [] == w;
  }

  lemma ReachesWiden(ts: seq<Edge>, us: seq<Edge>, p: nat, w: seq<char>, q: nat)
    requires Reaches(ts, p, w, q)
    requires forall e :: e in ts ==> e in us
    ensures Reaches(us, p, w, q)
  {
    var es :| IsRun(ts, p, es, q) && Label(es) == w;
    RunWiden(ts, us, p, es, q);
  }

  /** From a state no transition leaves, the only walk is the empty one. */
  lemma Stuck(ts: seq<Edge>, p: nat, es: seq<Edge>, q: nat)
    requires IsRun(ts, p, es, q)
    requires forall i :: 0 <= i < |ts| ==> ts[i].src != p
    ensures es == [] && q == p
  {
  }

  /** A non-empty walk is its first transition followed by the rest. */
  lemma FirstStep(ts: seq<Edge>, p: nat, es: seq<Edge>, q: nat)
    requires IsRun(ts, p, es, q) && es != []
    ensures es[0] in ts && es[0].src == p
    ensures IsRun(ts, es[0].dst, es[1..], q)
    ensures Label(es) == Read(es[0].sym) + Label(es[1..])
  {
  }

  /**
   * Cuts a walk at its first transition outside `inner`: the part before it is
   * a walk along `inner`; `k == |es|` when there is no such transition.
   */
  lemma {:induction false} FirstExit(inner: seq<Edge>, ts: seq<Edge>, p: nat, es: seq<Edge>, q: nat) returns (k: nat)
    requires IsRun(ts, p, es, q)
    ensures k <= |es|
    ensures IsRun(inner, p, es[..k], StateAfter(p, es, k))
    ensures IsRun(ts, StateAfter(p, es, k), es[k..], q)
    ensures Label(es) == Label(es[..k]) + Label(es[k..])
    ensures k < |es| ==> es[k] !in inner
    decreases |es|
  {
    if es == [] || es[0] !in inner {
      k := 0;
    } else {
      var j := FirstExit(inner, ts, es[0].dst, es[1..], q);
      k := j + 1;
      assert es[..k][1..] == es[1..][..j];
      assert StateAfter(es[0].dst, es[1..], j) == StateAfter(p, es, k);
      assert es[1..][j..] == es[k..];
    }
    RunSplit(ts, p, es, q, k);
  }
}
