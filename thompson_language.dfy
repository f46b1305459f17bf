/**
 * The automaton `from_ast` builds for a tree accepts exactly the strings the
 * tree stands for. Each builder is taken apart: a walk through the built
 * automaton is cut where it leaves the renumbered copy of a part, and the
 * copy is renumbered back.
 */
module ThompsonLanguage {
  import opened Syntax
  import opened Automaton
  import opened Thompson

  // ---------------------------------------------------------------------------
  // Renumbering walks
  // ---------------------------------------------------------------------------

  lemma ShiftZero(ts: seq<Edge>)
    ensures Shift(ts, 0) == ts
  {
  }

  /** A walk of `ts` renumbered by `k` is a walk of `Shift(ts, k)` reading the same. */
  lemma {:induction false} RunShift(ts: seq<Edge>, k: nat, p: nat, es: seq<Edge>, q: nat)
    requires IsRun(ts, p, es, q)
    ensures IsRun(Shift(ts, k), p + k, Shift(es, k), q + k)
    ensures Label(Shift(es, k)) == Label(es)
    decreases |es|
  {
    if es != [] {
      var i :| 0 <= i < |ts| && ts[i] == es[0];
      assert Shift(ts, k)[i] == Shift(es, k)[0];
      assert Shift(es, k)[1..] == Shift(es[1..], k);
      RunShift(ts, k, es[0].dst, es[1..], q);
    }
  }

  lemma ReachesShift(ts: seq<Edge>, k: nat, p: nat, w: seq<char>, q: nat)
    requires Reaches(ts, p, w, q)
    ensures Reaches(Shift(ts, k), p + k, w, q + k)
  {
    var es :| IsRun(ts, p, es, q) && Label(es) == w;
    RunShift(ts, k, p, es, q);
  }

  /**
   * A walk of the copy of `n` renumbered by `k`, from a state of the copy,
   * stays in the copy and is a walk of `n` renumbered: it ends at `q0 + k`.
   */
  lemma {:induction false} Unshift(n: Nfa, k: nat, p0: nat, es: seq<Edge>, q: nat) returns (q0: nat)
    requires WellFormed(n) && p0 < n.stateCount
    requires IsRun(Shift(n.transitions, k), p0 + k, es, q)
    ensures q == q0 + k && q0 < n.stateCount
    ensures Reaches(n.transitions, p0, Label(es), q0)
    decreases |es|
  {
    var ts := n.transitions;
    if es == [] {
      q0 := p0;
      EpsReachRefl(ts, p0);
    } else {
      var i :| 0 <= i < |ts| && Shift(ts, k)[i] == es[0];
      q0 := Unshift(n, k, ts[i].dst, es[1..], q);
      EdgeReaches(ts, ts[i]);
      ReachesAppend(ts, p0, Read(es[0].sym), ts[i].dst, Label(es[1..]), q0);
    }
  }

  /**
   * A walk from a state of the copy of `part` (renumbered by `k`), cut at its
   * first transition outside the copy: the part before reads what `part`
   * reads between the corresponding states.
   */
  lemma LeaveCopy(ts: seq<Edge>, part: Nfa, k: nat, p0: nat, es: seq<Edge>, q: nat)
      returns (x: seq<char>, m0: nat, post: seq<Edge>)
    requires WellFormed(part) && p0 < part.stateCount
    requires IsRun(ts, p0 + k, es, q)
    ensures m0 < part.stateCount && Reaches(part.transitions, p0, x, m0)
    ensures IsRun(ts, m0 + k, post, q) && |post| <= |es|
    ensures Label(es) == x + Label(post)
    ensures post != [] ==> post[0] !in Shift(part.transitions, k)
  {
    var j := FirstExit(Shift(part.transitions, k), ts, p0 + k, es, q);
    m0 := Unshift(part, k, p0, es[..j], StateAfter(p0 + k, es, j));
    x, post := Label(es[..j]), es[j..];
  }

  /**
   * A walk that enters the copy of `part` (renumbered by `k`) at its start and
   * ends outside the copy leaves it by a transition from the copy's accept
   * state, when that is the only way out; before that it reads a string
   * `part` accepts.
   */
  lemma ThroughPart(ts: seq<Edge>, part: Nfa, k: nat, es: seq<Edge>, q: nat)
      returns (x: seq<char>, exit: Edge, rest: seq<Edge>)
    requires WellFormed(part)
    requires IsRun(ts, part.start + k, es, q)
    requires q < k || k + part.stateCount <= q
    requires forall e {:trigger e in ts} :: e in ts && e !in Shift(part.transitions, k) && k <= e.src < k + part.stateCount
               ==> e.src == part.accept + k
    ensures Accepts(part, x)
    ensures exit in ts && exit !in Shift(part.transitions, k) && exit.src == part.accept + k
    ensures IsRun(ts, exit.dst, rest, q) && |rest| < |es|
    ensures Label(es) == x + Read(exit.sym) + Label(rest)
  {
    var m0, post;
    x, m0, post := LeaveCopy(ts, part, k, part.start, es, q);
    if post == [] {
      assert false;
    }
    FirstStep(ts, m0 + k, post, q);
    assert m0 == part.accept;
    exit, rest := post[0], post[1..];
  }

  /**
   * A walk from the start of the copy of `part` to the copy's accept state,
   * when no transition leads out of the copy, reads a string `part` accepts.
   */
  lemma InsidePart(ts: seq<Edge>, part: Nfa, k: nat, es: seq<Edge>)
    requires WellFormed(part)
    requires IsRun(ts, part.start + k, es, part.accept + k)
    requires forall e {:trigger e in ts} :: e in ts && e !in Shift(part.transitions, k) ==> !(k <= e.src < k + part.stateCount)
    ensures Accepts(part, Label(es))
  {
    var x, m0, post := LeaveCopy(ts, part, k, part.start, es, part.accept + k);
    NoWayOut(ts, part, k, m0, post, part.accept + k);
    assert m0 == part.accept;
    assert Label(es) == x + [] == x;
    assert Reaches(part.transitions, part.start, x, part.accept);
  }

  /** A walk from a state of the copy of `part` that cannot leave the copy makes no move out of it. */
  lemma NoWayOut(ts: seq<Edge>, part: Nfa, k: nat, m0: nat, post: seq<Edge>, q: nat)
    requires m0 < part.stateCount && IsRun(ts, m0 + k, post, q)
    requires post != [] ==> post[0] !in Shift(part.transitions, k)
    requires forall e {:trigger e in ts} :: e in ts && e !in Shift(part.transitions, k) ==> !(k <= e.src < k + part.stateCount)
    ensures post == []
  {
  }

  /** A copy of `part` inside `ts` reads what `part` accepts, from its start to its accept state. */
  lemma PartReaches(ts: seq<Edge>, part: Nfa, k: nat, w: seq<char>)
    requires Accepts(part, w)
    requires forall e :: e in Shift(part.transitions, k) ==> e in ts
    ensures Reaches(ts, part.start + k, w, part.accept + k)
  {
    ReachesShift(part.transitions, k, part.start, w, part.accept);
    ReachesWiden(Shift(part.transitions, k), ts, part.start + k, w, part.accept + k);
  }

  /**
   * A walk from the start of the copy of `part` to a state `q` below the copy,
   * from which nothing leaves, when the copy is left only by one move that
   * reads nothing from its accept state to `q`, reads a string `part` accepts.
   */
  lemma ArmToAccept(ts: seq<Edge>, part: Nfa, k: nat, es: seq<Edge>, q: nat)
    requires WellFormed(part) && q < k
    requires IsRun(ts, part.start + k, es, q)
    requires forall e {:trigger e in ts} :: e in ts && e !in Shift(part.transitions, k) && k <= e.src < k + part.stateCount
               ==> e == Edge(part.accept + k, Epsilon, q)
    requires forall i :: 0 <= i < |ts| ==> ts[i].src != q
    ensures Accepts(part, Label(es))
  {
    var x, exit, rest := ThroughPart(ts, part, k, es, q);
    Stuck(ts, q, rest, q);
    assert Label(es) == x + [] + [];
  }

  lemma ArmReaches(ts: seq<Edge>, part: Nfa, k: nat, w: seq<char>, q: nat)
    requires WellFormed(part) && q < k
    requires Reaches(ts, part.start + k, w, q)
    requires forall e {:trigger e in ts} :: e in ts && e !in Shift(part.transitions, k) && k <= e.src < k + part.stateCount
               ==> e == Edge(part.accept + k, Epsilon, q)
    requires forall i :: 0 <= i < |ts| ==> ts[i].src != q
    ensures Accepts(part, w)
  {
    var es: seq<Edge> :| IsRun(ts, part.start + k, es, q) && Label(es) == w;
    ArmToAccept(ts, part, k, es, q);
  }

  // ---------------------------------------------------------------------------
  // Taking each builder apart
  // ---------------------------------------------------------------------------

  lemma EmptyRejects(w: seq<char>)
    ensures !Accepts(EmptyNfa(), w)
  {
  }

  lemma LiteralAccepts(c: char, w: seq<char>)
    ensures Accepts(LiteralNfa(c), w) <==> w == [c]
  {
    var n := LiteralNfa(c);
    if Accepts(n, w) {
      var es: seq<Edge> :| IsRun(n.transitions, 0, es, 1) && Label(es) == w;
      FirstStep(n.transitions, 0, es, 1);
      Stuck(n.transitions, 1, es[1..], 1);
    }
    if w == [c] {
      EdgeReaches(n.transitions, Edge(0, Char(c), 1));
    }
  }

  // Concatenation ------------------------------------------------------------

  /**
   * Inside `new_concat`, the copy of `a` is left only by the join to `b`'s
   * start, and the copy of `b` is never left.
   */
  lemma ConcatExits(a: Nfa, b: Nfa)
    requires WellFormed(a) && WellFormed(b)
    ensures var offset := Max(a.stateCount, b.stateCount);
      && (forall e {:trigger e in ConcatNfa(a, b).transitions} :: e in ConcatNfa(a, b).transitions && e !in Shift(a.transitions, 0) && 0 <= e.src < a.stateCount
            ==> e == Edge(a.accept, Epsilon, b.start + offset))
      && (forall e {:trigger e in ConcatNfa(a, b).transitions} :: e in ConcatNfa(a, b).transitions && e !in Shift(b.transitions, offset)
            ==> !(offset <= e.src < offset + b.stateCount))
  {
    ShiftZero(a.transitions);
    forall e {:trigger e in ConcatNfa(a, b).transitions} | e in ConcatNfa(a, b).transitions
      ensures var offset := Max(a.stateCount, b.stateCount);
        && (e !in a.transitions && e.src < a.stateCount ==> e == Edge(a.accept, Epsilon, b.start + offset))
        && (e !in Shift(b.transitions, offset) ==> !(offset <= e.src < offset + b.stateCount))
    {
      ConcatSeparated(a, b, e);
    }
  }

  /** A walk through `a`, then the join, then the copy of `b` renumbered by `k`. */
  lemma ConcatCut(ts: seq<Edge>, a: Nfa, b: Nfa, k: nat, w: seq<char>) returns (x: seq<char>, y: seq<char>)
    requires WellFormed(a) && WellFormed(b) && a.stateCount <= k
    requires Reaches(ts, a.start, w, b.accept + k)
    requires forall e {:trigger e in ts} :: e in ts && e !in Shift(a.transitions, 0) && 0 <= e.src < a.stateCount
               ==> e == Edge(a.accept, Epsilon, b.start + k)
    requires forall e {:trigger e in ts} :: e in ts && e !in Shift(b.transitions, k) ==> !(k <= e.src < k + b.stateCount)
    ensures w == x + y && Accepts(a, x) && Accepts(b, y)
  {
    var es: seq<Edge> :| IsRun(ts, a.start, es, b.accept + k) && Label(es) == w;
    assert a.start + 0 == a.start;
    var exit, rest;
    x, exit, rest := ThroughPart(ts, a, 0, es, b.accept + k);
    assert exit == Edge(a.accept, Epsilon, b.start + k);
    InsidePart(ts, b, k, rest);
    y := Label(rest);
    assert Label(es) == x + [] + y;
    assert x + [] + y == x + y;
  }

  lemma ConcatWalk(ts: seq<Edge>, a: Nfa, b: Nfa, k: nat, x: seq<char>, y: seq<char>)
    requires Accepts(a, x) && Accepts(b, y)
    requires forall e :: e in a.transitions ==> e in ts
    requires forall e :: e in Shift(b.transitions, k) ==> e in ts
    requires Edge(a.accept, Epsilon, b.start + k) in ts
    ensures Reaches(ts, a.start, x + y, b.accept + k)
  {
    ReachesWiden(a.transitions, ts, a.start, x, a.accept);
    PartReaches(ts, b, k, y);
    SilentBefore(ts, Edge(a.accept, Epsilon, b.start + k), y, b.accept + k);
    ReachesAppend(ts, a.start, x, a.accept, y, b.accept + k);
  }

  /** `new_concat(a, b)` accepts exactly the strings `a` accepts followed by strings `b` accepts. */
  lemma ConcatSplit(a: Nfa, b: Nfa, w: seq<char>) returns (x: seq<char>, y: seq<char>)
    requires WellFormed(a) && WellFormed(b)
    requires Accepts(ConcatNfa(a, b), w)
    ensures w == x + y && Accepts(a, x) && Accepts(b, y)
  {
    ConcatExits(a, b);
    x, y := ConcatCut(ConcatNfa(a, b).transitions, a, b, Max(a.stateCount, b.stateCount), w);
  }

  lemma ConcatJoin(a: Nfa, b: Nfa, x: seq<char>, y: seq<char>)
    requires Accepts(a, x) && Accepts(b, y)
    ensures Accepts(ConcatNfa(a, b), x + y)
  {
    ConcatWalk(ConcatNfa(a, b).transitions, a, b, Max(a.stateCount, b.stateCount), x, y);
  }

  // Union --------------------------------------------------------------------

  /** Inside `new_union`, only the two branches leave the start state. */
  lemma UnionSource(a: Nfa, b: Nfa)
    requires WellFormed(a) && WellFormed(b)
    ensures forall e {:trigger e in UnionNfa(a, b).transitions} :: e in UnionNfa(a, b).transitions && e.src == 0 ==>
              e == Edge(0, Epsilon, a.start + 2) || e == Edge(0, Epsilon, b.start + (2 + a.stateCount))
  {
    forall e {:trigger e in UnionNfa(a, b).transitions} | e in UnionNfa(a, b).transitions && e.src == 0
      ensures e == Edge(0, Epsilon, a.start + 2) || e == Edge(0, Epsilon, b.start + (2 + a.stateCount))
    {
      if e in Shift(a.transitions, 2) {
        ShiftInRange(a, 2, e);
      }
    }
  }

  /** A walk from `p`, whose only moves out are `e1` and `e2`, both reading nothing, goes on from one of them. */
  lemma ForkStep(ts: seq<Edge>, p: nat, e1: Edge, e2: Edge, w: seq<char>, q: nat)
    requires e1.sym == Epsilon && e2.sym == Epsilon && p != q
    requires Reaches(ts, p, w, q)
    requires forall e {:trigger e in ts} :: e in ts && e.src == p ==> e == e1 || e == e2
    ensures Reaches(ts, e1.dst, w, q) || Reaches(ts, e2.dst, w, q)
  {
    var es: seq<Edge> :| IsRun(ts, p, es, q) && Label(es) == w;
    FirstStep(ts, p, es, q);
    assert Label(es) == Label(es[1..]);
  }

  /** The transitions of `new_union` and where the copy of `a` sits in them, in the form `ArmReaches` takes. */
  lemma UnionLeftArm(a: Nfa, b: Nfa) returns (ts: seq<Edge>, k: nat)
    requires WellFormed(a) && WellFormed(b)
    ensures ts == UnionNfa(a, b).transitions && k == 2
    ensures forall i :: 0 <= i < |ts| ==> ts[i].src != 1
    ensures forall e {:trigger e in ts} :: e in ts && e !in Shift(a.transitions, k) && k <= e.src < k + a.stateCount
              ==> e == Edge(a.accept + k, Epsilon, 1)
  {
    UnionWellFormed(a, b);
    ts, k := UnionNfa(a, b).transitions, 2;
    forall e {:trigger e in Shift(b.transitions, 2 + a.stateCount)} | e in Shift(b.transitions, 2 + a.stateCount)
      ensures e.src >= 2 + a.stateCount
    {
      ShiftInRange(b, 2 + a.stateCount, e);
    }
  }

  /** The transitions of `new_union` and where the copy of `b` sits in them, in the form `ArmReaches` takes. */
  lemma UnionRightArm(a: Nfa, b: Nfa) returns (ts: seq<Edge>, k: nat)
    requires WellFormed(a) && WellFormed(b)
    ensures ts == UnionNfa(a, b).transitions && k == 2 + a.stateCount
    ensures forall i :: 0 <= i < |ts| ==> ts[i].src != 1
    ensures forall e {:trigger e in ts} :: e in ts && e !in Shift(b.transitions, k) && k <= e.src < k + b.stateCount
              ==> e == Edge(b.accept + k, Epsilon, 1)
  {
    UnionWellFormed(a, b);
    ts, k := UnionNfa(a, b).transitions, 2 + a.stateCount;
    forall e {:trigger e in Shift(a.transitions, 2)} | e in Shift(a.transitions, 2)
      ensures e.src < k
    {
      ShiftInRange(a, 2, e);
    }
  }

  /** The arm of `new_union` that enters the copy of `a` reads what `a` accepts. */
  lemma UnionLeft(a: Nfa, b: Nfa, w: seq<char>)
    requires WellFormed(a) && WellFormed(b)
    requires Reaches(UnionNfa(a, b).transitions, a.start + 2, w, 1)
    ensures Accepts(a, w)
  {
    var ts, k := UnionLeftArm(a, b);
    ArmReaches(ts, a, k, w, 1);
  }

  /** The arm of `new_union` that enters the copy of `b` reads what `b` accepts. */
  lemma UnionRight(a: Nfa, b: Nfa, w: seq<char>)
    requires WellFormed(a) && WellFormed(b)
    requires Reaches(UnionNfa(a, b).transitions, b.start + (2 + a.stateCount), w, 1)
    ensures Accepts(b, w)
  {
    var ts, k := UnionRightArm(a, b);
    ArmReaches(ts, b, k, w, 1);
  }

  /** A move that reads nothing from `p` into the copy of `part`, a walk through it, and one out to `q`. */
  lemma BranchWalk(ts: seq<Edge>, part: Nfa, k: nat, p: nat, q: nat, w: seq<char>)
    requires Accepts(part, w)
    requires forall e :: e in Shift(part.transitions, k) ==> e in ts
    requires Edge(p, Epsilon, part.start + k) in ts && Edge(part.accept + k, Epsilon, q) in ts
    ensures Reaches(ts, p, w, q)
  {
    EnterPart(ts, part, k, p, w);
    SilentAfter(ts, p, w, Edge(part.accept + k, Epsilon, q));
  }

  /** `new_union(a, b)` accepts exactly the strings `a` or `b` accepts. */
  lemma UnionSplit(a: Nfa, b: Nfa, w: seq<char>)
    requires WellFormed(a) && WellFormed(b)
    requires Accepts(UnionNfa(a, b), w)
    ensures Accepts(a, w) || Accepts(b, w)
  {
    var ts := UnionNfa(a, b).transitions;
    UnionSource(a, b);
    ForkStep(ts, 0, Edge(0, Epsilon, a.start + 2), Edge(0, Epsilon, b.start + (2 + a.stateCount)), w, 1);
    if Reaches(ts, a.start + 2, w, 1) {
      UnionLeft(a, b, w);
    } else {
      UnionRight(a, b, w);
    }
  }

  lemma UnionJoin(a: Nfa, b: Nfa, w: seq<char>)
    requires Accepts(a, w) || Accepts(b, w)
    ensures Accepts(UnionNfa(a, b), w)
  {
    var ts := UnionNfa(a, b).transitions;
    if Accepts(a, w) {
      BranchWalk(ts, a, 2, 0, 1, w);
    } else {
      BranchWalk(ts, b, 2 + a.stateCount, 0, 1, w);
    }
  }

  // Kleene star --------------------------------------------------------------

  /** A string of the inner language followed by a Kleene string is a Kleene string. */
  lemma KleenePrepend(r: Regex, x: seq<char>, u: seq<char>)
    requires InLanguage(r, x) && InLanguage(Kleene(r), u)
    ensures InLanguage(Kleene(r), x + u)
  {
    if x == [] {
      assert x + u == u;
    } else {
      assert (x + u)[..|x|] == x && (x + u)[|x|..] == u;
    }
  }

  /** Inside `new_kleene`, nothing leaves the accept state and the start state leads only into the copy or to the accept state. */
  lemma KleeneEnds(a: Nfa)
    requires WellFormed(a)
    ensures forall i :: 0 <= i < |KleeneNfa(a).transitions| ==> KleeneNfa(a).transitions[i].src != 1
    ensures forall e {:trigger e in KleeneNfa(a).transitions} :: e in KleeneNfa(a).transitions && e.src == 0 ==>
              e == Edge(0, Epsilon, a.start + 2) || e == Edge(0, Epsilon, 1)
  {
    KleeneWellFormed(a);
    forall e {:trigger e in KleeneNfa(a).transitions} | e in KleeneNfa(a).transitions && e.src == 0
      ensures e == Edge(0, Epsilon, a.start + 2) || e == Edge(0, Epsilon, 1)
    {
      if e in Shift(a.transitions, 2) {
        ShiftInRange(a, 2, e);
      }
    }
  }

  /** Inside `new_kleene`, the copy of `a` is left only from its accept state: to the new accept, or back to its start. */
  lemma KleeneExits(a: Nfa)
    requires WellFormed(a)
    ensures forall e {:trigger e in KleeneNfa(a).transitions} :: e in KleeneNfa(a).transitions && e !in Shift(a.transitions, 2) && 2 <= e.src < 2 + a.stateCount
              ==> e == Edge(a.accept + 2, Epsilon, 1) || e == Edge(a.accept + 2, Epsilon, a.start + 2)
  {
  }

  /**
   * A walk from the start of the copy of `a` to `q`, when the copy is left only
   * from its accept state, to `q` or back to its start, and nothing leaves `q`,
   * reads a Kleene string.
   */
  lemma {:induction false} LoopCut(r: Regex, ts: seq<Edge>, a: Nfa, k: nat, q: nat, es: seq<Edge>)
    requires WellFormed(a) && q < k
    requires forall x :: Accepts(a, x) ==> InLanguage(r, x)
    requires IsRun(ts, a.start + k, es, q)
    requires forall i :: 0 <= i < |ts| ==> ts[i].src != q
    requires forall e {:trigger e in ts} :: e in ts && e !in Shift(a.transitions, k) && k <= e.src < k + a.stateCount
               ==> e == Edge(a.accept + k, Epsilon, q) || e == Edge(a.accept + k, Epsilon, a.start + k)
    ensures InLanguage(Kleene(r), Label(es))
    decreases |es|
  {
    var x, exit, rest := ThroughPart(ts, a, k, es, q);
    if exit.dst == q {
      Stuck(ts, q, rest, q);
    } else {
      LoopCut(r, ts, a, k, q, rest);
    }
    LoopLabel(r, x, exit.sym, Label(rest), Label(es));
  }

  /** One pass through the inner language, a move that reads nothing, then a Kleene string. */
  lemma LoopLabel(r: Regex, x: seq<char>, s: Sym, u: seq<char>, w: seq<char>)
    requires s == Epsilon && w == x + Read(s) + u
    requires InLanguage(r, x) && InLanguage(Kleene(r), u)
    ensures InLanguage(Kleene(r), w)
  {
    assert w == x + u;
    KleenePrepend(r, x, u);
  }

  /** From the copy's accept state, any Kleene string leads to `q`. */
  lemma {:induction false} LoopWalk(r: Regex, ts: seq<Edge>, a: Nfa, k: nat, q: nat, w: seq<char>)
    requires forall x :: InLanguage(r, x) ==> Accepts(a, x)
    requires InLanguage(Kleene(r), w)
    requires forall e :: e in Shift(a.transitions, k) ==> e in ts
    requires Edge(a.accept + k, Epsilon, q) in ts && Edge(a.accept + k, Epsilon, a.start + k) in ts
    ensures Reaches(ts, a.accept + k, w, q)
    decreases |w|
  {
    if w == [] {
      EdgeReaches(ts, Edge(a.accept + k, Epsilon, q));
    } else {
      var i :| 0 < i <= |w| && InLanguage(r, w[..i]) && InLanguage(Kleene(r), w[i..]);
      LoopWalk(r, ts, a, k, q, w[i..]);
      StarWalk(ts, a, k, a.accept + k, q, w[..i], w[i..]);
      assert w[..i] + w[i..] == w;
    }
  }

  /** A move that reads nothing from `p` into the copy of `part`, then a walk through it. */
  lemma EnterPart(ts: seq<Edge>, part: Nfa, k: nat, p: nat, x: seq<char>)
    requires Accepts(part, x)
    requires forall e :: e in Shift(part.transitions, k) ==> e in ts
    requires Edge(p, Epsilon, part.start + k) in ts
    ensures Reaches(ts, p, x, part.accept + k)
  {
    PartReaches(ts, part, k, x);
    SilentBefore(ts, Edge(p, Epsilon, part.start + k), x, part.accept + k);
  }

  /**
   * A walk from `p` to `q`, when `p` leads only into the copy of `a` or to `q`,
   * nothing leaves `q`, and the copy is left only from its accept state, to `q`
   * or back to its start, reads a Kleene string.
   */
  lemma StarCut(r: Regex, ts: seq<Edge>, a: Nfa, k: nat, p: nat, q: nat, w: seq<char>)
    requires WellFormed(a) && q < k && p != q
    requires forall x :: Accepts(a, x) ==> InLanguage(r, x)
    requires Reaches(ts, p, w, q)
    requires forall e {:trigger e in ts} :: e in ts && e.src == p ==> e == Edge(p, Epsilon, a.start + k) || e == Edge(p, Epsilon, q)
    requires forall i :: 0 <= i < |ts| ==> ts[i].src != q
    requires forall e {:trigger e in ts} :: e in ts && e !in Shift(a.transitions, k) && k <= e.src < k + a.stateCount
               ==> e == Edge(a.accept + k, Epsilon, q) || e == Edge(a.accept + k, Epsilon, a.start + k)
    ensures InLanguage(Kleene(r), w)
  {
    var es: seq<Edge> :| IsRun(ts, p, es, q) && Label(es) == w;
    FirstStep(ts, p, es, q);
    assert Label(es) == Label(es[1..]);
    if es[0].dst == q {
      Stuck(ts, q, es[1..], q);
    } else {
      LoopCut(r, ts, a, k, q, es[1..]);
    }
  }

  /** `new_kleene(a)` accepts exactly the concatenations of strings `a` accepts. */
  lemma KleeneSound(r: Regex, a: Nfa, w: seq<char>)
    requires WellFormed(a)
    requires forall x :: Accepts(a, x) ==> InLanguage(r, x)
    requires Accepts(KleeneNfa(a), w)
    ensures InLanguage(Kleene(r), w)
  {
    KleeneEnds(a);
    KleeneExits(a);
    StarCut(r, KleeneNfa(a).transitions, a, 2, 0, 1, w);
  }

  /** The transitions of `new_kleene`: the copy of `a` and the moves added around it. */
  lemma KleeneParts(a: Nfa) returns (ts: seq<Edge>)
    ensures ts == KleeneNfa(a).transitions
    ensures forall e :: e in Shift(a.transitions, 2) ==> e in ts
    ensures Edge(0, Epsilon, a.start + 2) in ts && Edge(0, Epsilon, 1) in ts
    ensures Edge(a.accept + 2, Epsilon, 1) in ts && Edge(a.accept + 2, Epsilon, a.start + 2) in ts
  {
    ts := KleeneNfa(a).transitions;
  }

  /** From `p`, a move that reads nothing into the copy, a pass through it reading `x`, then `u` to `q`. */
  lemma StarWalk(ts: seq<Edge>, a: Nfa, k: nat, p: nat, q: nat, x: seq<char>, u: seq<char>)
    requires Accepts(a, x) && Reaches(ts, a.accept + k, u, q)
    requires forall e :: e in Shift(a.transitions, k) ==> e in ts
    requires Edge(p, Epsilon, a.start + k) in ts
    ensures Reaches(ts, p, x + u, q)
  {
    EnterPart(ts, a, k, p, x);
    ReachesAppend(ts, p, x, a.accept + k, u, q);
  }

  /** One pass through the copy of `a`, then any number more: `new_kleene(a)` accepts it. */
  lemma KleenePass(r: Regex, a: Nfa, x: seq<char>, u: seq<char>)
    requires forall y :: InLanguage(r, y) ==> Accepts(a, y)
    requires InLanguage(r, x) && InLanguage(Kleene(r), u)
    ensures Accepts(KleeneNfa(a), x + u)
  {
    var ts := KleeneParts(a);
    LoopWalk(r, ts, a, 2, 1, u);
    StarWalk(ts, a, 2, 0, 1, x, u);
  }

  lemma KleeneComplete(r: Regex, a: Nfa, w: seq<char>)
    requires forall x :: InLanguage(r, x) ==> Accepts(a, x)
    requires InLanguage(Kleene(r), w)
    ensures Accepts(KleeneNfa(a), w)
  {
    if w == [] {
      var ts := KleeneParts(a);
      EdgeReaches(ts, Edge(0, Epsilon, 1));
    } else {
      var i :| 0 < i <= |w| && InLanguage(r, w[..i]) && InLanguage(Kleene(r), w[i..]);
      KleenePass(r, a, w[..i], w[i..]);
      assert w[..i] + w[i..] == w;
    }
  }

  // ---------------------------------------------------------------------------
  // The construction is correct
  // ---------------------------------------------------------------------------

  lemma ConcatSound(ra: Regex, rb: Regex, a: Nfa, b: Nfa, w: seq<char>)
    requires WellFormed(a) && WellFormed(b)
    requires forall x :: Accepts(a, x) ==> InLanguage(ra, x)
    requires forall y :: Accepts(b, y) ==> InLanguage(rb, y)
    requires Accepts(ConcatNfa(a, b), w)
    ensures InLanguage(Concat(ra, rb), w)
  {
    var x, y := ConcatSplit(a, b, w);
    assert w[..|x|] == x && w[|x|..] == y;
    assert InLanguage(ra, w[..|x|]) && InLanguage(rb, w[|x|..]);
  }

  lemma ConcatComplete(ra: Regex, rb: Regex, a: Nfa, b: Nfa, w: seq<char>)
    requires forall x :: InLanguage(ra, x) ==> Accepts(a, x)
    requires forall y :: InLanguage(rb, y) ==> Accepts(b, y)
    requires InLanguage(Concat(ra, rb), w)
    ensures Accepts(ConcatNfa(a, b), w)
  {
    var i :| 0 <= i <= |w| && InLanguage(ra, w[..i]) && InLanguage(rb, w[i..]);
    assert Accepts(a, w[..i]) && Accepts(b, w[i..]);
    ConcatCutAt(a, b, w, i);
  }

  /** A word cut into a word `a` accepts and a word `b` accepts is accepted by their concatenation. */
  lemma ConcatCutAt(a: Nfa, b: Nfa, w: seq<char>, i: nat)
    requires i <= |w| && Accepts(a, w[..i]) && Accepts(b, w[i..])
    ensures Accepts(ConcatNfa(a, b), w)
  {
    ConcatJoin(a, b, w[..i], w[i..]);
    assert w[..i] + w[i..] == w;
  }

  /** The language of `new_concat(a, b)`, given the languages of `a` and `b`. */
  lemma ConcatCorrect(ra: Regex, rb: Regex, a: Nfa, b: Nfa)
    requires WellFormed(a) && WellFormed(b)
    requires forall w :: Accepts(a, w) <==> InLanguage(ra, w)
    requires forall w :: Accepts(b, w) <==> InLanguage(rb, w)
    ensures forall w :: Accepts(ConcatNfa(a, b), w) <==> InLanguage(Concat(ra, rb), w)
  {
    forall w
      ensures Accepts(ConcatNfa(a, b), w) <==> InLanguage(Concat(ra, rb), w)
    {
      if Accepts(ConcatNfa(a, b), w) {
        ConcatSound(ra, rb, a, b, w);
      }
      if InLanguage(Concat(ra, rb), w) {
        ConcatComplete(ra, rb, a, b, w);
      }
    }
  }

  /** The language of `new_union(a, b)`, given the languages of `a` and `b`. */
  lemma UnionCorrect(ra: Regex, rb: Regex, a: Nfa, b: Nfa)
    requires WellFormed(a) && WellFormed(b)
    requires forall w :: Accepts(a, w) <==> InLanguage(ra, w)
    requires forall w :: Accepts(b, w) <==> InLanguage(rb, w)
    ensures forall w :: Accepts(UnionNfa(a, b), w) <==> InLanguage(Union(ra, rb), w)
  {
    forall w
      ensures Accepts(UnionNfa(a, b), w) <==> InLanguage(Union(ra, rb), w)
    {
      if Accepts(UnionNfa(a, b), w) {
        UnionSplit(a, b, w);
      }
      if InLanguage(Union(ra, rb), w) {
        UnionJoin(a, b, w);
      }
    }
  }

  /** The language of `new_kleene(a)`, given the language of `a`. */
  lemma KleeneCorrect(ra: Regex, a: Nfa)
    requires WellFormed(a)
    requires forall w :: Accepts(a, w) <==> InLanguage(ra, w)
    ensures forall w :: Accepts(KleeneNfa(a), w) <==> InLanguage(Kleene(ra), w)
  {
    forall w
      ensures Accepts(KleeneNfa(a), w) <==> InLanguage(Kleene(ra), w)
    {
      if Accepts(KleeneNfa(a), w) {
        KleeneSound(ra, a, w);
      }
      if InLanguage(Kleene(ra), w) {
        KleeneComplete(ra, a, w);
      }
    }
  }

  /** `from_ast(r)` accepts exactly the strings `r` stands for. */
  lemma {:induction false} ThompsonCorrect(r: Regex)
    ensures forall w :: Accepts(ThompsonNfa(r), w) <==> InLanguage(r, w)
  {
    match r
    case Empty =>
      forall w
        ensures !Accepts(ThompsonNfa(r), w)
      {
        EmptyRejects(w);
      }
    case Literal(c) =>
      forall w
        ensures Accepts(ThompsonNfa(r), w) <==> InLanguage(r, w)
      {
        LiteralAccepts(c, w);
      }
    case Concat(ra, rb) =>
      ThompsonCorrect(ra);
      ThompsonCorrect(rb);
      ThompsonWellFormed(ra);
      ThompsonWellFormed(rb);
      ConcatCorrect(ra, rb, ThompsonNfa(ra), ThompsonNfa(rb));
    case Union(ra, rb) =>
      ThompsonCorrect(ra);
      ThompsonCorrect(rb);
      ThompsonWellFormed(ra);
      ThompsonWellFormed(rb);
      UnionCorrect(ra, rb, ThompsonNfa(ra), ThompsonNfa(rb));
    case Kleene(ra) =>
      ThompsonCorrect(ra);
      ThompsonWellFormed(ra);
      KleeneCorrect(ra, ThompsonNfa(ra));
  }
}
