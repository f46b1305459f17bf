/**
 * Thompson's construction as src/custom_regex.rs writes it (`NFA::new_*`,
 * `NFA::from_ast`). The functions say which automaton each builder returns;
 * the methods are the builders themselves, pushing renumbered transitions one
 * at a time, and are proved to return exactly those automata.
 */
module Thompson {
  import opened Syntax
  import opened Automaton

  /** A transition with both ends renumbered by `k`. */
  function ShiftEdge(e: Edge, k: nat): Edge {
    Edge(e.src + k, e.sym, e.dst + k)
  }

  /** Every transition of `ts` renumbered by `k`, in order. */
  function Shift(ts: seq<Edge>, k: nat): (r: seq<Edge>)
    ensures |r| == |ts|
    ensures forall i :: 0 <= i < |ts| ==> r[i] == ShiftEdge(ts[i], k)
  {
    seq(|ts|, i requires 0 <= i < |ts| => ShiftEdge(ts[i], k))
  }

  function Max(a: nat, b: nat): nat {
    if a >= b then a else b
  }

  // ---------------------------------------------------------------------------
  // The automaton each builder returns
  // ---------------------------------------------------------------------------

  /** `new_empty`: two states and no transition. */
  function EmptyNfa(): Nfa {
    Nfa(0, 1, [], 2)
  }

  /** `new_literal`: one transition reading `c` from start to accept. */
  function LiteralNfa(c: char): Nfa {
    Nfa(0, 1, [Edge(0, Char(c), 1)], 2)
  }

  /**
   * `new_concat`: `a` keeps its numbers, `b` is renumbered by the larger of
   * the two state counts, and a move that reads nothing joins `a`'s accept to
   * `b`'s start.
   */
  function ConcatNfa(a: Nfa, b: Nfa): Nfa {
    var offset := Max(a.stateCount, b.stateCount);
    Nfa(a.start, b.accept + offset,
        a.transitions + Shift(b.transitions, offset) + [Edge(a.accept, Epsilon, b.start + offset)],
        offset + b.stateCount)
  }

  /** `new_union`: fresh start 0 and accept 1, `a` from 2, `b` after `a`. */
  function UnionNfa(a: Nfa, b: Nfa): Nfa {
    var aOffset := 2;
    var bOffset := 2 + a.stateCount;
    Nfa(0, 1,
        Shift(a.transitions, aOffset) + Shift(b.transitions, bOffset)
        + [Edge(0, Epsilon, a.start + aOffset), Edge(0, Epsilon, b.start + bOffset),
           Edge(a.accept + aOffset, Epsilon, 1), Edge(b.accept + bOffset, Epsilon, 1)],
        2 + a.stateCount + b.stateCount)
  }

  /** `new_kleene`: fresh start 0 and accept 1, `a` from 2, with a skip and a loop back. */
  function KleeneNfa(a: Nfa): Nfa {
    var offset := 2;
    Nfa(0, 1,
        Shift(a.transitions, offset)
        + [Edge(0, Epsilon, a.start + offset), Edge(0, Epsilon, 1),
           Edge(a.accept + offset, Epsilon, 1), Edge(a.accept + offset, Epsilon, a.start + offset)],
        2 + a.stateCount)
  }

  /** `from_ast`: the automaton of a tree, built bottom-up. */
  function ThompsonNfa(r: Regex): Nfa {
    match r
    case Empty => EmptyNfa()
    case Literal(c) => LiteralNfa(c)
    case Concat(a, b) => ConcatNfa(ThompsonNfa(a), ThompsonNfa(b))
    case Union(a, b) => UnionNfa(ThompsonNfa(a), ThompsonNfa(b))
    case Kleene(a) => KleeneNfa(ThompsonNfa(a))
  }

  // ---------------------------------------------------------------------------
  // The builders
  // ---------------------------------------------------------------------------

  method NewEmpty() returns (n: Nfa)
    ensures n == EmptyNfa()
    ensures n.transitions == [] && n.stateCount == 2 && n.start != n.accept
  {
    n := Nfa(0, 1, [], 2);
  }

  method NewLiteral(c: char) returns (n: Nfa)
    ensures n == LiteralNfa(c)
  {
    n := NewEmpty();
    n := n.(transitions := n.transitions + [Edge(n.start, Char(c), n.accept)]);
  }

  method NewConcat(a: Nfa, b: Nfa) returns (n: Nfa)
    ensures n == ConcatNfa(a, b)
  {
    n := Nfa(a.start, b.accept, a.transitions, Max(a.stateCount, b.stateCount));
    var offset := n.stateCount;
    var remapped := [];
    for i := 0 to |b.transitions|
      invariant remapped == Shift(b.transitions, offset)[..i]
    {
      var e := b.transitions[i];
      remapped := remapped + [Edge(e.src + offset, e.sym, e.dst + offset)];
    }
    n := n.(transitions := n.transitions + remapped);
    n := n.(transitions := n.transitions + [Edge(a.accept, Epsilon, b.start + offset)]);
    n := n.(stateCount := offset + b.stateCount, accept := b.accept + offset);
  }

  method NewUnion(a: Nfa, b: Nfa) returns (n: Nfa)
    ensures n == UnionNfa(a, b)
  {
    n := Nfa(0, 1, [], 2);
    var aOffset := n.stateCount;
    n := n.(stateCount := n.stateCount + a.stateCount);
    for i := 0 to |a.transitions|
      invariant n == Nfa(0, 1, Shift(a.transitions, aOffset)[..i], 2 + a.stateCount)
    {
      var e := a.transitions[i];
      n := n.(transitions := n.transitions + [Edge(e.src + aOffset, e.sym, e.dst + aOffset)]);
    }
    var bOffset := n.stateCount;
    n := n.(stateCount := n.stateCount + b.stateCount);
    for i := 0 to |b.transitions|
      invariant n == Nfa(0, 1, Shift(a.transitions, aOffset) + Shift(b.transitions, bOffset)[..i],
                         2 + a.stateCount + b.stateCount)
    {
      var e := b.transitions[i];
      n := n.(transitions := n.transitions + [Edge(e.src + bOffset, e.sym, e.dst + bOffset)]);
    }
    n := n.(transitions := n.transitions + [Edge(n.start, Epsilon, a.start + aOffset)]);
    n := n.(transitions := n.transitions + [Edge(n.start, Epsilon, b.start + bOffset)]);
    n := n.(transitions := n.transitions + [Edge(a.accept + aOffset, Epsilon, n.accept)]);
    n := n.(transitions := n.transitions + [Edge(b.accept + bOffset, Epsilon, n.accept)]);
  }

  method NewKleene(a: Nfa) returns (n: Nfa)
    ensures n == KleeneNfa(a)
  {
    n := Nfa(0, 1, [], 2);
    var offset := n.stateCount;
    n := n.(stateCount := n.stateCount + a.stateCount);
    for i := 0 to |a.transitions|
      invariant n == Nfa(0, 1, Shift(a.transitions, offset)[..i], 2 + a.stateCount)
    {
      var e := a.transitions[i];
      n := n.(transitions := n.transitions + [Edge(e.src + offset, e.sym, e.dst + offset)]);
    }
    n := n.(transitions := n.transitions + [Edge(n.start, Epsilon, a.start + offset)]);
    n := n.(transitions := n.transitions + [Edge(n.start, Epsilon, n.accept)]);
    n := n.(transitions := n.transitions + [Edge(a.accept + offset, Epsilon, n.accept)]);
    n := n.(transitions := n.transitions + [Edge(a.accept + offset, Epsilon, a.start + offset)]);
  }

  method FromAst(r: Regex) returns (n: Nfa)
    ensures n == ThompsonNfa(r)
  {
    match r
    case Empty =>
      n := NewEmpty();
    case Literal(c) =>
      n := NewLiteral(c);
    case Concat(a, b) =>
      var left := FromAst(a);
      var right := FromAst(b);
      n := NewConcat(left, right);
    case Union(a, b) =>
      var left := FromAst(a);
      var right := FromAst(b);
      n := NewUnion(left, right);
    case Kleene(a) =>
      var inner := FromAst(a);
      n := NewKleene(inner);
  }

  // ---------------------------------------------------------------------------
  // Shape of the automata
  // ---------------------------------------------------------------------------

  /** The renumbered transitions of a well-formed automaton lie in `[k, k + count)`. */
  lemma ShiftInRange(n: Nfa, k: nat, e: Edge)
    requires WellFormed(n) && e in Shift(n.transitions, k)
    ensures k <= e.src < k + n.stateCount && k <= e.dst < k + n.stateCount
  {
    var i :| 0 <= i < |n.transitions| && Shift(n.transitions, k)[i] == e;
  }

  /** No transition enters the start state and none leaves the accept state. */
  ghost predicate Isolated(n: Nfa) {
    && n.start != n.accept
    && forall i :: 0 <= i < |n.transitions| ==> n.transitions[i].dst != n.start && n.transitions[i].src != n.accept
  }

  lemma ConcatWellFormed(a: Nfa, b: Nfa)
    requires WellFormed(a) && WellFormed(b)
    ensures WellFormed(ConcatNfa(a, b))
    ensures ConcatNfa(a, b).stateCount == Max(a.stateCount, b.stateCount) + b.stateCount
    ensures |ConcatNfa(a, b).transitions| == |a.transitions| + |b.transitions| + 1
  {
    var n := ConcatNfa(a, b);
    var offset := Max(a.stateCount, b.stateCount);
    forall i | 0 <= i < |n.transitions|
      ensures n.transitions[i].src < n.stateCount && n.transitions[i].dst < n.stateCount
    {
      if |a.transitions| <= i < |a.transitions| + |b.transitions| {
        ShiftInRange(b, offset, n.transitions[i]);
      }
    }
  }

  /**
   * `new_concat` keeps the two parts apart: `a`'s states lie below the offset,
   * `b`'s at or above it, and the only transition from the first part to the
   * second is the join from `a`'s accept to `b`'s start; none goes back.
   */
  lemma ConcatSeparated(a: Nfa, b: Nfa, e: Edge)
    requires WellFormed(a) && WellFormed(b)
    requires e in ConcatNfa(a, b).transitions
    ensures var offset := Max(a.stateCount, b.stateCount);
            && a.stateCount <= offset
            && (e.src < offset && offset <= e.dst <==> e == Edge(a.accept, Epsilon, b.start + offset))
            && (offset <= e.src ==> offset <= e.dst)
  {
    var offset := Max(a.stateCount, b.stateCount);
    if e in a.transitions {
      var i :| 0 <= i < |a.transitions| && a.transitions[i] == e;
    } else if e in Shift(b.transitions, offset) {
      ShiftInRange(b, offset, e);
    }
  }

  lemma UnionWellFormed(a: Nfa, b: Nfa)
    requires WellFormed(a) && WellFormed(b)
    ensures WellFormed(UnionNfa(a, b)) && Isolated(UnionNfa(a, b))
    ensures UnionNfa(a, b).stateCount == 2 + a.stateCount + b.stateCount
    ensures |UnionNfa(a, b).transitions| == |a.transitions| + |b.transitions| + 4
  {
    var n := UnionNfa(a, b);
    forall i | 0 <= i < |n.transitions|
      ensures n.transitions[i].src < n.stateCount && n.transitions[i].dst < n.stateCount
      ensures n.transitions[i].dst != 0 && n.transitions[i].src != 1
    {
      if i < |a.transitions| {
        ShiftInRange(a, 2, n.transitions[i]);
      } else if i < |a.transitions| + |b.transitions| {
        ShiftInRange(b, 2 + a.stateCount, n.transitions[i]);
      }
    }
  }

  lemma KleeneWellFormed(a: Nfa)
    requires WellFormed(a)
    ensures WellFormed(KleeneNfa(a)) && Isolated(KleeneNfa(a))
    ensures KleeneNfa(a).stateCount == 2 + a.stateCount
    ensures |KleeneNfa(a).transitions| == |a.transitions| + 4
  {
    var n := KleeneNfa(a);
    forall i | 0 <= i < |n.transitions|
      ensures n.transitions[i].src < n.stateCount && n.transitions[i].dst < n.stateCount
      ensures n.transitions[i].dst != 0 && n.transitions[i].src != 1
    {
      if i < |a.transitions| {
        ShiftInRange(a, 2, n.transitions[i]);
      }
    }
  }

  /**
   * Every automaton `from_ast` builds mentions only states below its count,
   * and its start and accept states differ.
   */
  lemma {:induction false} ThompsonWellFormed(r: Regex)
    ensures WellFormed(ThompsonNfa(r))
    ensures ThompsonNfa(r).start != ThompsonNfa(r).accept
  {
    match r
    case Empty =>
    case Literal(_) =>
    case Concat(a, b) =>
      ThompsonWellFormed(a);
      ThompsonWellFormed(b);
      ConcatWellFormed(ThompsonNfa(a), ThompsonNfa(b));
    case Union(a, b) =>
      ThompsonWellFormed(a);
      ThompsonWellFormed(b);
      UnionWellFormed(ThompsonNfa(a), ThompsonNfa(b));
    case Kleene(a) =>
      ThompsonWellFormed(a);
      KleeneWellFormed(ThompsonNfa(a));
  }

  /**
   * Because `new_concat` renumbers by the larger count instead of `a`'s, a
   * right operand bigger than the left one leaves unused numbers between the
   * parts: `(ab)c` takes 6 states, but `a(bc)` takes 8, of which 2 and 3 are
   * never used.
   */
  lemma ConcatCountGrows()
    ensures ThompsonNfa(Concat(Literal('a'), Literal('b'))).stateCount == 4
    ensures ThompsonNfa(Concat(Concat(Literal('a'), Literal('b')), Literal('c'))).stateCount == 6
    ensures ThompsonNfa(Concat(Literal('a'), Concat(Literal('b'), Literal('c')))).stateCount == 8
  {
  }

  /** `a` concatenated with itself `n + 1` times, nested to the right: `a(a(…(a)))`. */
  function RightNest(n: nat): Regex {
    if n == 0 then Literal('a') else Concat(Literal('a'), RightNest(n - 1))
  }

  /** Two to the power `n`. */
  function Pow2(n: nat): nat {
    if n == 0 then 1 else 2 * Pow2(n - 1)
  }

  /**
   * Because `new_concat` renumbers by the larger state count, every level of
   * right nesting doubles the state count while adding only two transitions:
   * `n + 1` nested letters take `2^(n+1)` states but `2n + 1` transitions.
   */
  lemma {:induction false} RightNestDoubles(n: nat)
    ensures ThompsonNfa(RightNest(n)).stateCount == Pow2(n + 1)
    ensures |ThompsonNfa(RightNest(n)).transitions| == 2 * n + 1
  {
    if n > 0 {
      RightNestDoubles(n - 1);
      assert Pow2(n) >= 2 by { Pow2AtLeastTwo(n); }
    }
  }

  lemma {:induction false} Pow2AtLeastTwo(n: nat)
    requires n >= 1
    ensures Pow2(n) >= 2
  {
    if n > 1 {
      Pow2AtLeastTwo(n - 1);
    }
  }

  /**
   * 64 nested letters, a pattern of 190 characters, give a state count of
   * 2^64, one past the largest 64-bit `usize`.
   */
  lemma SixtyFourLevels()
    ensures ThompsonNfa(RightNest(63)).stateCount == 0x1_0000_0000_0000_0000
  {
    RightNestDoubles(63);
    Pow2SixtyFour();
  }

  lemma Pow2SixtyFour()
    ensures Pow2(64) == 0x1_0000_0000_0000_0000
  {
    assert Pow2(8) == 0x100;
    Pow2Add(8, 8);
    Pow2Add(16, 16);
    Pow2Add(32, 32);
  }

  lemma {:induction false} Pow2Add(a: nat, b: nat)
    ensures Pow2(a + b) == Pow2(a) * Pow2(b)
  {
    if a > 0 {
      Pow2Add(a - 1, b);
    }
  }
}
