/**
 * The public face of the engine in src/custom_regex.rs: `DFA::matches`,
 * `regex_to_dfa`, `CustomRegex::new` and the naive substring search
 * `CustomRegex::find_iter`.
 */
module Engine {
  import opened Syntax
  import opened Automaton
  import opened Parsing
  import opened Thompson
  import opened ThompsonLanguage
  import opened Subset
  import opened SubsetLanguage

  // ---------------------------------------------------------------------------
  // `DFA::matches`
  // ---------------------------------------------------------------------------

  /**
   * `DFA::matches`: follow one transition per character, give up at the first
   * missing one, and finally ask whether the state reached is accepting.
   */
  method Matches(d: Dfa, input: seq<char>) returns (b: bool)
    ensures b == DfaAccepts(d, input)
    ensures input == [] ==> (b <==> d.start in d.acceptStates)
  {
    var current := d.start;
    for i := 0 to |input|
      invariant Walk(d.transitions, d.start, input) == Walk(d.transitions, current, input[i..])
    {
      var c := input[i];
      assert input[i..][0] == c && input[i..][1..] == input[i + 1..];
      if (current, c) in d.transitions {
        current := d.transitions[(current, c)];
      } else {
        return false;
      }
    }
    assert input[|input|..] == [];
    b := current in d.acceptStates;
  }

  /** Walking `u + v` is walking `u`, then walking `v` from where that ended. */
  lemma {:induction false} WalkAppend<S>(tr: map<(S, char), S>, cur: S, u: seq<char>, v: seq<char>)
    ensures Walk(tr, cur, u + v) == match Walk(tr, cur, u)
      case None => None
      case Some(m) => Walk(tr, m, v)
    decreases |u|
  {
    if u == [] {
      assert u + v == v;
    } else {
      assert (u + v)[0] == u[0] && (u + v)[1..] == u[1..] + v;
      if (cur, u[0]) in tr {
        WalkAppend(tr, tr[(cur, u[0])], u[1..], v);
      }
    }
  }

  /**
   * `matches` rejects as soon as the state reached after `w[..i]` has no
   * transition on `w[i]`, whatever follows.
   */
  lemma MissingMoveRejects(d: Dfa, w: seq<char>, i: nat, s: set<nat>)
    requires i < |w| && Walk(d.transitions, d.start, w[..i]) == Some(s)
    requires (s, w[i]) !in d.transitions
    ensures !DfaAccepts(d, w)
  {
    assert w == w[..i] + w[i..];
    WalkAppend(d.transitions, d.start, w[..i], w[i..]);
    assert w[i..][0] == w[i];
  }

  // ---------------------------------------------------------------------------
  // Compiling a pattern
  // ---------------------------------------------------------------------------

  /**
   * `regex_to_dfa`: parse the pattern, build its automaton, determinise it.
   * The parser's panics come back as the errors of `Parse`. The automaton
   * accepts exactly the strings the parsed tree stands for.
   */
  method RegexToDfa(pattern: seq<char>) returns (r: Result<Dfa>)
    ensures r.Err? <==> Parse(pattern).Err?
    ensures r.Err? ==> r.error == Parse(pattern).error
    ensures r.Ok? ==> IsSubsetDfa(ThompsonNfa(Parse(pattern).value.tree), r.value)
    ensures r.Ok? ==> forall w :: DfaAccepts(r.value, w) <==> InLanguage(Parse(pattern).value.tree, w)
  {
    var parser := new Parser(pattern);
    var ast := parser.Parse();
    if ast.Err? {
      return Err(ast.error);
    }
    var nfa := FromAst(ast.value);
    var dfa := FromNfa(nfa);
    ThompsonCorrect(ast.value);
    forall w
      ensures DfaAccepts(dfa, w) <==> InLanguage(ast.value, w)
    {
      SubsetCorrect(nfa, dfa, w);
    }
    r := Ok(dfa);
  }

  /** `CustomRegex`: a compiled pattern. */
  datatype CustomRegex = CustomRegex(dfa: Dfa)

  /**
   * `CustomRegex::new`: the empty pattern is the one error it returns; any
   * other pattern is compiled, and a malformed one fails with the parser's
   * error.
   */
  method New(pattern: seq<char>) returns (r: Result<CustomRegex>)
    ensures r == Err(EmptyPattern) <==> pattern == []
    ensures pattern != [] ==> (r.Ok? <==> Parse(pattern).Ok?)
    ensures r.Ok? ==> forall w :: DfaAccepts(r.value.dfa, w) <==> InLanguage(Parse(pattern).value.tree, w)
  {
    if pattern == [] {
      return Err(EmptyPattern);
    }
    var dfa := RegexToDfa(pattern);
    if dfa.Err? {
      return Err(dfa.error);
    }
    r := Ok(CustomRegex(dfa.value));
  }

  /** One more `a` in front of a string `a*` stands for. */
  lemma StarPrepend(x: seq<char>)
    requires InLanguage(Kleene(Literal('a')), x)
    ensures InLanguage(Kleene(Literal('a')), "a" + x)
  {
    var w := "a" + x;
    assert w[..1] == "a" && w[1..] == x;
  }

  /** `a*` stands for `aaaa`. */
  lemma StarTakesFour()
    ensures InLanguage(Kleene(Literal('a')), "aaaa")
  {
    StarPrepend([]);
    assert "a" + [] == "a";
    StarPrepend("a");
    assert "a" + "a" == "aa";
    StarPrepend("aa");
    assert "a" + "aa" == "aaa";
    StarPrepend("aaa");
    assert "a" + "aaa" == "aaaa";
  }

  /** `a*` does not stand for `b`. */
  lemma StarRejectsB()
    ensures !InLanguage(Kleene(Literal('a')), "b")
  {
    assert "b"[..1] == "b";
  }

  /** `a*` does not stand for `ab`: after the `a`, `b` is left. */
  lemma StarRejectsAb()
    ensures !InLanguage(Kleene(Literal('a')), "ab")
  {
    var w := "ab";
    StarRejectsB();
    assert w[1..] == "b" && w[..2] == "ab";
  }

  /** The strings the pattern `a*` stands for: the empty one, `aaaa`, but not `ab`. */
  lemma StarExamples(d: Dfa)
    requires forall w :: DfaAccepts(d, w) <==> InLanguage(Parse("a*").value.tree, w)
    ensures DfaAccepts(d, "") && DfaAccepts(d, "aaaa")
    ensures !DfaAccepts(d, "ab")
  {
    assert Parse("a*") == Ok(Parsed(Kleene(Literal('a')), 2));
    StarTakesFour();
    StarRejectsAb();
  }

  // ---------------------------------------------------------------------------
  // `CustomRegex::find_iter`
  // ---------------------------------------------------------------------------

  /** The text between the two offsets of a span; nothing for a span outside the text. */
  function Slice(text: seq<char>, span: (nat, nat)): seq<char> {
    if span.0 <= span.1 <= |text| then text[span.0..span.1] else []
  }

  /** The texts of a sequence of spans. */
  function Slices(text: seq<char>, spans: seq<(nat, nat)>): (r: seq<seq<char>>)
    ensures |r| == |spans|
    ensures forall k :: 0 <= k < |spans| ==> r[k] == Slice(text, spans[k])
  {
    seq(|spans|, k requires 0 <= k < |spans| => Slice(text, spans[k]))
  }

  /** The matching spans `(s, e)` for `s` from `start` on and `e` from `end` on. */
  function EndsFrom(d: Dfa, text: seq<char>, start: nat, end: nat): seq<(nat, nat)>
    decreases |text| + 1 - end
  {
    if end > |text| then []
    else (if start <= end && DfaAccepts(d, text[start..end]) then [(start, end)] else [])
         + EndsFrom(d, text, start, end + 1)
  }

  /** The matching spans the search reports from start offset `start` on. */
  function SpansFrom(d: Dfa, text: seq<char>, start: nat): seq<(nat, nat)>
    decreases |text| - start
  {
    if start >= |text| then [] else EndsFrom(d, text, start, start) + SpansFrom(d, text, start + 1)
  }

  /** The spans `find_iter` reports, in the order it reports them. */
  function MatchSpans(d: Dfa, text: seq<char>): seq<(nat, nat)> {
    SpansFrom(d, text, 0)
  }

  /**
   * The search has recorded `spans` and still has to look at the spans of
   * start offset `start` from end offset `end` on, then those of the later
   * start offsets.
   */
  ghost predicate Searched(d: Dfa, text: seq<char>, spans: seq<(nat, nat)>, start: nat, end: nat) {
    spans + EndsFrom(d, text, start, end) + SpansFrom(d, text, start + 1) == MatchSpans(d, text)
  }

  /**
   * One end offset of the inner loop of `find_iter`: the span is recorded
   * exactly when its text matches, and the spans still to come shrink by one
   * end offset.
   */
  lemma EndStep(d: Dfa, text: seq<char>, start: nat, end: nat, spans: seq<(nat, nat)>,
                results: seq<seq<char>>, found: bool) returns (spans': seq<(nat, nat)>)
    requires start <= end <= |text| && found == DfaAccepts(d, text[start..end])
    requires results == Slices(text, spans)
    requires Searched(d, text, spans, start, end)
    ensures (if found then results + [text[start..end]] else results) == Slices(text, spans')
    ensures Searched(d, text, spans', start, end + 1)
  {
    var head: seq<(nat, nat)> := if found then [(start, end)] else [];
    var rest := EndsFrom(d, text, start, end + 1);
    assert EndsFrom(d, text, start, end) == head + rest;
    spans' := spans + head;
    assert spans + EndsFrom(d, text, start, end) == spans' + rest;
    if found {
      SlicesPush(text, spans, (start, end));
      assert Slice(text, (start, end)) == text[start..end];
    }
  }

  /** Recording one more span records its text. */
  lemma SlicesPush(text: seq<char>, spans: seq<(nat, nat)>, span: (nat, nat))
    ensures Slices(text, spans + [span]) == Slices(text, spans) + [Slice(text, span)]
  {
  }

  /** Entering and leaving the inner loop of `find_iter` at start offset `start`. */
  lemma StartStep(d: Dfa, text: seq<char>, start: nat, spans: seq<(nat, nat)>)
    requires start < |text|
    ensures spans + SpansFrom(d, text, start) == MatchSpans(d, text) <==> Searched(d, text, spans, start, start)
    ensures Searched(d, text, spans, start, |text| + 1) <==> spans + SpansFrom(d, text, start + 1) == MatchSpans(d, text)
  {
    assert spans + SpansFrom(d, text, start) == spans + EndsFrom(d, text, start, start) + SpansFrom(d, text, start + 1);
    assert EndsFrom(d, text, start, |text| + 1) == [];
    assert spans + [] == spans;
  }

  /** `find_iter`: try every start offset, and for each every end offset from it on. */
  method FindIter(re: CustomRegex, text: seq<char>) returns (results: seq<seq<char>>)
    ensures results == Slices(text, MatchSpans(re.dfa, text))
    ensures text == [] ==> results == []
  {
    results := [];
    ghost var spans: seq<(nat, nat)> := [];
    for start := 0 to |text|
      invariant results == Slices(text, spans)
      invariant spans + SpansFrom(re.dfa, text, start) == MatchSpans(re.dfa, text)
    {
      StartStep(re.dfa, text, start, spans);
      for end := start to |text| + 1
        invariant results == Slices(text, spans)
        invariant Searched(re.dfa, text, spans, start, end)
      {
        var substring := text[start..end];
        var found := Matches(re.dfa, substring);
        spans := EndStep(re.dfa, text, start, end, spans, results, found);
        if found {
          results := results + [substring];
        }
      }
      StartStep(re.dfa, text, start, spans);
    }
  }

  // ---------------------------------------------------------------------------
  // What the search reports
  // ---------------------------------------------------------------------------

  /** `a` comes before `b`: by start offset, then by end offset. */
  predicate Before(a: (nat, nat), b: (nat, nat)) {
    a.0 < b.0 || (a.0 == b.0 && a.1 < b.1)
  }

  predicate Ordered(spans: seq<(nat, nat)>) {
    forall i, j :: 0 <= i < j < |spans| ==> Before(spans[i], spans[j])
  }

  /** The spans of one start offset: exactly the matching ones, by ascending end. */
  lemma {:induction false} EndsFromExact(d: Dfa, text: seq<char>, start: nat, end: nat)
    requires start <= end
    ensures forall sp :: sp in EndsFrom(d, text, start, end) <==>
              sp.0 == start && end <= sp.1 <= |text| && DfaAccepts(d, text[start..sp.1])
    ensures forall i, j :: 0 <= i < j < |EndsFrom(d, text, start, end)| ==>
              EndsFrom(d, text, start, end)[i].1 < EndsFrom(d, text, start, end)[j].1
    decreases |text| + 1 - end
  {
    if end <= |text| {
      EndsFromExact(d, text, start, end + 1);
    }
  }

  /** The spans from start offset `start` on: exactly the matching ones, in order. */
  lemma {:induction false} SpansFromExact(d: Dfa, text: seq<char>, start: nat)
    ensures forall sp :: sp in SpansFrom(d, text, start) <==>
              start <= sp.0 < |text| && sp.0 <= sp.1 <= |text| && DfaAccepts(d, text[sp.0..sp.1])
    ensures Ordered(SpansFrom(d, text, start))
    decreases |text| - start
  {
    if start < |text| {
      EndsFromExact(d, text, start, start);
      SpansFromExact(d, text, start + 1);
      var xs, ys := EndsFrom(d, text, start, start), SpansFrom(d, text, start + 1);
      assert forall i :: 0 <= i < |xs| ==> xs[i] in xs;
      assert forall j :: 0 <= j < |ys| ==> ys[j] in ys;
      assert forall i, j :: 0 <= i < |xs| && 0 <= j < |ys| ==> Before(xs[i], ys[j]);
    }
  }

  /**
   * `find_iter` reports the text of each span `(s, e)` with `s < |text|` and
   * `s <= e <= |text|` whose text the pattern matches, each once, ordered by
   * start and then by end; equal texts at different spans are all kept.
   */
  lemma MatchSpansExact(d: Dfa, text: seq<char>)
    ensures forall sp :: sp in MatchSpans(d, text) <==>
              sp.0 < |text| && sp.0 <= sp.1 <= |text| && DfaAccepts(d, text[sp.0..sp.1])
    ensures Ordered(MatchSpans(d, text))
  {
    SpansFromExact(d, text, 0);
  }

  /**
   * Searching `ab` with `a*` reports the empty string at offsets 0 and 1 and
   * `a` at offset 0, but no empty string at offset 2, the end of the text.
   */
  lemma SearchExample(d: Dfa)
    requires forall w :: DfaAccepts(d, w) <==> InLanguage(Parse("a*").value.tree, w)
    ensures MatchSpans(d, "ab") == [(0, 0), (0, 1), (1, 1)]
    ensures Slices("ab", MatchSpans(d, "ab")) == ["", "a", ""]
  {
    var text := "ab";
    assert Parse("a*") == Ok(Parsed(Kleene(Literal('a')), 2));
    StarPrepend([]);
    assert "a" + [] == "a";
    StarRejectsB();
    StarRejectsAb();
    assert text[0..0] == "" && text[0..1] == "a" && text[0..2] == "ab";
    assert text[1..1] == "" && text[1..2] == "b";
    assert EndsFrom(d, text, 0, 0) == [(0, 0), (0, 1)];
    assert EndsFrom(d, text, 1, 1) == [(1, 1)];
  }

  /** `a*` stands for the empty string, `a`, `aa` and `aaa`. */
  lemma StarTakesUpToThree()
    ensures InLanguage(Kleene(Literal('a')), "")
    ensures InLanguage(Kleene(Literal('a')), "a")
    ensures InLanguage(Kleene(Literal('a')), "aa")
    ensures InLanguage(Kleene(Literal('a')), "aaa")
  {
    StarPrepend([]);
    assert "a" + [] == "a";
    StarPrepend("a");
    assert "a" + "a" == "aa";
    StarPrepend("aa");
    assert "a" + "aa" == "aaa";
  }

  /** `d` matches exactly the strings `a*` stands for. */
  ghost predicate MatchesStar(d: Dfa) {
    forall w :: DfaAccepts(d, w) <==> InLanguage(Kleene(Literal('a')), w)
  }

  /** From offset 0 of `aaa`, `a*` matches at every end offset. */
  lemma AllLettersFromZero(d: Dfa)
    requires MatchesStar(d)
    ensures EndsFrom(d, "aaa", 0, 0) == [(0, 0), (0, 1), (0, 2), (0, 3)]
  {
    var text := "aaa";
    StarTakesUpToThree();
    assert text[0..0] == "" && text[0..1] == "a" && text[0..2] == "aa" && text[0..3] == "aaa";
  }

  /** From offset 1 of `aaa`, `a*` matches at every end offset. */
  lemma AllLettersFromOne(d: Dfa)
    requires MatchesStar(d)
    ensures EndsFrom(d, "aaa", 1, 1) == [(1, 1), (1, 2), (1, 3)]
  {
    var text := "aaa";
    StarTakesUpToThree();
    assert text[1..1] == "" && text[1..2] == "a" && text[1..3] == "aa";
  }

  /** From offset 2 of `aaa`, `a*` matches at every end offset. */
  lemma AllLettersFromTwo(d: Dfa)
    requires MatchesStar(d)
    ensures EndsFrom(d, "aaa", 2, 2) == [(2, 2), (2, 3)]
  {
    var text := "aaa";
    StarTakesUpToThree();
    assert text[2..2] == "" && text[2..3] == "a";
  }

  /** The spans of `aaa` that `a*` matches: every span but the empty one at the end. */
  lemma AllLettersSpans(d: Dfa)
    requires MatchesStar(d)
    ensures MatchSpans(d, "aaa") == [(0, 0), (0, 1), (0, 2), (0, 3), (1, 1), (1, 2), (1, 3), (2, 2), (2, 3)]
  {
    AllLettersFromZero(d);
    AllLettersFromOne(d);
    AllLettersFromTwo(d);
    assert SpansFrom(d, "aaa", 2) == EndsFrom(d, "aaa", 2, 2);
    assert SpansFrom(d, "aaa", 1) == EndsFrom(d, "aaa", 1, 1) + SpansFrom(d, "aaa", 2);
  }

  /** The texts of those spans. */
  lemma AllLettersSlices()
    ensures Slices("aaa", [(0, 0), (0, 1), (0, 2), (0, 3), (1, 1), (1, 2), (1, 3), (2, 2), (2, 3)])
            == ["", "a", "aa", "aaa", "", "a", "aa", "", "a"]
  {
    var text := "aaa";
    assert text[0..0] == "" && text[0..1] == "a" && text[0..2] == "aa" && text[0..3] == "aaa";
    assert text[1..1] == "" && text[1..2] == "a" && text[1..3] == "aa";
    assert text[2..2] == "" && text[2..3] == "a";
  }

  /**
   * Searching `aaa` with `a*` reports 9 texts: the empty string at offsets 0,
   * 1 and 2 but not at 3, the end of the text, and every non-empty slice.
   */
  lemma SearchAllLetters(d: Dfa)
    requires forall w :: DfaAccepts(d, w) <==> InLanguage(Parse("a*").value.tree, w)
    ensures MatchSpans(d, "aaa") == [(0, 0), (0, 1), (0, 2), (0, 3), (1, 1), (1, 2), (1, 3), (2, 2), (2, 3)]
    ensures Slices("aaa", MatchSpans(d, "aaa")) == ["", "a", "aa", "aaa", "", "a", "aa", "", "a"]
  {
    assert Parse("a*") == Ok(Parsed(Kleene(Literal('a')), 2));
    AllLettersSpans(d);
    AllLettersSlices();
  }
}
