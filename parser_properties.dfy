/**
 * What the parser of src/custom_regex.rs guarantees: what a successful parse
 * accounts for in the text it consumed, that printing a tree fully parenthesised
 * and parsing it back gives the tree again, and its behaviour on the patterns
 * where its rules are easiest to get wrong.
 */
module ParserProperties {
  import opened Syntax
  import opened Parsing

  // ---------------------------------------------------------------------------
  // Counting characters of a pattern
  // ---------------------------------------------------------------------------

  /** The lowercase letters of `s`, in order. */
  function Letters(s: seq<char>): seq<char> {
    if s == [] then [] else (if IsLowercase(s[0]) then [s[0]] else []) + Letters(s[1..])
  }

  /** How many times `x` occurs in `s`. */
  function Occurrences(s: seq<char>, x: char): nat {
    if s == [] then 0 else (if s[0] == x then 1 else 0) + Occurrences(s[1..], x)
  }

  lemma {:induction false} LettersAppend(a: seq<char>, b: seq<char>)
    ensures Letters(a + b) == Letters(a) + Letters(b)
  {
    if a != [] {
      assert (a + b)[1..] == a[1..] + b;
      LettersAppend(a[1..], b);
    } else {
      assert a + b == b;
    }
  }

  lemma {:induction false} OccurrencesAppend(a: seq<char>, b: seq<char>, x: char)
    ensures Occurrences(a + b, x) == Occurrences(a, x) + Occurrences(b, x)
  {
    if a != [] {
      assert (a + b)[1..] == a[1..] + b;
      OccurrencesAppend(a[1..], b, x);
    } else {
      assert a + b == b;
    }
  }

  /**
   * The text `t` is what `r` was parsed from: the tree's literals are the
   * letters of `t` in order, there is one `Kleene` node per `*` and one `Union`
   * node per `|`, the parentheses come in pairs, and `t` holds nothing else.
   */
  predicate Tallies(t: seq<char>, r: Regex) {
    && Yield(r) == Letters(t)
    && KleeneCount(r) == Occurrences(t, '*')
    && UnionCount(r) == Occurrences(t, '|')
    && Occurrences(t, '(') == Occurrences(t, ')')
    && |t| == |Letters(t)| + Occurrences(t, '*') + Occurrences(t, '|') + 2 * Occurrences(t, '(')
  }

  /** The parse `r`, started at `p`, accounts for the text `s[p..r.next]` it consumed. */
  predicate Accounts(s: seq<char>, p: nat, r: Parsed) {
    p <= r.next <= |s| && Tallies(s[p..r.next], r.tree)
  }

  /** The five counts of a text made of two pieces are the sums of the pieces' counts. */
  lemma CountsAppend(a: seq<char>, b: seq<char>)
    ensures Letters(a + b) == Letters(a) + Letters(b)
    ensures Occurrences(a + b, '*') == Occurrences(a, '*') + Occurrences(b, '*')
    ensures Occurrences(a + b, '|') == Occurrences(a, '|') + Occurrences(b, '|')
    ensures Occurrences(a + b, '(') == Occurrences(a, '(') + Occurrences(b, '(')
    ensures Occurrences(a + b, ')') == Occurrences(a, ')') + Occurrences(b, ')')
  {
    LettersAppend(a, b);
    OccurrencesAppend(a, b, '*');
    OccurrencesAppend(a, b, '|');
    OccurrencesAppend(a, b, '(');
    OccurrencesAppend(a, b, ')');
  }

  lemma TalliesConcat(x: seq<char>, a: Regex, y: seq<char>, b: Regex)
    requires Tallies(x, a) && Tallies(y, b)
    ensures Tallies(x + y, Concat(a, b))
  {
    CountsAppend(x, y);
  }

  lemma TalliesUnion(x: seq<char>, a: Regex, y: seq<char>, b: Regex)
    requires Tallies(x, a) && Tallies(y, b)
    ensures Tallies(x + ['|'] + y, Union(a, b))
  {
    CountsBar(x);
    CountsAppend(x + ['|'], y);
  }

  /** A `|` added to a text adds to its count of bars and to nothing else. */
  lemma CountsBar(x: seq<char>)
    ensures Letters(x + ['|']) == Letters(x)
    ensures Occurrences(x + ['|'], '*') == Occurrences(x, '*')
    ensures Occurrences(x + ['|'], '|') == Occurrences(x, '|') + 1
    ensures Occurrences(x + ['|'], '(') == Occurrences(x, '(')
    ensures Occurrences(x + ['|'], ')') == Occurrences(x, ')')
  {
    CountsOne('|');
    CountsAppend(x, ['|']);
    assert Letters(x) + [] == Letters(x);
  }

  /** The counts of a one-character text. */
  lemma CountsOne(c: char)
    ensures Letters([c]) == if IsLowercase(c) then [c] else []
    ensures Occurrences([c], '*') == (if c == '*' then 1 else 0)
    ensures Occurrences([c], '|') == (if c == '|' then 1 else 0)
    ensures Occurrences([c], '(') == (if c == '(' then 1 else 0)
    ensures Occurrences([c], ')') == (if c == ')' then 1 else 0)
  {
    assert [c][1..] == [];
  }

  lemma TalliesKleene(x: seq<char>, a: Regex)
    requires Tallies(x, a)
    ensures Tallies(x + ['*'], Kleene(a))
  {
    CountsOne('*');
    CountsAppend(x, ['*']);
  }

  lemma TalliesGroup(x: seq<char>, a: Regex)
    requires Tallies(x, a)
    ensures Tallies(['('] + x + [')'], a)
  {
    CountsOne('(');
    CountsOne(')');
    CountsAppend(['('], x);
    CountsAppend(['('] + x, [')']);
  }

  lemma {:induction false} UnionAtAccounts(s: seq<char>, p: nat)
    requires p <= |s|
    ensures ParseUnionAt(s, p).Ok? ==> Accounts(s, p, ParseUnionAt(s, p).value)
    decreases |s| - p, 6
  {
    ConcatAtAccounts(s, p);
    var first := ParseConcatAt(s, p);
    if first.Ok? {
      UnionTailAccounts(s, p, first.value.next, first.value.tree);
    }
  }

  lemma {:induction false} UnionTailAccounts(s: seq<char>, p0: nat, p: nat, acc: Regex)
    requires p0 <= p <= |s|
    requires Accounts(s, p0, Parsed(acc, p))
    ensures UnionTail(s, p, acc).Ok? ==> Accounts(s, p0, UnionTail(s, p, acc).value)
    decreases |s| - p, 5
  {
    if p < |s| && s[p] == '|' {
      ConcatAtAccounts(s, p + 1);
      var right := ParseConcatAt(s, p + 1);
      if right.Ok? {
        var q := right.value.next;
        assert s[p0..q] == s[p0..p] + ['|'] + s[p + 1..q];
        TalliesUnion(s[p0..p], acc, s[p + 1..q], right.value.tree);
        UnionTailAccounts(s, p0, q, Union(acc, right.value.tree));
      }
    }
  }

  lemma {:induction false} ConcatAtAccounts(s: seq<char>, p: nat)
    requires p <= |s|
    ensures ParseConcatAt(s, p).Ok? ==> Accounts(s, p, ParseConcatAt(s, p).value)
    decreases |s| - p, 4
  {
    KleeneAtAccounts(s, p);
    var first := ParseKleeneAt(s, p);
    if first.Ok? {
      ConcatTailAccounts(s, p, first.value.next, first.value.tree);
    }
  }

  lemma {:induction false} ConcatTailAccounts(s: seq<char>, p0: nat, p: nat, acc: Regex)
    requires p0 <= p <= |s|
    requires Accounts(s, p0, Parsed(acc, p))
    ensures ConcatTail(s, p, acc).Ok? ==> Accounts(s, p0, ConcatTail(s, p, acc).value)
    decreases |s| - p, 3
  {
    if p < |s| && s[p] != ')' && s[p] != '|' {
      KleeneAtAccounts(s, p);
      var right := ParseKleeneAt(s, p);
      if right.Ok? {
        var q := right.value.next;
        assert s[p0..q] == s[p0..p] + s[p..q];
        TalliesConcat(s[p0..p], acc, s[p..q], right.value.tree);
        ConcatTailAccounts(s, p0, q, Concat(acc, right.value.tree));
      }
    }
  }

  lemma {:induction false} KleeneAtAccounts(s: seq<char>, p: nat)
    requires p <= |s|
    ensures ParseKleeneAt(s, p).Ok? ==> Accounts(s, p, ParseKleeneAt(s, p).value)
    decreases |s| - p, 2
  {
    BaseAtAccounts(s, p);
    var base := ParseBaseAt(s, p);
    if base.Ok? {
      KleeneTailAccounts(s, p, base.value.next, base.value.tree);
    }
  }

  lemma {:induction false} KleeneTailAccounts(s: seq<char>, p0: nat, p: nat, acc: Regex)
    requires p0 <= p <= |s|
    requires Accounts(s, p0, Parsed(acc, p))
    ensures Accounts(s, p0, KleeneTail(s, p, acc))
    decreases |s| - p
  {
    if p < |s| && s[p] == '*' {
      assert s[p0..p + 1] == s[p0..p] + ['*'];
      TalliesKleene(s[p0..p], acc);
      KleeneTailAccounts(s, p0, p + 1, Kleene(acc));
    }
  }

  lemma {:induction false} BaseAtAccounts(s: seq<char>, p: nat)
    requires p <= |s|
    ensures ParseBaseAt(s, p).Ok? ==> Accounts(s, p, ParseBaseAt(s, p).value)
    decreases |s| - p, 0
  {
    if p < |s| && s[p] == '(' {
      UnionAtAccounts(s, p + 1);
      var inner := ParseUnionAt(s, p + 1);
      if inner.Ok? && inner.value.next < |s| && s[inner.value.next] == ')' {
        var q := inner.value.next;
        assert s[p..q + 1] == ['('] + s[p + 1..q] + [')'];
        TalliesGroup(s[p + 1..q], inner.value.tree);
      }
    } else if p < |s| && IsLowercase(s[p]) {
      assert s[p..p + 1] == [s[p]];
    }
  }

  /** Every literal of a parsed tree is a lowercase letter of the pattern. */
  lemma ParsedLiteralsAreLowercase(s: seq<char>)
    requires Parse(s).Ok?
    ensures Yield(Parse(s).value.tree) == Letters(s[..Parse(s).value.next])
    ensures forall c :: c in Yield(Parse(s).value.tree) ==> IsLowercase(c)
  {
    UnionAtAccounts(s, 0);
    LettersAreLowercase(s[..Parse(s).value.next]);
  }

  lemma {:induction false} LettersAreLowercase(s: seq<char>)
    ensures forall c :: c in Letters(s) ==> IsLowercase(c)
  {
    if s != [] {
      LettersAreLowercase(s[1..]);
    }
  }

  // ---------------------------------------------------------------------------
  // Printing a tree and parsing it back
  // ---------------------------------------------------------------------------

  /** Trees the printer below can write: no `Empty` node, only lowercase literals. */
  predicate Printable(r: Regex) {
    match r
    case Empty => false
    case Literal(c) => IsLowercase(c)
    case Concat(a, b) => Printable(a) && Printable(b)
    case Union(a, b) => Printable(a) && Printable(b)
    case Kleene(a) => Printable(a)
  }

  /** `x` in parentheses. */
  function Group(x: seq<char>): seq<char> {
    ['('] + x + [')']
  }

  /** A fully parenthesised pattern for a tree. */
  function Print(r: Regex): seq<char>
    requires Printable(r)
  {
    match r
    case Literal(c) => [c]
    case Concat(a, b) => Group(Print(a)) + Group(Print(b))
    case Union(a, b) => Group(Print(a)) + (['|'] + Group(Print(b)))
    case Kleene(a) => Group(Print(a)) + ['*']
  }

  /** `s` holds the text `t` from `p` on. */
  predicate TextAt(s: seq<char>, p: nat, t: seq<char>) {
    p + |t| <= |s| && s[p..p + |t|] == t
  }

  /** A text made of two pieces holds each piece at its place. */
  lemma SplitAt(s: seq<char>, p: nat, x: seq<char>, y: seq<char>)
    requires TextAt(s, p, x + y)
    ensures TextAt(s, p, x) && TextAt(s, p + |x|, y)
  {
    assert s[p..p + |x|] == s[p..p + |x + y|][..|x|];
    assert s[p + |x|..p + |x| + |y|] == s[p..p + |x + y|][|x|..];
  }

  /** A text that starts with `c` has `c` at its place and the rest after it. */
  lemma LeadAt(s: seq<char>, p: nat, c: char, y: seq<char>)
    requires TextAt(s, p, [c] + y)
    ensures s[p] == c && TextAt(s, p + 1, y)
  {
    SplitAt(s, p, [c], y);
    CharAt(s, p, c);
  }

  /** A one-character text is that character. */
  lemma CharAt(s: seq<char>, p: nat, c: char)
    requires TextAt(s, p, [c])
    ensures s[p] == c
  {
    assert s[p] == s[p..p + 1][0];
  }

  /** `s` holds `Print(r)` at `p`, followed by the end of the pattern or by `)`. */
  predicate PrintedAt(s: seq<char>, p: nat, r: Regex)
    requires Printable(r)
  {
    TextAt(s, p, Print(r)) && (p + |Print(r)| == |s| || s[p + |Print(r)|] == ')')
  }

  /** Where the pieces of `(x)` lie in `s`. */
  lemma GroupPieces(s: seq<char>, p: nat, x: seq<char>)
    requires TextAt(s, p, Group(x))
    ensures s[p] == '(' && TextAt(s, p + 1, x) && s[p + 1 + |x|] == ')'
  {
    assert Group(x) == ['('] + (x + [')']);
    LeadAt(s, p, '(', x + [')']);
    SplitAt(s, p + 1, x, [')']);
    CharAt(s, p + 1 + |x|, ')');
  }

  /** A tree written in parentheses parses as one base expression. */
  lemma {:induction false} ParenthesisedParses(s: seq<char>, p: nat, r: Regex, q: nat)
    requires Printable(r)
    requires TextAt(s, p, Group(Print(r))) && q == p + |Print(r)| + 2
    ensures s[p] == '('
    ensures ParseBaseAt(s, p) == Ok(Parsed(r, q))
    decreases r, 3
  {
    GroupPieces(s, p, Print(r));
    PrintParses(s, p + 1, r);
  }

  /** Parsing at `p` recovers a printed tree and stops right after it. */
  lemma {:induction false} PrintParses(s: seq<char>, p: nat, r: Regex)
    requires Printable(r)
    requires PrintedAt(s, p, r)
    ensures ParseUnionAt(s, p) == Ok(Parsed(r, p + |Print(r)|))
    decreases r, 2
  {
    match r
    case Literal(c) =>
      var q := p + 1;
      CharAt(s, p, c);
      assert ParseBaseAt(s, p) == Ok(Parsed(r, q));
      assert ParseKleeneAt(s, p) == Ok(Parsed(r, q));
      assert ParseConcatAt(s, p) == Ok(Parsed(r, q));
    case Concat(a, b) => PrintParsesConcat(s, p, a, b);
    case Union(a, b) => PrintParsesUnion(s, p, a, b);
    case Kleene(a) => PrintParsesKleene(s, p, a);
  }

  /** A base followed by no `*` is a whole kleene expression. */
  lemma KleeneStops(s: seq<char>, p: nat, t: Regex, m: nat)
    requires p <= m <= |s| && ParseBaseAt(s, p) == Ok(Parsed(t, m))
    requires m == |s| || s[m] != '*'
    ensures ParseKleeneAt(s, p) == Ok(Parsed(t, m))
  {
  }

  /** A kleene expression followed by `)`, `|` or the end is a whole concatenation. */
  lemma ConcatStops(s: seq<char>, p: nat, t: Regex, m: nat)
    requires p <= m <= |s| && ParseKleeneAt(s, p) == Ok(Parsed(t, m))
    requires m == |s| || s[m] == ')' || s[m] == '|'
    ensures ParseConcatAt(s, p) == Ok(Parsed(t, m))
  {
  }

  /** A concatenation followed by `)` or the end is a whole union. */
  lemma UnionStops(s: seq<char>, p: nat, t: Regex, m: nat)
    requires p <= m <= |s| && ParseConcatAt(s, p) == Ok(Parsed(t, m))
    requires m == |s| || s[m] == ')'
    ensures ParseUnionAt(s, p) == Ok(Parsed(t, m))
  {
  }

  /** A concatenation or a union tail that meets `)` or the end stops there. */
  lemma TailsStop(s: seq<char>, q: nat, acc: Regex)
    requires q <= |s| && (q == |s| || s[q] == ')')
    ensures ConcatTail(s, q, acc) == Ok(Parsed(acc, q))
    ensures UnionTail(s, q, acc) == Ok(Parsed(acc, q))
    ensures KleeneTail(s, q, acc) == Parsed(acc, q)
  {
  }

  /** Where the groups of `(A)(B)` lie in `s`, and where the text ends. */
  lemma ConcatPieces(s: seq<char>, p: nat, a: Regex, b: Regex) returns (m: nat, q: nat)
    requires Printable(Concat(a, b)) && PrintedAt(s, p, Concat(a, b))
    ensures m == p + |Print(a)| + 2 && q == m + |Print(b)| + 2 && q == p + |Print(Concat(a, b))|
    ensures TextAt(s, p, Group(Print(a))) && TextAt(s, m, Group(Print(b)))
    ensures m < |s| && s[m] == '(' && (q == |s| || s[q] == ')')
  {
    var ga, gb := Group(Print(a)), Group(Print(b));
    m, q := p + |ga|, p + |ga| + |gb|;
    SplitAt(s, p, ga, gb);
    GroupPieces(s, m, Print(b));
  }

  /** Where the groups and the bar of `(A)|(B)` lie in `s`, and where the text ends. */
  lemma UnionPieces(s: seq<char>, p: nat, a: Regex, b: Regex) returns (m: nat, q: nat)
    requires Printable(Union(a, b)) && PrintedAt(s, p, Union(a, b))
    ensures m == p + |Print(a)| + 2 && q == m + 1 + |Print(b)| + 2 && q == p + |Print(Union(a, b))|
    ensures TextAt(s, p, Group(Print(a))) && TextAt(s, m + 1, Group(Print(b)))
    ensures m < |s| && s[m] == '|' && (q == |s| || s[q] == ')')
  {
    var ga, gb := Group(Print(a)), Group(Print(b));
    m, q := p + |ga|, p + |ga| + 1 + |gb|;
    SplitAt(s, p, ga, ['|'] + gb);
    LeadAt(s, m, '|', gb);
  }

  /** Where the group and the star of `(A)*` lie in `s`, and where the text ends. */
  lemma KleenePieces(s: seq<char>, p: nat, a: Regex) returns (m: nat, q: nat)
    requires Printable(Kleene(a)) && PrintedAt(s, p, Kleene(a))
    ensures m == p + |Print(a)| + 2 && q == m + 1 && q == p + |Print(Kleene(a))|
    ensures TextAt(s, p, Group(Print(a)))
    ensures m < |s| && s[m] == '*' && (q == |s| || s[q] == ')')
  {
    var ga := Group(Print(a));
    m, q := p + |ga|, p + |ga| + 1;
    SplitAt(s, p, ga, ['*']);
    CharAt(s, m, '*');
  }

  lemma {:induction false} PrintParsesConcat(s: seq<char>, p: nat, a: Regex, b: Regex)
    requires Printable(Concat(a, b))
    requires PrintedAt(s, p, Concat(a, b))
    ensures ParseUnionAt(s, p) == Ok(Parsed(Concat(a, b), p + |Print(Concat(a, b))|))
    decreases Concat(a, b), 1
  {
    var m, q := ConcatPieces(s, p, a, b);
    ParenthesisedParses(s, p, a, m);
    ParenthesisedParses(s, m, b, q);
    ConcatOfGroups(s, p, a, m, b, q);
  }

  /** `(A)(B)`, followed by `)` or the end, parses as `Concat(A, B)`. */
  lemma ConcatOfGroups(s: seq<char>, p: nat, a: Regex, m: nat, b: Regex, q: nat)
    requires p <= m <= q <= |s|
    requires ParseBaseAt(s, p) == Ok(Parsed(a, m)) && m < |s| && s[m] == '('
    requires ParseBaseAt(s, m) == Ok(Parsed(b, q)) && (q == |s| || s[q] == ')')
    ensures ParseUnionAt(s, p) == Ok(Parsed(Concat(a, b), q))
  {
    KleeneStops(s, p, a, m);
    KleeneStops(s, m, b, q);
    TailsStop(s, q, Concat(a, b));
    assert ConcatTail(s, m, a) == Ok(Parsed(Concat(a, b), q));
    UnionStops(s, p, Concat(a, b), q);
  }

  lemma {:induction false} PrintParsesUnion(s: seq<char>, p: nat, a: Regex, b: Regex)
    requires Printable(Union(a, b))
    requires PrintedAt(s, p, Union(a, b))
    ensures ParseUnionAt(s, p) == Ok(Parsed(Union(a, b), p + |Print(Union(a, b))|))
    decreases Union(a, b), 1
  {
    var m, q := UnionOperands(s, p, a, b);
    UnionOfGroups(s, p, a, m, b, q);
  }

  /** The two groups of a printed `(A)|(B)` parse as base expressions on either side of the bar. */
  lemma {:induction false} UnionOperands(s: seq<char>, p: nat, a: Regex, b: Regex) returns (m: nat, q: nat)
    requires Printable(Union(a, b)) && PrintedAt(s, p, Union(a, b))
    ensures p <= m < q <= |s| && q == p + |Print(Union(a, b))|
    ensures ParseBaseAt(s, p) == Ok(Parsed(a, m)) && s[m] == '|'
    ensures ParseBaseAt(s, m + 1) == Ok(Parsed(b, q)) && (q == |s| || s[q] == ')')
    decreases Union(a, b), 0
  {
    m, q := UnionPieces(s, p, a, b);
    ParenthesisedParses(s, p, a, m);
    ParenthesisedParses(s, m + 1, b, q);
  }

  /** `(A)|(B)`, followed by `)` or the end, parses as `Union(A, B)`. */
  lemma UnionOfGroups(s: seq<char>, p: nat, a: Regex, m: nat, b: Regex, q: nat)
    requires p <= m < q <= |s|
    requires ParseBaseAt(s, p) == Ok(Parsed(a, m)) && s[m] == '|'
    requires ParseBaseAt(s, m + 1) == Ok(Parsed(b, q)) && (q == |s| || s[q] == ')')
    ensures ParseUnionAt(s, p) == Ok(Parsed(Union(a, b), q))
  {
    KleeneStops(s, p, a, m);
    ConcatStops(s, p, a, m);
    KleeneStops(s, m + 1, b, q);
    ConcatStops(s, m + 1, b, q);
    TailsStop(s, q, Union(a, b));
    assert UnionTail(s, m, a) == Ok(Parsed(Union(a, b), q));
  }

  lemma {:induction false} PrintParsesKleene(s: seq<char>, p: nat, a: Regex)
    requires Printable(Kleene(a))
    requires PrintedAt(s, p, Kleene(a))
    ensures ParseUnionAt(s, p) == Ok(Parsed(Kleene(a), p + |Print(Kleene(a))|))
    decreases Kleene(a), 1
  {
    var m, q := KleenePieces(s, p, a);
    ParenthesisedParses(s, p, a, m);
    KleeneOfGroup(s, p, a, m, q);
  }

  /** `(A)*`, followed by `)` or the end, parses as `Kleene(A)`. */
  lemma KleeneOfGroup(s: seq<char>, p: nat, a: Regex, m: nat, q: nat)
    requires p <= m && q == m + 1 <= |s|
    requires ParseBaseAt(s, p) == Ok(Parsed(a, m)) && s[m] == '*'
    requires q == |s| || s[q] == ')'
    ensures ParseUnionAt(s, p) == Ok(Parsed(Kleene(a), q))
  {
    TailsStop(s, q, Kleene(a));
    assert KleeneTail(s, m, a) == Parsed(Kleene(a), q);
    assert ParseKleeneAt(s, p) == Ok(Parsed(Kleene(a), q));
    ConcatStops(s, p, Kleene(a), q);
    UnionStops(s, p, Kleene(a), q);
  }

  /** Printing a tree and parsing the text back gives the tree, with the whole text consumed. */
  lemma PrintParseRoundTrip(r: Regex)
    requires Printable(r)
    ensures Parse(Print(r)) == Ok(Parsed(r, |Print(r)|))
  {
    assert Print(r)[0..|Print(r)|] == Print(r);
    PrintParses(Print(r), 0, r);
  }

  // ---------------------------------------------------------------------------
  // Particular patterns
  // ---------------------------------------------------------------------------

  /** A letter followed by `|` or the end is a whole concatenation. */
  lemma LetterAlone(s: seq<char>, p: nat)
    requires p < |s| && IsLowercase(s[p])
    requires p + 1 == |s| || s[p + 1] == '|'
    ensures ParseConcatAt(s, p) == Ok(Parsed(Literal(s[p]), p + 1))
  {
    assert ParseBaseAt(s, p) == Ok(Parsed(Literal(s[p]), p + 1));
    KleeneStops(s, p, Literal(s[p]), p + 1);
    ConcatStops(s, p, Literal(s[p]), p + 1);
  }

  /** A trailing `|` leaves an `Empty` right operand. */
  lemma TrailingBar()
    ensures Parse("a|") == Ok(Parsed(Union(Literal('a'), Empty), 2))
  {
  }

  /** Each `*` wraps what is before it once more. */
  lemma StarsStack()
    ensures Parse("a**") == Ok(Parsed(Kleene(Kleene(Literal('a'))), 3))
  {
  }

  /** Concatenation folds to the left. */
  lemma ConcatLeansLeft()
    ensures Parse("abc") == Ok(Parsed(Concat(Concat(Literal('a'), Literal('b')), Literal('c')), 3))
  {
  }

  /** Alternation folds to the left. */
  lemma UnionLeansLeft()
    ensures Parse("a|b|c") == Ok(Parsed(Union(Union(Literal('a'), Literal('b')), Literal('c')), 5))
  {
    var s, a, b, c := "a|b|c", Literal('a'), Literal('b'), Literal('c');
    LetterAlone(s, 0);
    LetterAlone(s, 2);
    LetterAlone(s, 4);
    TailsStop(s, 5, Union(Union(a, b), c));
    assert UnionTail(s, 3, Union(a, b)) == Ok(Parsed(Union(Union(a, b), c), 5));
    assert UnionTail(s, 1, a) == Ok(Parsed(Union(Union(a, b), c), 5));
  }

  /** A `)` with no `(` before it ends the parse, leaving the rest unread. */
  lemma StrayParenthesisStops()
    ensures Parse("a)b") == Ok(Parsed(Literal('a'), 1))
  {
  }

  /** A group must hold an expression. */
  lemma EmptyGroupRejected()
    ensures Parse("()") == Err(UnexpectedCharacter)
  {
  }

  /** Inside a group, an alternative may not be empty. */
  lemma EmptyAlternativeRejected()
    ensures Parse("(a|)") == Err(UnexpectedCharacter)
  {
  }

  /** A pattern may not start with `|` or `*`. */
  lemma LeadingOperatorRejected()
    ensures Parse("|a") == Err(UnexpectedCharacter)
    ensures Parse("*a") == Err(UnexpectedCharacter)
  {
  }

  /** Only lowercase letters are literals. */
  lemma NonLetterRejected()
    ensures Parse("1") == Err(UnexpectedCharacter)
  {
  }

  /** A `(` needs its `)`. */
  lemma UnclosedGroupRejected()
    ensures Parse("(") == Err(UnmatchedParenthesis)
    ensures Parse("(a") == Err(UnmatchedParenthesis)
  {
  }

  /** A `(` needs its `)` even after a longer group. */
  lemma UnclosedUnionRejected()
    ensures Parse("(ab|c") == Err(UnmatchedParenthesis)
  {
  }
}
