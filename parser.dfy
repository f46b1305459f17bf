/**
 * The recursive-descent parser of src/custom_regex.rs (`Parser`).
 *
 * The grammar is
 *   union  := concat ('|' concat)*
 *   concat := kleene kleene*        (stops before ')', '|' or the end)
 *   kleene := base '*'*
 *   base   := '(' union ')' | lowercase letter | nothing, at the end of input
 *
 * The functions `ParseUnionAt` ... `ParseBaseAt` say what each parsing routine
 * returns when it starts at position `p` of the pattern `s`; the class `Parser`
 * is the imperative parser, with its mutable `pos`, proved to agree with them.
 */
module Parsing {
  import opened Syntax

  /** A successful parse: the tree and the position just after what it consumed. */
  datatype Parsed = Parsed(tree: Regex, next: nat)

  // ---------------------------------------------------------------------------
  // The parser as functions of (pattern, position)
  // ---------------------------------------------------------------------------

  /** `parse_union` started at `p`. */
  function ParseUnionAt(s: seq<char>, p: nat): (r: Result<Parsed>)
    requires p <= |s|
    ensures r.Ok? ==> p <= r.value.next <= |s| && (r.value.next == p <==> p == |s|)
    ensures r.Ok? && r.value.tree == Empty ==> p == |s|
    ensures r.Err? ==> r.error != EmptyPattern
    decreases |s| - p, 6
  {
    match ParseConcatAt(s, p)
    case Err(e) => Err(e)
    case Ok(first) => UnionTail(s, first.next, first.tree)
  }

  /** The `while let Some('|')` loop of `parse_union`, with the tree built so far. */
  function UnionTail(s: seq<char>, p: nat, acc: Regex): (r: Result<Parsed>)
    requires p <= |s|
    ensures r.Ok? ==> p <= r.value.next <= |s|
    ensures r.Ok? && r.value.tree == Empty ==> acc == Empty && r.value.next == p
    ensures r.Err? ==> r.error != EmptyPattern
    decreases |s| - p, 5
  {
    if p < |s| && s[p] == '|' then
      match ParseConcatAt(s, p + 1)
      case Err(e) => Err(e)
      case Ok(right) => UnionTail(s, right.next, Union(acc, right.tree))
    else
      Ok(Parsed(acc, p))
  }

  /** `parse_concat` started at `p`. */
  function ParseConcatAt(s: seq<char>, p: nat): (r: Result<Parsed>)
    requires p <= |s|
    ensures r.Ok? ==> p <= r.value.next <= |s| && (r.value.next == p <==> p == |s|)
    ensures r.Ok? && r.value.tree == Empty ==> p == |s|
    ensures r.Err? ==> r.error != EmptyPattern
    decreases |s| - p, 4
  {
    match ParseKleeneAt(s, p)
    case Err(e) => Err(e)
    case Ok(first) => ConcatTail(s, first.next, first.tree)
  }

  /** The loop of `parse_concat`: it runs until `)`, `|` or the end of the pattern. */
  function ConcatTail(s: seq<char>, p: nat, acc: Regex): (r: Result<Parsed>)
    requires p <= |s|
    ensures r.Ok? ==> p <= r.value.next <= |s|
    ensures r.Ok? && r.value.tree == Empty ==> acc == Empty && r.value.next == p
    ensures r.Err? ==> r.error != EmptyPattern
    decreases |s| - p, 3
  {
    if p < |s| && s[p] != ')' && s[p] != '|' then
      match ParseKleeneAt(s, p)
      case Err(e) => Err(e)
      case Ok(right) => ConcatTail(s, right.next, Concat(acc, right.tree))
    else
      Ok(Parsed(acc, p))
  }

  /** `parse_kleene` started at `p`. */
  function ParseKleeneAt(s: seq<char>, p: nat): (r: Result<Parsed>)
    requires p <= |s|
    ensures r.Ok? ==> p <= r.value.next <= |s| && (r.value.next == p <==> p == |s|)
    ensures r.Ok? && r.value.tree == Empty ==> p == |s|
    ensures r.Err? ==> r.error != EmptyPattern
    decreases |s| - p, 2
  {
    match ParseBaseAt(s, p)
    case Err(e) => Err(e)
    case Ok(base) => Ok(KleeneTail(s, base.next, base.tree))
  }

  /** The loop of `parse_kleene`: every `*` wraps one more `Kleene` layer. */
  function KleeneTail(s: seq<char>, p: nat, acc: Regex): (r: Parsed)
    requires p <= |s|
    ensures p <= r.next <= |s|
    ensures r.tree == Empty ==> acc == Empty && r.next == p
    decreases |s| - p, 1
  {
    if p < |s| && s[p] == '*' then KleeneTail(s, p + 1, Kleene(acc)) else Parsed(acc, p)
  }

  /** `parse_base` started at `p`; its two panics are the two errors. */
  function ParseBaseAt(s: seq<char>, p: nat): (r: Result<Parsed>)
    requires p <= |s|
    ensures r.Ok? ==> p <= r.value.next <= |s| && (r.value.next == p <==> p == |s|)
    ensures r.Ok? ==> (r.value.tree == Empty <==> p == |s|)
    ensures r.Err? ==> r.error != EmptyPattern
    decreases |s| - p, 0
  {
    if p == |s| then
      Ok(Parsed(Empty, p))
    else if s[p] == '(' then
      match ParseUnionAt(s, p + 1)
      case Err(e) => Err(e)
      case Ok(inner) =>
        if inner.next < |s| && s[inner.next] == ')' then Ok(Parsed(inner.tree, inner.next + 1))
        else Err(UnmatchedParenthesis)
    else if IsLowercase(s[p]) then
      Ok(Parsed(Literal(s[p]), p + 1))
    else
      Err(UnexpectedCharacter)
  }

  /** `Parser::parse` on a fresh parser: it does not demand that the whole pattern be consumed. */
  function Parse(s: seq<char>): Result<Parsed> {
    ParseUnionAt(s, 0)
  }

  // ---------------------------------------------------------------------------
  // The imperative parser
  // ---------------------------------------------------------------------------

  /** The outcome `r` of a parsing method, with the position `pos` it left, agrees with `spec`. */
  predicate Agrees(r: Result<Regex>, pos: nat, spec: Result<Parsed>) {
    match spec
    case Ok(parsed) => r == Ok(parsed.tree) && pos == parsed.next
    case Err(e) => r == Err(e)
  }

  class Parser {
    const chars: seq<char>
    var pos: nat

    ghost predicate Valid()
      reads this
    {
      pos <= |chars|
    }

    /** `Parser::new`. */
    constructor (pattern: seq<char>)
      ensures Valid() && chars == pattern && pos == 0
    {
      chars := pattern;
      pos := 0;
    }

    /** The character at `pos`, if any. */
    function Peek(): (c: Option<char>)
      reads this
      ensures c.Some? <==> pos < |chars|
      ensures c.Some? ==> c.value == chars[pos]
    {
      if pos < |chars| then Some(chars[pos]) else None
    }

    /** Returns the character at `pos` and steps past it; at the end it returns `None` and stays. */
    method Next() returns (c: Option<char>)
      requires Valid()
      modifies this
      ensures Valid()
      ensures c == old(Peek())
      ensures pos == if c.Some? then old(pos) + 1 else old(pos)
    {
      c := Peek();
      if c.Some? {
        pos := pos + 1;
      }
    }

    /** `Parser::parse`. */
    method Parse() returns (r: Result<Regex>)
      requires Valid()
      modifies this
      ensures Valid()
      ensures Agrees(r, pos, ParseUnionAt(chars, old(pos)))
    {
      r := ParseUnion();
    }

    method ParseUnion() returns (r: Result<Regex>)
      requires Valid()
      modifies this
      ensures Valid() && old(pos) <= pos
      ensures Agrees(r, pos, ParseUnionAt(chars, old(pos)))
      decreases |chars| - pos, 3
    {
      ghost var start := pos;
      r := ParseConcat();
      if r.Err? {
        return;
      }
      while Peek() == Some('|')
        invariant Valid() && start <= pos
        invariant r.Ok?
        invariant UnionTail(chars, pos, r.value) == ParseUnionAt(chars, start)
        decreases |chars| - pos
      {
        ghost var bar := pos;
        var _ := Next();
        var right := ParseConcat();
        assert UnionTail(chars, bar, r.value) == match ParseConcatAt(chars, bar + 1)
          case Err(e) => Err(e)
          case Ok(p) => UnionTail(chars, p.next, Union(r.value, p.tree));
        if right.Err? {
          return Err(right.error);
        }
        r := Ok(Union(r.value, right.value));
      }
    }

    method ParseConcat() returns (r: Result<Regex>)
      requires Valid()
      modifies this
      ensures Valid() && old(pos) <= pos
      ensures Agrees(r, pos, ParseConcatAt(chars, old(pos)))
      decreases |chars| - pos, 2
    {
      ghost var start := pos;
      r := ParseKleene();
      if r.Err? {
        return;
      }
      while Peek().Some? && Peek().value != ')' && Peek().value != '|'
        invariant Valid() && start <= pos
        invariant r.Ok?
        invariant ConcatTail(chars, pos, r.value) == ParseConcatAt(chars, start)
        decreases |chars| - pos
      {
        ghost var here := pos;
        var right := ParseKleene();
        if right.Err? {
          return Err(right.error);
        }
        assert here < pos;
        r := Ok(Concat(r.value, right.value));
      }
    }

    method ParseKleene() returns (r: Result<Regex>)
      requires Valid()
      modifies this
      ensures Valid() && old(pos) <= pos
      ensures Agrees(r, pos, ParseKleeneAt(chars, old(pos)))
      decreases |chars| - pos, 1
    {
      ghost var start := pos;
      r := ParseBase();
      if r.Err? {
        return;
      }
      while Peek() == Some('*')
        invariant Valid() && start <= pos
        invariant r.Ok?
        invariant ParseKleeneAt(chars, start) == Ok(KleeneTail(chars, pos, r.value))
        decreases |chars| - pos
      {
        var _ := Next();
        r := Ok(Kleene(r.value));
      }
    }

    method ParseBase() returns (r: Result<Regex>)
      requires Valid()
      modifies this
      ensures Valid() && old(pos) <= pos
      ensures Agrees(r, pos, ParseBaseAt(chars, old(pos)))
      decreases |chars| - pos, 0
    {
      var c := Peek();
      if c == Some('(') {
        var _ := Next();
        r := ParseUnion();
        if r.Err? {
          return;
        }
        var close := Next();
        if close != Some(')') {
          r := Err(UnmatchedParenthesis);
        }
      } else if c.Some? && IsLowercase(c.value) {
        var _ := Next();
        r := Ok(Literal(c.value));
      } else if c.None? {
        r := Ok(Empty);
      } else {
        r := Err(UnexpectedCharacter);
      }
    }
  }
}
