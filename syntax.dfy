/**
 * The expression tree of the regular-expression engine (src/custom_regex.rs,
 * `RegexAST`), the errors compilation can report, and the meaning of a tree as a
 * set of strings.
 */
module Syntax {

  /** One node of the expression tree built by the parser. */
  datatype Regex =
    | Empty
    | Literal(c: char)
    | Concat(left: Regex, right: Regex)
    | Union(left: Regex, right: Regex)
    | Kleene(inner: Regex)

  /**
   * Why compiling a pattern failed. `EmptyPattern` is the error value of
   * `CustomRegex::new`; the other two are the parser's panics, modelled as values.
   */
  datatype RegexError = EmptyPattern | UnmatchedParenthesis | UnexpectedCharacter

  datatype Result<T> = Ok(value: T) | Err(error: RegexError)

  datatype Option<T> = None | Some(value: T)

  /** `char::is_ascii_lowercase`. */
  predicate IsLowercase(c: char) {
    'a' <= c <= 'z'
  }

  /**
   * The strings a tree stands for. `Empty` stands for no string at all: its
   * automaton has no transition from start to accept. A Kleene string is either
   * empty or a non-empty piece of the inner language followed by more of them.
   */
  ghost predicate InLanguage(r: Regex, w: seq<char>)
    decreases r, |w|
  {
    match r
    case Empty => false
    case Literal(c) => w == [c]
    case Concat(a, b) => exists i :: 0 <= i <= |w| && InLanguage(a, w[..i]) && InLanguage(b, w[i..])
    case Union(a, b) => InLanguage(a, w) || InLanguage(b, w)
    case Kleene(a) =>
      w == [] || exists i :: 0 < i <= |w| && InLanguage(a, w[..i]) && InLanguage(r, w[i..])
  }

  /** The literals of a tree, left to right. */
  function Yield(r: Regex): seq<char> {
    match r
    case Empty => []
    case Literal(c) => [c]
    case Concat(a, b) => Yield(a) + Yield(b)
    case Union(a, b) => Yield(a) + Yield(b)
    case Kleene(a) => Yield(a)
  }

  /** The number of `Kleene` nodes of a tree. */
  function KleeneCount(r: Regex): nat {
    match r
    case Empty => 0
    case Literal(_) => 0
    case Concat(a, b) => KleeneCount(a) + KleeneCount(b)
    case Union(a, b) => KleeneCount(a) + KleeneCount(b)
    case Kleene(a) => 1 + KleeneCount(a)
  }

  /** The number of `Union` nodes of a tree. */
  function UnionCount(r: Regex): nat {
    match r
    case Empty => 0
    case Literal(_) => 0
    case Concat(a, b) => UnionCount(a) + UnionCount(b)
    case Union(a, b) => 1 + UnionCount(a) + UnionCount(b)
    case Kleene(a) => UnionCount(a)
  }
}
