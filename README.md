# A verified model of the custom regular-expression engine

This project models the hand-written engine of `src/custom_regex.rs` as one
pipeline, stage by stage.

1. **Parser** (`syntax.dfy`, `parser.dfy`). A recursive-descent parser reads a
   pattern of lowercase letters, `|`, `*` and parentheses into a `RegexAST`
   tree. The tree's nodes are `Empty`, `Literal`, `Concat`, `Union` and
   `Kleene`. Each parsing routine is a function of the pattern and a position.
   The `Parser` class, with its `pos` field and its `while` loops, is proved
   to return what those functions say.
2. **Thompson construction** (`automaton.dfy`, `thompson.dfy`). The `NFA::new_*`
   builders are loops that push renumbered transitions. Each is proved equal
   to a function giving the automaton it returns. `from_ast` builds the
   automaton of a tree from those builders.
3. **Epsilon closure** (`closure.dfy`). `epsilon_closure` is a stack worklist.
   It is proved to return the least set closed under moves that read nothing.
4. **Subset construction** (`subset.dfy`). `DFA::from_nfa` pops sets of
   automaton states off a worklist and builds each state's `char_map`. It moves
   on each character to the union of the closures of the targets.
5. **Matching and search** (`engine.dfy`). This covers `DFA::matches`,
   `regex_to_dfa`, `CustomRegex::new` and the naive substring search
   `CustomRegex::find_iter`.

The proofs tie the stages together:

- **Meaning of a tree and of an automaton.** `Syntax.InLanguage` gives the
  strings a tree stands for. `Automaton.Accepts` defines acceptance by an
  automaton as a walk along its transitions that spells the string.
- **`from_ast` is correct.** `ThompsonLanguage.ThompsonCorrect` proves that
  `from_ast` accepts exactly the strings of the tree.
- **`from_nfa` is correct.** `SubsetLanguage.SubsetCorrect` proves that the
  automaton `from_nfa` returns accepts exactly what the automaton it was given
  accepts.
- **`from_nfa` is order-independent.** `SubsetLanguage.SubsetDeterminate`
  proves that the result does not depend on the order of the worklist or of
  `char_map`, except for the order of `accept_states`.
- **End to end.** `Engine.New` and `Engine.RegexToDfa` state that a compiled
  pattern matches exactly the strings of its parsed tree.

Behaviour of the code that a reader might not expect, which the model
reproduces:

- **Concatenation offset.** `new_concat` renumbers its right operand by the
  larger of the two state counts, not by the left operand's count. The
  numbers of the two parts stay disjoint, but unused numbers appear, and the
  state count can grow exponentially with the nesting depth: each level of
  right-nested concatenation doubles it while adding only two transitions.
  See `Thompson.ConcatCountGrows`, `Thompson.RightNestDoubles` and
  `Thompson.SixtyFourLevels`.
- **`Empty` node.** The automaton of an `Empty` node has no transition, so it
  accepts nothing, not even the empty string. The parser therefore gives
  `a|` the language `{a}`.
- **Empty matches in `find_iter`.** `find_iter` tries start offsets below the
  length of the text only. It never reports the empty match at the end of the
  text. So searching `aaa` with `a*` reports 9 results: it never tries start
  offset 3, where the empty string would match. See `Engine.SearchAllLetters`.
- **Parser errors.** Errors inside the parser are panics in the code, and
  their messages do not carry the offending character. The model returns them
  as the error values `UnmatchedParenthesis` and `UnexpectedCharacter`.

## Model

| member | source | states |
|---|---|---|
| Parsing.ParseUnionAt | src/custom_regex.rs:40-48 | On success, `parse_union` stays inside the pattern and consumes at least one character unless it starts at the end. It returns `Empty` only at the end. Its errors are parser errors, never the empty-pattern error. |
| Parsing.UnionTail | src/custom_regex.rs:42-46 | The `|` loop never moves back. It yields `Empty` only when nothing was folded and nothing was consumed. Its errors are parser errors. |
| Parsing.ParseConcatAt | src/custom_regex.rs:50-60 | `parse_concat` consumes at least one character unless at the end, and returns `Empty` only at the end. Its errors are parser errors. |
| Parsing.ConcatTail | src/custom_regex.rs:52-58 | The concatenation loop never moves back. It yields `Empty` only when nothing was folded. Its errors are parser errors. |
| Parsing.ParseKleeneAt | src/custom_regex.rs:62-69 | `parse_kleene` consumes at least one character unless at the end, and returns `Empty` only at the end. Its errors are parser errors. |
| Parsing.KleeneTail | src/custom_regex.rs:64-67 | The `*` loop stays inside the pattern. It yields `Empty` only from `Empty` without consuming anything. |
| Parsing.ParseBaseAt | src/custom_regex.rs:71-88 | `parse_base` returns `Empty` exactly at the end of the pattern and otherwise consumes at least one character. Its two panics are the two parser errors. |
| Parsing.Parser.constructor | src/custom_regex.rs:17-22 | `Parser::new` holds the pattern with `pos` at 0. |
| Parsing.Parser.Peek | src/custom_regex.rs:24-26 | `peek` gives the character at `pos` exactly when `pos` is inside the pattern. |
| Parsing.Parser.Next | src/custom_regex.rs:28-34 | `next` returns what `peek` saw, and advances `pos` by one exactly when that was a character. |
| Parsing.Parser.Parse | src/custom_regex.rs:36-38 | `parse` returns the result of `parse_union` from the current position, and leaves `pos` where that ends. |
| Parsing.Parser.ParseUnion | src/custom_regex.rs:40-48 | The `while let Some('|')` loop returns the tree and final position of `ParseUnionAt`, or its error. |
| Parsing.Parser.ParseConcat | src/custom_regex.rs:50-60 | The loop, which stops at `)`, `|` or the end, returns the tree and final position of `ParseConcatAt`, or its error. |
| Parsing.Parser.ParseKleene | src/custom_regex.rs:62-69 | The `*` loop returns what `ParseKleeneAt` gives: one `Kleene` layer per star. |
| Parsing.Parser.ParseBase | src/custom_regex.rs:71-88 | The match on `peek` returns what `ParseBaseAt` gives, its two panics included. |
| ParserProperties.UnionAtAccounts | src/custom_regex.rs:40-88 | A successful parse accounts for the text it consumed. The tree's literals are that text's letters in order. There is one `Kleene` per `*` and one `Union` per `|`. The parentheses are balanced, and the text holds nothing else. |
| ParserProperties.UnionTailAccounts | src/custom_regex.rs:42-46 | Each `|` and alternative folded on adds its own counts to the tree's. |
| ParserProperties.ConcatAtAccounts | src/custom_regex.rs:50-60 | What `parse_concat` consumes is accounted for by its tree. |
| ParserProperties.ConcatTailAccounts | src/custom_regex.rs:52-58 | Each operand folded on adds its own counts to the tree's. |
| ParserProperties.KleeneAtAccounts | src/custom_regex.rs:62-69 | What `parse_kleene` consumes is accounted for by its tree. |
| ParserProperties.KleeneTailAccounts | src/custom_regex.rs:64-67 | Each `*` consumed adds exactly one `Kleene` node. |
| ParserProperties.BaseAtAccounts | src/custom_regex.rs:71-88 | A letter gives one literal, and a group adds one pair of parentheses. |
| ParserProperties.ParsedLiteralsAreLowercase | src/custom_regex.rs:81-84 | Every literal of a parsed tree is a lowercase letter of the pattern, in pattern order. |
| ParserProperties.PrintParseRoundTrip | src/custom_regex.rs:36-88 | Printing a tree without `Empty` fully parenthesised and parsing the text back gives the same tree, with the whole text consumed. |
| ParserProperties.TrailingBar | src/custom_regex.rs:40-48 | `a|` parses to `Union(a, Empty)`. |
| ParserProperties.StarsStack | src/custom_regex.rs:62-69 | `a**` parses to `Kleene(Kleene(a))`. |
| ParserProperties.ConcatLeansLeft | src/custom_regex.rs:50-60 | `abc` parses to `Concat(Concat(a, b), c)`. |
| ParserProperties.UnionLeansLeft | src/custom_regex.rs:40-48 | `a|b|c` parses to `Union(Union(a, b), c)`. |
| ParserProperties.StrayParenthesisStops | src/custom_regex.rs:36-60 | `a)b` parses to `a` and stops at the `)` without an error. |
| ParserProperties.EmptyGroupRejected | src/custom_regex.rs:71-88 | `()` fails with an unexpected character. |
| ParserProperties.EmptyAlternativeRejected | src/custom_regex.rs:71-88 | `(a|)` fails with an unexpected character. |
| ParserProperties.LeadingOperatorRejected | src/custom_regex.rs:86 | `|a` and `*a` fail with an unexpected character. |
| ParserProperties.NonLetterRejected | src/custom_regex.rs:81-86 | `1` fails with an unexpected character. |
| ParserProperties.UnclosedGroupRejected | src/custom_regex.rs:76-78 | `(` and `(a` fail with an unmatched parenthesis. |
| ParserProperties.UnclosedUnionRejected | src/custom_regex.rs:73-78 | `(ab|c` fails with an unmatched parenthesis. |
| Thompson.NewEmpty | src/custom_regex.rs:111-118 | `new_empty` has two distinct states and no transition at all. |
| Thompson.NewLiteral | src/custom_regex.rs:120-126 | `new_literal` pushes one transition reading `c` from start to accept. |
| Thompson.NewConcat | src/custom_regex.rs:128-150 | `new_concat` extends `a`'s transitions with `b`'s renumbered by `max(a, b)` and the join. It returns the automaton of `ConcatNfa`. |
| Thompson.NewUnion | src/custom_regex.rs:152-187 | `new_union`'s two push loops and four pushes return the automaton of `UnionNfa`. |
| Thompson.NewKleene | src/custom_regex.rs:189-219 | `new_kleene`'s push loop and four pushes return the automaton of `KleeneNfa`. |
| Thompson.FromAst | src/custom_regex.rs:221-229 | `from_ast` returns `ThompsonNfa` of the tree. |
| Thompson.ShiftInRange | src/custom_regex.rs:138-142 | A renumbered transition of a well-formed automaton lies in `[offset, offset + count)`. |
| Thompson.ConcatWellFormed | src/custom_regex.rs:128-150 | Every number in `new_concat` is below its count, `max(a, b) + b`. It has `a + b + 1` transitions. |
| Thompson.ConcatSeparated | src/custom_regex.rs:134-146 | The offset is at least `a`'s count. The only transition from `a`'s part to `b`'s is the join from `a`'s accept to `b`'s start, and none goes back. |
| Thompson.UnionWellFormed | src/custom_regex.rs:152-187 | Every number in `new_union` is below `2 + a + b`. It has `a + b + 4` transitions, none entering its start or leaving its accept. |
| Thompson.KleeneWellFormed | src/custom_regex.rs:189-219 | Every number in `new_kleene` is below `2 + a`. It has `a + 4` transitions, none entering its start or leaving its accept. |
| Thompson.ThompsonWellFormed | src/custom_regex.rs:221-229 | Every automaton `from_ast` builds has its start, accept and every transition end below its count, with start different from accept. |
| Thompson.ConcatCountGrows | src/custom_regex.rs:134-147 | Because the offset is the larger count, `(ab)c` takes 6 states but `a(bc)` takes 8. |
| Thompson.RightNestDoubles | src/custom_regex.rs:134-147 | `n + 1` letters nested to the right, `a(a(…(a)))`, take `2^(n+1)` states but only `2n + 1` transitions: each level doubles the state count. |
| Thompson.SixtyFourLevels | src/custom_regex.rs:147 | 64 letters nested to the right give a state count of 2^64, past the largest 64-bit `usize`. |
| ThompsonLanguage.EmptyRejects | src/custom_regex.rs:111-118 | The automaton of `Empty` accepts no string. |
| ThompsonLanguage.LiteralAccepts | src/custom_regex.rs:120-126 | The automaton of a literal `c` accepts exactly the string `c`. |
| ThompsonLanguage.ConcatSplit | src/custom_regex.rs:128-150 | A string `new_concat(a, b)` accepts splits into one `a` accepts and one `b` accepts. |
| ThompsonLanguage.ConcatJoin | src/custom_regex.rs:128-150 | A string `a` accepts followed by one `b` accepts is accepted by `new_concat(a, b)`. |
| ThompsonLanguage.UnionSplit | src/custom_regex.rs:152-187 | A string `new_union(a, b)` accepts is accepted by `a` or by `b`. |
| ThompsonLanguage.UnionJoin | src/custom_regex.rs:152-187 | A string `a` or `b` accepts is accepted by `new_union(a, b)`. |
| ThompsonLanguage.KleeneSound | src/custom_regex.rs:189-219 | A string `new_kleene(a)` accepts is a sequence of strings `a` accepts. |
| ThompsonLanguage.KleeneComplete | src/custom_regex.rs:189-219 | A sequence of strings `a` accepts is accepted by `new_kleene(a)`. |
| ThompsonLanguage.ConcatCorrect | src/custom_regex.rs:128-150 | `new_concat` of automata for two trees accepts exactly the language of their `Concat`. |
| ThompsonLanguage.UnionCorrect | src/custom_regex.rs:152-187 | `new_union` of automata for two trees accepts exactly the language of their `Union`. |
| ThompsonLanguage.KleeneCorrect | src/custom_regex.rs:189-219 | `new_kleene` of an automaton for a tree accepts exactly the language of its `Kleene`. |
| ThompsonLanguage.ThompsonCorrect | src/custom_regex.rs:221-229 | The automaton `from_ast` builds for a tree accepts exactly the strings the tree stands for. |
| Closure.EpsilonClosure | src/custom_regex.rs:314-327 | The closure holds `start`, is closed under moves that read nothing, and holds only states such moves reach from `start`. It equals the least such set. |
| Closure.EpsClosureContains | src/custom_regex.rs:314-318 | The closure of a set contains the set. |
| Closure.EpsClosureIsClosed | src/custom_regex.rs:319-323 | The closure of a set is closed under moves that read nothing. |
| Closure.EpsClosureIsLeast | src/custom_regex.rs:314-327 | The closure lies inside every closed set that contains the starting set. |
| Closure.EpsClosureUnion | src/custom_regex.rs:282-286 | The closure of a union is the union of the closures, which is what `new_set.extend(cl)` relies on. |
| Closure.ReachedFromStart | src/custom_regex.rs:314-327 | A closed set holding `start`, all of whose members are reached from it, is the closure of `start`. |
| Subset.LabelsHaveTargets | src/custom_regex.rs:270-279 | `char_map` has a key `c` exactly when some transition reads `c` out of the current set. |
| Subset.BuildCharMap | src/custom_regex.rs:270-279 | The nested loops build a `char_map` whose keys are the characters read out of the current set. Each key's value is the set of targets on that character. |
| Subset.ClosureOfSet | src/custom_regex.rs:282-286 | The loop over a target set builds the closure of that set. |
| Subset.AcceptPush | src/custom_regex.rs:266-268 | Pushing the popped state when it holds the accept state keeps `accept_states` listing, once each, exactly the processed states that hold it. |
| Subset.FrontierPop | src/custom_regex.rs:265 | Popping moves a state from the worklist to the processed ones. It keeps the worklist holding the visited, unprocessed states, once each. |
| Subset.FrontierPush | src/custom_regex.rs:290-293 | Pushing a state not yet visited keeps the worklist holding the visited, unprocessed states, once each. |
| Subset.ConnectedInsert | src/custom_regex.rs:290-294 | Recording a transition out of a reached state keeps every visited state reachable from the start, and reaches the new target. |
| Subset.StepBound | src/custom_regex.rs:282-286 | Every state the construction moves to is a set of transition targets. This bounds the states and gives termination. |
| Subset.AddMoves | src/custom_regex.rs:281-295 | The loop over `char_map` records, for each of its characters, a transition to the closure of the targets. It pushes each new target once, and keeps the visited states equal to the start plus the targets recorded. |
| Subset.Visit | src/custom_regex.rs:265-295 | Processing one popped state records it if accepting and adds all its transitions. It keeps the worklist exact. |
| Subset.FromNfa | src/custom_regex.rs:249-299 | `from_nfa` terminates. It returns a subset automaton: its start is the closure of the automaton's start. Each transition reads a character some transition reads out of its source. Each transition leads to the closure of the targets. Each state has a transition for every such character. `accept_states` lists, once each, the states holding the accept state. Every state is reached from the start. |
| SubsetLanguage.SimulateReaches | src/custom_regex.rs:281-294 | Moving from a closure to the closure of the targets, character by character, gives exactly the states reachable reading the string. |
| SubsetLanguage.WalkSimulates | src/custom_regex.rs:301-311 | Walking a subset automaton follows that simulation. A missing transition means the simulation has died out. |
| SubsetLanguage.SubsetCorrect | src/custom_regex.rs:249-311 | The automaton `from_nfa` returns accepts exactly the strings the given automaton accepts. |
| SubsetLanguage.SubsetDeterminate | src/custom_regex.rs:265-295 | Any two results of `from_nfa` on the same automaton have the same start and the same transitions. Their accepting states are the same set, so neither the worklist order nor the `HashMap` order matters. |
| Engine.Matches | src/custom_regex.rs:301-311 | `matches` follows one transition per character and returns false at the first missing one. Otherwise it returns whether the state reached is accepting. On the empty input it returns whether the start is accepting. |
| Engine.MissingMoveRejects | src/custom_regex.rs:304-308 | Once the state reached has no transition on the next character, the input is rejected whatever follows. |
| Engine.RegexToDfa | src/custom_regex.rs:329-334 | `regex_to_dfa` fails exactly when parsing does, with the parser's error. Otherwise it returns a subset automaton of `from_ast` of the tree, matching exactly the tree's strings. |
| Engine.New | src/custom_regex.rs:354-360 | `CustomRegex::new` gives the empty-pattern error exactly for the empty pattern. A non-empty pattern compiles exactly when it parses, and the compiled pattern matches exactly the strings of its tree. |
| Engine.StarExamples | src/custom_regex.rs:301-311 | A compiled `a*` matches the empty string and `aaaa`, and rejects `ab`. |
| Engine.FindIter | src/custom_regex.rs:362-374 | The nested loops return the texts of `MatchSpans` in order, and nothing for an empty text. |
| Engine.EndsFromExact | src/custom_regex.rs:366-371 | For one start offset, the inner loop reports exactly the matching end offsets, in ascending order. |
| Engine.SpansFromExact | src/custom_regex.rs:365-372 | From a start offset on, the outer loop reports exactly the matching spans, ordered by start and then by end. |
| Engine.MatchSpansExact | src/custom_regex.rs:362-374 | `find_iter` reports exactly the spans `(s, e)` with `s < |text|` and `s <= e <= |text|` whose text matches. Each span is reported once, ordered by start then end, so equal texts at different offsets are all kept. |
| Engine.SearchExample | src/custom_regex.rs:364-371 | Searching `ab` with `a*` reports the empty string, `a`, and the empty string again, and no empty match at the end of the text. |
| Engine.SearchAllLetters | src/custom_regex.rs:364-371 | Searching `aaa` with `a*` reports 9 texts, in order: the empty string at offsets 0, 1 and 2 but not at 3, and every non-empty slice. |

## Left out

- The terminal user interface, the command line, file reading and the dispatch to the external `regex` crate (`src/main.rs`, `code/src/app.rs`, `src/engines.rs`) are not part of this model. Neither are the tests that exercise that crate.
- `RegexError`'s `Display` implementation is left out, because it only formats text.
- Text is a sequence of characters. `find_iter` slices by byte offsets, which agree with character offsets only for ASCII text. The panic on a slice that is not on a character boundary is not modelled.
- `parse_base` panics where the model returns `UnmatchedParenthesis` or `UnexpectedCharacter`. So for a malformed non-empty pattern, `Engine.New` returns an error where `CustomRegex::new` aborts.
- Thompson.ConcatNfa: state numbers are unbounded `nat`s, so the overflow of `usize` in `offset + b.state_count` is not modelled. It does not need a large automaton: about 64 levels of right-nested concatenation, a pattern of 190 characters, reach 2^64 (`Thompson.SixtyFourLevels`). There a debug build panics and a release build wraps the state numbers around, which the model does not capture.
- The recursion depth of the recursive-descent parser is not modelled. A deeply nested pattern overflows the Rust stack, while the model's parsing functions and `Parser` methods return a result for every pattern.
- `HashMap` and `BTreeSet` iteration order is not modelled. `BuildCharMap` and `AddMoves` pick the next state or character by arbitrary choice. `SubsetLanguage.SubsetDeterminate` shows that the choice affects only the order of `accept_states`.
- `DFAState` is modelled as a plain set of state numbers. Its derived ordering and hashing only serve the `BTreeSet` and `HashMap`.
- Subset.FromNfa: the order of `accept_states` is stated only as a list without repeats. The order in which the worklist met the accepting states is not stated.
- The cubic running time of `find_iter` is not modelled.
