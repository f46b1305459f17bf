/**
 * `DFA::from_nfa` of src/custom_regex.rs: the subset construction. A state of
 * the deterministic automaton (`DFAState`) is a set of automaton states. The
 * construction starts from the closure of the start state, pops states off a
 * worklist, records the accepting ones, groups the transitions that read a
 * character by that character (`char_map`), and moves on each character to
 * the union of the closures of the states reached.
 */
module Subset {
  import opened Syntax
  import opened Automaton
  import opened Closure

  /** `DFA`: the start state, the accepting states in the order found, and the transitions. */
  datatype Dfa = Dfa(start: set<nat>, acceptStates: seq<set<nat>>, transitions: map<(set<nat>, char), set<nat>>)

  /** The characters read by some transition leaving `cur`: the keys of `char_map`. */
  function Labels(ts: seq<Edge>, cur: set<nat>): set<char> {
    set i | 0 <= i < |ts| && ts[i].src in cur && ts[i].sym.Char? :: ts[i].sym.c
  }

  /** Where the transitions reading `c` out of `cur` lead: `char_map[c]`. */
  function Targets(ts: seq<Edge>, cur: set<nat>, c: char): set<nat> {
    set i | 0 <= i < |ts| && ts[i].src in cur && ts[i].sym == Char(c) :: ts[i].dst
  }

  /** The state the construction moves to from `cur` on `c`: the closure of the targets. */
  ghost function Step(ts: seq<Edge>, cur: set<nat>, c: char): set<nat> {
    EpsClosure(ts, Targets(ts, cur, c))
  }

  /** The states of `d`: the start state and every state a transition leads to. */
  function States(d: Dfa): set<set<nat>> {
    {d.start} + d.transitions.Values
  }

  /**
   * The walk of `DFA::matches`: from `cur`, follow the transition of `tr` on
   * each character of `w` in turn; `None` at the first one missing.
   */
  function Walk<S(==)>(tr: map<(S, char), S>, cur: S, w: seq<char>): Option<S>
    decreases |w|
  {
    if w == [] then Some(cur)
    else if (cur, w[0]) in tr then Walk(tr, tr[(cur, w[0])], w[1..])
    else None
  }

  /** Every state of `visited` is reached from `start` by a walk along `tr`. */
  ghost predicate Connected<S>(tr: map<(S, char), S>, start: S, visited: set<S>) {
    forall s :: s in visited ==> exists w :: Walk(tr, start, w) == Some(s)
  }

  predicate Distinct<T(==)>(s: seq<T>) {
    forall i, j :: 0 <= i < j < |s| ==> s[i] != s[j]
  }

  /**
   * What `from_nfa` guarantees about the automaton it returns for `n`:
   * it starts at the closure of `n`'s start state; every transition is
   * labelled by a character some transition of `n` reads out of its source,
   * and leads to the closure of the targets; every state has a transition for
   * each such character; and the accepting states are exactly the states that
   * hold `n`'s accept state, each listed once; and every state is reached
   * from the start.
   */
  ghost predicate IsSubsetDfa(n: Nfa, d: Dfa) {
    && d.start == EpsClosure(n.transitions, {n.start})
    && Built(n.transitions, d.transitions, States(d), {}, {})
    && AcceptRecord(d.acceptStates, States(d), n.accept)
    && Connected(d.transitions, d.start, States(d))
  }

  /**
   * The transitions `tr` out of the states `done` are all in place, and so are
   * those out of `current` on the characters in `handled`; each leads where
   * `Step` says.
   */
  ghost predicate Built(ts: seq<Edge>, tr: map<(set<nat>, char), set<nat>>, done: set<set<nat>>,
                        current: set<nat>, handled: set<char>) {
    && (forall k {:trigger k in tr} :: k in tr ==>
          && k.1 in Labels(ts, k.0) && tr[k] == Step(ts, k.0, k.1)
          && (k.0 in done || (k.0 == current && k.1 in handled)))
    && (forall s :: s in done ==> forall c :: c in Labels(ts, s) ==> (s, c) in tr)
    && (forall c :: c in handled ==> (current, c) in tr)
  }

  /** `acc` lists, once each, the states of `done` that hold `accept`. */
  ghost predicate AcceptRecord(acc: seq<set<nat>>, done: set<set<nat>>, accept: nat) {
    && Distinct(acc)
    && forall s :: s in acc <==> s in done && accept in s
  }

  // ---------------------------------------------------------------------------
  // Facts about the pieces
  // ---------------------------------------------------------------------------

  /** `char_map` has a key `c` exactly when some transition reads `c` out of `cur`. */
  lemma LabelsHaveTargets(ts: seq<Edge>, cur: set<nat>, c: char)
    ensures c in Labels(ts, cur) <==> Targets(ts, cur, c) != {}
  {
    if c in Labels(ts, cur) {
      var i :| 0 <= i < |ts| && ts[i].src in cur && ts[i].sym.Char? && ts[i].sym.c == c;
      assert ts[i].dst in Targets(ts, cur, c);
    }
    if Targets(ts, cur, c) != {} {
      var q :| q in Targets(ts, cur, c);
      var i :| 0 <= i < |ts| && ts[i].src in cur && ts[i].sym == Char(c) && ts[i].dst == q;
      assert c in Labels(ts, cur);
    }
  }

  lemma TargetsAreDsts(ts: seq<Edge>, cur: set<nat>, c: char)
    ensures Targets(ts, cur, c) <= Dsts(ts)
  {
  }

  /** The closure of a set only adds destinations of transitions. */
  lemma ClosureBound(ts: seq<Edge>, s: set<nat>)
    ensures EpsClosure(ts, s) <= s + Dsts(ts)
  {
  }

  lemma EpsClosureEmpty(ts: seq<Edge>)
    ensures EpsClosure(ts, {}) == {}
  {
    forall q | q in EpsClosure(ts, {})
      ensures false
    {
      InEpsClosure(ts, {}, q);
    }
  }

  /** Adding a new key adds its value to the values of a map. */
  lemma ValuesInsert<K, V>(m: map<K, V>, k: K, v: V)
    requires k !in m
    ensures m[k := v].Values == m.Values + {v}
  {
    forall x | x in m.Values
      ensures x in m[k := v].Values
    {
      var j :| j in m && m[j] == x;
      assert m[k := v][j] == x;
    }
    assert m[k := v][k] == v;
  }

  // ---------------------------------------------------------------------------
  // `char_map`
  // ---------------------------------------------------------------------------

  /** `m` groups the transitions reading a character out of `src` by that character. */
  ghost predicate Tabulates(m: map<char, set<nat>>, ts: seq<Edge>, src: set<nat>) {
    && m.Keys == Labels(ts, src)
    && forall c :: c in m ==> m[c] == Targets(ts, src, c)
  }

  /** `m` groups the transitions out of `done`, and the first `i` out of `s`. */
  ghost predicate TabulatesSoFar(m: map<char, set<nat>>, ts: seq<Edge>, done: set<nat>, s: nat, i: nat)
    requires i <= |ts|
  {
    && m.Keys == Labels(ts, done) + Labels(ts[..i], {s})
    && forall c :: c in m ==> m[c] == Targets(ts, done, c) + Targets(ts[..i], {s}, c)
  }

  lemma SoFarStart(m: map<char, set<nat>>, ts: seq<Edge>, done: set<nat>, s: nat)
    requires Tabulates(m, ts, done)
    ensures TabulatesSoFar(m, ts, done, s, 0)
  {
    assert Labels(ts[..0], {s}) == {};
    forall c | c in m
      ensures Targets(ts[..0], {s}, c) == {}
    {
    }
  }

  /** A transition that does not leave `s` reading a character changes nothing. */
  lemma SoFarSkip(m: map<char, set<nat>>, ts: seq<Edge>, done: set<nat>, s: nat, i: nat)
    requires i < |ts| && TabulatesSoFar(m, ts, done, s, i)
    requires !(ts[i].src == s && ts[i].sym.Char?)
    ensures TabulatesSoFar(m, ts, done, s, i + 1)
  {
    PrefixLabels(ts, s, i);
    forall c | c in m
      ensures Targets(ts[..i + 1], {s}, c) == Targets(ts[..i], {s}, c)
    {
      PrefixTargets(ts, s, i, c);
    }
  }

  /** A transition leaving `s` reading `c0` adds its target under `c0`. */
  lemma SoFarAdd(m: map<char, set<nat>>, ts: seq<Edge>, done: set<nat>, s: nat, i: nat, c0: char)
    requires i < |ts| && TabulatesSoFar(m, ts, done, s, i)
    requires ts[i].src == s && ts[i].sym == Char(c0)
    ensures TabulatesSoFar(m[c0 := (if c0 in m then m[c0] else {}) + {ts[i].dst}], ts, done, s, i + 1)
  {
    var m' := m[c0 := (if c0 in m then m[c0] else {}) + {ts[i].dst}];
    PrefixLabels(ts, s, i);
    forall c | c in m'
      ensures m'[c] == Targets(ts, done, c) + Targets(ts[..i + 1], {s}, c)
    {
      PrefixTargets(ts, s, i, c);
      if c == c0 && c0 !in m {
        LabelsHaveTargets(ts, done, c0);
        LabelsHaveTargets(ts[..i], {s}, c0);
      }
    }
  }

  lemma PrefixLabels(ts: seq<Edge>, s: nat, i: nat)
    requires i < |ts|
    ensures var e := ts[i];
      Labels(ts[..i + 1], {s}) == Labels(ts[..i], {s}) + (if e.src == s && e.sym.Char? then {e.sym.c} else {})
  {
    var u, v := ts[..i + 1], ts[..i];
    assert forall j :: 0 <= j < i ==> u[j] == v[j];
    assert u[i] == ts[i];
  }

  lemma PrefixTargets(ts: seq<Edge>, s: nat, i: nat, c: char)
    requires i < |ts|
    ensures var e := ts[i];
      Targets(ts[..i + 1], {s}, c) == Targets(ts[..i], {s}, c) + (if e.src == s && e.sym == Char(c) then {e.dst} else {})
  {
    var u, v := ts[..i + 1], ts[..i];
    assert forall j :: 0 <= j < i ==> u[j] == v[j];
    assert u[i] == ts[i];
  }

  lemma SoFarEnd(m: map<char, set<nat>>, ts: seq<Edge>, done: set<nat>, s: nat)
    requires TabulatesSoFar(m, ts, done, s, |ts|)
    ensures Tabulates(m, ts, done + {s})
  {
    assert ts[..|ts|] == ts;
    forall c
      ensures Targets(ts, done + {s}, c) == Targets(ts, done, c) + Targets(ts, {s}, c)
    {
    }
  }

  /**
   * The loops filling `char_map`: for each state of `cur`, for each
   * transition leaving it that reads a character, add its target under that
   * character.
   */
  method BuildCharMap(ts: seq<Edge>, cur: set<nat>) returns (charMap: map<char, set<nat>>)
    ensures charMap.Keys == Labels(ts, cur)
    ensures forall c :: c in charMap ==> charMap[c] == Targets(ts, cur, c)
  {
    charMap := map[];
    var rest := cur;
    while rest != {}
      invariant rest <= cur
      invariant Tabulates(charMap, ts, cur - rest)
      decreases |rest|
    {
      var s :| s in rest;
      ghost var done := cur - rest;
      SoFarStart(charMap, ts, done, s);
      for i := 0 to |ts|
        invariant TabulatesSoFar(charMap, ts, done, s, i)
      {
        var e := ts[i];
        if e.src == s && e.sym.Char? {
          var c := e.sym.c;
          SoFarAdd(charMap, ts, done, s, i, c);
          var known := if c in charMap then charMap[c] else {};
          charMap := charMap[c := known + {e.dst}];
        } else {
          SoFarSkip(charMap, ts, done, s, i);
        }
      }
      SoFarEnd(charMap, ts, done, s);
      rest := rest - {s};
      assert cur - rest == done + {s};
    }
    assert cur - rest == cur;
  }

  /** `new_set`: the union of the closures of the states of `targets`. */
  method ClosureOfSet(ts: seq<Edge>, targets: set<nat>) returns (newSet: set<nat>)
    ensures newSet == EpsClosure(ts, targets)
  {
    newSet := {};
    EpsClosureEmpty(ts);
    var rest := targets;
    while rest != {}
      invariant rest <= targets
      invariant newSet == EpsClosure(ts, targets - rest)
      decreases |rest|
    {
      var st :| st in rest;
      var cl := EpsilonClosure(ts, st);
      EpsClosureUnion(ts, targets - rest, {st});
      assert (targets - rest) + {st} == targets - (rest - {st});
      newSet := newSet + cl;
      rest := rest - {st};
    }
    assert targets - rest == targets;
  }

  // ---------------------------------------------------------------------------
  // The worklist
  // ---------------------------------------------------------------------------

  /** The states waiting on the worklist. */
  function Pending<T>(wl: seq<T>): set<T> {
    set s | s in wl
  }

  /** Every set of states drawn from `u`. */
  ghost function Subsets(u: set<nat>): set<set<nat>> {
    set s: set<nat> | s <= u
  }

  /**
   * The worklist `wl` holds, once each, the states of `visited` not yet
   * processed; `done` holds the processed ones.
   */
  ghost predicate Frontier<T>(wl: seq<T>, done: set<T>, visited: set<T>) {
    && Pending(wl) + done == visited
    && Pending(wl) !! done
    && Distinct(wl)
  }

  /** `worklist.pop()` moves the last state from the worklist to the processed states. */
  lemma FrontierPop<T>(wl: seq<T>, done: set<T>, visited: set<T>)
    requires wl != [] && Frontier(wl, done, visited)
    ensures wl[|wl| - 1] !in done && wl[|wl| - 1] in visited
    ensures Frontier(wl[..|wl| - 1], done + {wl[|wl| - 1]}, visited)
  {
    var rest, x := wl[..|wl| - 1], wl[|wl| - 1];
    assert wl == rest + [x];
    assert forall k :: 0 <= k < |rest| ==> rest[k] == wl[k];
    assert Pending(wl) == Pending(rest) + {x};
  }

  /** `worklist.push(new_state)` of a state not visited before. */
  lemma FrontierPush<T>(wl: seq<T>, done: set<T>, visited: set<T>, x: T)
    requires Frontier(wl, done, visited) && x !in visited
    ensures Frontier(wl + [x], done, visited + {x})
  {
    assert (wl + [x])[|wl|] == x;
    assert forall k :: 0 <= k < |wl| ==> (wl + [x])[k] == wl[k];
    assert Pending(wl + [x]) == Pending(wl) + {x};
  }

  /** Recording a transition under a new key keeps the visited states those the map leads to. */
  lemma StatesInsert<K, V>(m: map<K, V>, k: K, v: V, visited: set<V>, start: V)
    requires visited == {start} + m.Values && k !in m
    ensures v !in visited ==> visited + {v} == {start} + m[k := v].Values
    ensures v in visited ==> visited == {start} + m[k := v].Values
  {
    ValuesInsert(m, k, v);
  }

  /** Handling one more key. */
  lemma HandledGrows<T>(all: set<T>, keys: set<T>, c: T)
    requires c in keys
    ensures all - (keys - {c}) == (all - keys) + (if c in all then {c} else {})
  {
  }

  /** Recording the transition from `current` on `c`, not recorded before. */
  lemma BuiltInsert(ts: seq<Edge>, tr: map<(set<nat>, char), set<nat>>, done: set<set<nat>>,
                    current: set<nat>, handled: set<char>, c: char, v: set<nat>)
    requires Built(ts, tr, done, current, handled) && current !in done
    requires c in Labels(ts, current) && c !in handled && v == Step(ts, current, c)
    ensures (current, c) !in tr
    ensures Built(ts, tr[(current, c) := v], done, current, handled + {c})
  {
  }

  /** Once every character out of `current` is handled, `current` is done. */
  lemma BuiltClose(ts: seq<Edge>, tr: map<(set<nat>, char), set<nat>>, done: set<set<nat>>, current: set<nat>)
    requires Built(ts, tr, done, current, Labels(ts, current))
    ensures Built(ts, tr, done + {current}, {}, {})
  {
  }

  /** `accept_states.push(current)` when `current` holds the accept state. */
  lemma AcceptPush(acc: seq<set<nat>>, done: set<set<nat>>, current: set<nat>, accept: nat)
    requires AcceptRecord(acc, done, accept) && current !in done
    ensures AcceptRecord(if accept in current then acc + [current] else acc, done + {current}, accept)
  {
    if accept in current {
      assert (acc + [current])[|acc|] == current;
      assert forall k :: 0 <= k < |acc| ==> (acc + [current])[k] == acc[k];
    }
  }

  /** A step of the construction stays among the sets of destinations. */
  lemma StepBound(ts: seq<Edge>, cur: set<nat>, c: char)
    ensures Step(ts, cur, c) <= Dsts(ts)
  {
    TargetsAreDsts(ts, cur, c);
    ClosureBound(ts, Targets(ts, cur, c));
  }

  /** A walk that succeeds never uses a key missing from the map, so adding that key keeps it. */
  lemma {:induction false} WalkInsert<S>(tr: map<(S, char), S>, k: (S, char), v: S, cur: S, w: seq<char>)
    requires k !in tr && Walk(tr, cur, w).Some?
    ensures Walk(tr[k := v], cur, w) == Walk(tr, cur, w)
    decreases |w|
  {
    if w != [] {
      WalkInsert(tr, k, v, tr[(cur, w[0])], w[1..]);
    }
  }

  /** A walk to `s` followed by the transition out of `s` on `c`. */
  lemma {:induction false} WalkSnoc<S>(tr: map<(S, char), S>, cur: S, w: seq<char>, s: S, c: char)
    requires Walk(tr, cur, w) == Some(s) && (s, c) in tr
    ensures Walk(tr, cur, w + [c]) == Some(tr[(s, c)])
    decreases |w|
  {
    if w == [] {
      assert w + [c] == [c];
    } else {
      assert (w + [c])[0] == w[0];
      assert (w + [c])[1..] == w[1..] + [c];
      WalkSnoc(tr, tr[(cur, w[0])], w[1..], s, c);
    }
  }

  /** Recording a transition out of a reached state reaches its target too. */
  lemma ConnectedInsert<S>(tr: map<(S, char), S>, start: S, visited: set<S>, cur: S, c: char, v: S)
    requires Connected(tr, start, visited) && cur in visited && (cur, c) !in tr
    ensures Connected(tr[(cur, c) := v], start, visited + {v})
  {
    var tr' := tr[(cur, c) := v];
    forall s | s in visited
      ensures exists w :: Walk(tr', start, w) == Some(s)
    {
      var w :| Walk(tr, start, w) == Some(s);
      WalkInsert(tr, (cur, c), v, start, w);
    }
    var w :| Walk(tr, start, w) == Some(cur);
    WalkInsert(tr, (cur, c), v, start, w);
    WalkSnoc(tr', start, w, cur, c);
  }

  /**
   * The loop over `char_map` in `from_nfa`: for each character out of
   * `current`, move to the union of the closures of its targets, push that
   * state if it was not visited before, and record the transition.
   */
  method AddMoves(ts: seq<Edge>, current: set<nat>, charMap: map<char, set<nat>>, startState: set<nat>,
                  tr0: map<(set<nat>, char), set<nat>>, visited0: set<set<nat>>, wl0: seq<set<nat>>,
                  ghost done: set<set<nat>>, ghost u: set<nat>)
    returns (tr: map<(set<nat>, char), set<nat>>, visited: set<set<nat>>, wl: seq<set<nat>>)
    requires charMap.Keys == Labels(ts, current)
    requires forall c :: c in charMap ==> charMap[c] == Targets(ts, current, c)
    requires Dsts(ts) <= u && visited0 <= Subsets(u)
    requires current !in done && Frontier(wl0, done + {current}, visited0)
    requires visited0 == {startState} + tr0.Values
    requires Built(ts, tr0, done, current, {})
    requires Connected(tr0, startState, visited0)
    ensures visited0 <= visited <= Subsets(u)
    ensures visited == visited0 ==> wl == wl0
    ensures Frontier(wl, done + {current}, visited)
    ensures visited == {startState} + tr.Values
    ensures Built(ts, tr, done, current, Labels(ts, current))
    ensures Connected(tr, startState, visited)
  {
    tr, visited, wl := tr0, visited0, wl0;
    var keys := charMap.Keys;
    while keys != {}
      invariant keys <= Labels(ts, current)
      invariant visited0 <= visited <= Subsets(u)
      invariant visited == visited0 ==> wl == wl0
      invariant Frontier(wl, done + {current}, visited)
      invariant visited == {startState} + tr.Values
      invariant Built(ts, tr, done, current, Labels(ts, current) - keys)
      invariant Connected(tr, startState, visited)
      decreases |keys|
    {
      var c :| c in keys;
      var newState := ClosureOfSet(ts, charMap[c]);
      StepBound(ts, current, c);
      BuiltInsert(ts, tr, done, current, Labels(ts, current) - keys, c, newState);
      StatesInsert(tr, (current, c), newState, visited, startState);
      HandledGrows(Labels(ts, current), keys, c);
      ConnectedInsert(tr, startState, visited, current, c, newState);
      if newState !in visited {
        FrontierPush(wl, done + {current}, visited, newState);
        visited := visited + {newState};
        wl := wl + [newState];
      }
      tr := tr[(current, c) := newState];
      keys := keys - {c};
    }
  }

  /**
   * What `from_nfa` knows between two pops: every visited state lies among
   * the sets of `u`, is the start or a target, and is reached from the start;
   * every state in `done` has all its moves recorded, and exactly the
   * accepting ones among them are listed.
   */
  ghost predicate Explored(ts: seq<Edge>, accept: nat, startState: set<nat>, acc: seq<set<nat>>,
                           tr: map<(set<nat>, char), set<nat>>, visited: set<set<nat>>,
                           done: set<set<nat>>, u: set<nat>) {
    && visited <= Subsets(u)
    && visited == {startState} + tr.Values
    && Built(ts, tr, done, {}, {})
    && AcceptRecord(acc, done, accept)
    && Connected(tr, startState, visited)
  }

  /** Strictly growing a set inside a finite universe shrinks what is left of it. */
  lemma Grows<T>(u: set<T>, a: set<T>, b: set<T>)
    requires a <= b <= u && a != b
    ensures |u - b| < |u - a|
  {
    var x :| x in b && x !in a;
    ShrinkingRemainder(u, a, b, x);
  }

  /**
   * The body of the loop of `from_nfa` for one popped state `current`:
   * record it if it holds the accept state, build its `char_map`, and add
   * its moves.
   */
  method Visit(ts: seq<Edge>, accept: nat, current: set<nat>, startState: set<nat>,
               acc0: seq<set<nat>>, tr0: map<(set<nat>, char), set<nat>>, visited0: set<set<nat>>,
               wl0: seq<set<nat>>, ghost done: set<set<nat>>, ghost u: set<nat>)
    returns (acc: seq<set<nat>>, tr: map<(set<nat>, char), set<nat>>, visited: set<set<nat>>, wl: seq<set<nat>>)
    requires Dsts(ts) <= u && current !in done
    requires Explored(ts, accept, startState, acc0, tr0, visited0, done, u)
    requires Frontier(wl0, done + {current}, visited0)
    ensures Explored(ts, accept, startState, acc, tr, visited, done + {current}, u)
    ensures Frontier(wl, done + {current}, visited)
    ensures visited0 <= visited && (visited == visited0 ==> wl == wl0)
  {
    AcceptPush(acc0, done, current, accept);
    acc := acc0;
    if accept in current {
      acc := acc + [current];
    }
    var charMap := BuildCharMap(ts, current);
    tr, visited, wl := AddMoves(ts, current, charMap, startState, tr0, visited0, wl0, done, u);
    BuiltClose(ts, tr, done, current);
  }

  /**
   * `DFA::from_nfa`: the subset construction, over a worklist of sets of
   * NFA states seeded with the closure of the NFA start.
   */
  method FromNfa(n: Nfa) returns (d: Dfa)
    ensures IsSubsetDfa(n, d)
  {
    var ts := n.transitions;
    var startState := EpsilonClosure(ts, n.start);
    var acceptStates: seq<set<nat>> := [];
    var transitions: map<(set<nat>, char), set<nat>> := map[];
    var worklist := [startState];
    var visited := {startState};
    ghost var done: set<set<nat>> := {};
    ghost var u := {n.start} + Dsts(ts);
    ClosureBound(ts, {n.start});
    assert Walk(transitions, startState, []) == Some(startState);
    assert Pending(worklist) == {startState} by {
      assert worklist[0] == startState;
    }
    while worklist != []
      invariant Explored(ts, n.accept, startState, acceptStates, transitions, visited, done, u)
      invariant Frontier(worklist, done, visited)
      decreases |Subsets(u) - visited|, |worklist|
    {
      var current := worklist[|worklist| - 1];
      FrontierPop(worklist, done, visited);
      worklist := worklist[..|worklist| - 1];
      ghost var visited0 := visited;
      acceptStates, transitions, visited, worklist :=
        Visit(ts, n.accept, current, startState, acceptStates, transitions, visited, worklist, done, u);
      done := done + {current};
      if visited != visited0 {
        Grows(Subsets(u), visited0, visited);
      }
    }
    d := Dfa(startState, acceptStates, transitions);
  }
}
