# Regular expression → NFA → DFA → recognition, in Dafny

This project models the three-stage automaton pipeline of a small
regular-expression toolkit and proves properties of each stage:

1. **Thompson construction** (`er_main.py`, module `Thompson`). A syntax
   tree (`{"simb": c}` or `{"op": "alt" | "seq" | "kle", "args": [...]}`)
   is compiled into an NFA fragment `{states, initial_state, final_states,
   transitions}`. The transition label is a character or ε. Alternation
   renumbers every child, and sequence every child after the first, by an
   offset one more than the largest state in use so far. The first child of
   a sequence keeps offset 0, and the star renumbers nothing: it reuses 0 as
   its new initial state.
2. **Determinisation** (`afnd_main.py`, module `SubsetConstruction`). The
   ε-closure is computed with a stack worklist. `move` is the one-symbol
   image of a set of states. The subset construction runs a FIFO worklist
   over the fixed alphabet `a`, `b`. Its DFA states are canonical (sorted,
   duplicate-free) lists of NFA states.
3. **Recognition** (`afd_main.py`, module `Recognizer`). Class `Afd` holds
   `states`, `alphabet`, `initial`, `finals` and `transitions`. `Recognize`
   walks a word, builds the path of visited states and returns a verdict:
   `Accepted(path)`, `UnknownSymbol(c)`, `MissingTransition(state, c)` or
   `NotFinal(path, state)`.

Modules `Wrappers` (Option, Result) and `Automaton` (the shared transition
and NFA records) support the three stages. `Automaton` also holds Python's
`max` and the canonical ascending form that stands for `list(set(...))` and
`sorted(...)`.

Modelling choices:

- The loops of the source are methods with loop invariants. Each method is
  proved equal to, or characterised by, a specification function or set.
  - `BuildAlternative` and `BuildSequence` are proved equal to
    `Alternative` and `Sequence`. Those functions are written over the
    prefix of the children handled so far.
  - `EpsilonClosure` returns the ascending list of `ClosureSet`, the set of
    states reachable along ε-edges.
  - `Move` returns the ascending list of `MoveSet`.
  - `Convert` keeps its FIFO queue equal to the suffix of the found DFA
    states not yet dequeued. Its termination measure is the set of
    not-yet-discovered subsets of the NFA states that can occur.
  - `Afd.Recognize` is proved equal to `Recognition`, a recursive
    reference walk.
- The quirks of the source are kept:
  - `build_sequence_afnd` sets the initial state to the offset 0, not to
    the first child's initial state.
  - `build_kleene_afnd` reuses state 0 as the new initial state. It does not
    renumber the child. It adds no ε-edge from the child's final states to
    the new final state.
- `process_expression` returns a `Built` value. It is `Fragment(nfa)`, or
  `NoAutomaton` for an unknown operator at the root, where the source
  returns `None`. It is `Failure(err)` where the source raises:
  - `kle` with no argument raises IndexError;
  - `seq` with no argument reaches an unbound `prev_final_state`;
  - a builder handed the `None` of a nested unknown operator raises
    TypeError.

  Among the arguments of `alt` and `seq`, the first failure in order wins.
- The element order of Python's `list(set(...))` is unspecified. The model
  uses the ascending order.

## Model

| member | source | states |
|---|---|---|
| `Automaton.MaxIsMaximum` | er_main.py:36 | `Max` (Python's `max`) returns an element of the list that no element exceeds |
| `Automaton.Canonical` | er_main.py:61 | the canonical form of a state list is strictly ascending and has the same elements |
| `Automaton.CanonicalUnique` | afnd_main.py:45 | two canonical lists with the same elements are equal, so list equality of DFA states is set equality |
| `Automaton.SortedList` | afnd_main.py:17 | `sorted(list(s))` is strictly ascending and holds exactly the elements of `s` |
| `Thompson.Simple` | er_main.py:18-24 | the literal has exactly the two states 0 and 1, initial 0, finals [1] and the single transition 0 -c-> 1, and it is a fragment |
| `Thompson.AppendFinalEdges` | er_main.py:55-58 | the inner loop appends one ε-edge per final state, in order |
| `Thompson.BuildAlternative` | er_main.py:27-65 | the loop's result equals `Alternative`: initial 0, finals [1], states canonical |
| `Thompson.AltStates` | er_main.py:35-37 | a state is in the alternation iff it is 0, 1, or a child state shifted by that child's offset |
| `Thompson.AltTransitions` | er_main.py:38-58 | a transition is in the alternation iff it is a shifted child transition, the ε-edge from 0 to a shifted child initial, or an ε-edge from a shifted child final to 1 |
| `Thompson.AltBlocksDisjoint` | er_main.py:35-37 | for non-negative children, the shifted blocks of two different children share no state |
| `Thompson.AltOffsetAboveNew` | er_main.py:36 | every offset is at least 2, so the blocks lie above the new states 0 and 1 |
| `Thompson.AltFragment` | er_main.py:60-65 | alternating well-formed non-negative children gives a fragment: initial 0, one final, no duplicate states, every endpoint declared |
| `Thompson.BuildSequence` | er_main.py:68-110 | the loop's result equals `Sequence`: initial 0 (the offset, not the first child's initial) and the last child's shifted first final as the only final |
| `Thompson.SeqStates` | er_main.py:87 | a state is in the sequence iff it is a child state shifted by that child's offset |
| `Thompson.SeqTransitions` | er_main.py:79-97 | a transition is in the sequence iff it is a shifted child transition or the ε-edge from the previous child's shifted first final to the next child's shifted initial |
| `Thompson.SeqTransitionCount` | er_main.py:75-103 | the sequence has the children's transitions plus exactly `len(afnds) - 1` linking ε-edges |
| `Thompson.SeqLastFinal` | er_main.py:98-103 | the only final is the last child's first final shifted by the last offset |
| `Thompson.SeqBlocksDisjoint` | er_main.py:87-101 | for non-negative children, the shifted blocks of two different children share no state |
| `Thompson.SeqOffsetNonNegative` | er_main.py:73-101 | every offset is non-negative when the first child starts at 0 |
| `Thompson.SeqFragment` | er_main.py:105-110 | sequencing well-formed non-negative children, the first starting at 0, gives a fragment |
| `Thompson.BuildKleene` | er_main.py:113-137 | the builder's result equals `Kleene`: initial 0, final `max(states) + 1`, child transitions kept |
| `Thompson.KleeneStates` | er_main.py:114-118 | the new final exceeds every child state, and the states are exactly the child's, 0 and the new final |
| `Thompson.KleeneTransitions` | er_main.py:119-130 | a transition is in the star iff it is an unshifted child transition, ε 0 → child initial, ε child final → child initial, or ε 0 → new final |
| `Thompson.KleeneFinalEntry` | er_main.py:121-130 | the only edge entering the new final is the ε-edge from 0: no child final leads there |
| `Thompson.KleeneFragment` | er_main.py:132-137 | the star of a well-formed non-negative child is a fragment |
| `Thompson.FirstFailure` | er_main.py:11-13 | the first failing child, in order, is the one reported |
| `Thompson.Collect` | er_main.py:11-13 | the builder receives all children's automata in order iff every child built one; when some child failed, the error is that of the first failing child; when none failed but one built no automaton, the error is `NotAnAutomaton` |
| `Thompson.Process` | er_main.py:5-15 | every automaton built is a fragment, and no automaton is built exactly when the root operator is not alt, seq or kle |
| `Thompson.ProcessKleeneFirstOnly` | er_main.py:14-15 | `kle` looks at its first argument only |
| `Thompson.ProcessKleene` | er_main.py:14-15 | `kle` builds the star of its first argument's automaton, passes on that argument's failure, and fails with `NotAnAutomaton` when it built none |
| `Thompson.ProcessKleeneEmpty` | er_main.py:14-15 | `kle` with no arguments fails for lack of an operand (`args[0]`) |
| `Thompson.ProcessSequenceEmpty` | er_main.py:68-103 | `seq` with no arguments fails because there is no previous final state to chain from |
| `Thompson.ProcessAlternativeEmpty` | er_main.py:27-65 | `alt` with no arguments builds states [0, 1] with final [1] and no transition |
| `Thompson.ProcessAlternative` | er_main.py:10-11 | `alt` processes every argument in order and alternates the results |
| `Thompson.ProcessSequence` | er_main.py:12-13 | `seq` processes every argument in order and sequences the results |
| `Thompson.ProcessNeedsAllChildren` | er_main.py:10-13 | `alt` and `seq` build nothing if some argument builds nothing |
| `Thompson.ProcessFirstFailure` | er_main.py:10-13 | the failure of `alt` and `seq` is that of their first failing argument |
| `Thompson.ExampleSequence` | er_main.py:68-110 | two literals in sequence give states [0, 1, 2, 3], final [3], and the transitions 0 -c-> 1, ε 1 → 2, 2 -d-> 3 |
| `Thompson.ExampleKleene` | er_main.py:113-137 | the star of a literal gives states [0, 1, 2], final [2], and an ε-loop on 0 because 0 is reused |
| `SubsetConstruction.ClosureSet` | afnd_main.py:4-17 | the closure is exactly the set of states reachable from the input along ε-edges |
| `SubsetConstruction.ClosureContains` | afnd_main.py:5-6 | the closure contains every input state |
| `SubsetConstruction.ClosureClosed` | afnd_main.py:8-15 | the closure is closed under ε-edges |
| `SubsetConstruction.ClosureLeast` | afnd_main.py:8-15 | the closure lies inside every ε-closed set that contains the input |
| `SubsetConstruction.ClosureIdempotent` | afnd_main.py:4-17 | the closure of the closure is the closure |
| `SubsetConstruction.ClosureMonotone` | afnd_main.py:4-17 | a larger input gives a larger closure |
| `SubsetConstruction.Expand` | afnd_main.py:10-15 | one pass over the transitions adds exactly the ε-successors of the popped state and pushes exactly the newly found ones |
| `SubsetConstruction.EpsilonClosure` | afnd_main.py:4-17 | the result is strictly ascending and its elements are the ε-closure of the input |
| `SubsetConstruction.Move` | afnd_main.py:19-25 | the result is strictly ascending and its elements are the targets of the edges with that symbol leaving the input |
| `SubsetConstruction.MoveIgnoresEpsilon` | afnd_main.py:23 | the move under a character is unchanged when every ε-edge is removed |
| `SubsetConstruction.DiscoveredGrows` | afnd_main.py:39-47 | each new DFA state is a new subset of a finite universe, which bounds the worklist |
| `SubsetConstruction.VisitSymbol` | afnd_main.py:43-49 | one symbol's step keeps the conversion invariant, only appends to the found states, and appends a state only with the transition that enters it from the state being visited |
| `SubsetConstruction.VisitState` | afnd_main.py:42-49 | handling every symbol of a dequeued state keeps the conversion invariant and the record of which transition entered each found state |
| `SubsetConstruction.MarkFinals` | afnd_main.py:51-53 | a DFA state is final iff it is a found state containing an NFA final state |
| `SubsetConstruction.Convert` | afnd_main.py:27-55 | the initial state is the first found state and the ascending ε-closure of the NFA initial state; found states are distinct; every transition is (Q, c, closure(move(Q, c))) with c in {a, b}, a non-empty target and both ends found; at most one per (Q, c); a transition for every found Q and c with a non-empty successor; every found state after the first is entered by a transition from an earlier found state; every found state lies within the initial state and the transition targets of the NFA; finals are exactly the found states containing an NFA final (full list below) |
| `Recognizer.WalkFrom` | afd_main.py:47-55 | a completed walk's path has one state more than the word and starts at the initial state; a stopped walk reports an unknown symbol or a missing transition |
| `Recognizer.Afd.constructor` | afd_main.py:7-12 | the constructor sets the five fields |
| `Recognizer.Afd.Recognize` | afd_main.py:46-60 | the verdict equals the reference `Recognition`; the method changes no field, so two calls with the same word agree |
| `Recognizer.WalkCompleted` | afd_main.py:47-55 | the walk consumes the word along p iff p starts at the initial state and each consecutive pair is linked by the transition on the symbol between them |
| `Recognizer.WalkAppend` | afd_main.py:49-55 | the walk over u + v is the walk over u, then the walk over v from where it ended |
| `Recognizer.WalkBlocked` | afd_main.py:49-53 | the walk stops with reason v iff some prefix is consumed and the next step fails with v |
| `Recognizer.BlockedAt` | afd_main.py:49-53 | a stopped walk stops at a position whose prefix is consumed |
| `Recognizer.AcceptedIff` | afd_main.py:56-60 | after full consumption, the word is accepted iff the last state is final; otherwise it is rejected as not final with that state |
| `Recognizer.RecognitionPath` | afd_main.py:47-55 | an accepted or not-final path starts at the initial state and is linked by transitions |
| `Recognizer.RejectUnknownSymbol` | afd_main.py:49-51 | the first symbol outside the alphabet rejects the word, before any transition lookup |
| `Recognizer.RejectMissingTransition` | afd_main.py:52-53 | a symbol with no transition from the state reached rejects the word at that symbol |
| `Recognizer.EmptyWord` | afd_main.py:47-49 | the empty word is accepted iff the initial state is final |
| `Recognizer.ExampleRuns` | afd_main.py:46-60 | on q0 -a-> q1 -a-> q1 with q1 final: "a" is accepted along [q0, q1]; "" is not final at q0; "ab" lacks a transition at (q1, b); "ac" has an unknown symbol |

`SubsetConstruction.Convert` guarantees all of the following:

- the DFA initial state is the first found state;
- it is the ascending list of the ε-closure of the NFA initial state;
- every found state is ascending and no two are equal;
- every transition (Q, c, N) has c in {a, b}, N non-empty, N the ε-closure
  of the move of Q under c, and both Q and N found;
- there is at most one transition per (Q, c);
- every found Q and symbol with a non-empty successor has its transition;
- every found state after the first is the target of a transition leaving
  an earlier found state, so no state is found that the construction does
  not reach;
- every found state contains only the NFA initial state and targets of NFA
  transitions;
- a found state is final iff it contains an NFA final state.

## Left out

- Command-line handling, JSON reading and writing, and the messages
  printed are left out. This covers `main` in er_main.py and afnd_main.py,
  the `__main__` block of afd_main.py, and `AFD.load_from_json`. The `Afd`
  fields are constructor arguments instead.
- `AFD.draw_graphviz` is left out: it calls the graphviz library and
  renders files.
- `AFD.save_path` is left out: it is a file write. The path is returned in
  `Accepted`.
- The Portuguese message text and the `'->'.join` rendering are left out.
  The verdict is the `Verdict` datatype.
- `process_expression` of afnd_main.py is an empty stub and is not modelled.
- `Thompson.Process`: the tree is a datatype, so a node lacking `op` or
  `args` (a KeyError in the source) cannot be written. A node carrying
  `simb` is always a literal.
- `Thompson.Process`, `Thompson.Simple`: a symbol is a single character. In
  the source, `simb` is any JSON value: a longer string becomes the label of
  the edge as it is, and `null` makes the literal an ε-edge 0 → 1. Neither
  is modelled.
- `Thompson.BuildSequence`, `Thompson.BuildKleene`: these require what the
  source needs to run without an exception. Sequence needs a non-empty
  child list, a non-empty first child and a final state in every child.
  Kleene needs a non-empty state list, where `max` would raise.
  `Process` only calls them on fragments, and reports the empty `seq` as
  `EmptySequence`.
- `SubsetConstruction.EpsilonClosure`, `SubsetConstruction.Move`,
  `SubsetConstruction.Convert`: the unused first parameter `states` of the
  source is not modelled.
- `SubsetConstruction.Convert`: the exact order of the found states and of
  the transitions is not stated. What is stated: every found state after the
  first is entered from an earlier one, the states are distinct, the
  transitions are deterministic and complete. The queue order is modelled
  as written.
- `Recognizer.Afd`: the alphabet is a set of characters and states are
  strings. In the source, alphabet entries read from JSON could be longer
  strings, which no single symbol of a word can equal.
- The end-to-end example that compiles `kle(a)`, determinises it and runs
  words through it is not modelled. The stages' data formats differ in the
  source too: the DFA written by afnd_main.py has no alphabet and lists its
  transitions, while afd_main.py reads a nested dictionary.
