/**
  Compilation of a regular-expression syntax tree into an NFA fragment
  (er_main.py). Each builder returns an automaton numbered from 0; the
  composite builders renumber their children by adding an offset, one more
  than the largest state in use so far.

  The builders that loop in the source (alternation, sequence, Kleene star)
  are methods proved equal to a specification function; the specification
  functions of alternation and sequence are written over the prefix of the
  children handled so far, the way the source's loops accumulate them. The
  lemmas then state what the resulting automata contain.
*/
module Thompson {
  import opened Wrappers
  import opened Automaton

  /** The syntax tree: {"simb": c} or {"op": op, "args": [...]}. */
  datatype Expr = Symbol(simb: char) | Operation(op: string, args: seq<Expr>)

  /**
    Why no automaton was built: `kle` without an argument (an IndexError in
    the source), `seq` without arguments (prev_final_state is never bound),
    or a builder handed the None that an unknown operator returns (a
    TypeError).
  */
  datatype BuildError = MissingOperand | EmptySequence | NotAnAutomaton

  /**
    The outcome of processing a tree: a fragment; NoAutomaton when the root
    carries an operator other than alt, seq and kle (the source then returns
    None); or a failure raised while building.
  */
  datatype Built = Fragment(nfa: Nfa) | NoAutomaton | Failure(error: BuildError)

  function Eps(from: int, to: int): Transition {
    Transition(from, to, None)
  }

  /**
    What every builder promises its caller: initial state 0, exactly one final
    state, all named states declared, non-negative states, and a state list
    without duplicates.
  */
  ghost predicate IsFragment(n: Nfa) {
    && n.initial == 0
    && |n.finals| == 1
    && WellFormed(n)
    && NonNegative(n)
    && StrictlyIncreasing(n.states)
  }

  // ---------------------------------------------------------------------
  // Renumbering
  // ---------------------------------------------------------------------

  /** `[state + offset for state in states]` */
  function ShiftStates(xs: seq<int>, offset: int): (r: seq<int>)
    ensures |r| == |xs|
  {
    seq(|xs|, i requires 0 <= i < |xs| => xs[i] + offset)
  }

  lemma ShiftedMember(xs: seq<int>, offset: int, x: int)
    ensures x in ShiftStates(xs, offset) <==> x - offset in xs
  {
    var r := ShiftStates(xs, offset);
    if x in r {
      var i :| 0 <= i < |r| && r[i] == x;
      assert xs[i] == x - offset;
    }
    if x - offset in xs {
      var i :| 0 <= i < |xs| && xs[i] == x - offset;
      assert r[i] == x;
    }
  }

  function ShiftTransition(t: Transition, offset: int): Transition {
    Transition(t.from + offset, t.to + offset, t.symbol)
  }

  /** The list comprehension that renumbers a child's transitions. */
  function ShiftTransitions(ts: seq<Transition>, offset: int): (r: seq<Transition>)
    ensures |r| == |ts|
  {
    seq(|ts|, i requires 0 <= i < |ts| => ShiftTransition(ts[i], offset))
  }

  lemma ShiftTransitionsMembers(ts: seq<Transition>, offset: int)
    ensures forall t :: t in ShiftTransitions(ts, offset) <==> ShiftTransition(t, -offset) in ts
  {
    var r := ShiftTransitions(ts, offset);
    assert forall i :: 0 <= i < |ts| ==> ShiftTransition(r[i], -offset) == ts[i];
    assert forall u :: u in ts ==> ShiftTransition(ShiftTransition(u, offset), -offset) == u;
  }

  /** One ε-edge (f + offset) → target per final state f, in order. */
  function FinalEdges(finals: seq<int>, offset: int, target: int): (r: seq<Transition>)
    ensures |r| == |finals|
  {
    if finals == [] then []
    else
      FinalEdges(finals[..|finals| - 1], offset, target) + [Eps(finals[|finals| - 1] + offset, target)]
  }

  lemma FinalEdgesStep(finals: seq<int>, j: int, offset: int, target: int)
    requires 0 <= j < |finals|
    ensures FinalEdges(finals[..j + 1], offset, target)
      == FinalEdges(finals[..j], offset, target) + [Eps(finals[j] + offset, target)]
  {
    assert finals[..j + 1][..j] == finals[..j];
  }

  lemma {:induction false} FinalEdgesMembers(finals: seq<int>, offset: int, target: int)
    ensures forall t :: t in FinalEdges(finals, offset, target) <==>
      t.symbol == None && t.to == target && t.from - offset in finals
  {
    if finals != [] {
      var prefix := finals[..|finals| - 1];
      assert finals == prefix + [finals[|finals| - 1]];
      FinalEdgesMembers(prefix, offset, target);
    }
  }

  /**
    The inner loop `for final_state in afnd["final_states"]: transitions.append(...)`
    of the alternation and Kleene builders.
  */
  method AppendFinalEdges(transitions: seq<Transition>, finals: seq<int>, offset: int, target: int)
    returns (r: seq<Transition>)
    ensures r == transitions + FinalEdges(finals, offset, target)
  {
    r := transitions;
    for j := 0 to |finals|
      invariant r == transitions + FinalEdges(finals[..j], offset, target)
    {
      FinalEdgesStep(finals, j, offset, target);
      r := r + [Eps(finals[j] + offset, target)];
    }
    assert finals[..|finals|] == finals;
  }

  // ---------------------------------------------------------------------
  // build_simple_afnd
  // ---------------------------------------------------------------------

  /** The two-state automaton that reads one symbol. */
  function Simple(c: char): (n: Nfa)
    ensures Elems(n.states) == {0, 1} && n.initial == 0 && n.finals == [1]
    ensures forall t :: t in n.transitions <==> t == Transition(0, 1, Some(c))
    ensures |n.states| == 2 && |n.transitions| == 1
    ensures IsFragment(n)
  {
    Nfa([0, 1], 0, [1], [Transition(0, 1, Some(c))])
  }

  // ---------------------------------------------------------------------
  // build_alternative_afnd
  // ---------------------------------------------------------------------

  /** The lists a builder's loop has accumulated so far. */
  datatype Partial = Partial(states: seq<int>, transitions: seq<Transition>)

  /** One pass of the alternation loop: renumber child `a` above every state in use and wire it in. */
  function AltExtend(prev: Partial, a: Nfa): (acc: Partial)
    requires |prev.states| > 0
  {
    var offset := Max(prev.states) + 1;
    Partial(prev.states + ShiftStates(a.states, offset),
            prev.transitions + ShiftTransitions(a.transitions, offset)
              + [Eps(0, a.initial + offset)] + FinalEdges(a.finals, offset, 1))
  }

  /** The states and transitions after the alternation loop has handled `afnds`. */
  function AltAccumulate(afnds: seq<Nfa>): (acc: Partial)
    ensures 0 in acc.states && 1 in acc.states
    decreases |afnds|
  {
    if afnds == [] then Partial([0, 1], [])
    else AltExtend(AltAccumulate(afnds[..|afnds| - 1]), afnds[|afnds| - 1])
  }

  /** The offset by which the alternation renumbers child k: one more than the largest state before it. */
  function AltOffset(afnds: seq<Nfa>, k: int): int
    requires 0 <= k < |afnds|
  {
    Max(AltAccumulate(afnds[..k]).states) + 1
  }

  /** The offsets of all children, in order. */
  function AltOffsets(afnds: seq<Nfa>): (offs: seq<int>)
    ensures |offs| == |afnds|
  {
    seq(|afnds|, k requires 0 <= k < |afnds| => AltOffset(afnds, k))
  }

  lemma AltAccumulateStep(afnds: seq<Nfa>, i: int)
    requires 0 <= i < |afnds|
    ensures AltAccumulate(afnds[..i + 1]) == AltExtend(AltAccumulate(afnds[..i]), afnds[i])
  {
    assert afnds[..i + 1][..i] == afnds[..i];
  }

  /** The automaton build_alternative_afnd returns. */
  function Alternative(afnds: seq<Nfa>): Nfa {
    var acc := AltAccumulate(afnds);
    Nfa(Canonical(acc.states), 0, [1], acc.transitions)
  }

  method BuildAlternative(afnds: seq<Nfa>) returns (r: Nfa)
    ensures r == Alternative(afnds)
  {
    var newInitial, newFinal := 0, 1;
    var states := [newInitial, newFinal];
    var transitions: seq<Transition> := [];
    var finals := [newFinal];
    var offset := 1;
    for i := 0 to |afnds|
      invariant Partial(states, transitions) == AltAccumulate(afnds[..i])
    {
      ghost var prev := Partial(states, transitions);
      var a := afnds[i];
      offset := Max(states) + 1;
      states := states + ShiftStates(a.states, offset);
      transitions := transitions + ShiftTransitions(a.transitions, offset);
      transitions := transitions + [Eps(newInitial, a.initial + offset)];
      transitions := AppendFinalEdges(transitions, a.finals, offset, newFinal);
      assert Partial(states, transitions) == AltAccumulate(afnds[..i + 1]) by {
        assert Partial(states, transitions) == AltExtend(prev, a);
        AltAccumulateStep(afnds, i);
      }
    }
    assert Partial(states, transitions) == AltAccumulate(afnds) by {
      assert afnds[..|afnds|] == afnds;
    }
    r := Nfa(Canonical(states), newInitial, finals, transitions);
  }

  // ---------------------------------------------------------------------
  // build_sequence_afnd
  // ---------------------------------------------------------------------

  /** The lists of the sequence loop, with prev_final_state. */
  datatype SeqPartial = SeqPartial(states: seq<int>, transitions: seq<Transition>, lastFinal: int)

  /** What build_sequence_afnd needs of its children to run without an exception. */
  predicate SequenceReady(afnds: seq<Nfa>) {
    && |afnds| > 0
    && |afnds[0].states| > 0
    && forall k :: 0 <= k < |afnds| ==> |afnds[k].finals| > 0
  }

  lemma SequenceReadyPrefix(afnds: seq<Nfa>, n: int)
    requires SequenceReady(afnds) && 0 < n <= |afnds|
    ensures SequenceReady(afnds[..n])
  {
    assert afnds[..n][0] == afnds[0];
  }

  /** The state of the sequence loop after it has handled `afnds`. */
  function SeqAccumulate(afnds: seq<Nfa>): (acc: SeqPartial)
    requires SequenceReady(afnds)
    ensures |acc.states| > 0
    decreases |afnds|
  {
    var n := |afnds|;
    var a := afnds[n - 1];
    if n == 1 then
      SeqPartial(ShiftStates(a.states, 0), ShiftTransitions(a.transitions, 0), a.finals[0] + 0)
    else
      SequenceReadyPrefix(afnds, n - 1);
      SeqExtend(SeqAccumulate(afnds[..n - 1]), a)
  }

  /**
    One pass of the sequence loop for a child after the first: its states
    renumbered past the largest so far, an ε-edge from the previous final
    state to its renumbered initial state, then its renumbered transitions.
  */
  function SeqExtend(prev: SeqPartial, a: Nfa): (acc: SeqPartial)
    requires |prev.states| > 0 && |a.finals| > 0
  {
    var offset := Max(prev.states) + 1;
    SeqPartial(prev.states + ShiftStates(a.states, offset),
               prev.transitions + [Eps(prev.lastFinal, a.initial + offset)]
                 + ShiftTransitions(a.transitions, offset),
               a.finals[0] + offset)
  }

  /** The offset by which the sequence renumbers child k (0 for the first). */
  function SeqOffset(afnds: seq<Nfa>, k: int): int
    requires SequenceReady(afnds) && 0 <= k < |afnds|
  {
    if k == 0 then 0
    else
      SequenceReadyPrefix(afnds, k);
      Max(SeqAccumulate(afnds[..k]).states) + 1
  }

  /** The offsets of all children of a sequence, in order. */
  function SeqOffsets(afnds: seq<Nfa>): (offs: seq<int>)
    requires SequenceReady(afnds)
    ensures |offs| == |afnds|
  {
    seq(|afnds|, k requires 0 <= k < |afnds| => SeqOffset(afnds, k))
  }

  /** The automaton build_sequence_afnd returns. */
  function Sequence(afnds: seq<Nfa>): Nfa
    requires SequenceReady(afnds)
  {
    var acc := SeqAccumulate(afnds);
    Nfa(Canonical(acc.states), 0, [acc.lastFinal], acc.transitions)
  }

  method BuildSequence(afnds: seq<Nfa>) returns (r: Nfa)
    requires SequenceReady(afnds)
    ensures r == Sequence(afnds)
  {
    var states: seq<int> := [];
    var transitions: seq<Transition> := [];
    var initial := 0;
    var offset := 0;
    var prevFinal := 0;
    for i := 0 to |afnds|
      invariant i == 0 ==> states == [] && transitions == [] && offset == 0
      invariant i > 0 ==> SequenceReady(afnds[..i])
      invariant i > 0 ==> SeqAccumulate(afnds[..i]) == SeqPartial(states, transitions, prevFinal)
      invariant i > 0 ==> |states| > 0 && offset == Max(states) + 1
      invariant initial == 0
    {
      SequenceReadyPrefix(afnds, i + 1);
      assert afnds[..i + 1][..i] == afnds[..i];
      ghost var prev := SeqPartial(states, transitions, prevFinal);
      var a := afnds[i];
      if i == 0 {
        initial := offset;
      } else {
        transitions := transitions + [Eps(prevFinal, a.initial + offset)];
      }
      states := states + ShiftStates(a.states, offset);
      transitions := transitions + ShiftTransitions(a.transitions, offset);
      prevFinal := a.finals[0] + offset;
      offset := Max(states) + 1;
      if i == 0 {
        assert states == ShiftStates(a.states, 0);
        assert transitions == ShiftTransitions(a.transitions, 0);
      } else {
        assert SeqPartial(states, transitions, prevFinal) == SeqExtend(prev, a);
      }
    }
    assert afnds[..|afnds|] == afnds;
    r := Nfa(Canonical(states), initial, [prevFinal], transitions);
  }

  // ---------------------------------------------------------------------
  // build_kleene_afnd
  // ---------------------------------------------------------------------

  /** The state build_kleene_afnd adds as the new final state. */
  function KleeneFinal(a: Nfa): int
    requires |a.states| > 0
  {
    Max(a.states) + 1
  }

  /** The automaton build_kleene_afnd returns. */
  function Kleene(a: Nfa): Nfa
    requires |a.states| > 0
  {
    var newFinal := KleeneFinal(a);
    Nfa(Canonical(a.states + [0, newFinal]), 0, [newFinal],
        a.transitions + [Eps(0, a.initial)] + FinalEdges(a.finals, 0, a.initial) + [Eps(0, newFinal)])
  }

  method BuildKleene(a: Nfa) returns (r: Nfa)
    requires |a.states| > 0
    ensures r == Kleene(a)
  {
    var newInitial := 0;
    var newFinal := Max(a.states) + 1;
    var states := a.states;
    states := states + [newInitial];
    states := states + [newFinal];
    var transitions := a.transitions;
    transitions := transitions + [Eps(newInitial, a.initial)];
    transitions := AppendFinalEdges(transitions, a.finals, 0, a.initial);
    transitions := transitions + [Eps(newInitial, newFinal)];
    assert states == a.states + [0, newFinal];
    r := Nfa(Canonical(states), newInitial, [newFinal], transitions);
  }

  // ---------------------------------------------------------------------
  // Blocks of renumbered children
  // ---------------------------------------------------------------------

  /** x lies in the block of some child k renumbered by offs[k]. */
  ghost predicate InSomeBlock(afnds: seq<Nfa>, offs: seq<int>, x: int)
    requires |offs| == |afnds|
  {
    exists k :: 0 <= k < |afnds| && x - offs[k] in afnds[k].states
  }

  lemma SomeBlockStep(afnds: seq<Nfa>, offs: seq<int>, x: int)
    requires |offs| == |afnds| > 0
    ensures InSomeBlock(afnds, offs, x) <==>
      InSomeBlock(afnds[..|afnds| - 1], offs[..|afnds| - 1], x) || x - offs[|afnds| - 1] in afnds[|afnds| - 1].states
  {
    var n := |afnds|;
    if InSomeBlock(afnds, offs, x) {
      var k :| 0 <= k < n && x - offs[k] in afnds[k].states;
      if k < n - 1 {
        assert afnds[..n - 1][k] == afnds[k] && offs[..n - 1][k] == offs[k];
      }
    }
    if InSomeBlock(afnds[..n - 1], offs[..n - 1], x) {
      var k :| 0 <= k < n - 1 && x - offs[..n - 1][k] in afnds[..n - 1][k].states;
      assert afnds[..n - 1][k] == afnds[k] && offs[..n - 1][k] == offs[k];
    }
  }

  // ---------------------------------------------------------------------
  // What the alternation contains
  // ---------------------------------------------------------------------

  /** The three kinds of edge the alternation contributes for child `a` renumbered by `offset`. */
  ghost predicate AltEdge(a: Nfa, offset: int, t: Transition) {
    || ShiftTransition(t, -offset) in a.transitions
    || t == Eps(0, a.initial + offset)
    || (t.symbol == None && t.to == 1 && t.from - offset in a.finals)
  }

  ghost predicate SomeAltEdge(afnds: seq<Nfa>, offs: seq<int>, t: Transition)
    requires |offs| == |afnds|
  {
    exists k :: 0 <= k < |afnds| && AltEdge(afnds[k], offs[k], t)
  }

  lemma SomeAltEdgeStep(afnds: seq<Nfa>, offs: seq<int>, t: Transition)
    requires |offs| == |afnds| > 0
    ensures SomeAltEdge(afnds, offs, t) <==>
      SomeAltEdge(afnds[..|afnds| - 1], offs[..|afnds| - 1], t) || AltEdge(afnds[|afnds| - 1], offs[|afnds| - 1], t)
  {
    var n := |afnds|;
    if SomeAltEdge(afnds, offs, t) {
      var k :| 0 <= k < n && AltEdge(afnds[k], offs[k], t);
      if k < n - 1 {
        assert afnds[..n - 1][k] == afnds[k] && offs[..n - 1][k] == offs[k];
      }
    }
    if SomeAltEdge(afnds[..n - 1], offs[..n - 1], t) {
      var k :| 0 <= k < n - 1 && AltEdge(afnds[..n - 1][k], offs[..n - 1][k], t);
      assert afnds[..n - 1][k] == afnds[k] && offs[..n - 1][k] == offs[k];
    }
  }

  /** The state x is present after one pass of the alternation loop. */
  lemma AltExtendState(prev: Partial, a: Nfa, x: int)
    requires |prev.states| > 0
    ensures x in AltExtend(prev, a).states <==> x in prev.states || x - (Max(prev.states) + 1) in a.states
  {
    var offset := Max(prev.states) + 1;
    ShiftedMember(a.states, offset, x);
    assert AltExtend(prev, a).states == prev.states + ShiftStates(a.states, offset);
  }

  /** The edge t is present after one pass of the alternation loop. */
  lemma AltExtendEdge(prev: Partial, a: Nfa, t: Transition)
    requires |prev.states| > 0
    ensures t in AltExtend(prev, a).transitions <==> t in prev.transitions || AltEdge(a, Max(prev.states) + 1, t)
  {
    var offset := Max(prev.states) + 1;
    ShiftTransitionsMembers(a.transitions, offset);
    FinalEdgesMembers(a.finals, offset, 1);
  }

  lemma AltOffsetsLast(afnds: seq<Nfa>)
    requires |afnds| > 0
    ensures AltOffsets(afnds)[..|afnds| - 1] == AltOffsets(afnds[..|afnds| - 1])
    ensures AltOffsets(afnds)[|afnds| - 1] == Max(AltAccumulate(afnds[..|afnds| - 1]).states) + 1
  {
    var p := afnds[..|afnds| - 1];
    forall k | 0 <= k < |afnds| - 1 ensures AltOffsets(afnds)[k] == AltOffsets(p)[k] {
      assert p[..k] == afnds[..k];
    }
  }

  lemma {:induction false} AltStateAt(afnds: seq<Nfa>, x: int)
    ensures x in AltAccumulate(afnds).states <==> x == 0 || x == 1 || InSomeBlock(afnds, AltOffsets(afnds), x)
  {
    if afnds != [] {
      var n := |afnds|;
      var p := afnds[..n - 1];
      AltStateAt(p, x);
      AltOffsetsLast(afnds);
      assert afnds == p + [afnds[n - 1]];
      AltStateStep(p, afnds[n - 1], AltAccumulate(p), AltOffsets(afnds), x);
    }
  }

  /** One pass of the alternation loop, with the accumulated states and the offsets taken as given. */
  lemma AltStateStep(p: seq<Nfa>, a: Nfa, prev: Partial, offs: seq<int>, x: int)
    requires |prev.states| > 0 && |offs| == |p| + 1
    requires offs[|p|] == Max(prev.states) + 1
    requires x in prev.states <==> x == 0 || x == 1 || InSomeBlock(p, offs[..|p|], x)
    ensures x in AltExtend(prev, a).states <==> x == 0 || x == 1 || InSomeBlock(p + [a], offs, x)
  {
    AltExtendState(prev, a, x);
    SomeBlockStep(p + [a], offs, x);
    assert (p + [a])[..|p|] == p;
  }

  /** The alternation's states are 0, 1 and the renumbered states of each child. */
  lemma AltStates(afnds: seq<Nfa>)
    ensures forall x :: x in AltAccumulate(afnds).states <==>
      x == 0 || x == 1 || InSomeBlock(afnds, AltOffsets(afnds), x)
  {
    forall x ensures x in AltAccumulate(afnds).states <==>
      x == 0 || x == 1 || InSomeBlock(afnds, AltOffsets(afnds), x)
    {
      AltStateAt(afnds, x);
    }
  }

  lemma {:induction false} AltEdgeAt(afnds: seq<Nfa>, t: Transition)
    ensures t in AltAccumulate(afnds).transitions <==> SomeAltEdge(afnds, AltOffsets(afnds), t)
  {
    if afnds != [] {
      var n := |afnds|;
      var p := afnds[..n - 1];
      AltEdgeAt(p, t);
      AltOffsetsLast(afnds);
      assert afnds == p + [afnds[n - 1]];
      AltEdgeStep(p, afnds[n - 1], AltAccumulate(p), AltOffsets(afnds), t);
    }
  }

  /** One pass of the alternation loop, with the accumulated edges and the offsets taken as given. */
  lemma AltEdgeStep(p: seq<Nfa>, a: Nfa, prev: Partial, offs: seq<int>, t: Transition)
    requires |prev.states| > 0 && |offs| == |p| + 1
    requires offs[|p|] == Max(prev.states) + 1
    requires t in prev.transitions <==> SomeAltEdge(p, offs[..|p|], t)
    ensures t in AltExtend(prev, a).transitions <==> SomeAltEdge(p + [a], offs, t)
  {
    AltExtendEdge(prev, a, t);
    SomeAltEdgeStep(p + [a], offs, t);
    assert (p + [a])[..|p|] == p;
  }

  /**
    The alternation's transitions are exactly: each child's transitions
    renumbered, one ε-edge from 0 to each renumbered initial state, and one
    ε-edge from each renumbered final state to 1.
  */
  lemma AltTransitions(afnds: seq<Nfa>)
    ensures forall t :: t in AltAccumulate(afnds).transitions <==> SomeAltEdge(afnds, AltOffsets(afnds), t)
  {
    forall t ensures t in AltAccumulate(afnds).transitions <==> SomeAltEdge(afnds, AltOffsets(afnds), t) {
      AltEdgeAt(afnds, t);
    }
  }

  /** The accumulated states only grow as the loop goes on. */
  lemma {:induction false} AltStatesGrow(afnds: seq<Nfa>, m: int, x: int)
    requires 0 <= m <= |afnds| && x in AltAccumulate(afnds[..m]).states
    ensures x in AltAccumulate(afnds).states
    decreases |afnds|
  {
    if m == |afnds| {
      assert afnds[..m] == afnds;
    } else {
      var p := afnds[..|afnds| - 1];
      assert p[..m] == afnds[..m];
      AltStatesGrow(p, m, x);
      AltExtendState(AltAccumulate(p), afnds[|afnds| - 1], x);
    }
  }

  /** A state of child k's block is present once the loop has handled child k. */
  lemma AltBlockPresent(afnds: seq<Nfa>, k: int, x: int)
    requires 0 <= k < |afnds| && x - AltOffsets(afnds)[k] in afnds[k].states
    ensures x in AltAccumulate(afnds[..k + 1]).states
  {
    var prev := AltAccumulate(afnds[..k]);
    assert AltOffsets(afnds)[k] == Max(prev.states) + 1;
    AltExtendState(prev, afnds[k], x);
    AltAccumulateStep(afnds, k);
  }

  /**
    With non-negative child states, each child's block lies above the new
    states 0 and 1 and above the blocks of the children before it, so no two
    children share a state.
  */
  lemma AltBlocksDisjoint(afnds: seq<Nfa>, j: int, k: int, x: int)
    requires 0 <= j < k < |afnds| && NonNegative(afnds[j]) && NonNegative(afnds[k])
    requires x - AltOffsets(afnds)[j] in afnds[j].states
    ensures x - AltOffsets(afnds)[k] !in afnds[k].states
  {
    AltBlockPresent(afnds, j, x);
    assert afnds[..k][..j + 1] == afnds[..j + 1];
    AltStatesGrow(afnds[..k], j + 1, x);
    MaxIsMaximum(AltAccumulate(afnds[..k]).states);
  }

  /** Every renumbering offset of the alternation is at least 2. */
  lemma AltOffsetAboveNew(afnds: seq<Nfa>, k: int)
    requires 0 <= k < |afnds|
    ensures AltOffsets(afnds)[k] >= 2
  {
    MaxIsMaximum(AltAccumulate(afnds[..k]).states);
  }

  /** An alternation edge of a well-formed child joins declared states. */
  lemma AltEdgeDeclared(a: Nfa, offset: int, t: Transition)
    requires WellFormed(a) && AltEdge(a, offset, t)
    ensures t.from == 0 || t.from - offset in a.states
    ensures t.to == 1 || t.to - offset in a.states
  {
  }

  /**
    The shape of a fragment assembled from renumbered children: the states
    are the new states 0 and 1 plus the children's blocks, and every edge is
    one AltEdge of some child.
  */
  ghost predicate AltShaped(acc: Partial, afnds: seq<Nfa>, offs: seq<int>)
    requires |offs| == |afnds|
  {
    && (forall x :: x in acc.states <==> x == 0 || x == 1 || InSomeBlock(afnds, offs, x))
    && (forall t :: t in acc.transitions <==> SomeAltEdge(afnds, offs, t))
  }

  /** In an AltShaped accumulation of well-formed children every edge joins declared states. */
  lemma AltShapedDeclared(acc: Partial, afnds: seq<Nfa>, offs: seq<int>, t: Transition)
    requires |offs| == |afnds| && AltShaped(acc, afnds, offs)
    requires forall k :: 0 <= k < |afnds| ==> WellFormed(afnds[k])
    requires t in acc.transitions
    ensures t.from in acc.states && t.to in acc.states
  {
    var k :| 0 <= k < |afnds| && AltEdge(afnds[k], offs[k], t);
    AltEdgeDeclared(afnds[k], offs[k], t);
  }

  /** With offsets of at least 2 above non-negative children, an AltShaped accumulation has non-negative states. */
  lemma AltShapedNonNegative(acc: Partial, afnds: seq<Nfa>, offs: seq<int>, x: int)
    requires |offs| == |afnds| && AltShaped(acc, afnds, offs)
    requires forall k :: 0 <= k < |afnds| ==> NonNegative(afnds[k]) && offs[k] >= 2
    requires x in acc.states
    ensures x >= 0
  {
    if x != 0 && x != 1 {
      var k :| 0 <= k < |afnds| && x - offs[k] in afnds[k].states;
    }
  }

  /** Alternation of well-formed children with non-negative states is a fragment. */
  lemma AltFragment(afnds: seq<Nfa>)
    requires forall k :: 0 <= k < |afnds| ==> WellFormed(afnds[k]) && NonNegative(afnds[k])
    ensures IsFragment(Alternative(afnds))
  {
    var acc := AltAccumulate(afnds);
    var offs := AltOffsets(afnds);
    var r := Alternative(afnds);
    AltStates(afnds);
    AltTransitions(afnds);
    assert AltShaped(acc, afnds, offs);
    forall k | 0 <= k < |afnds| ensures offs[k] >= 2 {
      AltOffsetAboveNew(afnds, k);
    }
    forall x ensures x in r.states <==> x in acc.states {
      assert x in Elems(r.states) <==> x in r.states;
      assert x in Elems(acc.states) <==> x in acc.states;
    }
    forall t | t in r.transitions ensures t.from in r.states && t.to in r.states {
      AltShapedDeclared(acc, afnds, offs, t);
    }
    forall x | x in r.states ensures x >= 0 {
      AltShapedNonNegative(acc, afnds, offs, x);
    }
  }

  // ---------------------------------------------------------------------
  // What the sequence contains
  // ---------------------------------------------------------------------

  /**
    The edges the sequence contributes for child k: its own transitions
    renumbered, and for every child after the first the ε-edge from the
    previous child's renumbered first final state to its renumbered initial
    state.
  */
  ghost predicate SeqEdge(afnds: seq<Nfa>, offs: seq<int>, k: int, t: Transition)
    requires |offs| == |afnds| && 0 <= k < |afnds|
  {
    || ShiftTransition(t, -offs[k]) in afnds[k].transitions
    || (k > 0 && |afnds[k - 1].finals| > 0
        && t == Eps(afnds[k - 1].finals[0] + offs[k - 1], afnds[k].initial + offs[k]))
  }

  ghost predicate SomeSeqEdge(afnds: seq<Nfa>, offs: seq<int>, t: Transition)
    requires |offs| == |afnds|
  {
    exists k :: 0 <= k < |afnds| && SeqEdge(afnds, offs, k, t)
  }

  lemma SomeSeqEdgeStep(afnds: seq<Nfa>, offs: seq<int>, t: Transition)
    requires |offs| == |afnds| > 0
    ensures SomeSeqEdge(afnds, offs, t) <==>
      SomeSeqEdge(afnds[..|afnds| - 1], offs[..|afnds| - 1], t) || SeqEdge(afnds, offs, |afnds| - 1, t)
  {
    var n := |afnds|;
    var p, q := afnds[..n - 1], offs[..n - 1];
    forall k | 0 <= k < n - 1 ensures SeqEdge(afnds, offs, k, t) == SeqEdge(p, q, k, t) {
      assert p[k] == afnds[k] && q[k] == offs[k];
      if k > 0 {
        assert p[k - 1] == afnds[k - 1] && q[k - 1] == offs[k - 1];
      }
    }
    if SomeSeqEdge(afnds, offs, t) {
      var k :| 0 <= k < n && SeqEdge(afnds, offs, k, t);
    }
    if SomeSeqEdge(p, q, t) {
      var k :| 0 <= k < n - 1 && SeqEdge(p, q, k, t);
    }
  }

  lemma SeqOffsetsStep(afnds: seq<Nfa>)
    requires SequenceReady(afnds) && |afnds| > 1
    ensures SequenceReady(afnds[..|afnds| - 1])
    ensures SeqOffsets(afnds)[..|afnds| - 1] == SeqOffsets(afnds[..|afnds| - 1])
    ensures SeqOffsets(afnds)[|afnds| - 1] == Max(SeqAccumulate(afnds[..|afnds| - 1]).states) + 1
  {
    var p := afnds[..|afnds| - 1];
    SequenceReadyPrefix(afnds, |afnds| - 1);
    forall k | 0 < k < |afnds| - 1 ensures SeqOffsets(afnds)[k] == SeqOffsets(p)[k] {
      assert p[..k] == afnds[..k];
    }
  }

  /** prev_final_state after the loop: the last child's first final state, renumbered. */
  lemma SeqLastFinal(afnds: seq<Nfa>)
    requires SequenceReady(afnds)
    ensures SeqAccumulate(afnds).lastFinal == afnds[|afnds| - 1].finals[0] + SeqOffsets(afnds)[|afnds| - 1]
  {
    if |afnds| > 1 {
      SeqOffsetsStep(afnds);
    }
  }

  lemma {:induction false} SeqStateAt(afnds: seq<Nfa>, x: int)
    requires SequenceReady(afnds)
    ensures x in SeqAccumulate(afnds).states <==> InSomeBlock(afnds, SeqOffsets(afnds), x)
  {
    var n := |afnds|;
    var a := afnds[n - 1];
    SomeBlockStep(afnds, SeqOffsets(afnds), x);
    if n == 1 {
      ShiftedMember(a.states, 0, x);
    } else {
      var p := afnds[..n - 1];
      SeqOffsetsStep(afnds);
      SeqStateAt(p, x);
      ShiftedMember(a.states, SeqOffsets(afnds)[n - 1], x);
    }
  }

  /** The sequence's states are exactly the renumbered states of its children. */
  lemma SeqStates(afnds: seq<Nfa>)
    requires SequenceReady(afnds)
    ensures forall x :: x in SeqAccumulate(afnds).states <==> InSomeBlock(afnds, SeqOffsets(afnds), x)
  {
    forall x ensures x in SeqAccumulate(afnds).states <==> InSomeBlock(afnds, SeqOffsets(afnds), x) {
      SeqStateAt(afnds, x);
    }
  }

  lemma SeqStepEdge(prev: seq<Transition>, link: Transition, ts: seq<Transition>, offset: int, t: Transition)
    ensures t in prev + [link] + ShiftTransitions(ts, offset) <==>
      t in prev || t == link || ShiftTransition(t, -offset) in ts
  {
    ShiftTransitionsMembers(ts, offset);
  }

  lemma {:induction false} SeqEdgeAt(afnds: seq<Nfa>, t: Transition)
    requires SequenceReady(afnds)
    ensures t in SeqAccumulate(afnds).transitions <==> SomeSeqEdge(afnds, SeqOffsets(afnds), t)
  {
    var n := |afnds|;
    var a := afnds[n - 1];
    if n == 1 {
      SomeSeqEdgeStep(afnds, SeqOffsets(afnds), t);
      ShiftTransitionsMembers(a.transitions, 0);
    } else {
      var p := afnds[..n - 1];
      SeqOffsetsStep(afnds);
      SeqEdgeAt(p, t);
      SeqLastFinal(p);
      assert afnds == p + [a];
      SeqEdgeStep(p, a, SeqAccumulate(p), SeqOffsets(afnds), t);
    }
  }

  /** One pass of the sequence loop, with the accumulated lists and the offsets taken as given. */
  lemma SeqEdgeStep(p: seq<Nfa>, a: Nfa, prev: SeqPartial, offs: seq<int>, t: Transition)
    requires |p| > 0 && |offs| == |p| + 1 && |p[|p| - 1].finals| > 0 && |a.finals| > 0 && |prev.states| > 0
    requires offs[|p|] == Max(prev.states) + 1 && prev.lastFinal == p[|p| - 1].finals[0] + offs[|p| - 1]
    requires t in prev.transitions <==> SomeSeqEdge(p, offs[..|p|], t)
    ensures t in SeqExtend(prev, a).transitions <==> SomeSeqEdge(p + [a], offs, t)
  {
    SeqStepEdge(prev.transitions, Eps(prev.lastFinal, a.initial + offs[|p|]), a.transitions, offs[|p|], t);
    SomeSeqEdgeStep(p + [a], offs, t);
    assert (p + [a])[..|p|] == p;
  }

  /**
    The sequence's transitions are exactly the children's transitions
    renumbered, plus one ε-edge linking each child to the next.
  */
  lemma SeqTransitions(afnds: seq<Nfa>)
    requires SequenceReady(afnds)
    ensures forall t :: t in SeqAccumulate(afnds).transitions <==> SomeSeqEdge(afnds, SeqOffsets(afnds), t)
  {
    forall t ensures t in SeqAccumulate(afnds).transitions <==> SomeSeqEdge(afnds, SeqOffsets(afnds), t) {
      SeqEdgeAt(afnds, t);
    }
  }

  /** The total number of transitions of the children. */
  function TransitionTotal(afnds: seq<Nfa>): nat {
    if afnds == [] then 0
    else TransitionTotal(afnds[..|afnds| - 1]) + |afnds[|afnds| - 1].transitions|
  }

  /** The sequence adds exactly one linking ε-edge per child after the first. */
  lemma {:induction false} SeqTransitionCount(afnds: seq<Nfa>)
    requires SequenceReady(afnds)
    ensures |SeqAccumulate(afnds).transitions| == TransitionTotal(afnds) + |afnds| - 1
  {
    if |afnds| > 1 {
      SequenceReadyPrefix(afnds, |afnds| - 1);
      SeqTransitionCount(afnds[..|afnds| - 1]);
    } else {
      assert afnds[..0] == [];
    }
  }

  /**
    The shape of a sequence assembled from renumbered children: the states
    are the children's blocks, every edge is one SeqEdge, and the final state
    is the last child's first final state, renumbered.
  */
  ghost predicate SeqShaped(acc: SeqPartial, afnds: seq<Nfa>, offs: seq<int>)
    requires |offs| == |afnds|
  {
    && |afnds| > 0 && |afnds[|afnds| - 1].finals| > 0
    && (forall x :: x in acc.states <==> InSomeBlock(afnds, offs, x))
    && (forall t :: t in acc.transitions <==> SomeSeqEdge(afnds, offs, t))
    && acc.lastFinal == afnds[|afnds| - 1].finals[0] + offs[|afnds| - 1]
  }

  lemma SeqShapedDeclared(acc: SeqPartial, afnds: seq<Nfa>, offs: seq<int>, t: Transition)
    requires |offs| == |afnds| && SeqShaped(acc, afnds, offs)
    requires forall k :: 0 <= k < |afnds| ==> WellFormed(afnds[k])
    requires t in acc.transitions
    ensures t.from in acc.states && t.to in acc.states
  {
    var k :| 0 <= k < |afnds| && SeqEdge(afnds, offs, k, t);
    if ShiftTransition(t, -offs[k]) in afnds[k].transitions {
      assert t.from - offs[k] in afnds[k].states && t.to - offs[k] in afnds[k].states;
    } else {
      assert afnds[k - 1].finals[0] in afnds[k - 1].states;
      assert t.from - offs[k - 1] in afnds[k - 1].states;
      assert t.to - offs[k] in afnds[k].states;
    }
  }

  lemma SeqShapedNonNegative(acc: SeqPartial, afnds: seq<Nfa>, offs: seq<int>, x: int)
    requires |offs| == |afnds| && SeqShaped(acc, afnds, offs)
    requires forall k :: 0 <= k < |afnds| ==> NonNegative(afnds[k]) && offs[k] >= 0
    requires x in acc.states
    ensures x >= 0
  {
    var k :| 0 <= k < |afnds| && x - offs[k] in afnds[k].states;
  }

  lemma SeqShapedEnds(acc: SeqPartial, afnds: seq<Nfa>, offs: seq<int>)
    requires |offs| == |afnds| && SeqShaped(acc, afnds, offs)
    requires forall k :: 0 <= k < |afnds| ==> WellFormed(afnds[k])
    requires offs[0] == 0 && afnds[0].initial == 0
    ensures 0 in acc.states && acc.lastFinal in acc.states
  {
    var n := |afnds|;
    assert 0 - offs[0] in afnds[0].states;
    assert acc.lastFinal - offs[n - 1] in afnds[n - 1].states;
  }

  /** Every sequence offset is non-negative when the first child starts at state 0. */
  lemma SeqOffsetNonNegative(afnds: seq<Nfa>, k: int)
    requires SequenceReady(afnds) && 0 <= k < |afnds|
    requires WellFormed(afnds[0]) && afnds[0].initial == 0
    ensures SeqOffsets(afnds)[k] >= 0
  {
    if k > 0 {
      var q := afnds[..k];
      SequenceReadyPrefix(afnds, k);
      assert q[0] == afnds[0];
      assert SeqOffsets(q)[0] == 0;
      SeqStateAt(q, 0);
      assert 0 - SeqOffsets(q)[0] in q[0].states;
      MaxIsMaximum(SeqAccumulate(q).states);
    }
  }

  /**
    The sequence of well-formed children with non-negative states, the first
    starting at state 0, is a fragment.
  */
  lemma SeqFragment(afnds: seq<Nfa>)
    requires SequenceReady(afnds)
    requires forall k :: 0 <= k < |afnds| ==> WellFormed(afnds[k]) && NonNegative(afnds[k])
    requires afnds[0].initial == 0
    ensures IsFragment(Sequence(afnds))
  {
    var acc := SeqAccumulate(afnds);
    var offs := SeqOffsets(afnds);
    SeqStates(afnds);
    SeqTransitions(afnds);
    SeqLastFinal(afnds);
    assert SeqShaped(acc, afnds, offs);
    forall k | 0 <= k < |afnds| ensures offs[k] >= 0 {
      SeqOffsetNonNegative(afnds, k);
    }
    SeqShapedFragment(acc, afnds, offs);
  }

  /** An accumulation of the sequence shape, starting at state 0, closes into a fragment. */
  lemma SeqShapedFragment(acc: SeqPartial, afnds: seq<Nfa>, offs: seq<int>)
    requires |offs| == |afnds| && SeqShaped(acc, afnds, offs)
    requires forall k :: 0 <= k < |afnds| ==> WellFormed(afnds[k]) && NonNegative(afnds[k]) && offs[k] >= 0
    requires offs[0] == 0 && afnds[0].initial == 0
    ensures IsFragment(Nfa(Canonical(acc.states), 0, [acc.lastFinal], acc.transitions))
  {
    var r := Nfa(Canonical(acc.states), 0, [acc.lastFinal], acc.transitions);
    forall x ensures x in r.states <==> x in acc.states {
      assert x in Elems(r.states) <==> x in r.states;
      assert x in Elems(acc.states) <==> x in acc.states;
    }
    SeqShapedEnds(acc, afnds, offs);
    forall t | t in r.transitions ensures t.from in r.states && t.to in r.states {
      SeqShapedDeclared(acc, afnds, offs, t);
    }
    forall x | x in r.states ensures x >= 0 {
      SeqShapedNonNegative(acc, afnds, offs, x);
    }
  }

  /** The accumulated states of the sequence only grow as the loop goes on. */
  lemma {:induction false} SeqStatesGrow(afnds: seq<Nfa>, m: int, x: int)
    requires SequenceReady(afnds) && 0 < m <= |afnds|
    requires SequenceReady(afnds[..m]) && x in SeqAccumulate(afnds[..m]).states
    ensures x in SeqAccumulate(afnds).states
    decreases |afnds|
  {
    if m == |afnds| {
      assert afnds[..m] == afnds;
    } else {
      var p := afnds[..|afnds| - 1];
      SequenceReadyPrefix(afnds, |afnds| - 1);
      assert p[..m] == afnds[..m];
      SeqStatesGrow(p, m, x);
    }
  }

  /**
    With non-negative child states, each child's block of the sequence lies
    above the blocks of the children before it, so no two children share a
    state.
  */
  lemma SeqBlocksDisjoint(afnds: seq<Nfa>, j: int, k: int, x: int)
    requires SequenceReady(afnds) && 0 <= j < k < |afnds| && NonNegative(afnds[k])
    requires x - SeqOffsets(afnds)[j] in afnds[j].states
    ensures x - SeqOffsets(afnds)[k] !in afnds[k].states
  {
    var q := afnds[..j + 1];
    SequenceReadyPrefix(afnds, j + 1);
    SequenceReadyPrefix(afnds, k);
    assert SeqOffsets(q)[j] == SeqOffsets(afnds)[j] by {
      assert q[..j] == afnds[..j];
    }
    assert q[j] == afnds[j];
    SeqStateAt(q, x);
    assert afnds[..k][..j + 1] == q;
    SeqStatesGrow(afnds[..k], j + 1, x);
    MaxIsMaximum(SeqAccumulate(afnds[..k]).states);
  }

  // ---------------------------------------------------------------------
  // What the Kleene star contains
  // ---------------------------------------------------------------------

  /** The Kleene star keeps the child's states and adds 0 and a new final state that is not a child state. */
  lemma KleeneStates(a: Nfa)
    requires |a.states| > 0
    ensures KleeneFinal(a) !in a.states
    ensures forall s :: s in a.states ==> s < KleeneFinal(a)
    ensures forall x :: x in Kleene(a).states <==> x in a.states || x == 0 || x == KleeneFinal(a)
  {
    MaxIsMaximum(a.states);
    var all := a.states + [0, KleeneFinal(a)];
    forall x ensures x in Kleene(a).states <==> x in all {
      assert x in Elems(Kleene(a).states) <==> x in Kleene(a).states;
      assert x in Elems(all) <==> x in all;
    }
  }

  /**
    The Kleene star keeps the child's transitions unrenumbered and adds
    exactly: ε from 0 to the child's initial state, ε from each child final
    state back to the child's initial state, and ε from 0 to the new final
    state.
  */
  lemma KleeneTransitions(a: Nfa)
    requires |a.states| > 0
    ensures forall t :: t in Kleene(a).transitions <==>
      || t in a.transitions
      || t == Eps(0, a.initial)
      || (t.symbol == None && t.to == a.initial && t.from in a.finals)
      || t == Eps(0, KleeneFinal(a))
  {
    FinalEdgesMembers(a.finals, 0, a.initial);
  }

  /**
    The only edge of a Kleene star over a well-formed child that enters the
    new final state is the ε-edge from 0: no edge leads there from the
    child's final states.
  */
  lemma KleeneFinalEntry(a: Nfa)
    requires |a.states| > 0 && WellFormed(a)
    ensures forall t :: t in Kleene(a).transitions && t.to == KleeneFinal(a) ==> t == Eps(0, KleeneFinal(a))
  {
    KleeneStates(a);
    KleeneTransitions(a);
  }

  /** The Kleene star of a well-formed child with non-negative states is a fragment. */
  lemma KleeneFragment(a: Nfa)
    requires WellFormed(a) && NonNegative(a)
    ensures IsFragment(Kleene(a))
  {
    KleeneStates(a);
    KleeneTransitions(a);
  }

  // ---------------------------------------------------------------------
  // process_expression
  // ---------------------------------------------------------------------

  /** The error of the first child whose processing raised, if any. */
  function FirstFailure(rs: seq<Built>): (r: Option<BuildError>)
    ensures r.None? <==> forall i :: 0 <= i < |rs| ==> !rs[i].Failure?
    ensures r.Some? ==> exists i :: 0 <= i < |rs| && rs[i] == Failure(r.value) && NoFailureBefore(rs, i)
  {
    if rs == [] then None
    else if rs[0].Failure? then
      assert NoFailureBefore(rs, 0);
      Some(rs[0].error)
    else
      var r := FirstFailure(rs[1..]);
      assert forall i :: 0 < i < |rs| ==> rs[i] == rs[1..][i - 1];
      assert r.Some? ==> exists i :: 0 <= i < |rs| && rs[i] == Failure(r.value) && NoFailureBefore(rs, i) by {
        if r.Some? {
          var i :| 0 <= i < |rs[1..]| && rs[1..][i] == Failure(r.value) && NoFailureBefore(rs[1..], i);
          assert NoFailureBefore(rs, i + 1);
        }
      }
      r
  }

  predicate NoFailureBefore(rs: seq<Built>, i: int)
    requires 0 <= i <= |rs|
  {
    forall j :: 0 <= j < i ==> !rs[j].Failure?
  }

  /**
    The automata a builder receives from its children: the first failure
    among them, in order, is propagated; otherwise a child that built no
    automaton makes the builder fail on it; otherwise all the children's
    automata, in order.
  */
  function Collect(rs: seq<Built>): (r: Result<seq<Nfa>, BuildError>)
    ensures r.Ok? <==> forall i :: 0 <= i < |rs| ==> rs[i].Fragment?
    ensures r.Ok? ==> |r.value| == |rs| && forall i :: 0 <= i < |rs| ==> rs[i] == Fragment(r.value[i])
    ensures (exists i :: 0 <= i < |rs| && rs[i].Failure?) ==>
      r.Err? && exists i :: 0 <= i < |rs| && rs[i] == Failure(r.error) && NoFailureBefore(rs, i)
    ensures r.Err? && (forall i :: 0 <= i < |rs| ==> !rs[i].Failure?) ==> r.error == NotAnAutomaton
  {
    match FirstFailure(rs)
    case Some(err) => Err(err)
    case None =>
      if forall i :: 0 <= i < |rs| ==> rs[i].Fragment? then
        Ok(seq(|rs|, i requires 0 <= i < |rs| && rs[i].Fragment? => rs[i].nfa))
      else
        Err(NotAnAutomaton)
  }

  /**
    process_expression: a symbol builds the literal automaton; alt and seq
    process every argument in order and combine the results; kle processes
    its first argument only; any other operator yields no automaton.
  */
  function Process(e: Expr): (r: Built)
    ensures r.Fragment? ==> IsFragment(r.nfa)
    ensures r.NoAutomaton? <==> e.Operation? && e.op != "alt" && e.op != "seq" && e.op != "kle"
    decreases e
  {
    match e
    case Symbol(c) => Fragment(Simple(c))
    case Operation(op, args) =>
      if op == "alt" then
        var rs := seq(|args|, i requires 0 <= i < |args| => Process(args[i]));
        match Collect(rs)
        case Err(err) => Failure(err)
        case Ok(afnds) =>
          assert forall k :: 0 <= k < |afnds| ==> rs[k] == Fragment(afnds[k]);
          AltFragment(afnds);
          Fragment(Alternative(afnds))
      else if op == "seq" then
        var rs := seq(|args|, i requires 0 <= i < |args| => Process(args[i]));
        match Collect(rs)
        case Err(err) => Failure(err)
        case Ok(afnds) =>
          if afnds == [] then Failure(EmptySequence)
          else
            assert forall k :: 0 <= k < |afnds| ==> rs[k] == Fragment(afnds[k]);
            assert afnds[0].initial in afnds[0].states;
            SeqFragment(afnds);
            Fragment(Sequence(afnds))
      else if op == "kle" then
        if args == [] then Failure(MissingOperand)
        else
          match Process(args[0])
          case Fragment(a) =>
            KleeneFragment(a);
            Fragment(Kleene(a))
          case NoAutomaton => Failure(NotAnAutomaton)
          case Failure(err) => Failure(err)
      else
        NoAutomaton
  }

  /** kle looks at its first argument only. */
  lemma ProcessKleeneFirstOnly(a: Expr, rest: seq<Expr>)
    ensures Process(Operation("kle", [a] + rest)) == Process(Operation("kle", [a]))
  {
    assert ([a] + rest)[0] == a;
  }

  /**
    kle builds the star of its first argument's automaton, passes on that
    argument's failure, and fails on an argument that built no automaton.
  */
  lemma ProcessKleene(e: Expr, rest: seq<Expr>)
    ensures Process(e).Fragment? ==> Process(Operation("kle", [e] + rest)) == Fragment(Kleene(Process(e).nfa))
    ensures Process(e).Failure? ==> Process(Operation("kle", [e] + rest)) == Process(e)
    ensures Process(e).NoAutomaton? ==> Process(Operation("kle", [e] + rest)) == Failure(NotAnAutomaton)
  {
    assert ([e] + rest)[0] == e;
  }

  /**
    The operators without arguments: kle fails for lack of an operand, seq
    fails with no previous final state, and alt builds the two fresh states
    alone.
  */
  lemma ProcessKleeneEmpty()
    ensures Process(Operation("kle", [])) == Failure(MissingOperand)
  {
  }

  lemma ProcessSequenceEmpty()
    ensures Process(Operation("seq", [])) == Failure(EmptySequence)
  {
    var rs: seq<Built> := [];
    assert Collect(rs) == Ok([]);
  }

  lemma ProcessAlternativeEmpty()
    ensures Process(Operation("alt", [])) == Fragment(Nfa([0, 1], 0, [1], []))
  {
    var rs: seq<Built> := [];
    assert Collect(rs) == Ok([]);
    CanonicalUnique(Canonical([0, 1]), [0, 1]);
  }

  /** alt processes every argument and alternates their automata, in order. */
  lemma ProcessAlternative(args: seq<Expr>, afnds: seq<Nfa>)
    requires |afnds| == |args| && forall i :: 0 <= i < |args| ==> Process(args[i]) == Fragment(afnds[i])
    ensures Process(Operation("alt", args)) == Fragment(Alternative(afnds))
  {
    var rs := seq(|args|, i requires 0 <= i < |args| => Process(args[i]));
    assert Collect(rs).Ok?;
    assert Collect(rs).value == afnds;
  }

  /** seq processes every argument and concatenates their automata, in order. */
  lemma ProcessSequence(args: seq<Expr>, afnds: seq<Nfa>)
    requires |afnds| == |args| > 0 && forall i :: 0 <= i < |args| ==> Process(args[i]) == Fragment(afnds[i])
    ensures SequenceReady(afnds)
    ensures Process(Operation("seq", args)) == Fragment(Sequence(afnds))
  {
    var rs := seq(|args|, i requires 0 <= i < |args| => Process(args[i]));
    assert Collect(rs).Ok?;
    assert Collect(rs).value == afnds;
    assert Process(args[0]).Fragment? && IsFragment(afnds[0]);
    assert afnds[0].initial in afnds[0].states;
    assert forall k :: 0 <= k < |afnds| ==> IsFragment(afnds[k]) by {
      assert forall k :: 0 <= k < |afnds| ==> Process(args[k]).Fragment? && Process(args[k]).nfa == afnds[k];
    }
  }

  /** alt and seq build an automaton only if every argument does. */
  lemma ProcessNeedsAllChildren(op: string, args: seq<Expr>, i: int)
    requires op == "alt" || op == "seq"
    requires 0 <= i < |args| && !Process(args[i]).Fragment?
    ensures !Process(Operation(op, args)).Fragment?
  {
    var rs := seq(|args|, i requires 0 <= i < |args| => Process(args[i]));
    assert !rs[i].Fragment?;
  }

  /**
    Among the arguments of alt and seq, the first one whose processing
    fails decides the failure.
  */
  lemma ProcessFirstFailure(op: string, args: seq<Expr>, i: int, err: BuildError)
    requires op == "alt" || op == "seq"
    requires 0 <= i < |args| && Process(args[i]) == Failure(err)
    requires forall j :: 0 <= j < i ==> !Process(args[j]).Failure?
    ensures Process(Operation(op, args)) == Failure(err)
  {
    var rs := seq(|args|, i requires 0 <= i < |args| => Process(args[i]));
    FirstFailureIs(rs, i);
  }

  lemma {:induction false} FirstFailureIs(rs: seq<Built>, i: int)
    requires 0 <= i < |rs| && rs[i].Failure? && NoFailureBefore(rs, i)
    ensures FirstFailure(rs) == Some(rs[i].error)
  {
    if i > 0 {
      assert NoFailureBefore(rs[1..], i - 1);
      FirstFailureIs(rs[1..], i - 1);
    }
  }

  // ---------------------------------------------------------------------
  // Worked examples
  // ---------------------------------------------------------------------

  lemma ExampleFirstStep(c: char)
    ensures SeqAccumulate([Simple(c)]) == SeqPartial([0, 1], [Transition(0, 1, Some(c))], 1)
  {
    assert ShiftStates([0, 1], 0) == [0, 1];
    assert ShiftTransitions([Transition(0, 1, Some(c))], 0) == [Transition(0, 1, Some(c))];
  }

  lemma ExampleSecondStep(c: char, d: char)
    ensures SeqAccumulate([Simple(c), Simple(d)]) ==
      SeqPartial([0, 1, 2, 3], [Transition(0, 1, Some(c)), Eps(1, 2), Transition(2, 3, Some(d))], 3)
  {
    var afnds := [Simple(c), Simple(d)];
    assert afnds[..1] == [Simple(c)];
    ExampleFirstStep(c);
    assert Max([0, 1]) == 1;
    assert ShiftStates([0, 1], 2) == [2, 3];
    assert ShiftTransitions([Transition(0, 1, Some(d))], 2) == [Transition(2, 3, Some(d))];
  }

  /** Canonical leaves an ascending list unchanged. */
  lemma CanonicalOfAscending(xs: seq<int>)
    requires StrictlyIncreasing(xs)
    ensures Canonical(xs) == xs
  {
    CanonicalUnique(Canonical(xs), xs);
  }

  /** The tree for two symbols in sequence builds four states linked by one ε-edge. */
  lemma ExampleSequence(c: char, d: char)
    ensures Process(Operation("seq", [Symbol(c), Symbol(d)])) ==
      Fragment(Nfa([0, 1, 2, 3], 0, [3], [Transition(0, 1, Some(c)), Eps(1, 2), Transition(2, 3, Some(d))]))
  {
    ProcessSequence([Symbol(c), Symbol(d)], [Simple(c), Simple(d)]);
    ExampleSequenceValue(c, d);
  }

  lemma ExampleSequenceValue(c: char, d: char)
    ensures Sequence([Simple(c), Simple(d)]) ==
      Nfa([0, 1, 2, 3], 0, [3], [Transition(0, 1, Some(c)), Eps(1, 2), Transition(2, 3, Some(d))])
  {
    ExampleSecondStep(c, d);
    CanonicalOfAscending(SeqAccumulate([Simple(c), Simple(d)]).states);
  }

  /**
    The star of a single symbol: the child's initial state 0 doubles as the
    new initial state, so the star adds an ε-loop on 0.
  */
  lemma ExampleKleene(c: char)
    ensures Process(Operation("kle", [Symbol(c)])) ==
      Fragment(Nfa([0, 1, 2], 0, [2], [Transition(0, 1, Some(c)), Eps(0, 0), Eps(1, 0), Eps(0, 2)]))
  {
    assert Max([0, 1]) == 1;
    assert FinalEdges([1], 0, 0) == [Eps(1, 0)];
    assert Elems([0, 1] + [0, 2]) == Elems([0, 1, 2]);
    CanonicalUnique(Canonical([0, 1] + [0, 2]), [0, 1, 2]);
  }
}
