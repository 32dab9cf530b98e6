/**
  The NFA-to-DFA stage (afnd_main.py): ε-closure, the one-symbol move, and
  the subset construction over the fixed alphabet a, b.

  The closure and move are specified by sets: the closure of S is the set of
  states reachable from S along ε-edges, the move of S under a symbol is the
  set of targets of the edges with that symbol leaving S. The methods return
  the sorted list of that set, as the source does with `sorted(...)`.
*/
module SubsetConstruction {
  import opened Wrappers
  import opened Automaton

  // ---------------------------------------------------------------------
  // ε-reachability
  // ---------------------------------------------------------------------

  /** Every state some transition leads to. */
  ghost function Targets(ts: seq<Transition>): set<int> {
    set t | t in ts :: t.to
  }

  /** The same states as a list: the candidates from which a closure is listed in order. */
  function TargetList(ts: seq<Transition>): (r: seq<int>)
    ensures Elems(r) == Targets(ts)
  {
    var r := seq(|ts|, i requires 0 <= i < |ts| => ts[i].to);
    assert Elems(r) == Targets(ts) by {
      forall t | t in ts ensures t.to in r {
        var i :| 0 <= i < |ts| && ts[i] == t;
        assert r[i] == t.to;
      }
      forall x | x in r ensures x in Targets(ts) {
        var i :| 0 <= i < |r| && r[i] == x;
        assert ts[i] in ts;
      }
    }
    r
  }

  /** A non-empty walk along ε-edges. */
  ghost predicate EpsPath(ts: seq<Transition>, p: seq<int>) {
    && |p| > 0
    && forall i :: 0 <= i < |p| - 1 ==> Transition(p[i], p[i + 1], None) in ts
  }

  /** x can be reached from a state of S along ε-edges alone. */
  ghost predicate EpsReachable(ts: seq<Transition>, S: set<int>, x: int) {
    exists p :: EpsPath(ts, p) && p[0] in S && p[|p| - 1] == x
  }

  /** No ε-edge leaves K. */
  ghost predicate EpsClosed(ts: seq<Transition>, K: set<int>) {
    forall t :: t in ts && t.from in K && t.symbol == None ==> t.to in K
  }

  /** Every state ε-reachable from S lies in S or is the target of a transition. */
  lemma ReachableWithin(ts: seq<Transition>, S: set<int>, x: int)
    requires EpsReachable(ts, S, x)
    ensures x in S + Targets(ts)
  {
    var p :| EpsPath(ts, p) && p[0] in S && p[|p| - 1] == x;
    if |p| > 1 {
      var t := Transition(p[|p| - 2], p[|p| - 1], None);
      assert t in ts;
    }
  }

  /** The ε-closure of S: every state ε-reachable from S. */
  ghost function ClosureSet(ts: seq<Transition>, S: set<int>): (c: set<int>)
    ensures forall x :: x in c <==> EpsReachable(ts, S, x)
  {
    var c := set x | x in S + Targets(ts) && EpsReachable(ts, S, x);
    assert forall x :: EpsReachable(ts, S, x) ==> x in c by {
      forall x | EpsReachable(ts, S, x) ensures x in c {
        ReachableWithin(ts, S, x);
      }
    }
    c
  }

  /** The closure contains the states it starts from. */
  lemma ClosureContains(ts: seq<Transition>, S: set<int>)
    ensures S <= ClosureSet(ts, S)
  {
    forall x | x in S ensures EpsReachable(ts, S, x) {
      assert EpsPath(ts, [x]);
    }
  }

  /** One more ε-edge from the closure stays in the closure. */
  lemma ClosureStep(ts: seq<Transition>, S: set<int>, x: int, y: int)
    requires x in ClosureSet(ts, S) && Transition(x, y, None) in ts
    ensures y in ClosureSet(ts, S)
  {
    var p :| EpsPath(ts, p) && p[0] in S && p[|p| - 1] == x;
    var q := p + [y];
    assert forall i :: 0 <= i < |p| ==> q[i] == p[i];
    assert EpsPath(ts, q);
  }

  /** The closure is closed under ε-edges. */
  lemma ClosureClosed(ts: seq<Transition>, S: set<int>)
    ensures EpsClosed(ts, ClosureSet(ts, S))
  {
    forall t | t in ts && t.from in ClosureSet(ts, S) && t.symbol == None
      ensures t.to in ClosureSet(ts, S)
    {
      assert t == Transition(t.from, t.to, None);
      ClosureStep(ts, S, t.from, t.to);
    }
  }

  /** A walk along ε-edges that starts in an ε-closed set stays in it. */
  lemma {:induction false} PathStaysIn(ts: seq<Transition>, K: set<int>, p: seq<int>)
    requires EpsClosed(ts, K) && EpsPath(ts, p) && p[0] in K
    ensures p[|p| - 1] in K
  {
    if |p| > 1 {
      var q := p[..|p| - 1];
      assert EpsPath(ts, q) by {
        assert forall i :: 0 <= i < |q| ==> q[i] == p[i];
      }
      PathStaysIn(ts, K, q);
      assert Transition(p[|p| - 2], p[|p| - 1], None) in ts;
    }
  }

  /** The closure is the least ε-closed set containing S. */
  lemma ClosureLeast(ts: seq<Transition>, S: set<int>, K: set<int>)
    requires S <= K && EpsClosed(ts, K)
    ensures ClosureSet(ts, S) <= K
  {
    forall x | x in ClosureSet(ts, S) ensures x in K {
      var p :| EpsPath(ts, p) && p[0] in S && p[|p| - 1] == x;
      PathStaysIn(ts, K, p);
    }
  }

  /** Taking the closure twice gives the closure. */
  lemma ClosureIdempotent(ts: seq<Transition>, S: set<int>)
    ensures ClosureSet(ts, ClosureSet(ts, S)) == ClosureSet(ts, S)
  {
    var c := ClosureSet(ts, S);
    ClosureContains(ts, c);
    ClosureClosed(ts, S);
    ClosureLeast(ts, c, c);
  }

  /** A larger start set has a larger closure. */
  lemma ClosureMonotone(ts: seq<Transition>, S: set<int>, T: set<int>)
    requires S <= T
    ensures ClosureSet(ts, S) <= ClosureSet(ts, T)
  {
    ClosureContains(ts, T);
    ClosureClosed(ts, T);
    ClosureLeast(ts, S, ClosureSet(ts, T));
  }

  // ---------------------------------------------------------------------
  // epsilon_closure
  // ---------------------------------------------------------------------

  /** Every ε-edge leaving x ends in K. */
  ghost predicate SuccessorsIn(ts: seq<Transition>, x: int, K: set<int>) {
    forall t :: t in ts && t.from == x && t.symbol == None ==> t.to in K
  }

  /** The targets of the ε-edges leaving x. */
  ghost function EpsSuccessors(ts: seq<Transition>, x: int): set<int> {
    set t | t in ts && t.from == x && t.symbol == None :: t.to
  }

  /** The ε-successors of a state of the closure are in the closure. */
  lemma ClosureSuccessors(ts: seq<Transition>, S: set<int>, x: int)
    requires x in ClosureSet(ts, S)
    ensures EpsSuccessors(ts, x) <= ClosureSet(ts, S)
  {
    ClosureClosed(ts, S);
  }

  /**
    One pass of the inner loop of epsilon_closure over the transitions:
    every ε-successor of `state` not yet found is added to the found set
    and pushed on the stack.
  */
  method Expand(ts: seq<Transition>, state: int, closure: set<int>, stack: seq<int>)
    returns (closure': set<int>, stack': seq<int>)
    ensures closure' == closure + EpsSuccessors(ts, state)
    ensures forall x :: x in stack' <==> x in stack || x in closure' - closure
    ensures closure' == closure ==> stack' == stack
  {
    closure', stack' := closure, stack;
    for j := 0 to |ts|
      invariant closure' == closure + set t | t in ts[..j] && t.from == state && t.symbol == None :: t.to
      invariant forall x :: x in stack' <==> x in stack || x in closure' - closure
      invariant closure' == closure ==> stack' == stack
    {
      assert ts[..j + 1] == ts[..j] + [ts[j]];
      var t := ts[j];
      if t.from == state && t.symbol == None {
        var newState := t.to;
        if newState !in closure' {
          closure' := closure' + {newState};
          stack' := stack' + [newState];
        }
      }
    }
    assert ts[..|ts|] == ts;
  }

  /**
    The invariant of the epsilon_closure loop: the found states lie between
    S and its closure, every stacked state has been found, and every found
    state no longer on the stack has all its ε-successors found.
  */
  ghost predicate ClosureInvariant(ts: seq<Transition>, S: set<int>, closure: set<int>, stack: seq<int>) {
    && S <= closure <= ClosureSet(ts, S)
    && (forall x :: x in stack ==> x in closure)
    && (forall x :: x in closure && x !in stack ==> SuccessorsIn(ts, x, closure))
  }

  /** Popping `state` and expanding it keeps the invariant, and either finds a state or shortens the stack. */
  lemma ExpandKeepsInvariant(ts: seq<Transition>, S: set<int>, state: int,
                             closure0: set<int>, rest: seq<int>, closure: set<int>, stack: seq<int>)
    requires ClosureInvariant(ts, S, closure0, rest + [state])
    requires closure == closure0 + EpsSuccessors(ts, state)
    requires forall x :: x in stack <==> x in rest || x in closure - closure0
    ensures ClosureInvariant(ts, S, closure, stack)
    ensures closure0 <= S + Targets(ts) ==> closure <= S + Targets(ts)
  {
    assert state in rest + [state];
    ClosureSuccessors(ts, S, state);
    forall x | x in closure && x !in stack ensures SuccessorsIn(ts, x, closure) {
      if x != state {
        assert x in closure0 && x !in rest + [state];
      }
    }
    assert EpsSuccessors(ts, state) <= Targets(ts);
  }

  /**
    epsilon_closure: a stack of states still to expand and the set of states
    found so far; popping a state adds every ε-successor not yet found. The
    result lists the closure in ascending order. (The source's first
    parameter, the list of all states, is unused and not modelled.)
  */
  method EpsilonClosure(ts: seq<Transition>, current: seq<int>) returns (r: seq<int>)
    ensures StrictlyIncreasing(r)
    ensures Elems(r) == ClosureSet(ts, Elems(current))
  {
    ghost var S := Elems(current);
    ghost var U := S + Targets(ts);
    ClosureContains(ts, S);
    var closure := Elems(current);
    var stack := current;
    while stack != []
      invariant ClosureInvariant(ts, S, closure, stack)
      invariant closure <= U
      decreases U - closure, |stack|
    {
      var state := stack[|stack| - 1];
      ghost var closure0, full := closure, stack;
      stack := stack[..|stack| - 1];
      assert full == stack + [state];
      ghost var rest := stack;
      closure, stack := Expand(ts, state, closure, stack);
      ExpandKeepsInvariant(ts, S, state, closure0, rest, closure, stack);
      assert closure != closure0 ==> U - closure < U - closure0;
    }
    ClosureLeast(ts, S, closure);
    r := SortedList(closure, current + TargetList(ts));
  }

  // ---------------------------------------------------------------------
  // move
  // ---------------------------------------------------------------------

  /** The targets of the edges labelled `symbol` that leave S. */
  ghost function MoveSet(ts: seq<Transition>, S: set<int>, symbol: Label): set<int> {
    set t | t in ts && t.from in S && t.symbol == symbol :: t.to
  }

  /**
    move: for each current state, every transition from it with the given
    symbol contributes its target. (The unused list of all states is not
    modelled.)
  */
  method Move(ts: seq<Transition>, current: seq<int>, symbol: Label) returns (r: seq<int>)
    ensures StrictlyIncreasing(r)
    ensures Elems(r) == MoveSet(ts, Elems(current), symbol)
  {
    var moved: set<int> := {};
    for i := 0 to |current|
      invariant moved == MoveSet(ts, Elems(current[..i]), symbol)
    {
      var state := current[i];
      ghost var before := moved;
      for j := 0 to |ts|
        invariant moved == before + set t | t in ts[..j] && t.from == state && t.symbol == symbol :: t.to
      {
        assert ts[..j + 1] == ts[..j] + [ts[j]];
        if ts[j].from == state && ts[j].symbol == symbol {
          moved := moved + {ts[j].to};
        }
      }
      assert ts[..|ts|] == ts;
      assert Elems(current[..i + 1]) == Elems(current[..i]) + {state} by {
        assert current[..i + 1] == current[..i] + [state];
      }
    }
    assert current[..|current|] == current;
    r := SortedList(moved, TargetList(ts));
  }


  /** A move under a character follows only edges labelled with it: dropping every ε-edge leaves it unchanged. */
  lemma MoveIgnoresEpsilon(ts: seq<Transition>, S: set<int>, c: char)
    ensures MoveSet(ts, S, Some(c)) == MoveSet(LabelledOnly(ts), S, Some(c))
  {
    forall x | x in MoveSet(ts, S, Some(c)) ensures x in MoveSet(LabelledOnly(ts), S, Some(c)) {
      var t :| t in ts && t.from in S && t.symbol == Some(c) && t.to == x;
      assert t in LabelledOnly(ts);
    }
  }

  /** The transitions that carry a character. */
  function LabelledOnly(ts: seq<Transition>): (r: seq<Transition>)
    ensures forall t :: t in r <==> t in ts && t.symbol.Some?
  {
    if ts == [] then []
    else
      var rest := LabelledOnly(ts[1..]);
      assert forall t :: t in ts <==> t == ts[0] || t in ts[1..];
      if ts[0].symbol.Some? then [ts[0]] + rest else rest
  }

  // ---------------------------------------------------------------------
  // convert_afnd_to_afd
  // ---------------------------------------------------------------------

  /** The alphabet the conversion considers, in the order it tries the symbols. */
  const Alphabet: seq<char> := ['a', 'b']

  /** A DFA state is the ascending list of the NFA states it stands for. */
  datatype DfaTransition = DfaTransition(from: seq<int>, to: seq<int>, symbol: char)

  datatype Dfa = Dfa(states: seq<seq<int>>, initial: seq<int>, finals: seq<seq<int>>, transitions: seq<DfaTransition>)

  /** The NFA states the DFA moves to from q on c: the ε-closure of the move. */
  ghost function Successor(ts: seq<Transition>, q: seq<int>, c: char): set<int> {
    ClosureSet(ts, MoveSet(ts, Elems(q), Some(c)))
  }

  /** `any(s in state for s in final_states)` */
  predicate ContainsFinal(q: seq<int>, finals: seq<int>) {
    exists f :: f in finals && f in q
  }

  /** The NFA states any DFA state can contain. */
  ghost function Universe(ts: seq<Transition>, initial: int): set<int> {
    {initial} + Targets(ts)
  }

  lemma SuccessorWithin(ts: seq<Transition>, q: seq<int>, c: char)
    ensures Successor(ts, q, c) <= Targets(ts)
  {
    var m := MoveSet(ts, Elems(q), Some(c));
    assert m <= Targets(ts);
    forall x | x in Successor(ts, q, c) ensures x in Targets(ts) {
      ReachableWithin(ts, m, x);
    }
  }

  lemma InitialWithin(ts: seq<Transition>, initial: int)
    ensures ClosureSet(ts, {initial}) <= Universe(ts, initial)
  {
    forall x | x in ClosureSet(ts, {initial}) ensures x in Universe(ts, initial) {
      ReachableWithin(ts, {initial}, x);
    }
  }

  /** The position of a symbol in the alphabet. */
  function SymbolIndex(c: char): int {
    if c == 'a' then 0 else 1
  }

  /**
    The loop handles the pairs (DFA state i, symbol c) in the order of i,
    then of c; the pair (i, c) is handled once d pairs are.
  */
  predicate Done(d: int, i: int, c: char) {
    2 * i + SymbolIndex(c) < d
  }

  /** The DFA states found so far: the closure of the initial state first, all canonical, distinct and inside the universe. */
  ghost predicate StatesInvariant(ts: seq<Transition>, initial: int, states: seq<seq<int>>) {
    && |states| > 0
    && Elems(states[0]) == ClosureSet(ts, {initial})
    && (forall i :: 0 <= i < |states| ==> StrictlyIncreasing(states[i]) && Elems(states[i]) <= Universe(ts, initial))
    && (forall i, i' :: 0 <= i < i' < |states| ==> states[i] != states[i'])
  }

  /** A DFA transition as the conversion emits it. */
  ghost predicate ValidEdge(ts: seq<Transition>, states: seq<seq<int>>, t: DfaTransition) {
    && t.from in states && t.to in states
    && t.symbol in Alphabet
    && t.to != []
    && Elems(t.to) == Successor(ts, t.from, t.symbol)
  }

  ghost predicate EdgesValid(ts: seq<Transition>, states: seq<seq<int>>, trans: seq<DfaTransition>) {
    forall t :: t in trans ==> ValidEdge(ts, states, t)
  }

  /** Each transition leaves a found state by a symbol whose pair is handled. */
  ghost predicate EdgesDone(states: seq<seq<int>>, trans: seq<DfaTransition>, d: int) {
    forall n, i :: 0 <= n < |trans| && 0 <= i < |states| && states[i] == trans[n].from ==> Done(d, i, trans[n].symbol)
  }

  /** At most one transition per (state, symbol). */
  predicate Deterministic(trans: seq<DfaTransition>) {
    forall n, m :: 0 <= n < m < |trans| ==> trans[n].from != trans[m].from || trans[n].symbol != trans[m].symbol
  }

  predicate HasEdge(trans: seq<DfaTransition>, q: seq<int>, c: char) {
    exists t :: t in trans && t.from == q && t.symbol == c
  }

  /** Every handled pair with a non-empty successor has its transition. */
  ghost predicate Complete(ts: seq<Transition>, states: seq<seq<int>>, trans: seq<DfaTransition>, d: int) {
    forall i, c :: 0 <= i < |states| && c in Alphabet && Done(d, i, c) && Successor(ts, states[i], c) != {} ==>
      HasEdge(trans, states[i], c)
  }

  /** The set of NFA-state sets the DFA states found so far stand for. */
  ghost function Discovered(states: seq<seq<int>>): set<set<int>> {
    set i | 0 <= i < |states| :: Elems(states[i])
  }

  ghost function PowerSet(u: set<int>): set<set<int>> {
    set x: set<int> | x <= u
  }

  /** Every invariant of the conversion loop at once, once d pairs are handled. */
  ghost predicate Invariant(ts: seq<Transition>, initial: int, states: seq<seq<int>>, trans: seq<DfaTransition>, d: int) {
    && StatesInvariant(ts, initial, states)
    && EdgesValid(ts, states, trans)
    && EdgesDone(states, trans, d)
    && Deterministic(trans)
    && Complete(ts, states, trans, d)
  }

  lemma InvariantInit(ts: seq<Transition>, initial: int, init: seq<int>)
    requires StrictlyIncreasing(init) && Elems(init) == ClosureSet(ts, {initial})
    ensures Invariant(ts, initial, [init], [], 0)
  {
    InitialWithin(ts, initial);
  }

  /** Handling one more pair keeps every transition's pair handled. */
  lemma EdgesDoneStep(states: seq<seq<int>>, trans: seq<DfaTransition>, d: int)
    requires EdgesDone(states, trans, d)
    ensures EdgesDone(states, trans, d + 1)
  {
  }

  /** The pair handled without a transition is one whose successor is empty. */
  lemma CompleteSkip(ts: seq<Transition>, states: seq<seq<int>>, trans: seq<DfaTransition>, k: int, j: int)
    requires 1 <= k <= |states| && 0 <= j < |Alphabet|
    requires Complete(ts, states, trans, 2 * (k - 1) + j)
    requires Successor(ts, states[k - 1], Alphabet[j]) == {}
    ensures Complete(ts, states, trans, 2 * (k - 1) + j + 1)
  {
    var d := 2 * (k - 1) + j;
    forall i, c | 0 <= i < |states| && c in Alphabet && Done(d + 1, i, c) && Successor(ts, states[i], c) != {}
      ensures HasEdge(trans, states[i], c)
    {
      assert Done(d, i, c);
    }
  }

  /** A symbol with an empty successor adds no transition. */
  lemma InvariantSkip(ts: seq<Transition>, initial: int, states: seq<seq<int>>, trans: seq<DfaTransition>,
                      k: int, j: int, d: int)
    requires 1 <= k <= |states| && 0 <= j < |Alphabet| && d == 2 * (k - 1) + j
    requires Invariant(ts, initial, states, trans, d)
    requires Successor(ts, states[k - 1], Alphabet[j]) == {}
    ensures Invariant(ts, initial, states, trans, d + 1)
  {
    EdgesDoneStep(states, trans, d);
    CompleteSkip(ts, states, trans, k, j);
  }

  /** Adding a state that is new keeps the states canonical and distinct. */
  lemma StatesGrow(ts: seq<Transition>, initial: int, states: seq<seq<int>>, next: seq<int>)
    requires StatesInvariant(ts, initial, states)
    requires StrictlyIncreasing(next) && Elems(next) <= Universe(ts, initial) && next !in states
    ensures StatesInvariant(ts, initial, states + [next])
  {
    var s' := states + [next];
    forall i, i' | 0 <= i < i' < |s'| ensures s'[i] != s'[i'] {
      if i' == |states| { assert s'[i] == states[i]; }
    }
  }

  /**
    A longer list of states that extends the old one stands for more
    NFA-state sets, all of them subsets of the universe: the measure that
    bounds the conversion loop.
  */
  lemma DiscoveredGrows(ts: seq<Transition>, initial: int, states0: seq<seq<int>>, states: seq<seq<int>>)
    requires StatesInvariant(ts, initial, states)
    requires states0 < states
    ensures PowerSet(Universe(ts, initial)) - Discovered(states) < PowerSet(Universe(ts, initial)) - Discovered(states0)
  {
    var u := Universe(ts, initial);
    var next := states[|states0|];
    assert Elems(next) !in Discovered(states0) by {
      if Elems(next) in Discovered(states0) {
        var i :| 0 <= i < |states0| && Elems(states0[i]) == Elems(next);
        assert states0[i] == states[i];
        CanonicalUnique(states[i], next);
        assert false;
      }
    }
    assert Elems(next) in Discovered(states);
    assert Discovered(states0) <= Discovered(states) by {
      forall x | x in Discovered(states0) ensures x in Discovered(states) {
        var i :| 0 <= i < |states0| && Elems(states0[i]) == x;
        assert states[i] == states0[i];
      }
    }
    assert Elems(next) in PowerSet(u);
  }

  /** The transition (states[k-1], next, Alphabet[j]) keeps the edge invariants, in the grown state list. */
  lemma EdgeAdded(ts: seq<Transition>, states: seq<seq<int>>, states': seq<seq<int>>, trans: seq<DfaTransition>,
                  k: int, j: int, next: seq<int>)
    requires 1 <= k <= |states| <= |states'| && 0 <= j < |Alphabet|
    requires states'[..|states|] == states && next in states'
    requires forall i, i' :: 0 <= i < i' < |states'| ==> states'[i] != states'[i']
    requires EdgesValid(ts, states, trans) && EdgesDone(states, trans, 2 * (k - 1) + j) && Deterministic(trans)
    requires next != [] && Elems(next) == Successor(ts, states[k - 1], Alphabet[j])
    ensures EdgesValid(ts, states', trans + [DfaTransition(states[k - 1], next, Alphabet[j])])
    ensures EdgesDone(states', trans + [DfaTransition(states[k - 1], next, Alphabet[j])], 2 * (k - 1) + j + 1)
    ensures Deterministic(trans + [DfaTransition(states[k - 1], next, Alphabet[j])])
  {
    var d := 2 * (k - 1) + j;
    var e := DfaTransition(states[k - 1], next, Alphabet[j]);
    var t' := trans + [e];
    assert forall i :: 0 <= i < |states| ==> states'[i] == states[i];
    forall q | q in states ensures q in states' {
      var i :| 0 <= i < |states| && states[i] == q;
      assert states'[i] == q;
    }
    forall n, i | 0 <= n < |t'| && 0 <= i < |states'| && states'[i] == t'[n].from
      ensures Done(d + 1, i, t'[n].symbol)
    {
      if n == |trans| {
        assert states'[k - 1] == t'[n].from;
      } else {
        assert t'[n] == trans[n] && trans[n] in trans;
        var i0 :| 0 <= i0 < |states| && states[i0] == trans[n].from;
        assert states'[i0] == states'[i];
      }
    }
    forall n, m | 0 <= n < m < |t'| ensures t'[n].from != t'[m].from || t'[n].symbol != t'[m].symbol {
      if m == |trans| {
        var t := trans[n];
        assert t in trans;
        if t.from == e.from {
          assert Done(d, k - 1, t.symbol);
          assert t.symbol in Alphabet;
        }
      } else {
        assert t'[n] == trans[n] && t'[m] == trans[m];
      }
    }
  }

  /** The new transition completes the pair (k-1, j). */
  lemma EdgeCompletes(ts: seq<Transition>, states: seq<seq<int>>, states': seq<seq<int>>, trans: seq<DfaTransition>,
                      k: int, j: int, next: seq<int>)
    requires 1 <= k <= |states| && 0 <= j < |Alphabet|
    requires states' == states || states' == states + [next]
    requires Complete(ts, states, trans, 2 * (k - 1) + j)
    ensures Complete(ts, states', trans + [DfaTransition(states[k - 1], next, Alphabet[j])], 2 * (k - 1) + j + 1)
  {
    var d := 2 * (k - 1) + j;
    var e := DfaTransition(states[k - 1], next, Alphabet[j]);
    var t' := trans + [e];
    forall i, c | 0 <= i < |states'| && c in Alphabet && Done(d + 1, i, c) && Successor(ts, states'[i], c) != {}
      ensures HasEdge(t', states'[i], c)
    {
      if Done(d, i, c) {
        assert i < |states| && states'[i] == states[i];
        var t :| t in trans && t.from == states[i] && t.symbol == c;
        assert t in t';
      } else {
        assert i == k - 1 && c == Alphabet[j];
        assert states'[i] == states[i];
        assert e in t';
      }
    }
  }

  /** A symbol with a non-empty successor next adds the transition, and next itself when it is new. */
  lemma InvariantEdge(ts: seq<Transition>, initial: int, states: seq<seq<int>>, trans: seq<DfaTransition>,
                      k: int, j: int, d: int, next: seq<int>, states': seq<seq<int>>)
    requires 1 <= k <= |states| && 0 <= j < |Alphabet| && d == 2 * (k - 1) + j
    requires Invariant(ts, initial, states, trans, d)
    requires StrictlyIncreasing(next) && next != [] && Elems(next) == Successor(ts, states[k - 1], Alphabet[j])
    requires (next in states && states' == states) || (next !in states && states' == states + [next])
    ensures Invariant(ts, initial, states', trans + [DfaTransition(states[k - 1], next, Alphabet[j])], d + 1)
  {
    SuccessorWithin(ts, states[k - 1], Alphabet[j]);
    if next !in states {
      StatesGrow(ts, initial, states, next);
      assert states'[|states|] == next;
    }
    assert states'[..|states|] == states;
    EdgeAdded(ts, states, states', trans, k, j, next);
    EdgeCompletes(ts, states, states', trans, k, j, next);
  }

  /** Once every state is dequeued, every pair (state, symbol) is handled. */
  lemma InvariantDone(ts: seq<Transition>, initial: int, states: seq<seq<int>>, trans: seq<DfaTransition>)
    requires Invariant(ts, initial, states, trans, 2 * |states|)
    ensures forall q, c :: q in states && c in Alphabet && Successor(ts, q, c) != {} ==> HasEdge(trans, q, c)
  {
    forall q, c | q in states && c in Alphabet && Successor(ts, q, c) != {} ensures HasEdge(trans, q, c) {
      var i :| 0 <= i < |states| && states[i] == q;
      assert Done(2 * |states|, i, c);
    }
  }

  /**
    How each found state after the first was found: transition parent[i]
    leaves the earlier found state src[i] and enters it. The conversion only
    appends a state as the target of the transition it emits.
  */
  ghost predicate Discovery(states: seq<seq<int>>, trans: seq<DfaTransition>, parent: seq<int>, src: seq<int>) {
    && |parent| == |states| && |src| == |states|
    && forall i {:trigger parent[i]} :: 0 < i < |states| ==>
         && 0 <= parent[i] < |trans| && 0 <= src[i] < i
         && trans[parent[i]].from == states[src[i]] && trans[parent[i]].to == states[i]
  }

  /** Found state i is entered by some transition from a state found before it. */
  ghost predicate EnteredFromEarlier(states: seq<seq<int>>, trans: seq<DfaTransition>, i: int)
    requires 0 <= i < |states|
  {
    exists n, m :: 0 <= n < |trans| && 0 <= m < i && trans[n].from == states[m] && trans[n].to == states[i]
  }

  /** A transition to a state already found changes how no state was found. */
  lemma DiscoveryKeep(states: seq<seq<int>>, trans: seq<DfaTransition>, e: DfaTransition, parent: seq<int>, src: seq<int>)
    requires Discovery(states, trans, parent, src)
    ensures Discovery(states, trans + [e], parent, src)
  {
    var trans' := trans + [e];
    forall i | 0 < i < |states| ensures trans'[parent[i]] == trans[parent[i]] { }
  }

  /** A new state is found by the transition emitted with it, from the state being visited. */
  lemma DiscoveryGrow(states: seq<seq<int>>, trans: seq<DfaTransition>, k: int, next: seq<int>, c: char,
                      parent: seq<int>, src: seq<int>)
    requires 1 <= k <= |states| && Discovery(states, trans, parent, src)
    ensures Discovery(states + [next], trans + [DfaTransition(states[k - 1], next, c)], parent + [|trans|], src + [k - 1])
  {
    var states', trans' := states + [next], trans + [DfaTransition(states[k - 1], next, c)];
    var parent', src' := parent + [|trans|], src + [k - 1];
    forall i | 0 < i < |states'|
      ensures 0 <= parent'[i] < |trans'| && 0 <= src'[i] < i
      ensures trans'[parent'[i]].from == states'[src'[i]] && trans'[parent'[i]].to == states'[i]
    {
      if i < |states| {
        assert parent'[i] == parent[i] && src'[i] == src[i];
        assert trans'[parent[i]] == trans[parent[i]];
        assert states'[src[i]] == states[src[i]] && states'[i] == states[i];
      } else {
        assert trans'[|trans|] == DfaTransition(states[k - 1], next, c);
        assert states'[k - 1] == states[k - 1];
      }
    }
  }

  /**
    The DFA final states: each found state, in order, that contains an NFA
    final state.
  */
  method MarkFinals(states: seq<seq<int>>, finals: seq<int>) returns (r: seq<seq<int>>)
    ensures forall q :: q in r <==> q in states && ContainsFinal(q, finals)
  {
    r := [];
    for i := 0 to |states|
      invariant forall q :: q in r <==> q in states[..i] && ContainsFinal(q, finals)
    {
      assert states[..i + 1] == states[..i] + [states[i]];
      if ContainsFinal(states[i], finals) {
        r := r + [states[i]];
      }
    }
    assert states[..|states|] == states;
  }

  /**
    The body of the inner loop of convert_afnd_to_afd for the j-th symbol,
    with `current` the k-th found state: the ε-closure of the move under the
    symbol, if non-empty, gets a transition and is appended to the found
    states and the queue when it is new.
  */
  method VisitSymbol(ts: seq<Transition>, ghost initial: int, ghost k: int, j: int, ghost d: int, current: seq<int>,
                     states: seq<seq<int>>, queue: seq<seq<int>>, trans: seq<DfaTransition>,
                     ghost parent: seq<int>, ghost src: seq<int>)
    returns (states': seq<seq<int>>, queue': seq<seq<int>>, trans': seq<DfaTransition>,
             ghost parent': seq<int>, ghost src': seq<int>)
    requires 1 <= k <= |states| && 0 <= j < |Alphabet| && queue == states[k..] && current == states[k - 1]
    requires d == 2 * (k - 1) + j && Invariant(ts, initial, states, trans, d)
    requires Discovery(states, trans, parent, src)
    ensures states <= states' && queue' == states'[k..]
    ensures Invariant(ts, initial, states', trans', d + 1)
    ensures Discovery(states', trans', parent', src')
  {
    var symbol := Alphabet[j];
    var moved := Move(ts, current, Some(symbol));
    var next := EpsilonClosure(ts, moved);
    assert Elems(next) == Successor(ts, current, symbol);
    states', queue', trans' := states, queue, trans;
    parent', src' := parent, src;
    if next != [] {
      if next !in states {
        queue' := queue + [next];
        states' := states + [next];
        DiscoveryGrow(states, trans, k, next, symbol, parent, src);
        parent', src' := parent + [|trans|], src + [k - 1];
      } else {
        DiscoveryKeep(states, trans, DfaTransition(current, next, symbol), parent, src);
      }
      InvariantEdge(ts, initial, states, trans, k, j, d, next, states');
      trans' := trans + [DfaTransition(current, next, symbol)];
    } else {
      InvariantSkip(ts, initial, states, trans, k, j, d);
    }
  }

  /**
    One pass of the outer loop of convert_afnd_to_afd, after the k-th found
    state `current` is dequeued: every symbol of the alphabet, in order.
  */
  method VisitState(ts: seq<Transition>, ghost initial: int, ghost k: int, current: seq<int>,
                    states: seq<seq<int>>, queue: seq<seq<int>>, trans: seq<DfaTransition>,
                    ghost parent: seq<int>, ghost src: seq<int>)
    returns (states': seq<seq<int>>, queue': seq<seq<int>>, trans': seq<DfaTransition>,
             ghost parent': seq<int>, ghost src': seq<int>)
    requires 1 <= k <= |states| && queue == states[k..] && current == states[k - 1]
    requires Invariant(ts, initial, states, trans, 2 * (k - 1))
    requires Discovery(states, trans, parent, src)
    ensures states <= states' && queue' == states'[k..]
    ensures Invariant(ts, initial, states', trans', 2 * k)
    ensures Discovery(states', trans', parent', src')
  {
    states', queue', trans' := states, queue, trans;
    parent', src' := parent, src;
    ghost var d := 2 * (k - 1);
    for j := 0 to |Alphabet|
      invariant states <= states' && queue' == states'[k..] && current == states'[k - 1]
      invariant d == 2 * (k - 1) + j && Invariant(ts, initial, states', trans', d)
      invariant Discovery(states', trans', parent', src')
    {
      states', queue', trans', parent', src' :=
        VisitSymbol(ts, initial, k, j, d, current, states', queue', trans', parent', src');
      d := d + 1;
    }
  }

  /**
    convert_afnd_to_afd: a FIFO queue of DFA states still to expand, started
    with the ε-closure of the initial state. Each dequeued state Q gets, for
    each of the symbols a and b with a non-empty successor N, the transition
    (Q, symbol, N); N is enqueued the first time it is found. The queue is
    always the suffix of the found states not yet dequeued. (The source's
    first parameter, the list of all NFA states, is unused and not
    modelled.)
  */
  method Convert(ts: seq<Transition>, initial: int, finals: seq<int>) returns (dfa: Dfa)
    ensures |dfa.states| > 0 && dfa.initial == dfa.states[0]
    ensures StrictlyIncreasing(dfa.initial) && Elems(dfa.initial) == ClosureSet(ts, {initial})
    ensures forall i :: 0 <= i < |dfa.states| ==> StrictlyIncreasing(dfa.states[i])
    ensures forall i, i' :: 0 <= i < i' < |dfa.states| ==> dfa.states[i] != dfa.states[i']
    ensures forall t :: t in dfa.transitions ==> ValidEdge(ts, dfa.states, t)
    ensures Deterministic(dfa.transitions)
    ensures forall q, c :: q in dfa.states && c in Alphabet && Successor(ts, q, c) != {} ==> HasEdge(dfa.transitions, q, c)
    ensures forall q :: q in dfa.finals <==> q in dfa.states && ContainsFinal(q, finals)
    ensures forall i :: 0 <= i < |dfa.states| ==> Elems(dfa.states[i]) <= Universe(ts, initial)
    ensures forall i :: 0 < i < |dfa.states| ==> EnteredFromEarlier(dfa.states, dfa.transitions, i)
  {
    ghost var u := Universe(ts, initial);
    var init := EpsilonClosure(ts, [initial]);
    assert Elems([initial]) == {initial};
    var queue := [init];
    var states := [init];
    var trans: seq<DfaTransition> := [];
    ghost var k := 0;
    ghost var parent, src := [0], [0];
    InvariantInit(ts, initial, init);
    while queue != []
      invariant 0 <= k <= |states| && queue == states[k..]
      invariant Invariant(ts, initial, states, trans, 2 * k)
      invariant Discovery(states, trans, parent, src)
      decreases PowerSet(u) - Discovered(states), |queue|
    {
      ghost var states0 := states;
      var current := queue[0];
      queue := queue[1..];
      k := k + 1;
      states, queue, trans, parent, src := VisitState(ts, initial, k, current, states, queue, trans, parent, src);
      if |states| > |states0| {
        DiscoveredGrows(ts, initial, states0, states);
      }
    }
    InvariantDone(ts, initial, states, trans);
    var dfaFinals := MarkFinals(states, finals);
    dfa := Dfa(states, states[0], dfaFinals, trans);
    forall i | 0 < i < |states| ensures EnteredFromEarlier(states, trans, i) {
      assert trans[parent[i]].from == states[src[i]] && trans[parent[i]].to == states[i];
    }
  }
}
