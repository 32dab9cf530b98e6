/**
  The automaton model shared by the three stages: integer states, transitions
  labelled by a character or by ε, and the record
  { states, initial_state, final_states, transitions } that the builders
  exchange. It also holds the two list operations the stages rely on:
  Python's `max` and the canonical (ascending, duplicate-free) form of a list
  of states.
*/
module Automaton {
  import opened Wrappers

  /** A transition label: Some(c) for the character c, None for ε. */
  type Label = Option<char>

  datatype Transition = Transition(from: int, to: int, symbol: Label)

  /** An NFA fragment as the builders produce it (lists, in the source's order). */
  datatype Nfa = Nfa(states: seq<int>, initial: int, finals: seq<int>, transitions: seq<Transition>)

  function Elems(xs: seq<int>): set<int> {
    set x | x in xs
  }

  predicate StrictlyIncreasing(xs: seq<int>) {
    forall i, j :: 0 <= i < j < |xs| ==> xs[i] < xs[j]
  }

  /** The structural invariant of an automaton: every state it names is declared. */
  ghost predicate WellFormed(n: Nfa) {
    && n.initial in n.states
    && (forall f :: f in n.finals ==> f in n.states)
    && (forall t :: t in n.transitions ==> t.from in n.states && t.to in n.states)
  }

  /** States are non-negative identifiers. */
  ghost predicate NonNegative(n: Nfa) {
    forall s :: s in n.states ==> s >= 0
  }

  /** Python's `max` on a non-empty list. */
  function Max(xs: seq<int>): int
    requires |xs| > 0
  {
    if |xs| == 1 then xs[0]
    else
      var m := Max(xs[1..]);
      if xs[0] >= m then xs[0] else m
  }

  /** Max returns an element of the list that no element exceeds. */
  lemma {:induction false} MaxIsMaximum(xs: seq<int>)
    requires |xs| > 0
    ensures Max(xs) in xs
    ensures forall x :: x in xs ==> x <= Max(xs)
  {
    if |xs| > 1 {
      MaxIsMaximum(xs[1..]);
      assert forall x :: x in xs ==> x == xs[0] || x in xs[1..];
    }
  }

  /** Adds x to an ascending duplicate-free list, keeping it so. */
  function Insert(xs: seq<int>, x: int): (r: seq<int>)
    requires StrictlyIncreasing(xs)
    ensures StrictlyIncreasing(r)
    ensures Elems(r) == Elems(xs) + {x}
    ensures |r| > 0 && (r[0] == x || (|xs| > 0 && r[0] == xs[0]))
  {
    if xs == [] then [x]
    else if x < xs[0] then [x] + xs
    else if x == xs[0] then xs
    else
      var tail := Insert(xs[1..], x);
      InsertHead(xs, x, tail);
      [xs[0]] + tail
  }

  /** The step of Insert that keeps the head of the list. */
  lemma InsertHead(xs: seq<int>, x: int, tail: seq<int>)
    requires StrictlyIncreasing(xs) && |xs| > 0 && x > xs[0]
    requires StrictlyIncreasing(tail) && Elems(tail) == Elems(xs[1..]) + {x}
    ensures StrictlyIncreasing([xs[0]] + tail)
    ensures Elems([xs[0]] + tail) == Elems(xs) + {x}
  {
    assert xs == [xs[0]] + xs[1..];
    assert Elems(xs) == {xs[0]} + Elems(xs[1..]);
    assert Elems([xs[0]] + tail) == {xs[0]} + Elems(tail);
    forall i | 0 <= i < |tail| ensures tail[i] > xs[0] {
      assert tail[i] in Elems(tail);
    }
  }

  /**
    The canonical form of a list of states: ascending and without duplicates,
    with the same elements. This is how the model renders Python's
    `list(set(...))` and `sorted(list(...))`.
  */
  function Canonical(xs: seq<int>): (r: seq<int>)
    ensures StrictlyIncreasing(r)
    ensures Elems(r) == Elems(xs)
  {
    if xs == [] then []
    else
      var prefix := xs[..|xs| - 1];
      assert xs == prefix + [xs[|xs| - 1]];
      assert Elems(xs) == Elems(prefix) + {xs[|xs| - 1]};
      Insert(Canonical(prefix), xs[|xs| - 1])
  }

  /** Two canonical lists with the same elements are the same list. */
  lemma {:induction false} CanonicalUnique(a: seq<int>, b: seq<int>)
    requires StrictlyIncreasing(a) && StrictlyIncreasing(b)
    requires Elems(a) == Elems(b)
    ensures a == b
  {
    if a != [] { assert a[0] in Elems(a); }
    if b != [] { assert b[0] in Elems(b); }
    if a != [] && b != [] {
      assert a[0] in Elems(b) && b[0] in Elems(a);
      assert a[0] == b[0];
      assert Elems(a[1..]) == Elems(a) - {a[0]} by {
        assert forall x :: x in a[1..] ==> x > a[0];
        assert forall x :: x in a && x != a[0] ==> x in a[1..];
      }
      assert Elems(b[1..]) == Elems(b) - {b[0]} by {
        assert forall x :: x in b[1..] ==> x > b[0];
        assert forall x :: x in b && x != b[0] ==> x in b[1..];
      }
      CanonicalUnique(a[1..], b[1..]);
      assert a == [a[0]] + a[1..] && b == [b[0]] + b[1..];
    }
  }

  /**
    Python's `sorted(list(s))` for a set of states. The set is enumerated
    through a list known to contain all of its elements.
  */
  method SortedList(s: set<int>, candidates: seq<int>) returns (r: seq<int>)
    requires s <= Elems(candidates)
    ensures StrictlyIncreasing(r)
    ensures Elems(r) == s
  {
    r := [];
    for i := 0 to |candidates|
      invariant StrictlyIncreasing(r)
      invariant Elems(r) == s * Elems(candidates[..i])
    {
      assert candidates[..i + 1] == candidates[..i] + [candidates[i]];
      if candidates[i] in s {
        r := Insert(r, candidates[i]);
      }
    }
    assert candidates[..|candidates|] == candidates;
  }
}
