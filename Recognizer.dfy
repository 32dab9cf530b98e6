/**
  Recognition of a word by a deterministic automaton (afd_main.py, class
  AFD). The automaton's transitions are a dictionary from state to a
  dictionary from symbol to state; the walk starts in the initial state and
  follows one transition per symbol, recording the path.

  The verdict is a datatype instead of the source's Portuguese messages:
  the word is accepted with its path, or rejected because a symbol is not in
  the alphabet, because a state has no transition for a symbol, or because
  the walk ends in a state that is not final.
*/
module Recognizer {
  import opened Wrappers

  /** States are the strings of the automaton description. */
  type State = string

  /** `transitions[state][symbol]` */
  type Delta = map<State, map<char, State>>

  datatype Verdict =
    | Accepted(path: seq<State>)
    | UnknownSymbol(symbol: char)
    | MissingTransition(state: State, symbol: char)
    | NotFinal(path: seq<State>, state: State)

  /** A walk over a word either consumes all of it along a path or stops with a reason. */
  datatype Walk = Completed(path: seq<State>) | Blocked(reason: Verdict)

  /**
    One step from s on c: the symbol is checked against the alphabet first,
    then the transition is looked up.
  */
  function Step(alphabet: set<char>, delta: Delta, s: State, c: char): Result<State, Verdict> {
    if c !in alphabet then Err(UnknownSymbol(c))
    else if s !in delta || c !in delta[s] then Err(MissingTransition(s, c))
    else Ok(delta[s][c])
  }

  /** The walk from q over w: the path of the states visited, q first, or the reason it stops. */
  function WalkFrom(alphabet: set<char>, delta: Delta, q: State, w: string): (r: Walk)
    ensures r.Completed? ==> |r.path| == |w| + 1 && r.path[0] == q
    ensures r.Blocked? ==> r.reason.UnknownSymbol? || r.reason.MissingTransition?
    decreases |w|
  {
    if w == [] then Completed([q])
    else
      match Step(alphabet, delta, q, w[0])
      case Err(v) => Blocked(v)
      case Ok(next) =>
        match WalkFrom(alphabet, delta, next, w[1..])
        case Completed(p) => Completed([q] + p)
        case Blocked(v) => Blocked(v)
  }

  /** The verdict on w: a completed walk is accepted iff it ends in a final state. */
  function Recognition(alphabet: set<char>, finals: set<State>, delta: Delta, initial: State, w: string): Verdict {
    match WalkFrom(alphabet, delta, initial, w)
    case Blocked(v) => v
    case Completed(p) => if p[|p| - 1] in finals then Accepted(p) else NotFinal(p, p[|p| - 1])
  }

  /** The walk with `prefix` put in front of its path. */
  function Then(prefix: seq<State>, w: Walk): Walk {
    match w
    case Completed(p) => Completed(prefix + p)
    case Blocked(v) => Blocked(v)
  }

  // ---------------------------------------------------------------------
  // The class
  // ---------------------------------------------------------------------

  /**
    The automaton the recogniser runs. The fields are given to the
    constructor directly; reading them from a file is not part of this model.
  */
  class Afd {
    var states: set<State>
    var alphabet: set<char>
    var initial: State
    var finals: set<State>
    var transitions: Delta

    constructor (states: set<State>, alphabet: set<char>, initial: State, finals: set<State>, transitions: Delta)
      ensures this.states == states && this.alphabet == alphabet && this.initial == initial
      ensures this.finals == finals && this.transitions == transitions
    {
      this.states := states;
      this.alphabet := alphabet;
      this.initial := initial;
      this.finals := finals;
      this.transitions := transitions;
    }

    /**
      recognize_word: walk the word symbol by symbol, appending each state
      reached to the path, and stop at the first symbol outside the alphabet
      or without a transition. The method changes no field.
    */
    method Recognize(word: string) returns (r: Verdict)
      ensures r == Recognition(alphabet, finals, transitions, initial, word)
    {
      var current := initial;
      var path := [current];
      for i := 0 to |word|
        invariant |path| == i + 1 && path[i] == current
        invariant Then(path[..i], WalkFrom(alphabet, transitions, current, word[i..]))
          == WalkFrom(alphabet, transitions, initial, word)
      {
        var symbol := word[i];
        assert word[i..][0] == symbol && word[i..][1..] == word[i + 1..];
        if symbol !in alphabet {
          return UnknownSymbol(symbol);
        }
        if current !in transitions || symbol !in transitions[current] {
          return MissingTransition(current, symbol);
        }
        var next := transitions[current][symbol];
        ThenThen(path[..i], current, WalkFrom(alphabet, transitions, next, word[i + 1..]));
        current := next;
        path := path + [current];
        assert path[..i + 1] == path[..i] + [path[i]];
      }
      assert word[|word|..] == [];
      assert path[..|word|] + [current] == path;
      if current in finals {
        return Accepted(path);
      } else {
        return NotFinal(path, current);
      }
    }
  }

  lemma ThenThen(prefix: seq<State>, q: State, w: Walk)
    ensures Then(prefix, Then([q], w)) == Then(prefix + [q], w)
  {
    if w.Completed? {
      assert prefix + ([q] + w.path) == (prefix + [q]) + w.path;
    }
  }

  // ---------------------------------------------------------------------
  // What a walk is
  // ---------------------------------------------------------------------

  /** p is a path over w: one state more than symbols, each step a transition on the symbol. */
  predicate Linked(alphabet: set<char>, delta: Delta, w: string, p: seq<State>) {
    && |p| == |w| + 1
    && forall i :: 0 <= i < |w| ==> Step(alphabet, delta, p[i], w[i]) == Ok(p[i + 1])
  }

  /**
    The walk from q consumes all of w along p exactly when p starts at q and
    every consecutive pair of p is linked by a transition on the symbol
    between them, each symbol being in the alphabet.
  */
  lemma {:induction false} WalkCompleted(alphabet: set<char>, delta: Delta, q: State, w: string, p: seq<State>)
    ensures WalkFrom(alphabet, delta, q, w) == Completed(p) <==> |p| > 0 && p[0] == q && Linked(alphabet, delta, w, p)
    decreases |w|
  {
    if w != [] {
      if |p| > 1 {
        WalkCompleted(alphabet, delta, p[1], w[1..], p[1..]);
        assert Linked(alphabet, delta, w, p) <==>
          Step(alphabet, delta, p[0], w[0]) == Ok(p[1]) && Linked(alphabet, delta, w[1..], p[1..]) by {
          if Step(alphabet, delta, p[0], w[0]) == Ok(p[1]) && Linked(alphabet, delta, w[1..], p[1..]) {
            forall i | 0 < i < |w| ensures Step(alphabet, delta, p[i], w[i]) == Ok(p[i + 1]) {
              assert p[1..][i - 1] == p[i] && w[1..][i - 1] == w[i];
            }
          }
        }
        assert p == [p[0]] + p[1..];
      }
    }
  }

  /** A walk continued over v from the state where it ended; a blocked walk stays blocked. */
  function Resume(alphabet: set<char>, delta: Delta, w: Walk, v: string): Walk {
    match w
    case Blocked(r) => Blocked(r)
    case Completed(p) => if p == [] then w else Then(p[..|p| - 1], WalkFrom(alphabet, delta, p[|p| - 1], v))
  }

  lemma ResumeThen(alphabet: set<char>, delta: Delta, q: State, w: Walk, v: string)
    requires w.Completed? ==> w.path != []
    ensures Resume(alphabet, delta, Then([q], w), v) == Then([q], Resume(alphabet, delta, w, v))
  {
    if w.Completed? {
      var p := w.path;
      assert ([q] + p)[..|p|] == [q] + p[..|p| - 1];
      assert ([q] + p)[|p|] == p[|p| - 1];
      var x := WalkFrom(alphabet, delta, p[|p| - 1], v);
      if x.Completed? {
        assert [q] + (p[..|p| - 1] + x.path) == ([q] + p[..|p| - 1]) + x.path;
      }
    }
  }

  /** A walk over u followed by v: the walk over u, then from where it ends the walk over v. */
  lemma {:induction false} WalkAppend(alphabet: set<char>, delta: Delta, q: State, u: string, v: string)
    ensures WalkFrom(alphabet, delta, q, u + v) == Resume(alphabet, delta, WalkFrom(alphabet, delta, q, u), v)
    decreases |u|
  {
    if u == [] {
      assert u + v == v;
    } else {
      var w := u + v;
      assert w[0] == u[0] && w[1..] == u[1..] + v;
      match Step(alphabet, delta, q, u[0]) {
        case Err(_) =>
        case Ok(next) =>
          var rest := WalkFrom(alphabet, delta, next, u[1..]);
          WalkAppend(alphabet, delta, next, u[1..], v);
          ResumeThen(alphabet, delta, q, rest, v);
          assert WalkFrom(alphabet, delta, q, w) == Then([q], WalkFrom(alphabet, delta, next, u[1..] + v));
          assert WalkFrom(alphabet, delta, q, u) == Then([q], rest);
      }
    }
  }

  /** A walk that consumes a prefix of w and then fails a step stops there, with that step's reason. */
  lemma BlockedAfterPrefix(alphabet: set<char>, delta: Delta, q: State, w: string, i: int, p: seq<State>, v: Verdict)
    requires 0 <= i < |w| && WalkFrom(alphabet, delta, q, w[..i]) == Completed(p)
    requires Step(alphabet, delta, p[|p| - 1], w[i]) == Err(v)
    ensures WalkFrom(alphabet, delta, q, w) == Blocked(v)
  {
    assert w == w[..i] + w[i..];
    WalkAppend(alphabet, delta, q, w[..i], w[i..]);
    assert w[i..][0] == w[i];
  }

  /**
    The walk stops with reason v exactly when, for some position i, the first
    i symbols are consumed along some path and the step from its last state
    on symbol i fails with v.
  */
  lemma WalkBlocked(alphabet: set<char>, delta: Delta, q: State, w: string, v: Verdict)
    ensures WalkFrom(alphabet, delta, q, w) == Blocked(v) <==>
      exists i, p :: 0 <= i < |w| && WalkFrom(alphabet, delta, q, w[..i]) == Completed(p)
        && Step(alphabet, delta, p[|p| - 1], w[i]) == Err(v)
  {
    if WalkFrom(alphabet, delta, q, w) == Blocked(v) {
      var i := BlockedAt(alphabet, delta, q, w);
      var p := WalkFrom(alphabet, delta, q, w[..i]).path;
      assert WalkFrom(alphabet, delta, q, w[..i]) == Completed(p);
    }
    if exists i, p :: 0 <= i < |w| && WalkFrom(alphabet, delta, q, w[..i]) == Completed(p)
        && Step(alphabet, delta, p[|p| - 1], w[i]) == Err(v) {
      var i, p :| 0 <= i < |w| && WalkFrom(alphabet, delta, q, w[..i]) == Completed(p)
        && Step(alphabet, delta, p[|p| - 1], w[i]) == Err(v);
      BlockedAfterPrefix(alphabet, delta, q, w, i, p, v);
    }
  }

  /** The position at which a blocked walk stops. */
  lemma {:induction false} BlockedAt(alphabet: set<char>, delta: Delta, q: State, w: string) returns (i: int)
    requires WalkFrom(alphabet, delta, q, w).Blocked?
    ensures 0 <= i < |w| && WalkFrom(alphabet, delta, q, w[..i]).Completed?
    ensures Step(alphabet, delta, WalkFrom(alphabet, delta, q, w[..i]).path[i], w[i])
      == Err(WalkFrom(alphabet, delta, q, w).reason)
    decreases |w|
  {
    assert w[..0] == [];
    match Step(alphabet, delta, q, w[0]) {
      case Err(_) =>
        i := 0;
      case Ok(next) =>
        var j := BlockedAt(alphabet, delta, next, w[1..]);
        i := j + 1;
        assert w[..i][1..] == w[1..][..j] && w[..i][0] == w[0] && w[1..][j] == w[i];
        var p := WalkFrom(alphabet, delta, next, w[1..][..j]).path;
        assert WalkFrom(alphabet, delta, q, w[..i]).path == [q] + p;
    }
  }

  // ---------------------------------------------------------------------
  // The verdict
  // ---------------------------------------------------------------------

  /**
    A word is accepted, with path p, exactly when the walk consumes all of
    it along p and p ends in a final state; it is rejected as not final,
    reporting the last state, exactly when the walk consumes it and ends
    elsewhere.
  */
  lemma AcceptedIff(alphabet: set<char>, finals: set<State>, delta: Delta, initial: State, w: string, p: seq<State>)
    ensures Recognition(alphabet, finals, delta, initial, w) == Accepted(p) <==>
      WalkFrom(alphabet, delta, initial, w) == Completed(p) && p[|w|] in finals
    ensures forall s :: Recognition(alphabet, finals, delta, initial, w) == NotFinal(p, s) <==>
      WalkFrom(alphabet, delta, initial, w) == Completed(p) && s == p[|w|] && s !in finals
  {
  }

  /** Accepted paths and not-final paths are as long as the word plus one and linked by transitions. */
  lemma RecognitionPath(alphabet: set<char>, finals: set<State>, delta: Delta, initial: State, w: string)
    requires Recognition(alphabet, finals, delta, initial, w).Accepted?
      || Recognition(alphabet, finals, delta, initial, w).NotFinal?
    ensures var p := Recognition(alphabet, finals, delta, initial, w).path;
      p[0] == initial && Linked(alphabet, delta, w, p)
  {
    var p := Recognition(alphabet, finals, delta, initial, w).path;
    WalkCompleted(alphabet, delta, initial, w, p);
  }

  /**
    The first symbol outside the alphabet rejects the word, even when the
    current state also lacks a transition for it: the alphabet is checked
    first.
  */
  lemma RejectUnknownSymbol(alphabet: set<char>, finals: set<State>, delta: Delta, initial: State,
                            w: string, i: int, p: seq<State>)
    requires 0 <= i < |w| && WalkFrom(alphabet, delta, initial, w[..i]) == Completed(p)
    requires w[i] !in alphabet
    ensures Recognition(alphabet, finals, delta, initial, w) == UnknownSymbol(w[i])
  {
    BlockedAfterPrefix(alphabet, delta, initial, w, i, p, UnknownSymbol(w[i]));
  }

  /** A symbol of the alphabet with no transition from the state reached rejects the word at that symbol. */
  lemma RejectMissingTransition(alphabet: set<char>, finals: set<State>, delta: Delta, initial: State,
                                w: string, i: int, p: seq<State>)
    requires 0 <= i < |w| && WalkFrom(alphabet, delta, initial, w[..i]) == Completed(p)
    requires w[i] in alphabet && (p[i] !in delta || w[i] !in delta[p[i]])
    ensures Recognition(alphabet, finals, delta, initial, w) == MissingTransition(p[i], w[i])
  {
    BlockedAfterPrefix(alphabet, delta, initial, w, i, p, MissingTransition(p[i], w[i]));
  }

  /** The empty word is accepted iff the initial state is final. */
  lemma EmptyWord(alphabet: set<char>, finals: set<State>, delta: Delta, initial: State)
    ensures Recognition(alphabet, finals, delta, initial, []) ==
      if initial in finals then Accepted([initial]) else NotFinal([initial], initial)
  {
  }

  // ---------------------------------------------------------------------
  // A worked example
  // ---------------------------------------------------------------------

  /** q0 -a-> q1, q1 -a-> q1, alphabet {a, b}, q1 final. */
  function ExampleDelta(): Delta {
    map["q0" := map['a' := "q1"], "q1" := map['a' := "q1"]]
  }

  lemma ExampleRuns()
    ensures Recognition({'a', 'b'}, {"q1"}, ExampleDelta(), "q0", "a") == Accepted(["q0", "q1"])
    ensures Recognition({'a', 'b'}, {"q1"}, ExampleDelta(), "q0", "") == NotFinal(["q0"], "q0")
    ensures Recognition({'a', 'b'}, {"q1"}, ExampleDelta(), "q0", "ab") == MissingTransition("q1", 'b')
    ensures Recognition({'a', 'b'}, {"q1"}, ExampleDelta(), "q0", "ac") == UnknownSymbol('c')
  {
    var d := ExampleDelta();
    assert "ab"[1..] == "b" && "ac"[1..] == "c" && "a"[1..] == "";
    assert WalkFrom({'a', 'b'}, d, "q1", "b") == Blocked(MissingTransition("q1", 'b'));
  }
}
