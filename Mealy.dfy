/**
 * The transition table of a deterministic Mealy machine and the three replay
 * operations over it: executeSequence, getUsedTransitions and
 * getDetailedTransitions (both StateMachine classes carry the same code).
 */
module Mealy {
  import opened Wrappers

  /** A state identifier (an Integer key of the source's map). */
  type State = int
  /** One input symbol: replay splits the input string into single characters. */
  type Symbol = char

  /** Where a transition leads and the output string it emits. */
  datatype Transition = Transition(toState: State, output: string)

  /**
   * The transitions of one state, in insertion order (the builders fill a
   * LinkedHashMap), keyed by their input symbol.
   */
  type Row = seq<(Symbol, Transition)>

  /** The whole machine: each state's row. A state that is not a key has no transitions. */
  type Table = map<State, Row>

  /** A transition named by its origin state and input symbol. */
  type Edge = (State, Symbol)

  /** One traversed step: the record built by getDetailedTransitions. */
  datatype TransitionDetail = TransitionDetail(fromState: State, toState: State, input: Symbol, output: string)

  /** A row has at most one entry per symbol, as the keys of a Java map. */
  predicate DistinctSymbols<T>(row: seq<(Symbol, T)>) {
    forall i, j :: 0 <= i < j < |row| ==> row[i].0 != row[j].0
  }

  /**
   * A symbol one Java char holds: a character of the Basic Multilingual Plane
   * (a Dafny char is never a surrogate). A row key outside it would be a
   * string of two chars in the source.
   */
  predicate JavaChar(c: Symbol) {
    c < '\U{10000}'
  }

  /** Every row of the table is a map from single-char keys. */
  predicate WellFormed(t: Table) {
    forall s :: s in t ==> DistinctSymbols(t[s]) && forall i :: 0 <= i < |t[s]| ==> JavaChar(t[s][i].0)
  }

  /** The entry for symbol c in a row (Map.get; None when containsKey is false). */
  function Lookup<T>(row: seq<(Symbol, T)>, c: Symbol): (r: Option<T>)
    ensures r.None? <==> forall i :: 0 <= i < |row| ==> row[i].0 != c
    ensures r.Some? ==> exists i :: 0 <= i < |row| && row[i] == (c, r.value)
  {
    if row == [] then None
    else if row[0].0 == c then Some(row[0].1)
    else
      var r := Lookup(row[1..], c);
      assert r.Some? ==> exists i :: 0 <= i < |row| - 1 && row[1..][i] == (c, r.value);
      r
  }

  /** In a row with distinct symbols, looking up the symbol of entry i finds entry i. */
  lemma LookupAt<T>(row: seq<(Symbol, T)>, i: nat)
    requires DistinctSymbols(row) && i < |row|
    ensures Lookup(row, row[i].0) == Some(row[i].1)
  {
  }

  /** The transition taken from s on c, if any. */
  function Next(t: Table, s: State, c: Symbol): Option<Transition> {
    if s in t then Lookup(t[s], c) else None
  }

  /**
   * What executeSequence computes: the concatenated outputs of the walk, or
   * None (the source's null) as soon as a step has no transition.
   */
  function Replay(t: Table, s: State, input: seq<Symbol>): Option<string>
    decreases |input|
  {
    if input == [] then Some("")
    else match Next(t, s, input[0])
      case None => None
      case Some(tr) => Prefixed(tr.output, Replay(t, tr.toState, input[1..]))
  }

  /** Prepends o to a present output; an absent one stays absent. */
  function Prefixed(o: string, r: Option<string>): Option<string> {
    match r
    case None => None
    case Some(x) => Some(o + x)
  }

  /** The state the replay of input ends in, or None if it fails. */
  function Reach(t: Table, s: State, input: seq<Symbol>): Option<State>
    decreases |input|
  {
    if input == [] then Some(s)
    else match Next(t, s, input[0])
      case None => None
      case Some(tr) => Reach(t, tr.toState, input[1..])
  }

  /**
   * The walk of getDetailedTransitions: a symbol with no transition is
   * skipped and the walk stays where it is.
   */
  function Trace(t: Table, s: State, input: seq<Symbol>): seq<TransitionDetail>
    decreases |input|
  {
    if input == [] then []
    else match Next(t, s, input[0])
      case None => Trace(t, s, input[1..])
      case Some(tr) => [TransitionDetail(s, tr.toState, input[0], tr.output)] + Trace(t, tr.toState, input[1..])
  }

  /** The same walk as Trace, keeping only the (state, symbol) pairs: getUsedTransitions. */
  function UsedEdges(t: Table, s: State, input: seq<Symbol>): set<Edge>
    decreases |input|
  {
    if input == [] then {}
    else match Next(t, s, input[0])
      case None => UsedEdges(t, s, input[1..])
      case Some(tr) => {(s, input[0])} + UsedEdges(t, tr.toState, input[1..])
  }

  /** The outputs of a trace, concatenated in order. */
  function Outputs(d: seq<TransitionDetail>): string {
    if d == [] then "" else d[0].output + Outputs(d[1..])
  }

  method ExecuteSequence(state: State, inputSeq: seq<Symbol>, t: Table) returns (r: Option<string>)
    ensures r == Replay(t, state, inputSeq)
  {
    var currentState := state;
    var outputSeq := "";
    var i := 0;
    assert inputSeq[0..] == inputSeq;
    match Replay(t, state, inputSeq) {
      case None =>
      case Some(x) => assert "" + x == x;
    }
    while i < |inputSeq|
      invariant 0 <= i <= |inputSeq|
      invariant Replay(t, state, inputSeq) == Prefixed(outputSeq, Replay(t, currentState, inputSeq[i..]))
    {
      var input := inputSeq[i];
      assert inputSeq[i..][0] == input && inputSeq[i..][1..] == inputSeq[i + 1..];
      if currentState !in t || Lookup(t[currentState], input).None? {
        return None;
      }
      var trans := Lookup(t[currentState], input).value;
      match Replay(t, trans.toState, inputSeq[i + 1..]) {
        case None =>
        case Some(x) => assert outputSeq + (trans.output + x) == (outputSeq + trans.output) + x;
      }
      outputSeq := outputSeq + trans.output;
      currentState := trans.toState;
      i := i + 1;
    }
    assert inputSeq[i..] == [] && outputSeq + "" == outputSeq;
    return Some(outputSeq);
  }

  method GetUsedTransitions(state: State, inputSeq: seq<Symbol>, t: Table) returns (used: set<Edge>)
    ensures used == UsedEdges(t, state, inputSeq)
  {
    used := {};
    var currentState := state;
    var i := 0;
    while i < |inputSeq|
      invariant 0 <= i <= |inputSeq|
      invariant UsedEdges(t, state, inputSeq) == used + UsedEdges(t, currentState, inputSeq[i..])
    {
      var input := inputSeq[i];
      assert inputSeq[i..][0] == input && inputSeq[i..][1..] == inputSeq[i + 1..];
      if currentState in t && Lookup(t[currentState], input).Some? {
        used := used + {(currentState, input)};
        currentState := Lookup(t[currentState], input).value.toState;
      }
      i := i + 1;
    }
    assert inputSeq[i..] == [];
  }

  method GetDetailedTransitions(state: State, inputSeq: seq<Symbol>, t: Table) returns (detailed: seq<TransitionDetail>)
    ensures detailed == Trace(t, state, inputSeq)
  {
    detailed := [];
    var currentState := state;
    var i := 0;
    while i < |inputSeq|
      invariant 0 <= i <= |inputSeq|
      invariant Trace(t, state, inputSeq) == detailed + Trace(t, currentState, inputSeq[i..])
    {
      var input := inputSeq[i];
      assert inputSeq[i..][0] == input && inputSeq[i..][1..] == inputSeq[i + 1..];
      if currentState in t && Lookup(t[currentState], input).Some? {
        var trans := Lookup(t[currentState], input).value;
        detailed := detailed + [TransitionDetail(currentState, trans.toState, input, trans.output)];
        currentState := trans.toState;
      }
      i := i + 1;
    }
    assert inputSeq[i..] == [];
  }

  /**
   * Replay fails exactly when the walk reaches a state that has no
   * transition (or no row at all) for the next symbol.
   */
  lemma {:induction false} ReplayFailsIff(t: Table, s: State, input: seq<Symbol>)
    ensures Replay(t, s, input).None? <==>
      exists k :: 0 <= k < |input| && Reach(t, s, input[..k]).Some? && Next(t, Reach(t, s, input[..k]).value, input[k]).None?
    decreases |input|
  {
    if input != [] {
      assert input[..0] == [];
      match Next(t, s, input[0])
      case None =>
      case Some(tr) =>
        var rest := input[1..];
        ReplayFailsIff(t, tr.toState, rest);
        forall k | 1 <= k <= |input|
          ensures Reach(t, s, input[..k]) == Reach(t, tr.toState, rest[..k - 1])
        {
          assert input[..k][0] == input[0] && input[..k][1..] == rest[..k - 1];
        }
        if Replay(t, tr.toState, rest).None? {
          var k :| 0 <= k < |rest| && Reach(t, tr.toState, rest[..k]).Some?
            && Next(t, Reach(t, tr.toState, rest[..k]).value, rest[k]).None?;
          assert input[k + 1] == rest[k];
        } else {
          forall k | 0 <= k < |input| && Reach(t, s, input[..k]).Some?
            ensures Next(t, Reach(t, s, input[..k]).value, input[k]).Some?
          {
            if k > 0 {
              assert input[k] == rest[k - 1];
            }
          }
        }
    }
  }

  /**
   * The used-transition set is exactly the (fromState, input) pairs of the
   * detailed trace, so it has at most one pair per input symbol.
   */
  lemma {:induction false} UsedEdgesOfTrace(t: Table, s: State, input: seq<Symbol>)
    ensures UsedEdges(t, s, input) == set d | d in Trace(t, s, input) :: (d.fromState, d.input)
    ensures |UsedEdges(t, s, input)| <= |Trace(t, s, input)| <= |input|
    decreases |input|
  {
    if input != [] {
      match Next(t, s, input[0])
      case None =>
        UsedEdgesOfTrace(t, s, input[1..]);
      case Some(tr) =>
        UsedEdgesOfTrace(t, tr.toState, input[1..]);
        var d0 := TransitionDetail(s, tr.toState, input[0], tr.output);
        var rest := Trace(t, tr.toState, input[1..]);
        assert Trace(t, s, input) == [d0] + rest;
        assert (set d | d in [d0] + rest :: (d.fromState, d.input))
          == {(s, input[0])} + (set d | d in rest :: (d.fromState, d.input));
    }
  }

  /**
   * The detailed trace is a connected walk from s: its first record starts at
   * s, each record ends where the next begins, and each record is a
   * transition of the table.
   */
  lemma {:induction false} TraceIsWalk(t: Table, s: State, input: seq<Symbol>)
    ensures var d := Trace(t, s, input);
      (|d| > 0 ==> d[0].fromState == s) &&
      (forall k :: 0 <= k < |d| - 1 ==> d[k].toState == d[k + 1].fromState) &&
      (forall k :: 0 <= k < |d| ==> Next(t, d[k].fromState, d[k].input) == Some(Transition(d[k].toState, d[k].output)))
    decreases |input|
  {
    if input != [] {
      match Next(t, s, input[0])
      case None =>
        TraceIsWalk(t, s, input[1..]);
      case Some(tr) =>
        TraceIsWalk(t, tr.toState, input[1..]);
    }
  }

  /**
   * When the replay succeeds, the trace has one record per symbol, carrying
   * that symbol, and its outputs concatenate to the replay's output; the
   * replay succeeds exactly when no symbol was skipped.
   */
  lemma {:induction false} TraceAgreesWithReplay(t: Table, s: State, input: seq<Symbol>)
    ensures Replay(t, s, input).Some? <==> |Trace(t, s, input)| == |input|
    ensures Replay(t, s, input).Some? ==>
      Outputs(Trace(t, s, input)) == Replay(t, s, input).value &&
      forall k :: 0 <= k < |input| ==> Trace(t, s, input)[k].input == input[k]
    decreases |input|
  {
    if input != [] {
      UsedEdgesOfTrace(t, s, input[1..]);
      match Next(t, s, input[0])
      case None =>
      case Some(tr) =>
        TraceAgreesWithReplay(t, tr.toState, input[1..]);
        var d := Trace(t, s, input);
        assert d[1..] == Trace(t, tr.toState, input[1..]);
        if Replay(t, s, input).Some? {
          forall k | 0 <= k < |input| ensures d[k].input == input[k] {
            if k > 0 {
              assert d[k] == d[1..][k - 1];
            }
          }
        }
    }
  }

  /**
   * Concatenation associates. Stated once so that proofs about long
   * sequences of sequences can regroup a concatenation in one small step.
   */
  lemma Associates<T>(u: seq<T>, v: seq<T>, w: seq<T>)
    ensures (u + v) + w == u + (v + w)
  {
  }

  /** A non-empty set has an element. */
  lemma HasElement<T>(xs: set<T>)
    requires xs != {}
    ensures exists y :: y in xs
  {
  }

  /** Some element of a non-empty set: the next one an iteration over it visits. */
  method Pick<T>(xs: set<T>) returns (x: T)
    requires xs != {}
    ensures x in xs
  {
    HasElement(xs);
    x :| x in xs;
  }
}
