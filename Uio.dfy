/**
 * The UIO (unique input/output) sequence engine of both StateMachine classes:
 * bounded depth-first enumeration of candidate inputs (explore), the
 * cross-state uniqueness test, the shortest-first pick and the length-ascending,
 * state-ascending assignment loop with its growing set of committed transitions.
 */
module Uio {
  import opened Wrappers
  import opened Mealy

  /** Exclusive bound of the assignment loop: lengths 1, 2 and 3 are tried. */
  const MAX_SEQUENCE_LENGTH: int := 4

  /** A candidate found by explore: its input, its output and the transitions it used. */
  datatype Sequence = Sequence(input: seq<Symbol>, output: string, usedTransitions: set<Edge>)

  /** The result of the assignment: each resolved state's (input, output) pair. */
  type Assignment = map<State, (seq<Symbol>, string)>

  // ---------------------------------------------------------------------------
  // Enumeration (explore / getAllSequencesForState)
  // ---------------------------------------------------------------------------

  /**
   * The sequences explore appends, in order, when called at search node
   * (cur, inp, out, curUsed): the node itself unless its input is empty, then,
   * below the length bound, the subtree of every non-forbidden transition of
   * cur in row order.
   */
  function Candidates(t: Table, forbidden: set<Edge>, maxLen: int,
                      cur: State, inp: seq<Symbol>, out: string, curUsed: set<Edge>): seq<Sequence>
    decreases maxLen - |inp|, 1
  {
    (if inp != [] then [Sequence(inp, out, curUsed)] else [])
    + (if |inp| >= maxLen || cur !in t then [] else CandidatesFrom(t, forbidden, maxLen, cur, inp, out, curUsed, 0))
  }

  /** The subtrees of the transitions of cur from row index i on. */
  function CandidatesFrom(t: Table, forbidden: set<Edge>, maxLen: int,
                          cur: State, inp: seq<Symbol>, out: string, curUsed: set<Edge>, i: nat): seq<Sequence>
    requires cur in t && i <= |t[cur]| && |inp| < maxLen
    decreases maxLen - |inp|, 0, |t[cur]| - i
  {
    if i == |t[cur]| then []
    else
      var (c, tr) := t[cur][i];
      (if (cur, c) in forbidden then []
       else Candidates(t, forbidden, maxLen, tr.toState, inp + [c], out + tr.output, curUsed + {(cur, c)}))
      + CandidatesFrom(t, forbidden, maxLen, cur, inp, out, curUsed, i + 1)
  }

  /** What getAllSequencesForState returns. */
  function Enumerated(t: Table, state: State, forbidden: set<Edge>, maxLen: int): seq<Sequence> {
    Candidates(t, forbidden, maxLen, state, [], "", {})
  }

  method Explore(currentState: State, currentInput: seq<Symbol>, currentOutput: string,
                 currentUsed: set<Edge>, sequences: seq<Sequence>,
                 t: Table, usedTransitions: set<Edge>, maxLength: int)
    returns (sequences': seq<Sequence>)
    ensures sequences' == sequences + Candidates(t, usedTransitions, maxLength, currentState, currentInput, currentOutput, currentUsed)
    decreases maxLength - |currentInput|, 1
  {
    ghost var here: seq<Sequence> := if currentInput != [] then [Sequence(currentInput, currentOutput, currentUsed)] else [];
    sequences' := sequences;
    if currentInput != [] {
      sequences' := sequences' + [Sequence(currentInput, currentOutput, currentUsed)];
    }
    if |currentInput| >= maxLength || currentState !in t {
      assert sequences' == sequences + here + [];
      return;
    }
    var row := t[currentState];
    var i := 0;
    ghost var goal := sequences + Candidates(t, usedTransitions, maxLength, currentState, currentInput, currentOutput, currentUsed);
    assert sequences' + CandidatesFrom(t, usedTransitions, maxLength, currentState, currentInput, currentOutput, currentUsed, 0) == goal by {
      Associates(sequences, here, CandidatesFrom(t, usedTransitions, maxLength, currentState, currentInput, currentOutput, currentUsed, 0));
    }
    while i < |row|
      invariant 0 <= i <= |row|
      invariant sequences' + CandidatesFrom(t, usedTransitions, maxLength, currentState, currentInput, currentOutput, currentUsed, i) == goal
    {
      var (c, tr) := row[i];
      var newTransition := (currentState, c);
      ghost var rest := CandidatesFrom(t, usedTransitions, maxLength, currentState, currentInput, currentOutput, currentUsed, i + 1);
      ghost var below := Candidates(t, usedTransitions, maxLength, tr.toState, currentInput + [c], currentOutput + tr.output, currentUsed + {newTransition});
      if newTransition !in usedTransitions {
        ghost var before := sequences';
        sequences' := Explore(tr.toState, currentInput + [c], currentOutput + tr.output,
                              currentUsed + {newTransition}, sequences', t, usedTransitions, maxLength);
        assert sequences' + rest == goal by {
          CandidatesFromStep(t, usedTransitions, maxLength, currentState, currentInput, currentOutput, currentUsed, i);
          Associates(before, below, rest);
        }
      } else {
        assert sequences' + rest == goal by {
          CandidatesFromStep(t, usedTransitions, maxLength, currentState, currentInput, currentOutput, currentUsed, i);
          assert [] + rest == rest;
        }
      }
      i := i + 1;
    }
    assert sequences' + [] == sequences';
  }

  /** One transition of the row: its subtree (none when forbidden) comes before those of the later transitions. */
  lemma CandidatesFromStep(t: Table, forbidden: set<Edge>, maxLen: int,
                           cur: State, inp: seq<Symbol>, out: string, curUsed: set<Edge>, i: nat)
    requires cur in t && i < |t[cur]| && |inp| < maxLen
    ensures var (c, tr) := t[cur][i];
      CandidatesFrom(t, forbidden, maxLen, cur, inp, out, curUsed, i) ==
        (if (cur, c) in forbidden then [] else Candidates(t, forbidden, maxLen, tr.toState, inp + [c], out + tr.output, curUsed + {(cur, c)}))
        + CandidatesFrom(t, forbidden, maxLen, cur, inp, out, curUsed, i + 1)
  {
  }


  method GetAllSequencesForState(state: State, t: Table, usedTransitions: set<Edge>, maxLength: int)
    returns (sequences: seq<Sequence>)
    ensures sequences == Enumerated(t, state, usedTransitions, maxLength)
  {
    sequences := Explore(state, [], "", {}, [], t, usedTransitions, maxLength);
  }

  /**
   * What a candidate found at or below search node (cur, inp, out, curUsed)
   * satisfies: it extends inp and out by a suffix that replays from cur, its
   * used set adds that suffix's transitions to curUsed, and none of those is
   * forbidden.
   */
  ghost predicate ExtendsNode(t: Table, forbidden: set<Edge>, maxLen: int,
                              cur: State, inp: seq<Symbol>, out: string, curUsed: set<Edge>, q: Sequence)
  {
    && |inp| <= |q.input| && q.input[..|inp|] == inp && q.input != []
    && (|q.input| == |inp| || |q.input| <= maxLen)
    && |out| <= |q.output| && q.output[..|out|] == out
    && Replay(t, cur, q.input[|inp|..]) == Some(q.output[|out|..])
    && q.usedTransitions == curUsed + UsedEdges(t, cur, q.input[|inp|..])
    && UsedEdges(t, cur, q.input[|inp|..]) !! forbidden
  }

  lemma {:induction false} CandidatesSound(t: Table, forbidden: set<Edge>, maxLen: int,
                                           cur: State, inp: seq<Symbol>, out: string, curUsed: set<Edge>, q: Sequence)
    requires WellFormed(t)
    requires q in Candidates(t, forbidden, maxLen, cur, inp, out, curUsed)
    ensures ExtendsNode(t, forbidden, maxLen, cur, inp, out, curUsed, q)
    decreases maxLen - |inp|, 1
  {
    if inp != [] && q == Sequence(inp, out, curUsed) {
      assert q.input[|inp|..] == [] && q.output[|out|..] == "";
      assert q.input[..|inp|] == inp && q.output[..|out|] == out;
    } else {
      assert |inp| < maxLen && cur in t;
      CandidatesFromSound(t, forbidden, maxLen, cur, inp, out, curUsed, 0, q);
    }
  }

  lemma {:induction false} CandidatesFromSound(t: Table, forbidden: set<Edge>, maxLen: int,
                                               cur: State, inp: seq<Symbol>, out: string, curUsed: set<Edge>, i: nat, q: Sequence)
    requires WellFormed(t)
    requires cur in t && i <= |t[cur]| && |inp| < maxLen
    requires q in CandidatesFrom(t, forbidden, maxLen, cur, inp, out, curUsed, i)
    ensures ExtendsNode(t, forbidden, maxLen, cur, inp, out, curUsed, q) && |q.input| > |inp|
    decreases maxLen - |inp|, 0, |t[cur]| - i
  {
    var (c, tr) := t[cur][i];
    var inp', out', used' := inp + [c], out + tr.output, curUsed + {(cur, c)};
    if (cur, c) !in forbidden && q in Candidates(t, forbidden, maxLen, tr.toState, inp', out', used') {
      CandidatesSound(t, forbidden, maxLen, tr.toState, inp', out', used', q);
      LookupAt(t[cur], i);
      ExtendsByStep(t, forbidden, maxLen, cur, inp, out, curUsed, c, tr, q);
    } else {
      CandidatesFromSound(t, forbidden, maxLen, cur, inp, out, curUsed, i + 1, q);
    }
  }

  /** A candidate below the child reached by the allowed transition (cur, c) extends the node itself. */
  lemma ExtendsByStep(t: Table, forbidden: set<Edge>, maxLen: int,
                      cur: State, inp: seq<Symbol>, out: string, curUsed: set<Edge>,
                      c: Symbol, tr: Transition, q: Sequence)
    requires Next(t, cur, c) == Some(tr) && (cur, c) !in forbidden && |inp| < maxLen
    requires ExtendsNode(t, forbidden, maxLen, tr.toState, inp + [c], out + tr.output, curUsed + {(cur, c)}, q)
    ensures ExtendsNode(t, forbidden, maxLen, cur, inp, out, curUsed, q) && |q.input| > |inp|
  {
    var w, w' := q.input[|inp|..], q.input[|inp| + 1..];
    SplitAfterPrefix(q.input, inp, [c]);
    SplitAfterPrefix(q.output, out, tr.output);
    assert w == [c] + w';
    ReplayStep(t, cur, c, tr, w');
  }

  /** A sequence that starts with u + v starts with u, and after u comes v and then the rest. */
  lemma SplitAfterPrefix<T>(x: seq<T>, u: seq<T>, v: seq<T>)
    requires |u + v| <= |x| && x[..|u + v|] == u + v
    ensures x[..|u|] == u
    ensures x[|u|..] == v + x[|u + v|..]
  {
    assert x[..|u|] == x[..|u + v|][..|u|];
    assert x[|u|..|u + v|] == x[..|u + v|][|u|..];
    assert x[|u|..] == x[|u|..|u + v|] + x[|u + v|..];
  }

  /** Replaying a non-empty input: its first transition, then the rest from that transition's target. */
  lemma ReplayStep(t: Table, cur: State, c: Symbol, tr: Transition, w': seq<Symbol>)
    requires Next(t, cur, c) == Some(tr)
    ensures Replay(t, cur, [c] + w') == Prefixed(tr.output, Replay(t, tr.toState, w'))
    ensures UsedEdges(t, cur, [c] + w') == {(cur, c)} + UsedEdges(t, tr.toState, w')
  {
    var w := [c] + w';
    assert w[0] == c && w[1..] == w';
  }

  /** A branch that is not forbidden contributes its whole subtree from any earlier row index. */
  lemma BranchIncluded(t: Table, forbidden: set<Edge>, maxLen: int,
                                          cur: State, inp: seq<Symbol>, out: string, curUsed: set<Edge>,
                                          i: nat, j: nat, q: Sequence)
    requires cur in t && i <= j < |t[cur]| && |inp| < maxLen
    requires (cur, t[cur][j].0) !in forbidden
    requires q in Candidates(t, forbidden, maxLen, t[cur][j].1.toState, inp + [t[cur][j].0],
                             out + t[cur][j].1.output, curUsed + {(cur, t[cur][j].0)})
    ensures q in CandidatesFrom(t, forbidden, maxLen, cur, inp, out, curUsed, i)
  {
    CandidatesFromStep(t, forbidden, maxLen, cur, inp, out, curUsed, j);
    var k := j;
    while k > i
      invariant i <= k <= j
      invariant q in CandidatesFrom(t, forbidden, maxLen, cur, inp, out, curUsed, k)
      decreases k
    {
      CandidatesFromStep(t, forbidden, maxLen, cur, inp, out, curUsed, k - 1);
      k := k - 1;
    }
  }

  lemma {:induction false} CandidatesComplete(t: Table, forbidden: set<Edge>, maxLen: int,
                                              cur: State, inp: seq<Symbol>, out: string, curUsed: set<Edge>, w: seq<Symbol>)
    requires WellFormed(t)
    requires (w == [] && inp != []) || (w != [] && |inp| + |w| <= maxLen)
    requires Replay(t, cur, w).Some? && UsedEdges(t, cur, w) !! forbidden
    ensures exists q :: q in Candidates(t, forbidden, maxLen, cur, inp, out, curUsed) && q.input == inp + w
    decreases |w|
  {
    if w == [] {
      assert inp + w == inp;
      assert Sequence(inp, out, curUsed) in Candidates(t, forbidden, maxLen, cur, inp, out, curUsed);
    } else {
      var c := w[0];
      var tr := Next(t, cur, c).value;
      var j :| 0 <= j < |t[cur]| && t[cur][j] == (c, tr);
      assert (cur, c) !in forbidden && Replay(t, tr.toState, w[1..]).Some? && UsedEdges(t, tr.toState, w[1..]) !! forbidden by {
        assert (cur, c) in UsedEdges(t, cur, w);
        assert UsedEdges(t, cur, w) == {(cur, c)} + UsedEdges(t, tr.toState, w[1..]);
      }
      var inp', out', used' := inp + [c], out + tr.output, curUsed + {(cur, c)};
      CandidatesComplete(t, forbidden, maxLen, tr.toState, inp', out', used', w[1..]);
      var q :| q in Candidates(t, forbidden, maxLen, tr.toState, inp', out', used') && q.input == inp' + w[1..];
      assert q.input == inp + w by {
        assert inp' + w[1..] == inp + w;
      }
      BranchIncluded(t, forbidden, maxLen, cur, inp, out, curUsed, 0, j, q);
    }
  }

  /**
   * getAllSequencesForState returns exactly the inputs of length 1 to maxLen
   * that replay from the state without using a forbidden transition, each with
   * its replayed output and its used-transition set.
   */
  lemma EnumerationExact(t: Table, state: State, forbidden: set<Edge>, maxLen: int)
    requires WellFormed(t)
    ensures forall q :: q in Enumerated(t, state, forbidden, maxLen) ==>
      && 1 <= |q.input| <= maxLen
      && Replay(t, state, q.input) == Some(q.output)
      && q.usedTransitions == UsedEdges(t, state, q.input)
      && q.usedTransitions !! forbidden
    ensures forall w :: 1 <= |w| <= maxLen && Replay(t, state, w).Some? && UsedEdges(t, state, w) !! forbidden ==>
      exists q :: q in Enumerated(t, state, forbidden, maxLen) && q.input == w
  {
    forall q | q in Enumerated(t, state, forbidden, maxLen)
      ensures 1 <= |q.input| <= maxLen && Replay(t, state, q.input) == Some(q.output)
      ensures q.usedTransitions == UsedEdges(t, state, q.input) && q.usedTransitions !! forbidden
    {
      CandidatesSound(t, forbidden, maxLen, state, [], "", {}, q);
      assert q.input[0..] == q.input && q.output[0..] == q.output;
    }
    forall w | 1 <= |w| <= maxLen && Replay(t, state, w).Some? && UsedEdges(t, state, w) !! forbidden
      ensures exists q :: q in Enumerated(t, state, forbidden, maxLen) && q.input == w
    {
      CandidatesComplete(t, forbidden, maxLen, state, [], "", {}, w);
      assert [] + w == w;
    }
  }

  /**
   * In cs, every prefix of length k (from <= k, k >= 1) of an element's input
   * is the input of an element that comes strictly earlier.
   */
  ghost predicate PrefixesFirst(cs: seq<Sequence>, from: nat) {
    forall j, k :: 0 <= j < |cs| && from <= k < |cs[j].input| && 1 <= k ==> EarlierPrefix(cs, j, k)
  }

  /** Some element before index j has the first k symbols of element j's input as its input. */
  ghost predicate EarlierPrefix(cs: seq<Sequence>, j: int, k: int)
    requires 0 <= j < |cs| && 0 <= k <= |cs[j].input|
  {
    exists i :: 0 <= i < j && cs[i].input == cs[j].input[..k]
  }

  lemma ConcatPrefixesFirst(a: seq<Sequence>, b: seq<Sequence>, from: nat)
    requires PrefixesFirst(a, from) && PrefixesFirst(b, from)
    ensures PrefixesFirst(a + b, from)
  {
    var ab := a + b;
    forall j, k | 0 <= j < |ab| && from <= k < |ab[j].input| && 1 <= k
      ensures EarlierPrefix(ab, j, k)
    {
      if j < |a| {
        assert ab[j] == a[j];
        assert EarlierPrefix(a, j, k);
        var i :| 0 <= i < j && a[i].input == a[j].input[..k];
        assert ab[i] == a[i];
      } else {
        var j' := j - |a|;
        assert ab[j] == b[j'];
        assert EarlierPrefix(b, j', k);
        var i :| 0 <= i < j' && b[i].input == b[j'].input[..k];
        assert ab[i + |a|] == b[i];
      }
    }
  }

  lemma {:induction false} CandidatesPrefixesFirst(t: Table, forbidden: set<Edge>, maxLen: int,
                                                   cur: State, inp: seq<Symbol>, out: string, curUsed: set<Edge>)
    requires WellFormed(t)
    ensures PrefixesFirst(Candidates(t, forbidden, maxLen, cur, inp, out, curUsed), |inp|)
    decreases maxLen - |inp|, 1
  {
    var own: seq<Sequence> := if inp != [] then [Sequence(inp, out, curUsed)] else [];
    if |inp| >= maxLen || cur !in t {
      assert Candidates(t, forbidden, maxLen, cur, inp, out, curUsed) == own;
    } else {
      var rest := CandidatesFrom(t, forbidden, maxLen, cur, inp, out, curUsed, 0);
      CandidatesFromPrefixesFirst(t, forbidden, maxLen, cur, inp, out, curUsed, 0);
      forall r | r in rest ensures |inp| < |r.input| && r.input[..|inp|] == inp {
        CandidatesFromSound(t, forbidden, maxLen, cur, inp, out, curUsed, 0, r);
      }
      NodeBeforeSubtrees(own, rest, inp);
      assert Candidates(t, forbidden, maxLen, cur, inp, out, curUsed) == own + rest;
    }
  }

  /**
   * A node's own candidate (none at the root) followed by its subtrees, all
   * of which extend its input, keeps prefixes first.
   */
  lemma NodeBeforeSubtrees(own: seq<Sequence>, rest: seq<Sequence>, inp: seq<Symbol>)
    requires inp != [] ==> |own| == 1 && own[0].input == inp
    requires inp == [] ==> own == []
    requires PrefixesFirst(rest, |inp| + 1)
    requires forall r :: r in rest ==> |inp| < |r.input| && r.input[..|inp|] == inp
    ensures PrefixesFirst(own + rest, |inp|)
  {
    var cs := own + rest;
    forall j, k | 0 <= j < |cs| && |inp| <= k < |cs[j].input| && 1 <= k
      ensures EarlierPrefix(cs, j, k)
    {
      assert j >= |own|;
      var r := cs[j];
      assert r == rest[j - |own|];
      assert r in rest;
      if k == |inp| {
        assert cs[0].input == inp == r.input[..k];
      } else {
        assert EarlierPrefix(rest, j - |own|, k);
        var i :| 0 <= i < j - |own| && rest[i].input == r.input[..k];
        assert cs[i + |own|] == rest[i];
      }
    }
  }

  lemma {:induction false} CandidatesFromPrefixesFirst(t: Table, forbidden: set<Edge>, maxLen: int,
                                                       cur: State, inp: seq<Symbol>, out: string, curUsed: set<Edge>, i: nat)
    requires WellFormed(t)
    requires cur in t && i <= |t[cur]| && |inp| < maxLen
    ensures PrefixesFirst(CandidatesFrom(t, forbidden, maxLen, cur, inp, out, curUsed, i), |inp| + 1)
    decreases maxLen - |inp|, 0, |t[cur]| - i
  {
    if i < |t[cur]| {
      var (c, tr) := t[cur][i];
      var branch := if (cur, c) in forbidden then []
        else Candidates(t, forbidden, maxLen, tr.toState, inp + [c], out + tr.output, curUsed + {(cur, c)});
      if (cur, c) !in forbidden {
        CandidatesPrefixesFirst(t, forbidden, maxLen, tr.toState, inp + [c], out + tr.output, curUsed + {(cur, c)});
      }
      CandidatesFromPrefixesFirst(t, forbidden, maxLen, cur, inp, out, curUsed, i + 1);
      ConcatPrefixesFirst(branch, CandidatesFrom(t, forbidden, maxLen, cur, inp, out, curUsed, i + 1), |inp| + 1);
    }
  }

  /**
   * The enumeration is prefix-closed in depth-first order: every non-empty
   * proper prefix of a candidate's input is itself a candidate, found earlier.
   */
  lemma EnumerationPrefixOrdered(t: Table, state: State, forbidden: set<Edge>, maxLen: int)
    requires WellFormed(t)
    ensures PrefixesFirst(Enumerated(t, state, forbidden, maxLen), 0)
  {
    CandidatesPrefixesFirst(t, forbidden, maxLen, state, [], "", {});
  }

  // ---------------------------------------------------------------------------
  // Uniqueness, filtering and the shortest pick
  // ---------------------------------------------------------------------------

  /**
   * No state of the table other than testState replays inp to out; a state
   * whose replay fails is no collision.
   */
  predicate IsUnique(t: Table, testState: State, inp: seq<Symbol>, out: string) {
    forall s :: s in t && s != testState ==> Replay(t, s, inp) != Some(out)
  }

  method IsSequenceUniqueForState(testState: State, inputSeq: seq<Symbol>, outputSeq: string, t: Table)
    returns (unique: bool)
    ensures unique == IsUnique(t, testState, inputSeq, outputSeq)
  {
    var remaining := t.Keys;
    while remaining != {}
      invariant remaining <= t.Keys
      invariant forall s :: s in t && s !in remaining && s != testState ==> Replay(t, s, inputSeq) != Some(outputSeq)
      decreases |remaining|
    {
      var state := Pick(remaining);
      if state != testState {
        var result := ExecuteSequence(state, inputSeq, t);
        if result == Some(outputSeq) {
          return false;
        }
      }
      remaining := remaining - {state};
    }
    return true;
  }

  /** The filter of findUniqueSequenceForState: unique for the state and clear of the forbidden set. */
  predicate Qualifies(t: Table, state: State, forbidden: set<Edge>, q: Sequence) {
    IsUnique(t, state, q.input, q.output) && q.usedTransitions !! forbidden
  }

  /** The qualifying candidates, in enumeration order. */
  function Qualifying(t: Table, state: State, forbidden: set<Edge>, cs: seq<Sequence>): (r: seq<Sequence>)
    ensures forall q :: q in r <==> q in cs && Qualifies(t, state, forbidden, q)
  {
    Filtered(cs, Qualifier(t, state, forbidden))
  }

  /** The filter of findUniqueSequenceForState as a predicate on candidates. */
  function Qualifier(t: Table, state: State, forbidden: set<Edge>): Sequence -> bool {
    q => Qualifies(t, state, forbidden, q)
  }

  /**
   * The index Stream.min picks with a comparator on input length: a minimum,
   * and the first one, since the reduction keeps its left operand on a tie.
   */
  function ShortestIndex(cs: seq<Sequence>): (k: nat)
    requires cs != []
    ensures k < |cs|
    ensures forall j :: 0 <= j < |cs| ==> |cs[k].input| <= |cs[j].input|
    ensures forall j :: 0 <= j < k ==> |cs[j].input| > |cs[k].input|
    decreases |cs|
  {
    if |cs| == 1 then 0
    else
      var k := ShortestIndex(cs[..|cs| - 1]);
      assert forall j :: 0 <= j < |cs| - 1 ==> cs[..|cs| - 1][j] == cs[j];
      if |cs[k].input| <= |cs[|cs| - 1].input| then k else |cs| - 1
  }

  /** The elements of cs that good accepts, in the order of cs. */
  function Filtered(cs: seq<Sequence>, good: Sequence -> bool): (r: seq<Sequence>)
    ensures forall q :: q in r <==> q in cs && good(q)
    decreases |cs|
  {
    if cs == [] then []
    else
      var last := cs[|cs| - 1];
      assert cs == cs[..|cs| - 1] + [last];
      Filtered(cs[..|cs| - 1], good) + (if good(last) then [last] else [])
  }

  /** Element k of cs is q, good accepts it, and every accepted element before it is strictly longer. */
  ghost predicate FirstShortestAt(cs: seq<Sequence>, good: Sequence -> bool, k: int, q: Sequence) {
    0 <= k < |cs| && cs[k] == q && good(q) &&
      forall j :: 0 <= j < k && good(cs[j]) ==> |cs[j].input| > |q.input|
  }

  /** The shortest of the accepted elements that findShortestSequence picks is the first shortest one in cs. */
  lemma {:induction false} FilteredShortestIsFirst(cs: seq<Sequence>, good: Sequence -> bool)
    requires Filtered(cs, good) != []
    ensures exists k :: FirstShortestAt(cs, good, k, FindShortestSequence(Filtered(cs, good)).value)
    decreases |cs|
  {
    assert cs != [];
    var n := |cs|;
    var init, last := cs[..n - 1], cs[n - 1];
    var r' := Filtered(init, good);
    FilteredSnoc(cs, good);
    var q := FindShortestSequence(Filtered(cs, good)).value;
    if !good(last) {
      assert Filtered(cs, good) == r' + [] == r';
      FilteredShortestIsFirst(init, good);
      var k :| FirstShortestAt(init, good, k, q);
      FirstShortestExtends(cs, good, k, q);
    } else {
      PickOfSnoc(r', last);
      if r' == [] || |r'[ShortestIndex(r')].input| > |last.input| {
        assert FirstShortestAt(cs, good, n - 1, q) by {
          forall j | 0 <= j < n - 1 && good(cs[j])
            ensures |cs[j].input| > |q.input|
          {
            assert init[j] == cs[j] && init[j] in r';
          }
        }
      } else {
        assert q == FindShortestSequence(r').value;
        FilteredShortestIsFirst(init, good);
        var k :| FirstShortestAt(init, good, k, q);
        FirstShortestExtends(cs, good, k, q);
      }
    }
  }

  /** The first shortest element of the front of cs stays the first shortest one of cs. */
  lemma FirstShortestExtends(cs: seq<Sequence>, good: Sequence -> bool, k: int, q: Sequence)
    requires cs != [] && FirstShortestAt(cs[..|cs| - 1], good, k, q)
    ensures FirstShortestAt(cs, good, k, q)
  {
    assert forall j :: 0 <= j <= k ==> cs[..|cs| - 1][j] == cs[j];
  }

  /** Filtering a non-empty sequence: the filtered front, then the last element if accepted. */
  lemma FilteredSnoc(cs: seq<Sequence>, good: Sequence -> bool)
    requires cs != []
    ensures Filtered(cs, good) ==
      Filtered(cs[..|cs| - 1], good) + (if good(cs[|cs| - 1]) then [cs[|cs| - 1]] else [])
  {
  }

  /** The pick of a list with one more element: the new one if strictly shorter than the old pick, else the old pick. */
  lemma PickOfSnoc(r: seq<Sequence>, last: Sequence)
    ensures FindShortestSequence(r + [last]).value ==
      if r == [] || |r[ShortestIndex(r)].input| > |last.input| then last else FindShortestSequence(r).value
  {
    var r2 := r + [last];
    assert r2[..|r2| - 1] == r;
    if r != [] {
      assert r2[ShortestIndex(r)] == r[ShortestIndex(r)];
    }
  }

  /**
   * The pick among the qualifying candidates of cs is the first shortest one
   * in the order of cs: every qualifying candidate before it is strictly longer.
   */
  lemma ShortestQualifyingIsFirst(t: Table, state: State, forbidden: set<Edge>, cs: seq<Sequence>)
    requires Qualifying(t, state, forbidden, cs) != []
    ensures var q := FindShortestSequence(Qualifying(t, state, forbidden, cs)).value;
      exists k :: 0 <= k < |cs| && cs[k] == q && Qualifies(t, state, forbidden, q) &&
        forall j :: 0 <= j < k && Qualifies(t, state, forbidden, cs[j]) ==> |cs[j].input| > |q.input|
  {
    var good := Qualifier(t, state, forbidden);
    FilteredShortestIsFirst(cs, good);
    var k :| FirstShortestAt(cs, good, k, FindShortestSequence(Filtered(cs, good)).value);
  }

  /** findShortestSequence; None stands for the IllegalArgumentException on an empty list. */
  function FindShortestSequence(cs: seq<Sequence>): (r: Option<Sequence>)
    ensures r.None? <==> cs == []
    ensures r.Some? ==> r.value in cs && forall q :: q in cs ==> |r.value.input| <= |q.input|
  {
    if cs == [] then None else Some(cs[ShortestIndex(cs)])
  }

  // ---------------------------------------------------------------------------
  // Assignment (findUniqueSequenceForState / findStateIdentifyingSequences)
  // ---------------------------------------------------------------------------

  /** An input that identifies state s without touching a forbidden transition. */
  ghost predicate QualifyingInput(t: Table, s: State, forbidden: set<Edge>, w: seq<Symbol>) {
    && 1 <= |w|
    && Replay(t, s, w).Some?
    && IsUnique(t, s, w, Replay(t, s, w).value)
    && UsedEdges(t, s, w) !! forbidden
  }

  /** State s has no qualifying input of length n or less. */
  ghost predicate NoneWithin(t: Table, s: State, forbidden: set<Edge>, n: int) {
    forall w :: QualifyingInput(t, s, forbidden, w) ==> |w| > n
  }

  /** The candidates findUniqueSequenceForState keeps for state under forbidden and maxLen. */
  function Found(t: Table, state: State, forbidden: set<Edge>, maxLen: int): seq<Sequence> {
    Qualifying(t, state, forbidden, Enumerated(t, state, forbidden, maxLen))
  }

  method FindUniqueSequenceForState(state: State, t: Table, usedTransitions: set<Edge>,
                                    uniqueSequences: Assignment, maxLen: int)
    returns (usedTransitions': set<Edge>, uniqueSequences': Assignment)
    ensures var found := Found(t, state, usedTransitions, maxLen);
      if found == [] then usedTransitions' == usedTransitions && uniqueSequences' == uniqueSequences
      else
        var q := FindShortestSequence(found).value;
        && uniqueSequences' == uniqueSequences[state := (q.input, q.output)]
        && usedTransitions' == usedTransitions + q.usedTransitions
  {
    var sequences := GetAllSequencesForState(state, t, usedTransitions, maxLen);
    var uniqueForState := [];
    var i := 0;
    while i < |sequences|
      invariant 0 <= i <= |sequences|
      invariant uniqueForState == Qualifying(t, state, usedTransitions, sequences[..i])
    {
      var cand := sequences[i];
      var unique := IsSequenceUniqueForState(state, cand.input, cand.output, t);
      assert sequences[..i + 1][..i] == sequences[..i];
      if unique && cand.usedTransitions !! usedTransitions {
        uniqueForState := uniqueForState + [cand];
      }
      i := i + 1;
    }
    assert sequences[..i] == sequences;
    if uniqueForState != [] {
      var shortest := FindShortestSequence(uniqueForState).value;
      uniqueSequences' := uniqueSequences[state := (shortest.input, shortest.output)];
      usedTransitions' := usedTransitions + shortest.usedTransitions;
    } else {
      uniqueSequences', usedTransitions' := uniqueSequences, usedTransitions;
    }
  }

  /**
   * What one call of findUniqueSequenceForState decides: it finds nothing
   * exactly when no input of length 1 to maxLen identifies the state clear of
   * the forbidden set; otherwise its pick replays to its output, is unique,
   * uses exactly its replay's transitions, none forbidden, and is no longer
   * than any qualifying input (of any length).
   */
  lemma SelectionMeaning(t: Table, state: State, forbidden: set<Edge>, maxLen: int)
    requires WellFormed(t)
    ensures Found(t, state, forbidden, maxLen) == [] <==> NoneWithin(t, state, forbidden, maxLen)
    ensures Found(t, state, forbidden, maxLen) != [] ==>
      var q := FindShortestSequence(Found(t, state, forbidden, maxLen)).value;
      && 1 <= |q.input| <= maxLen
      && Replay(t, state, q.input) == Some(q.output)
      && IsUnique(t, state, q.input, q.output)
      && q.usedTransitions == UsedEdges(t, state, q.input)
      && q.usedTransitions !! forbidden
      && forall w :: QualifyingInput(t, state, forbidden, w) ==> |q.input| <= |w|
  {
    var found := Found(t, state, forbidden, maxLen);
    var all := Enumerated(t, state, forbidden, maxLen);
    EnumerationExact(t, state, forbidden, maxLen);
    forall w | QualifyingInput(t, state, forbidden, w) && |w| <= maxLen
      ensures exists q :: q in found && q.input == w
    {
      var q :| q in all && q.input == w;
      assert Qualifies(t, state, forbidden, q);
    }
    if found != [] {
      var q := FindShortestSequence(found).value;
      assert QualifyingInput(t, state, forbidden, q.input);
      forall w | QualifyingInput(t, state, forbidden, w) ensures |q.input| <= |w| {
        if |w| <= maxLen {
          var q' :| q' in found && q'.input == w;
        }
      }
    }
  }

  /** Forbidding more transitions can only take qualifying inputs away. */
  lemma NoneWithinGrows(t: Table, s: State, forbidden: set<Edge>, forbidden': set<Edge>, n: int)
    requires forbidden <= forbidden' && NoneWithin(t, s, forbidden, n)
    ensures NoneWithin(t, s, forbidden', n)
  {
    forall w | QualifyingInput(t, s, forbidden', w) ensures |w| > n {
      assert QualifyingInput(t, s, forbidden, w);
    }
  }

  /** The transitions committed by an assignment: those its sequences use. */
  ghost function Committed(t: Table, m: Assignment): set<Edge> {
    set s, e | s in m && e in UsedEdges(t, s, m[s].0) :: e
  }

  /** The properties each assigned (input, output) pair has. */
  ghost predicate Identifies(t: Table, s: State, inp: seq<Symbol>, out: string) {
    && Replay(t, s, inp) == Some(out)
    && IsUnique(t, s, inp, out)
    && 1 <= |inp| <= MAX_SEQUENCE_LENGTH - 1
  }

  /** Distinct assigned states use disjoint sets of transitions. */
  ghost predicate PairwiseDisjoint(t: Table, m: Assignment) {
    forall s1, s2 :: s1 in m && s2 in m && s1 != s2 ==> UsedEdges(t, s1, m[s1].0) !! UsedEdges(t, s2, m[s2].0)
  }

  /** Every assigned input is no longer than any input that qualifies against forbidden. */
  ghost predicate ShortestAgainst(t: Table, m: Assignment, forbidden: set<Edge>) {
    forall s, w :: s in m && QualifyingInput(t, s, forbidden, w) ==> |m[s].0| <= |w|
  }

  /** The invariant of the assignment loop, about the map and the committed set. */
  ghost predicate AssignmentInvariant(t: Table, m: Assignment, used: set<Edge>) {
    && m.Keys <= t.Keys
    && (forall s :: s in m ==> Identifies(t, s, m[s].0, m[s].1))
    && PairwiseDisjoint(t, m)
    && used == Committed(t, m)
    && ShortestAgainst(t, m, used)
  }

  lemma CommittedAdd(t: Table, m: Assignment, s: State, v: (seq<Symbol>, string))
    requires s !in m
    ensures Committed(t, m[s := v]) == Committed(t, m) + UsedEdges(t, s, v.0)
  {
    var m' := m[s := v];
    forall e | e in Committed(t, m') ensures e in Committed(t, m) + UsedEdges(t, s, v.0) {
      var s2 :| s2 in m' && e in UsedEdges(t, s2, m'[s2].0);
      if s2 != s {
        assert m'[s2] == m[s2];
      }
    }
    forall e | e in Committed(t, m) ensures e in Committed(t, m') {
      var s2 :| s2 in m && e in UsedEdges(t, s2, m[s2].0);
      assert m'[s2] == m[s2];
    }
    assert e0: forall e | e in UsedEdges(t, s, v.0) :: e in Committed(t, m') by {
      forall e | e in UsedEdges(t, s, v.0) ensures e in Committed(t, m') {
        assert m'[s].0 == v.0;
      }
    }
  }

  /** One step of the assignment loop keeps its invariant. */
  lemma AssignStepKeepsInvariant(t: Table, m: Assignment, used: set<Edge>, state: State, maxLen: int)
    requires WellFormed(t) && AssignmentInvariant(t, m, used)
    requires state in t && state !in m && 1 <= maxLen <= MAX_SEQUENCE_LENGTH - 1
    requires Found(t, state, used, maxLen) != []
    ensures var q := FindShortestSequence(Found(t, state, used, maxLen)).value;
      AssignmentInvariant(t, m[state := (q.input, q.output)], used + q.usedTransitions)
  {
    SelectionMeaning(t, state, used, maxLen);
    var q := FindShortestSequence(Found(t, state, used, maxLen)).value;
    var m' := m[state := (q.input, q.output)];
    var used' := used + q.usedTransitions;
    assert used' == Committed(t, m') by {
      CommittedAdd(t, m, state, (q.input, q.output));
    }
    assert forall s :: s in m' ==> Identifies(t, s, m'[s].0, m'[s].1) by {
      forall s | s in m' ensures Identifies(t, s, m'[s].0, m'[s].1) {
        if s != state {
          assert m'[s] == m[s];
        }
      }
    }
    assert PairwiseDisjoint(t, m') by {
      forall s1, s2 | s1 in m' && s2 in m' && s1 != s2
        ensures UsedEdges(t, s1, m'[s1].0) !! UsedEdges(t, s2, m'[s2].0)
      {
        if s1 == state {
          assert UsedEdges(t, s2, m[s2].0) <= Committed(t, m);
        } else if s2 == state {
          assert UsedEdges(t, s1, m[s1].0) <= Committed(t, m);
        } else {
          assert m'[s1] == m[s1] && m'[s2] == m[s2];
        }
      }
    }
    assert ShortestAgainst(t, m', used') by {
      forall s, w | s in m' && QualifyingInput(t, s, used', w) ensures |m'[s].0| <= |w| {
        assert QualifyingInput(t, s, used, w);
      }
    }
  }

  /**
   * One step of the inner assignment loop, whichever way
   * findUniqueSequenceForState decides: the invariant holds for the new map
   * and committed set, the state just visited joins the states done at the
   * current length, the committed set only grows and no assigned state is
   * reassigned.
   */
  lemma AssignStep(t: Table, m: Assignment, used: set<Edge>, state: State, maxLen: int,
                   done: seq<State>, done': seq<State>, m': Assignment, used': set<Edge>)
    requires WellFormed(t) && AssignmentInvariant(t, m, used)
    requires state in t && state !in m && 1 <= maxLen <= MAX_SEQUENCE_LENGTH - 1
    requires forall s :: s in done' <==> s in done || s == state
    requires forall s :: s in t && s !in m ==> NoneWithin(t, s, used, if s in done then maxLen else maxLen - 1)
    requires var found := Found(t, state, used, maxLen);
      if found == [] then used' == used && m' == m
      else
        var q := FindShortestSequence(found).value;
        m' == m[state := (q.input, q.output)] && used' == used + q.usedTransitions
    ensures AssignmentInvariant(t, m', used')
    ensures forall s :: s in t && s !in m' ==> NoneWithin(t, s, used', if s in done' then maxLen else maxLen - 1)
    ensures used <= used' && forall s :: s in m ==> s in m' && m'[s] == m[s]
  {
    SelectionMeaning(t, state, used, maxLen);
    if Found(t, state, used, maxLen) != [] {
      AssignStepKeepsInvariant(t, m, used, state, maxLen);
    }
    forall s | s in t && s !in m' ensures NoneWithin(t, s, used', if s in done' then maxLen else maxLen - 1) {
      NoneWithinGrows(t, s, used, used', if s in done' then maxLen else maxLen - 1);
    }
  }

  /** Collections.sort over the key set: the states in ascending order. */
  method SortedStates(keys: set<State>) returns (states: seq<State>)
    ensures forall i, j :: 0 <= i < j < |states| ==> states[i] < states[j]
    ensures forall s :: s in states <==> s in keys
  {
    states := [];
    var remaining := keys;
    while remaining != {}
      invariant remaining <= keys
      invariant forall s :: s in keys <==> s in states || s in remaining
      invariant forall s :: s in states ==> s !in remaining
      invariant forall i, j :: 0 <= i < j < |states| ==> states[i] < states[j]
      invariant forall i, s :: 0 <= i < |states| && s in remaining ==> states[i] < s
      decreases |remaining|
    {
      var least := Least(remaining);
      states := states + [least];
      remaining := remaining - {least};
    }
  }

  /** The smallest element of a non-empty set of states. */
  method Least(xs: set<State>) returns (m: State)
    requires xs != {}
    ensures m in xs && forall x :: x in xs ==> m <= x
  {
    m := Pick(xs);
    var rest := xs - {m};
    while rest != {}
      invariant rest <= xs && m in xs
      invariant forall x :: x in xs && x !in rest ==> m <= x
      decreases |rest|
    {
      var y := Pick(rest);
      if y < m {
        m := y;
      }
      rest := rest - {y};
    }
  }

  /**
   * findStateIdentifyingSequences. Every assigned state is a state of the
   * table whose pair replays, is unique and has 1 to 3 symbols; distinct
   * assigned states use disjoint transitions; every unassigned state has no
   * identifying input of at most 3 symbols clear of the committed transitions;
   * and no assigned input is longer than an input that qualifies against the
   * committed transitions.
   */
  method FindStateIdentifyingSequences(t: Table) returns (uniqueSequences: Assignment)
    requires WellFormed(t)
    ensures uniqueSequences.Keys <= t.Keys
    ensures forall s :: s in uniqueSequences ==> Identifies(t, s, uniqueSequences[s].0, uniqueSequences[s].1)
    ensures PairwiseDisjoint(t, uniqueSequences)
    ensures forall s :: s in t && s !in uniqueSequences ==>
      NoneWithin(t, s, Committed(t, uniqueSequences), MAX_SEQUENCE_LENGTH - 1)
    ensures ShortestAgainst(t, uniqueSequences, Committed(t, uniqueSequences))
  {
    uniqueSequences := map[];
    var usedTransitions: set<Edge> := {};
    var maxLen := 1;
    while maxLen < MAX_SEQUENCE_LENGTH
      invariant 1 <= maxLen <= MAX_SEQUENCE_LENGTH
      invariant AssignmentInvariant(t, uniqueSequences, usedTransitions)
      invariant forall s :: s in t && s !in uniqueSequences ==> NoneWithin(t, s, usedTransitions, maxLen - 1)
    {
      var states := SortedStates(t.Keys);
      var j := 0;
      while j < |states|
        invariant 0 <= j <= |states|
        invariant AssignmentInvariant(t, uniqueSequences, usedTransitions)
        invariant forall s :: s in t && s !in uniqueSequences ==>
          NoneWithin(t, s, usedTransitions, if s in states[..j] then maxLen else maxLen - 1)
      {
        var state := states[j];
        assert forall s :: s in states[..j + 1] <==> s in states[..j] || s == state by {
          assert states[..j + 1] == states[..j] + [state];
        }
        if state !in uniqueSequences {
          var used0, m0 := usedTransitions, uniqueSequences;
          usedTransitions, uniqueSequences := FindUniqueSequenceForState(state, t, usedTransitions, uniqueSequences, maxLen);
          assert AssignmentInvariant(t, uniqueSequences, usedTransitions) &&
            forall s :: s in t && s !in uniqueSequences ==>
              NoneWithin(t, s, usedTransitions, if s in states[..j + 1] then maxLen else maxLen - 1)
          by {
            AssignStep(t, m0, used0, state, maxLen, states[..j], states[..j + 1], uniqueSequences, usedTransitions);
          }
        }
        j := j + 1;
      }
      assert states[..j] == states;
      maxLen := maxLen + 1;
    }
  }
}
