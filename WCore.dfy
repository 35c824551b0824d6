/**
 * The W method's discrimination tree: grouping a block of states by one
 * (input, output) pair, choosing the most balanced split, building the tree
 * with one recorded step per split, and reading off each state's label path.
 */
module WCore {
  import opened Wrappers
  import opened Mealy
  import opened WTree

  /** Largest Java int; list sizes never exceed it. */
  const INT_MAX: int := 0x7fff_ffff

  /** A transition of the W table: the next state and the single output character. */
  datatype WTransition = WTransition(nextState: State, output: char)

  /** The table: state to (input character to transition). */
  type WTable = map<State, map<char, WTransition>>

  /** The record of one split: the block, the pair, and the two resulting groups by label. */
  datatype Step = Step(startingGroup: seq<State>, inputOutputPair: IOPair, resultingGroups: map<string, seq<State>>)

  // ---------------------------------------------------------------------------
  // createGroups
  // ---------------------------------------------------------------------------

  /** State s has a transition on p's input and it outputs p's output. */
  predicate Matches(t: WTable, s: State, p: IOPair) {
    s in t && p.input in t[s] && t[s][p.input].output == p.output
  }

  /** The states of block, in block order, whose answer to p is positive (or negative). */
  function Group(t: WTable, block: seq<State>, p: IOPair, positive: bool): seq<State>
    decreases |block|
  {
    if block == [] then []
    else
      var last := block[|block| - 1];
      Group(t, block[..|block| - 1], p, positive) + (if Matches(t, last, p) == positive then [last] else [])
  }

  /** A state is in a group exactly when it is in the block and answers p accordingly. */
  lemma {:induction false} GroupMembers(t: WTable, block: seq<State>, p: IOPair, positive: bool)
    ensures forall s :: s in Group(t, block, p, positive) <==> s in block && Matches(t, s, p) == positive
    decreases |block|
  {
    if block != [] {
      var init, last := block[..|block| - 1], block[|block| - 1];
      assert block == init + [last];
      GroupMembers(t, init, p, positive);
    }
  }

  /** The two groups split the block: every occurrence of a state lands in exactly one of them. */
  lemma {:induction false} GroupPartition(t: WTable, block: seq<State>, p: IOPair)
    ensures multiset(Group(t, block, p, true)) + multiset(Group(t, block, p, false)) == multiset(block)
    ensures |Group(t, block, p, true)| + |Group(t, block, p, false)| == |block|
    decreases |block|
  {
    if block != [] {
      var init, last := block[..|block| - 1], block[|block| - 1];
      assert block == init + [last];
      GroupPartition(t, init, p);
    }
  }

  /** The map createGroups returns. */
  function GroupsMap(t: WTable, block: seq<State>, p: IOPair): map<string, seq<State>> {
    map[PosLabel(p) := Group(t, block, p, true), NegLabel(p) := Group(t, block, p, false)]
  }

  method CreateGroups(statesToGroup: seq<State>, inputOutputPair: IOPair, t: WTable)
    returns (groups: map<string, seq<State>>)
    ensures groups == GroupsMap(t, statesToGroup, inputOutputPair)
  {
    var positiveGroup: seq<State> := [];
    var negativeGroup: seq<State> := [];
    var i := 0;
    while i < |statesToGroup|
      invariant 0 <= i <= |statesToGroup|
      invariant positiveGroup == Group(t, statesToGroup[..i], inputOutputPair, true)
      invariant negativeGroup == Group(t, statesToGroup[..i], inputOutputPair, false)
    {
      var state := statesToGroup[i];
      assert statesToGroup[..i + 1][..i] == statesToGroup[..i];
      if state in t && inputOutputPair.input in t[state] {
        var outputObtained := t[state][inputOutputPair.input].output;
        if outputObtained == inputOutputPair.output {
          positiveGroup := positiveGroup + [state];
        } else {
          negativeGroup := negativeGroup + [state];
        }
      } else {
        negativeGroup := negativeGroup + [state];
      }
      i := i + 1;
    }
    assert statesToGroup[..i] == statesToGroup;
    groups := map[PosLabel(inputOutputPair) := positiveGroup, NegLabel(inputOutputPair) := negativeGroup];
  }

  // ---------------------------------------------------------------------------
  // Choosing the split
  // ---------------------------------------------------------------------------

  /** Pair p leaves two non-empty groups. */
  predicate Splits(t: WTable, block: seq<State>, p: IOPair) {
    Group(t, block, p, true) != [] && Group(t, block, p, false) != []
  }

  function Min(a: int, b: int): int { if a <= b then a else b }
  function Max(a: int, b: int): int { if a >= b then a else b }

  /** (size of the smaller group, size of the larger group) under p. */
  function Score(t: WTable, block: seq<State>, p: IOPair): (int, int) {
    var a, b := |Group(t, block, p, true)|, |Group(t, block, p, false)|;
    (Min(a, b), Max(a, b))
  }

  /** The replacement test of the selection loop: a larger smaller group, or an equal one and a smaller larger group. */
  predicate Improves(sc: (int, int), best: (int, int)) {
    sc.0 > best.0 || (sc.0 == best.0 && sc.1 < best.1)
  }

  /** The score held before any pair is accepted. */
  function Initial(block: seq<State>): (int, int) {
    (0, |block|)
  }

  /** The variables of the selection loop: bestPair, bestGroups and bestPartition. */
  datatype Choice = Choice(bestPair: Option<IOPair>, bestGroups: map<string, seq<State>>, bestPartition: (int, int))

  /** One iteration of the selection loop on pair p. */
  function Consider(t: WTable, block: seq<State>, c: Choice, p: IOPair): Choice {
    if Splits(t, block, p) && Improves(Score(t, block, p), c.bestPartition)
    then Choice(Some(p), GroupsMap(t, block, p), Score(t, block, p))
    else c
  }

  /** The selection loop run over pairs in order. */
  function Scan(t: WTable, block: seq<State>, pairs: seq<IOPair>): Choice
    decreases |pairs|
  {
    if pairs == [] then Choice(None, map[], Initial(block))
    else Consider(t, block, Scan(t, block, pairs[..|pairs| - 1]), pairs[|pairs| - 1])
  }

  /** Every split pair scores better than the initial value: its smaller group is not empty. */
  lemma SplitBeatsInitial(t: WTable, block: seq<State>, p: IOPair)
    requires Splits(t, block, p)
    ensures Improves(Score(t, block, p), Initial(block))
  {
    GroupPartition(t, block, p);
  }

  /** The selection loop keeps no pair exactly when no pair splits the block. */
  lemma {:induction false} ScanNone(t: WTable, block: seq<State>, pairs: seq<IOPair>)
    ensures Scan(t, block, pairs).bestPair.None? <==> forall q :: q in pairs ==> !Splits(t, block, q)
    ensures Scan(t, block, pairs).bestPair.None? ==> Scan(t, block, pairs).bestPartition == Initial(block)
    decreases |pairs|
  {
    if pairs != [] {
      var n := |pairs| - 1;
      var init, last := pairs[..n], pairs[n];
      assert pairs == init + [last];
      ScanNone(t, block, init);
      if Splits(t, block, last) {
        SplitBeatsInitial(t, block, last);
      }
    }
  }

  /** A pair the selection loop keeps is one of the pairs, splits the block, and comes with its groups and score. */
  lemma {:induction false} ScanSome(t: WTable, block: seq<State>, pairs: seq<IOPair>)
    ensures Scan(t, block, pairs).bestPair.Some? ==>
      var p := Scan(t, block, pairs).bestPair.value;
      && p in pairs
      && Splits(t, block, p)
      && Scan(t, block, pairs).bestGroups == GroupsMap(t, block, p)
      && Scan(t, block, pairs).bestPartition == Score(t, block, p)
    decreases |pairs|
  {
    if pairs != [] {
      var n := |pairs| - 1;
      var init, last := pairs[..n], pairs[n];
      assert pairs == init + [last];
      ScanSome(t, block, init);
    }
  }

  /** No pair scores better than the pair the selection loop keeps. */
  lemma {:induction false} ScanOptimal(t: WTable, block: seq<State>, pairs: seq<IOPair>)
    ensures Scan(t, block, pairs).bestPair.Some? ==>
      forall q :: q in pairs && Splits(t, block, q) ==>
        !Improves(Score(t, block, q), Score(t, block, Scan(t, block, pairs).bestPair.value))
    decreases |pairs|
  {
    if pairs != [] {
      var n := |pairs| - 1;
      var init, last := pairs[..n], pairs[n];
      assert pairs == init + [last];
      ScanOptimal(t, block, init);
      ScanSome(t, block, init);
      ScanNone(t, block, init);
    }
  }

  /**
   * The kept pair scores strictly better than every split pair before its
   * first occurrence: of equally good pairs the first one wins.
   */
  lemma {:induction false} ScanFirst(t: WTable, block: seq<State>, pairs: seq<IOPair>)
    ensures Scan(t, block, pairs).bestPair.Some? ==>
      var p := Scan(t, block, pairs).bestPair.value;
      exists k :: 0 <= k < |pairs| && pairs[k] == p &&
        forall j :: 0 <= j < k && Splits(t, block, pairs[j]) ==> Improves(Score(t, block, p), Score(t, block, pairs[j]))
    decreases |pairs|
  {
    if pairs != [] {
      var n := |pairs| - 1;
      var init, last := pairs[..n], pairs[n];
      assert pairs == init + [last];
      assert forall j :: 0 <= j < n ==> pairs[j] == init[j];
      ScanFirst(t, block, init);
      ScanOptimal(t, block, init);
      ScanSome(t, block, init);
      ScanNone(t, block, init);
      var prev := Scan(t, block, init);
      if Splits(t, block, last) && Improves(Score(t, block, last), prev.bestPartition) {
        assert Scan(t, block, pairs).bestPair == Some(last);
        forall j | 0 <= j < n && Splits(t, block, pairs[j])
          ensures Improves(Score(t, block, last), Score(t, block, pairs[j]))
        {
          assert init[j] in init;
        }
        assert pairs[n] == last;
      } else if prev.bestPair.Some? {
        var p := prev.bestPair.value;
        var k :| 0 <= k < |init| && init[k] == p &&
          forall j :: 0 <= j < k && Splits(t, block, init[j]) ==> Improves(Score(t, block, p), Score(t, block, init[j]));
        assert pairs[k] == p;
      }
    }
  }

  /**
   * Because both groups of a split are non-empty and add up to the block, the
   * two sizes add up to the block's size; so among split pairs a tie on the
   * smaller group is a tie on the larger one and the second criterion never decides.
   */
  lemma ScoresSumToBlock(t: WTable, block: seq<State>, p: IOPair, q: IOPair)
    requires Splits(t, block, p) && Splits(t, block, q)
    ensures Score(t, block, p).0 + Score(t, block, p).1 == |block|
    ensures Improves(Score(t, block, q), Score(t, block, p)) <==> Score(t, block, q).0 > Score(t, block, p).0
  {
    GroupPartition(t, block, p);
    GroupPartition(t, block, q);
  }

  /** The smallest size in gs (INT_MAX for none), as the size loop computes it. */
  function MinSize(gs: seq<seq<State>>): int {
    if gs == [] then INT_MAX else Min(MinSize(gs[..|gs| - 1]), |gs[|gs| - 1]|)
  }

  /** The largest size in gs (0 for none). */
  function MaxSize(gs: seq<seq<State>>): int {
    if gs == [] then 0 else Max(MaxSize(gs[..|gs| - 1]), |gs[|gs| - 1]|)
  }

  /** The size loop over two groups. */
  lemma SizesOfTwo(a: seq<State>, b: seq<State>)
    requires |a| <= INT_MAX
    ensures MinSize([a, b]) == Min(|a|, |b|) && MaxSize([a, b]) == Max(|a|, |b|)
  {
    var one, two := [a], [a, b];
    assert two[..|two| - 1] == one && one[..|one| - 1] == [];
    assert MinSize(one) == |a| && MaxSize(one) == |a|;
  }

  /** The non-empty groups of g: what removeIf leaves. */
  function NonEmpty(g: map<string, seq<State>>): map<string, seq<State>> {
    map l | l in g && g[l] != [] :: g[l]
  }

  /** After removing empty groups, more than one group is left exactly when p splits the block. */
  lemma NonEmptyGroups(t: WTable, block: seq<State>, p: IOPair)
    ensures |NonEmpty(GroupsMap(t, block, p))| > 1 <==> Splits(t, block, p)
    ensures Splits(t, block, p) ==> NonEmpty(GroupsMap(t, block, p)) == GroupsMap(t, block, p)
  {
    var g := GroupsMap(t, block, p);
    var f := NonEmpty(g);
    var pos, neg := PosLabel(p), NegLabel(p);
    assert pos != neg;
    if Group(t, block, p, true) == [] && Group(t, block, p, false) == [] {
      assert f.Keys == {};
    } else if Group(t, block, p, true) == [] {
      assert f.Keys == {neg};
    } else if Group(t, block, p, false) == [] {
      assert f.Keys == {pos};
    } else {
      assert f.Keys == {pos, neg};
      assert f == g;
    }
  }

  // ---------------------------------------------------------------------------
  // The tree
  // ---------------------------------------------------------------------------

  /** The tree buildTree builds for block, scanning the pairs in the given order. */
  function BuildTreeSpec(t: WTable, pairs: seq<IOPair>, block: seq<State>): DTree
    decreases |block|
  {
    if |block| <= 1 then Leaf(block)
    else
      match Scan(t, block, pairs).bestPair
      case None => Leaf(block)
      case Some(p) =>
        if Splits(t, block, p) then
          GroupPartition(t, block, p);
          Split(block, p, BuildTreeSpec(t, pairs, Group(t, block, p, true)),
                          BuildTreeSpec(t, pairs, Group(t, block, p, false)))
        else Leaf(block)
  }

  /**
   * A block of two or more states on which the selection loop keeps a pair
   * is split by it into two smaller groups, and its steps are the split's
   * step followed by the steps of the two subtrees.
   */
  lemma BuildTreeSpecSplits(t: WTable, pairs: seq<IOPair>, block: seq<State>)
    requires |block| > 1 && Scan(t, block, pairs).bestPair.Some?
    ensures var p := Scan(t, block, pairs).bestPair.value;
      var yes, no := Group(t, block, p, true), Group(t, block, p, false);
      && Scan(t, block, pairs).bestGroups == GroupsMap(t, block, p)
      && |yes| < |block| && |no| < |block|
      && BuildTreeSpec(t, pairs, block) == Split(block, p, BuildTreeSpec(t, pairs, yes), BuildTreeSpec(t, pairs, no))
      && StepsOf(BuildTreeSpec(t, pairs, block)) ==
         [Step(block, p, GroupsMap(t, block, p))] + StepsOf(BuildTreeSpec(t, pairs, yes)) + StepsOf(BuildTreeSpec(t, pairs, no))
  {
    ScanSome(t, block, pairs);
    var p := Scan(t, block, pairs).bestPair.value;
    GroupPartition(t, block, p);
    BuildTreeSpecStates(t, pairs, Group(t, block, p, true));
    BuildTreeSpecStates(t, pairs, Group(t, block, p, false));
  }

  /** The tree built for a block has that block at its root. */
  lemma BuildTreeSpecStates(t: WTable, pairs: seq<IOPair>, block: seq<State>)
    ensures BuildTreeSpec(t, pairs, block).states == block
  {
  }

  /** The steps buildTree records for a tree: one per split, in pre-order, matching branch first. */
  function StepsOf(tree: DTree): seq<Step> {
    match tree
    case Leaf(_) => []
    case Split(ss, p, a, b) =>
      [Step(ss, p, map[PosLabel(p) := a.states, NegLabel(p) := b.states])] + StepsOf(a) + StepsOf(b)
  }

  /** Each split's subtrees hold exactly the split's two groups, in block order. */
  ghost predicate Partitioned(t: WTable, tree: DTree) {
    match tree
    case Leaf(_) => true
    case Split(ss, p, a, b) =>
      && a.states == Group(t, ss, p, true) && b.states == Group(t, ss, p, false)
      && Partitioned(t, a) && Partitioned(t, b)
  }

  /**
   * The choices made in a tree over the pair set: a leaf holds at most one
   * state or a block no pair splits; a split uses a pair of the set that
   * splits its block and no pair of the set scores better.
   */
  ghost predicate Chosen(t: WTable, pairs: set<IOPair>, tree: DTree) {
    match tree
    case Leaf(ss) => |ss| <= 1 || forall q :: q in pairs ==> !Splits(t, ss, q)
    case Split(ss, p, a, b) =>
      && p in pairs
      && Splits(t, ss, p)
      && (forall q :: q in pairs && Splits(t, ss, q) ==> !Improves(Score(t, ss, q), Score(t, ss, p)))
      && Chosen(t, pairs, a) && Chosen(t, pairs, b)
  }

  /** A correctly built tree over the pair set. */
  ghost predicate WellBuilt(t: WTable, pairs: set<IOPair>, tree: DTree) {
    Partitioned(t, tree) && Chosen(t, pairs, tree)
  }

  lemma {:induction false} BuildTreeSpecWellBuilt(t: WTable, pairs: seq<IOPair>, block: seq<State>)
    ensures BuildTreeSpec(t, pairs, block).states == block
    ensures WellBuilt(t, (set q | q in pairs), BuildTreeSpec(t, pairs, block))
    decreases |block|
  {
    if |block| > 1 {
      ScanSome(t, block, pairs);
      ScanOptimal(t, block, pairs);
      ScanNone(t, block, pairs);
      var c := Scan(t, block, pairs);
      if c.bestPair.Some? {
        var p := c.bestPair.value;
        GroupPartition(t, block, p);
        BuildTreeSpecWellBuilt(t, pairs, Group(t, block, p, true));
        BuildTreeSpecWellBuilt(t, pairs, Group(t, block, p, false));
      }
    }
  }

  /** The states of the leaves, left to right. */
  function LeafStates(tree: DTree): seq<State> {
    match tree
    case Leaf(ss) => ss
    case Split(_, _, a, b) => LeafStates(a) + LeafStates(b)
  }

  /** The leaves of a correctly built tree partition its root block, and there are fewer splits than states. */
  lemma {:induction false} LeavesPartition(t: WTable, pairs: set<IOPair>, tree: DTree)
    requires WellBuilt(t, pairs, tree)
    ensures multiset(LeafStates(tree)) == multiset(tree.states)
    ensures tree.states != [] ==> |StepsOf(tree)| < |tree.states|
  {
    match tree
    case Leaf(_) =>
    case Split(ss, p, a, b) =>
      GroupPartition(t, ss, p);
      LeavesPartition(t, pairs, a);
      LeavesPartition(t, pairs, b);
  }

  /** Every recorded step splits its starting group into its two non-empty, labelled groups. */
  lemma {:induction false} StepsSound(t: WTable, pairs: set<IOPair>, tree: DTree)
    requires WellBuilt(t, pairs, tree)
    ensures forall st :: st in StepsOf(tree) ==>
      && st.inputOutputPair in pairs
      && Splits(t, st.startingGroup, st.inputOutputPair)
      && st.resultingGroups == GroupsMap(t, st.startingGroup, st.inputOutputPair)
  {
    match tree
    case Leaf(_) =>
    case Split(ss, p, a, b) =>
      StepsSound(t, pairs, a);
      StepsSound(t, pairs, b);
  }

  /** The labels a state's own answers select from the root down to its leaf. */
  function Follow(t: WTable, tree: DTree, s: State): seq<string> {
    match tree
    case Leaf(_) => []
    case Split(_, p, a, b) =>
      if Matches(t, s, p) then [PosLabel(p)] + Follow(t, a, s) else [NegLabel(p)] + Follow(t, b, s)
  }

  /** The states of the leaf a state's answers lead to. */
  function LeafOf(t: WTable, tree: DTree, s: State): seq<State> {
    match tree
    case Leaf(ss) => ss
    case Split(_, p, a, b) => if Matches(t, s, p) then LeafOf(t, a, s) else LeafOf(t, b, s)
  }

  /** A state of the block reaches a leaf that holds it, and that leaf holds only states of the block. */
  lemma {:induction false} LeafOfWithin(t: WTable, tree: DTree, s: State)
    requires Partitioned(t, tree) && s in tree.states
    ensures s in LeafOf(t, tree, s)
    ensures forall x :: x in LeafOf(t, tree, s) ==> x in tree.states
  {
    match tree
    case Leaf(_) =>
    case Split(ss, p, a, b) =>
      GroupMembers(t, ss, p, true);
      GroupMembers(t, ss, p, false);
      if Matches(t, s, p) {
        LeafOfWithin(t, a, s);
      } else {
        LeafOfWithin(t, b, s);
      }
  }

  /** Prepending the same label keeps sequences apart exactly when they were apart. */
  lemma PrependInjective(l: string, u: seq<string>, v: seq<string>)
    ensures [l] + u == [l] + v <==> u == v
  {
    if [l] + u == [l] + v {
      assert u == ([l] + u)[1..];
      assert v == ([l] + v)[1..];
    }
  }

  /**
   * Two states of the block answer identically along the tree exactly when
   * they end in the same leaf: states in different leaves are told apart by
   * some pair on the path.
   */
  lemma {:induction false} FollowIdentifiesLeaf(t: WTable, tree: DTree, s: State, s': State)
    requires Partitioned(t, tree) && s in tree.states && s' in tree.states
    ensures Follow(t, tree, s) == Follow(t, tree, s') <==> s' in LeafOf(t, tree, s)
  {
    match tree
    case Leaf(_) =>
    case Split(ss, p, a, b) =>
      GroupMembers(t, ss, p, true);
      GroupMembers(t, ss, p, false);
      var pos, neg := PosLabel(p), NegLabel(p);
      if Matches(t, s, p) && Matches(t, s', p) {
        FollowIdentifiesLeaf(t, a, s, s');
        PrependInjective(pos, Follow(t, a, s), Follow(t, a, s'));
      } else if !Matches(t, s, p) && !Matches(t, s', p) {
        FollowIdentifiesLeaf(t, b, s, s');
        PrependInjective(neg, Follow(t, b, s), Follow(t, b, s'));
      } else if Matches(t, s, p) {
        assert Follow(t, tree, s)[0] == pos && Follow(t, tree, s')[0] == neg;
        LeafOfWithin(t, a, s);
      } else {
        assert Follow(t, tree, s)[0] == neg && Follow(t, tree, s')[0] == pos;
        LeafOfWithin(t, b, s);
      }
  }

  /** Every state of ss mapped to v. */
  function Keyed(ss: seq<State>, v: seq<string>): map<State, seq<string>> {
    map s | s in ss :: v
  }

  /** The discrimination sequences below a node reached with prefix: each leaf state gets its path. */
  function Paths(tree: DTree, prefix: seq<string>): map<State, seq<string>> {
    match tree
    case Leaf(ss) => Keyed(ss, prefix)
    case Split(_, p, a, b) => Paths(a, prefix + [PosLabel(p)]) + Paths(b, prefix + [NegLabel(p)])
  }

  /** The keys of the discrimination sequences are the states of the leaves. */
  lemma {:induction false} PathsKeys(tree: DTree, prefix: seq<string>)
    ensures forall s :: s in Paths(tree, prefix) <==> s in LeafStates(tree)
  {
    match tree
    case Leaf(ss) =>
    case Split(_, p, a, b) =>
      PathsKeys(a, prefix + [PosLabel(p)]);
      PathsKeys(b, prefix + [NegLabel(p)]);
  }

  /** In a partitioned tree the states of the leaves are the states of the root. */
  lemma {:induction false} LeafStatesAreStates(t: WTable, tree: DTree)
    requires Partitioned(t, tree)
    ensures forall s :: s in LeafStates(tree) <==> s in tree.states
  {
    match tree
    case Leaf(_) =>
    case Split(ss, p, a, b) =>
      GroupMembers(t, ss, p, true);
      GroupMembers(t, ss, p, false);
      LeafStatesAreStates(t, a);
      LeafStatesAreStates(t, b);
  }

  /**
   * In a partitioned tree every root state is a key of the discrimination
   * sequences, and its sequence is the prefix followed by its own answers.
   */
  lemma {:induction false} PathsAreAnswers(t: WTable, tree: DTree, prefix: seq<string>)
    requires Partitioned(t, tree)
    ensures forall s :: s in Paths(tree, prefix) <==> s in tree.states
    ensures forall s :: s in tree.states ==> Paths(tree, prefix)[s] == prefix + Follow(t, tree, s)
  {
    PathsKeys(tree, prefix);
    LeafStatesAreStates(t, tree);
    match tree
    case Leaf(ss) =>
    case Split(ss, p, a, b) =>
      var pa, pb := prefix + [PosLabel(p)], prefix + [NegLabel(p)];
      PathsAreAnswers(t, a, pa);
      PathsAreAnswers(t, b, pb);
      GroupMembers(t, ss, p, true);
      GroupMembers(t, ss, p, false);
      forall s | s in ss ensures Paths(tree, prefix)[s] == prefix + Follow(t, tree, s) {
        PathAt(t, ss, p, a, b, prefix, s);
      }
  }


  /** One step of PathsAreAnswers: the value at s of a split's sequences. */
  lemma PathAt(t: WTable, ss: seq<State>, p: IOPair, a: DTree, b: DTree, prefix: seq<string>, s: State)
    requires s in a.states <==> Matches(t, s, p)
    requires s in b.states <==> !Matches(t, s, p)
    requires s in Paths(a, prefix + [PosLabel(p)]) <==> s in a.states
    requires s in Paths(b, prefix + [NegLabel(p)]) <==> s in b.states
    requires s in a.states ==> Paths(a, prefix + [PosLabel(p)])[s] == prefix + [PosLabel(p)] + Follow(t, a, s)
    requires s in b.states ==> Paths(b, prefix + [NegLabel(p)])[s] == prefix + [NegLabel(p)] + Follow(t, b, s)
    ensures s in Paths(Split(ss, p, a, b), prefix)
    ensures Paths(Split(ss, p, a, b), prefix)[s] == prefix + Follow(t, Split(ss, p, a, b), s)
  {
    var pa, pb := prefix + [PosLabel(p)], prefix + [NegLabel(p)];
    assert Paths(Split(ss, p, a, b), prefix) == Paths(a, pa) + Paths(b, pb);
    if Matches(t, s, p) {
      var rest := Follow(t, a, s);
      assert Follow(t, Split(ss, p, a, b), s) == [PosLabel(p)] + rest;
      Associates(prefix, [PosLabel(p)], rest);
    } else {
      var rest := Follow(t, b, s);
      assert Follow(t, Split(ss, p, a, b), s) == [NegLabel(p)] + rest;
      Associates(prefix, [NegLabel(p)], rest);
    }
  }

  /**
   * What extractDiscriminationSequences promises for a partitioned tree:
   * every root state has a sequence, and two root states get equal sequences
   * exactly when they share a leaf.
   */
  lemma SequencesIdentifyLeaves(t: WTable, tree: DTree, s: State, s': State)
    requires Partitioned(t, tree) && s in tree.states && s' in tree.states
    ensures s in Paths(tree, []) && s' in Paths(tree, [])
    ensures Paths(tree, [])[s] == Paths(tree, [])[s'] <==> s' in LeafOf(t, tree, s)
  {
    PathsAreAnswers(t, tree, []);
    FollowIdentifiesLeaf(t, tree, s, s');
    assert [] + Follow(t, tree, s) == Follow(t, tree, s);
    assert [] + Follow(t, tree, s') == Follow(t, tree, s');
  }

  // ---------------------------------------------------------------------------
  // buildTree, traverseTree, extractDiscriminationSequences, executeAlgorithm
  // ---------------------------------------------------------------------------

  /** The size loop: the smallest and the largest size among the groups. */
  method SmallestLargest(groups: seq<seq<State>>) returns (smallest: int, largest: int)
    ensures smallest == MinSize(groups) && largest == MaxSize(groups)
  {
    smallest, largest := INT_MAX, 0;
    var i := 0;
    while i < |groups|
      invariant 0 <= i <= |groups|
      invariant smallest == MinSize(groups[..i]) && largest == MaxSize(groups[..i])
    {
      assert groups[..i + 1][..i] == groups[..i];
      smallest := Min(smallest, |groups[i]|);
      largest := Max(largest, |groups[i]|);
      i := i + 1;
    }
    assert groups[..i] == groups;
  }

  /** One iteration of the selection loop of buildTree. */
  method ConsiderPair(currentStates: seq<State>, inputOutputPair: IOPair, t: WTable, choice: Choice)
    returns (choice': Choice)
    requires |currentStates| <= INT_MAX
    ensures choice' == Consider(t, currentStates, choice, inputOutputPair)
  {
    choice' := choice;
    var groups := CreateGroups(currentStates, inputOutputPair, t);
    groups := NonEmpty(groups);
    NonEmptyGroups(t, currentStates, inputOutputPair);
    assert groups == NonEmpty(GroupsMap(t, currentStates, inputOutputPair));
    if |groups| > 1 {
      GroupPartition(t, currentStates, inputOutputPair);
      var positive, negative := groups[PosLabel(inputOutputPair)], groups[NegLabel(inputOutputPair)];
      var values := [positive, negative];
      var smallest, largest := SmallestLargest(values);
      SizesOfTwo(positive, negative);
      assert (smallest, largest) == Score(t, currentStates, inputOutputPair);
      if smallest > choice.bestPartition.0 || (smallest == choice.bestPartition.0 && largest < choice.bestPartition.1) {
        choice' := Choice(Some(inputOutputPair), groups, (smallest, largest));
      }
    }
  }

  /** The selection loop of buildTree over the pairs in iteration order. */
  method SelectPair(currentStates: seq<State>, inputOutputPairs: seq<IOPair>, t: WTable)
    returns (bestPair: Option<IOPair>, bestGroups: map<string, seq<State>>)
    requires |currentStates| <= INT_MAX
    ensures bestPair == Scan(t, currentStates, inputOutputPairs).bestPair
    ensures bestGroups == Scan(t, currentStates, inputOutputPairs).bestGroups
  {
    var choice := Choice(None, map[], Initial(currentStates));
    var k := 0;
    while k < |inputOutputPairs|
      invariant 0 <= k <= |inputOutputPairs|
      invariant choice == Scan(t, currentStates, inputOutputPairs[..k])
    {
      assert inputOutputPairs[..k + 1][..k] == inputOutputPairs[..k];
      choice := ConsiderPair(currentStates, inputOutputPairs[k], t, choice);
      k := k + 1;
    }
    assert inputOutputPairs[..k] == inputOutputPairs;
    bestPair, bestGroups := choice.bestPair, choice.bestGroups;
  }

  method BuildTree(currentStates: seq<State>, inputOutputPairs: seq<IOPair>, t: WTable, steps: seq<Step>)
    returns (node: Node, steps': seq<Step>)
    requires |currentStates| <= INT_MAX
    ensures fresh(node.Repr) && node.Valid() && node.Shaped()
    ensures node.Abs() == BuildTreeSpec(t, inputOutputPairs, currentStates)
    ensures steps' == steps + StepsOf(BuildTreeSpec(t, inputOutputPairs, currentStates))
    decreases |currentStates|
  {
    if |currentStates| <= 1 {
      node := new Node(currentStates, None, true);
      return node, steps;
    }
    var bestPair, bestGroups := SelectPair(currentStates, inputOutputPairs, t);
    if bestPair.None? {
      node := new Node(currentStates, None, true);
      return node, steps;
    }
    var p := bestPair.value;
    BuildTreeSpecSplits(t, inputOutputPairs, currentStates);
    var matching, other := PosLabel(p), NegLabel(p);
    ghost var yes, no := Group(t, currentStates, p, true), Group(t, currentStates, p, false);
    assert bestGroups[matching] == yes && bestGroups[other] == no;
    steps' := steps + [Step(currentStates, p, bestGroups)];
    var childMatching, childOther;
    childMatching, steps' := BuildTree(bestGroups[matching], inputOutputPairs, t, steps');
    ghost var reprMatching, treeMatching := childMatching.Repr, childMatching.Abs();
    assert fresh(reprMatching);
    label beforeOther:
    childOther, steps' := BuildTree(bestGroups[other], inputOutputPairs, t, steps');
    ghost var reprOther, treeOther := childOther.Repr, childOther.Abs();
    assert fresh(reprOther) && reprMatching !! reprOther;
    assert childMatching.Repr == reprMatching && unchanged@beforeOther(reprMatching);
    assert childMatching.Valid() && childMatching.Shaped() && childMatching.Abs() == treeMatching;
    node := MakeSplit(currentStates, p, childMatching, childOther);
    ghost var st := [Step(currentStates, p, bestGroups)];
    Associates(steps + st, StepsOf(treeMatching), StepsOf(treeOther));
    Associates(steps, st, StepsOf(treeMatching) + StepsOf(treeOther));
    Associates(st, StepsOf(treeMatching), StepsOf(treeOther));
    assert fresh({node} + reprMatching + reprOther);
  }


  /** The node buildTree makes for a split block: its pair, and the two children under their labels. */
  method MakeSplit(states: seq<State>, p: IOPair, childMatching: Node, childOther: Node) returns (node: Node)
    requires childMatching.Valid() && childMatching.Shaped() && childOther.Valid() && childOther.Shaped()
    requires childMatching.Repr !! childOther.Repr
    ensures fresh(node) && node.Repr == {node} + old(childMatching.Repr) + old(childOther.Repr)
    ensures node.Valid() && node.Shaped()
    ensures node.Abs() == Split(states, p, old(childMatching.Abs()), old(childOther.Abs()))
  {
    node := new Node(states, Some(p), false);
    node.AddGroup(PosLabel(p), childMatching);
    childOther.Unchanged();
    node.AddGroup(NegLabel(p), childOther);
    childMatching.Unchanged();
    childOther.Unchanged();
    assert node.groups == map[PosLabel(p) := childMatching, NegLabel(p) := childOther];
    assert node.groups.Keys == {PosLabel(p), NegLabel(p)};
  }

  /** The leaf loop of traverseTree: every state of the leaf gets the current sequence. */
  method PutAll(states: seq<State>, currentSequence: seq<string>, sequences: map<State, seq<string>>)
    returns (sequences': map<State, seq<string>>)
    ensures sequences' == sequences + Keyed(states, currentSequence)
  {
    sequences' := sequences;
    var i := 0;
    while i < |states|
      invariant 0 <= i <= |states|
      invariant sequences' == sequences + Keyed(states[..i], currentSequence)
    {
      LeafStep(sequences, states, i, currentSequence);
      sequences' := sequences'[states[i] := currentSequence];
      i := i + 1;
    }
    assert states[..i] == states;
  }

  /** One iteration of the leaf loop: the next state joins the keys given the current sequence. */
  lemma LeafStep(sequences: map<State, seq<string>>, states: seq<State>, i: nat, v: seq<string>)
    requires i < |states|
    ensures (sequences + Keyed(states[..i], v))[states[i] := v] == sequences + Keyed(states[..i + 1], v)
  {
    assert forall s :: s in states[..i + 1] <==> s in states[..i] || s == states[i] by {
      assert states[..i + 1] == states[..i] + [states[i]];
    }
  }

  method TraverseTree(node: Node, currentSequence: seq<string>, sequences: map<State, seq<string>>)
    returns (sequences': map<State, seq<string>>)
    requires node.Valid() && node.Shaped()
    ensures sequences' == sequences + Paths(node.Abs(), currentSequence)
    decreases node.Repr
  {
    if node.terminal {
      sequences' := PutAll(node.states, currentSequence, sequences);
      return;
    }
    var p := node.inputOutputPair.value;
    var matching, other := PosLabel(p), NegLabel(p);
    var a, b := node.groups[matching], node.groups[other];
    assert a.Repr < node.Repr && b.Repr < node.Repr;
    ghost var treeA, treeB, tree := a.Abs(), b.Abs(), node.Abs();
    ghost var pathsA := Paths(treeA, currentSequence + [matching]);
    ghost var pathsB := Paths(treeB, currentSequence + [other]);
    assert Paths(tree, currentSequence) == pathsA + pathsB;
    var afterA := TraverseTree(a, currentSequence + [matching], sequences);
    assert unchanged(node.Repr) && a.Abs() == treeA;
    sequences' := TraverseTree(b, currentSequence + [other], afterA);
    assert unchanged(node.Repr) && b.Abs() == treeB && node.Abs() == tree;
    UnionAssociates(sequences, pathsA, pathsB);
  }

  /** Map union, where the right operand wins, associates. */
  lemma UnionAssociates(m1: map<State, seq<string>>, m2: map<State, seq<string>>, m3: map<State, seq<string>>)
    ensures (m1 + m2) + m3 == m1 + (m2 + m3)
  {
  }

  method ExtractDiscriminationSequences(tree: Node) returns (sequences: map<State, seq<string>>)
    requires tree.Valid() && tree.Shaped()
    ensures sequences == Paths(tree.Abs(), [])
  {
    sequences := TraverseTree(tree, [], map[]);
  }

  /** The (input, output) pairs of all transitions of the table. */
  ghost function PairsOf(t: WTable): set<IOPair> {
    set s, c | s in t && c in t[s] :: IOPair(c, t[s][c].output)
  }

  /** The pairs the collection loop has seen after the states of done. */
  ghost function PairsFrom(t: WTable, done: seq<State>): set<IOPair> {
    set s, c | s in done && s in t && c in t[s] :: IOPair(c, t[s][c].output)
  }

  /** Lines up the elements of a set in the order an iteration visits them. */
  method ListOf<T>(xs: set<T>) returns (list: seq<T>)
    ensures forall x :: x in list <==> x in xs
    ensures forall i, j :: 0 <= i < j < |list| ==> list[i] != list[j]
    ensures |list| == |xs|
  {
    list := [];
    var remaining := xs;
    while remaining != {}
      invariant remaining <= xs
      invariant forall x :: x in xs <==> x in list || x in remaining
      invariant forall x :: x in list ==> x !in remaining
      invariant forall i, j :: 0 <= i < j < |list| ==> list[i] != list[j]
      invariant |list| + |remaining| == |xs|
      decreases |remaining|
    {
      var x := Pick(remaining);
      list := list + [x];
      remaining := remaining - {x};
    }
  }

  /** The pair-collection loop of executeAlgorithm. */
  method CollectPairs(states: seq<State>, t: WTable) returns (inputOutputPairs: set<IOPair>)
    requires forall s :: s in states ==> s in t
    ensures inputOutputPairs == PairsFrom(t, states)
  {
    inputOutputPairs := {};
    var i := 0;
    while i < |states|
      invariant 0 <= i <= |states|
      invariant inputOutputPairs == PairsFrom(t, states[..i])
    {
      var state := states[i];
      assert forall s :: s in states[..i + 1] <==> s in states[..i] || s == state by {
        assert states[..i + 1] == states[..i] + [state];
      }
      var stateTrans := t[state];
      var entries := stateTrans.Keys;
      var seen: set<IOPair> := {};
      while entries != {}
        invariant entries <= stateTrans.Keys
        invariant seen == set c | c in stateTrans && c !in entries :: IOPair(c, stateTrans[c].output)
        decreases |entries|
      {
        var input := Pick(entries);
        seen := seen + {IOPair(input, stateTrans[input].output)};
        entries := entries - {input};
      }
      assert PairsFrom(t, states[..i + 1]) == PairsFrom(t, states[..i]) + seen;
      inputOutputPairs := inputOutputPairs + seen;
      i := i + 1;
    }
    assert states[..i] == states;
  }

  /**
   * executeAlgorithm: the root block is the table's states (each once), the
   * pairs are those of the table's transitions, and the result is a correctly
   * built tree over them with one step per split. The orders of the key set
   * and of the pair set are whatever their iterations yield, but one pair
   * order serves every level of the tree.
   */
  method ExecuteAlgorithm(t: WTable) returns (tree: Node, steps: seq<Step>)
    requires |t| <= INT_MAX
    ensures fresh(tree.Repr) && tree.Valid() && tree.Shaped()
    ensures forall s :: s in tree.states <==> s in t
    ensures forall i, j :: 0 <= i < j < |tree.states| ==> tree.states[i] != tree.states[j]
    ensures WellBuilt(t, PairsOf(t), tree.Abs())
    ensures steps == StepsOf(tree.Abs())
    ensures BuiltWithOneOrder(t, tree.Abs())
  {
    var states := ListOf(t.Keys);
    var pairSet := CollectPairs(states, t);
    PairsFromAll(t, states);
    var inputOutputPairs := ListOf(pairSet);
    ghost var pairs := set q | q in inputOutputPairs;
    assert pairs == PairsOf(t) by {
      assert forall q :: q in pairs <==> q in pairSet;
    }
    tree, steps := BuildTree(states, inputOutputPairs, t, []);
    ghost var abs := tree.Abs();
    BuildTreeSpecWellBuilt(t, inputOutputPairs, states);
    assert BuiltWithOneOrder(t, abs) by {
      assert abs.states == states;
      assert pairs == PairsOf(t) && abs == BuildTreeSpec(t, inputOutputPairs, abs.states);
    }
  }

  /** The collection loop over all states of the table sees every transition's pair. */
  lemma PairsFromAll(t: WTable, states: seq<State>)
    requires forall s :: s in states <==> s in t
    ensures PairsFrom(t, states) == PairsOf(t)
  {
  }

  /**
   * The tree is the one buildTree builds for its root block when every level
   * scans the table's pairs in one and the same order.
   */
  ghost predicate BuiltWithOneOrder(t: WTable, tree: DTree) {
    exists ps: seq<IOPair> :: (set q | q in ps) == PairsOf(t) && tree == BuildTreeSpec(t, ps, tree.states)
  }
}
