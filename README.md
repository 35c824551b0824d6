# Test-sequence algorithms over a Mealy machine, in Dafny

This project models the algorithmic core of a small Java toolkit. The toolkit
derives test sequences from the transition table of a deterministic Mealy
machine, in three parts.

- **Replay** (module `Mealy`). `executeSequence` walks an input string from a
  start state and concatenates the outputs. If some step has no transition it
  yields nothing: the source's `null`, modelled as `None`.
  `getUsedTransitions` and `getDetailedTransitions` walk the same way. They
  collect the `(state, symbol)` pairs visited and the full step records. On a
  missing transition they skip the symbol and stay in the same state.
- **UIO search** (module `Uio`). This covers `explore`,
  `getAllSequencesForState`, `isSequenceUniqueForState`,
  `findUniqueSequenceForState`, `findShortestSequence` and
  `findStateIdentifyingSequences`, with the bound
  `MAX_SEQUENCE_LENGTH = 4`. The search enumerates every input of length
  1..maxLen depth first and keeps the inputs that identify the state against
  all other states. It picks the first shortest one. It then forbids that
  input's transitions to every later state. Lengths 1, 2 and 3 are tried in
  turn, and within each length the states go in ascending order.
- **W method** (modules `WTree` and `WCore`). `Node` is the
  discrimination-tree class; `createGroups`, `buildTree`, `executeAlgorithm`,
  `extractDiscriminationSequences` and `traverseTree` are modelled too. A
  block of states is split by the (input, output) pair that makes the smaller
  of its two groups largest. Each split records a `Step`. Each state then
  receives the branch labels on its root-to-leaf path.

Two `StateMachine` classes carry the replay and UIO code with identical logic:

- `src/main/java/fr/corentin/uiosequence/StateMachine.java`;
- `src/main/java/fr/corentin/StateMachine.java`, whose ranges are
  executeSequence 45-70, getUsedTransitions 90-111,
  getDetailedTransitions 131-150, getAllSequencesForState 170-178,
  explore 202-239, isSequenceUniqueForState 258-271,
  findStateIdentifyingSequences 288-311, findUniqueSequenceForState 331-362
  and findShortestSequence 374-378.

One model serves both. The table below cites one of the two files for each
member.

How each kind of source code is modelled:

- **Loops that update variables** are `method`s with `while` loops. Each is
  proved equal to a specification function, and the properties are stated
  about those functions:
  - `Replay`, `UsedEdges` and `Trace` for replay;
  - `Candidates` for the enumeration;
  - `Scan` for the pair-selection loop;
  - `BuildTreeSpec` for the tree;
  - `Paths` for the extracted sequences.
- **Shared mutable collections** are passed in and returned as values. These
  are the `sequences` list of `explore`, the forbidden set, the assignment map,
  the `steps` list and the sequences map of `traverseTree`.
- **`Node`** is a `class`:
  - `states`, `inputOutputPair` and `terminal` are `const` fields;
  - `groups` is a `map` field that `AddGroup` reassigns;
  - a ghost footprint `Repr` backs `Valid()`;
  - `Abs()` gives the value tree (`DTree`) that a node of the built shape
    denotes.

## Model

| member | source | states |
|---|---|---|
| `Mealy.Lookup` | src/main/java/fr/corentin/uiosequence/StateMachine.java:56-62 | the row lookup is absent exactly when no entry carries the symbol (`containsKey` false); otherwise it gives the value of an entry with that symbol |
| `Mealy.LookupAt` | src/main/java/fr/corentin/uiosequence/StateMachine.java:198-208 | in a row with distinct symbols, looking up the symbol of the i-th entry (as the entry-set iteration sees it) gives that entry's transition |
| `Mealy.ExecuteSequence` | src/main/java/fr/corentin/uiosequence/StateMachine.java:49-68 | the loop returns the outputs of the walk concatenated in order, `""` for the empty input, and `None` as soon as the current state has no row or no transition for the symbol |
| `Mealy.GetUsedTransitions` | src/main/java/fr/corentin/uiosequence/StateMachine.java:85-101 | the loop returns the set of (state, symbol) pairs of the walk; a symbol without a transition is skipped and the state stays the same |
| `Mealy.GetDetailedTransitions` | src/main/java/fr/corentin/uiosequence/StateMachine.java:124-141 | the loop returns one record (from, to, input, output) per symbol that has a transition, in walk order, skipping the others |
| `Mealy.ReplayFailsIff` | src/main/java/fr/corentin/StateMachine.java:45-70 | replay yields nothing if and only if, at some position k, the prefix before k replays and the state it reaches has no transition for symbol k |
| `Mealy.UsedEdgesOfTrace` | src/main/java/fr/corentin/StateMachine.java:90-111 | the used-transition set is exactly the set of (fromState, input) pairs of the detailed trace, and it holds no more pairs than the trace has records, nor more than the input has symbols |
| `Mealy.TraceIsWalk` | src/main/java/fr/corentin/StateMachine.java:131-150 | the detailed trace starts at the start state, each record ends where the next begins, and every record is a transition of the table |
| `Mealy.TraceAgreesWithReplay` | src/main/java/fr/corentin/uiosequence/StateMachine.java:124-141 | replay succeeds iff the trace has one record per symbol; then record k carries symbol k and the trace's outputs concatenate to the replay's output |
| `Uio.Explore` | src/main/java/fr/corentin/uiosequence/StateMachine.java:186-215 | the recursive backtracking appends to the list exactly the candidates of its search node, in depth-first order: the node itself unless its input is empty, then below the bound the subtree of each non-forbidden transition in row order; each iteration of the transition loop adds the entry's subtree before those of the later entries (helper `CandidatesFromStep`) |
| `Uio.GetAllSequencesForState` | src/main/java/fr/corentin/uiosequence/StateMachine.java:158-165 | returns the enumeration from the state with empty input, empty output and empty used set |
| `Uio.CandidatesSound` | src/main/java/fr/corentin/uiosequence/StateMachine.java:190-211 | every candidate at or below a search node extends the node's input and output by a suffix that replays from the node's state, adds exactly the suffix's transitions to its used set, and uses no forbidden transition |
| `Uio.CandidatesFromSound` | src/main/java/fr/corentin/uiosequence/StateMachine.java:198-213 | every candidate from the transition loop extends the node in that way, with an input strictly longer than the node's |
| `Uio.ExtendsByStep` | src/main/java/fr/corentin/uiosequence/StateMachine.java:204-211 | a candidate below the child reached by an allowed transition extends the node itself; replaying the extended input emits the first transition's output before the rest's (helper `ReplayStep`) |
| `Uio.BranchIncluded` | src/main/java/fr/corentin/uiosequence/StateMachine.java:200-213 | a candidate in the subtree of a non-forbidden transition is among the transition loop's candidates from any earlier row index |
| `Uio.CandidatesComplete` | src/main/java/fr/corentin/uiosequence/StateMachine.java:190-211 | every suffix within the length bound that replays from the node's state without a forbidden transition is found, appended to the node's input |
| `Uio.EnumerationExact` | src/main/java/fr/corentin/StateMachine.java:202-239 | getAllSequencesForState returns exactly the inputs of length 1 to maxLen that replay from the state clear of the forbidden set, each with its replayed output and its used-transition set |
| `Uio.ConcatPrefixesFirst` | src/main/java/fr/corentin/uiosequence/StateMachine.java:200-213 | appending the subtrees of successive transitions keeps every prefix before its extensions |
| `Uio.NodeBeforeSubtrees` | src/main/java/fr/corentin/uiosequence/StateMachine.java:190-192 | the node's own sequence, added before its subtrees, comes before all of its extensions |
| `Uio.CandidatesPrefixesFirst` | src/main/java/fr/corentin/uiosequence/StateMachine.java:186-215 | in the candidates of a node, every prefix (at least the node's length) of a candidate's input is the input of an earlier candidate |
| `Uio.CandidatesFromPrefixesFirst` | src/main/java/fr/corentin/uiosequence/StateMachine.java:198-214 | the same prefix order holds for the candidates of the transition loop |
| `Uio.EnumerationPrefixOrdered` | src/main/java/fr/corentin/uiosequence/StateMachine.java:158-165 | the enumeration is prefix-closed in depth-first order: every non-empty proper prefix of a candidate's input is itself a candidate found earlier |
| `Uio.IsSequenceUniqueForState` | src/main/java/fr/corentin/uiosequence/StateMachine.java:231-242 | true iff no state of the table other than testState replays the input to that output; a state whose replay fails is no collision |
| `Uio.Qualifying` | src/main/java/fr/corentin/uiosequence/StateMachine.java:297-304 | the filter loop keeps, in enumeration order, exactly the candidates that are unique for the state and disjoint from the forbidden set |
| `Uio.Filtered` | src/main/java/fr/corentin/uiosequence/StateMachine.java:297-304 | a filter keeps exactly the elements it accepts (in the order of its input, by construction) |
| `Uio.FilteredShortestIsFirst` | src/main/java/fr/corentin/uiosequence/StateMachine.java:297-307 | the element picked from a filtered list sits in the unfiltered list at an index before which every accepted element is strictly longer; proved by growing the list at its end: the pick moves only to a strictly shorter new element (helpers `PickOfSnoc`, `FirstShortestExtends`) |
| `Uio.ShortestQualifyingIsFirst` | src/main/java/fr/corentin/uiosequence/StateMachine.java:306-307 | the chosen sequence is the first shortest qualifying candidate in enumeration order: every qualifying candidate enumerated before it has a strictly longer input |
| `Uio.ShortestIndex` | src/main/java/fr/corentin/uiosequence/StateMachine.java:321-323 | the index `Stream.min` selects is a minimum input length, and every earlier element is strictly longer: ties go to the first |
| `Uio.FindShortestSequence` | src/main/java/fr/corentin/StateMachine.java:374-378 | returns nothing exactly on the empty list (the IllegalArgumentException); otherwise an element of the list no longer than any other |
| `Uio.FindUniqueSequenceForState` | src/main/java/fr/corentin/uiosequence/StateMachine.java:290-312 | with no qualifying candidate, map and forbidden set are unchanged; otherwise the state maps to the first shortest qualifying candidate's (input, output) and that candidate's transitions join the forbidden set |
| `Uio.SelectionMeaning` | src/main/java/fr/corentin/StateMachine.java:331-362 | nothing is found iff no input of length 1 to maxLen identifies the state clear of the forbidden set; otherwise the pick replays to its output, is unique, uses exactly its replay's transitions, none forbidden, and is no longer than any qualifying input |
| `Uio.NoneWithinGrows` | src/main/java/fr/corentin/uiosequence/StateMachine.java:310 | a state without a qualifying input stays without one once the forbidden set grows |
| `Uio.CommittedAdd` | src/main/java/fr/corentin/uiosequence/StateMachine.java:308-310 | assigning a new state adds exactly that state's used transitions to the committed set |
| `Uio.AssignStepKeepsInvariant` | src/main/java/fr/corentin/uiosequence/StateMachine.java:306-311 | an assignment keeps the loop invariant: assigned pairs identify their states, distinct states use disjoint transitions, the forbidden set is exactly their transitions, and no assigned input is longer than a qualifying one |
| `Uio.AssignStep` | src/main/java/fr/corentin/uiosequence/StateMachine.java:264-268 | one visit of a state keeps the invariant; the state joins those done at the current length; the forbidden set only grows; no assigned state is reassigned |
| `Uio.SortedStates` | src/main/java/fr/corentin/uiosequence/StateMachine.java:261-262 | the states of the table in strictly ascending order, each exactly once |
| `Uio.Least` | src/main/java/fr/corentin/uiosequence/StateMachine.java:262 | the smallest element of a non-empty set of states |
| `Uio.FindStateIdentifyingSequences` | src/main/java/fr/corentin/uiosequence/StateMachine.java:255-273 | every assigned state is a table state whose pair replays to its output, is unique, and has 1 to 3 symbols; distinct assigned states use disjoint transitions; an unassigned state has no identifying input of at most 3 symbols clear of the committed transitions; no assigned input is longer than a qualifying one |
| `WTree.PosLabel` | src/main/java/fr/corentin/w/core/WCore.java:184 | the positive label "i/o" has three characters |
| `WTree.NegLabel` | src/main/java/fr/corentin/w/core/WCore.java:185 | the negative label "not i/o" has seven characters, so it never equals a positive label |
| `WTree.Node.constructor` | src/main/java/fr/corentin/w/core/Node.java:39-44 | a new node stores the given states, pair and terminal flag and has no children |
| `WTree.Node.AddGroup` | src/main/java/fr/corentin/w/core/Node.java:88-90 | the child is put under the label, replacing any previous one and leaving other labels unchanged; states, pair and flag are final |
| `WCore.GroupMembers` | src/main/java/fr/corentin/w/core/WCore.java:169-181 | a state is in the positive group iff it is in the block and has a transition on the pair's input with the pair's output; the negative group holds every other block state |
| `WCore.GroupPartition` | src/main/java/fr/corentin/w/core/WCore.java:166-181 | the two groups together are the block as a multiset (every occurrence in exactly one group), so their sizes add up to the block's |
| `WCore.CreateGroups` | src/main/java/fr/corentin/w/core/WCore.java:161-188 | the loop returns the map from "i/o" to the positive group and from "not i/o" to the negative group, both in block order |
| `WCore.NonEmptyGroups` | src/main/java/fr/corentin/w/core/WCore.java:94-97 | after removeIf, more than one group is left exactly when the pair splits the block, and then nothing was removed |
| `WCore.SizesOfTwo` | src/main/java/fr/corentin/w/core/WCore.java:98-105 | the size loop over the two groups yields the smaller and the larger size |
| `WCore.SmallestLargest` | src/main/java/fr/corentin/w/core/WCore.java:98-105 | the loop computes the smallest size (INT_MAX for no group) and the largest size (0 for none) |
| `WCore.ConsiderPair` | src/main/java/fr/corentin/w/core/WCore.java:91-115 | one iteration replaces the best choice exactly when the pair splits the block and makes the smaller group larger, or equal with a smaller larger group |
| `WCore.SelectPair` | src/main/java/fr/corentin/w/core/WCore.java:86-116 | the selection loop leaves the best pair and groups of the scan over the pairs in iteration order |
| `WCore.ScanNone` | src/main/java/fr/corentin/w/core/WCore.java:119-121 | no pair is kept exactly when no pair splits the block, and then the score is the initial one; any splitting pair beats the initial score (0, block size) (helper `SplitBeatsInitial`) |
| `WCore.ScanSome` | src/main/java/fr/corentin/w/core/WCore.java:108-114 | a kept pair is one of the pairs, splits the block, and comes with its own groups and score |
| `WCore.ScanOptimal` | src/main/java/fr/corentin/w/core/WCore.java:107-114 | no splitting pair scores better than the kept one: none has a larger smaller group, or an equal one with a smaller larger group |
| `WCore.ScanFirst` | src/main/java/fr/corentin/w/core/WCore.java:108-109 | the kept pair scores strictly better than every splitting pair before its first occurrence: of equally good pairs the earliest is kept |
| `WCore.ScoresSumToBlock` | src/main/java/fr/corentin/w/core/WCore.java:101-109 | for a splitting pair the two sizes add up to the block's size, so a tie on the smaller group is a tie on both and the second criterion never decides |
| `WCore.BuildTreeSpecSplits` | src/main/java/fr/corentin/w/core/WCore.java:124-143 | a block of two or more states with a kept pair becomes a split into its two groups, each strictly smaller; its steps are its own step followed by those of its two subtrees; each child has its group at its root (helper `BuildTreeSpecStates`) |
| `WCore.BuildTreeSpecWellBuilt` | src/main/java/fr/corentin/w/core/WCore.java:75-146 | the built tree is correct: each split's children are its two groups, in order; each split uses a splitting pair of the set that no pair beats; each leaf has at most one state or a block no pair splits |
| `WCore.LeavesPartition` | src/main/java/fr/corentin/w/core/WCore.java:132-143 | the leaves of a correct tree partition its root block, and a non-empty block has fewer splits than states |
| `WCore.StepsSound` | src/main/java/fr/corentin/w/core/WCore.java:124-129 | every recorded step has a pair of the set that splits its starting group, and its resulting groups are that split's two labelled non-empty groups |
| `WCore.BuildTree` | src/main/java/fr/corentin/w/core/WCore.java:75-146 | builds a fresh well-shaped node tree equal to the specified tree for the block, and appends that tree's steps (one per split, in pre-order, before its children) to the step list |
| `WCore.MakeSplit` | src/main/java/fr/corentin/w/core/WCore.java:132-145 | a fresh non-terminal node with the pair and the two children under "i/o" and "not i/o", owning both children's footprints |
| `WCore.LeafOfWithin` | src/main/java/fr/corentin/w/core/WCore.java:216-219 | a block state's answers lead to a leaf that holds it, and every state of that leaf is a block state |
| `WCore.FollowIdentifiesLeaf` | src/main/java/fr/corentin/w/core/WCore.java:223-230 | two block states follow the same labels iff they end in the same leaf: states in different leaves are told apart by a pair on the path |
| `WCore.PathsKeys` | src/main/java/fr/corentin/w/core/WCore.java:214-231 | the traversal gives a sequence to exactly the states of the leaves |
| `WCore.LeafStatesAreStates` | src/main/java/fr/corentin/w/core/WCore.java:132-143 | in a partitioned tree the states of the leaves are exactly the states of the root |
| `WCore.PathsAreAnswers` | src/main/java/fr/corentin/w/core/WCore.java:214-231 | every root state of a partitioned tree gets a sequence, namely the prefix followed by the labels its own answers select; at a split each state gets the label of the branch it answers followed by its path below (helper `PathAt`) |
| `WCore.SequencesIdentifyLeaves` | src/main/java/fr/corentin/w/core/WCore.java:201-205 | every root state gets a sequence, and two states get equal sequences iff they share a leaf |
| `WCore.PutAll` | src/main/java/fr/corentin/w/core/WCore.java:216-220 | the leaf loop maps every state of the leaf to the current sequence and leaves the other keys as they were; each put adds the next state of the leaf (helper `LeafStep`) |
| `WCore.TraverseTree` | src/main/java/fr/corentin/w/core/WCore.java:214-231 | the traversal adds to the map the root-to-leaf label path of every leaf state below the node, after the given prefix |
| `WCore.ExtractDiscriminationSequences` | src/main/java/fr/corentin/w/core/WCore.java:201-205 | returns each leaf state's root-to-leaf label path (with SequencesIdentifyLeaves: keys are the root states, equal exactly within a leaf) |
| `WCore.ListOf` | src/main/java/fr/corentin/w/core/WCore.java:38 | the key set (or pair set) as a list in iteration order: the same elements, each once |
| `WCore.CollectPairs` | src/main/java/fr/corentin/w/core/WCore.java:41-49 | the loop collects exactly the (input, output) pairs of the transitions of the given states |
| `WCore.ExecuteAlgorithm` | src/main/java/fr/corentin/w/core/WCore.java:36-58 | the root block is the table's states, each once; the pairs are those of all transitions; the tree is correctly built over them and is the tree buildTree builds when every level scans the pairs in one and the same order; there is one step per split, in pre-order; collecting over all the states sees exactly the pairs of all transitions (helper `PairsFromAll`) |

## Left out

- Several parts are presentation only and are not modelled: JSON loading, resource reading and console printing in `UIOSeq`, the `display*` methods of `WCore`, and the entry points `Main` and `WAlgorithm`.
- The `Graph` and `State` classes are left out: they belong to an older API that no longer matches `Transition`.
- The builders only fill linked hash maps, so the table is given directly. A row is a sequence of (symbol, transition) entries whose order stands for the insertion order.
- Value classes (`Transition`, `Sequence`, `TransitionDetail`, `Pair`, `Step`) are datatypes. Their `toString` formats are not modelled.
- The getters of `Node` are not modelled: fields are read directly.
- Row keys of the UIO table are single Java chars. `WellFormed` requires each key to be a character of the Basic Multilingual Plane (`Mealy.JavaChar`); a Dafny `char` is never a surrogate. The model therefore leaves out three kinds of Java row keys:
  - a supplementary character such as U+1F600, which is two UTF-16 chars in Java, so `toCharArray` splits it and replay never matches it;
  - a lone surrogate, which Java replay can match but a Dafny `char` cannot hold;
  - any key of length other than one. `explore` appends such a key to the input all the same, so a candidate's input need not replay to its recorded output and used set; an empty key recurses without the input growing, which overflows the stack when empty-key transitions form a cycle.
- Replay inputs are sequences of Dafny characters. On a table of single-char keys, an input character outside the Basic Multilingual Plane fails in the model. In Java it fails too: no key is a lone surrogate, so neither of its two halves matches.
- The W table's `Character` keys and outputs are Dafny `char`s as well. The W model only compares them for equality and writes them into labels, so its results hold for any characters, including those outside the range of Java's `char`. Java surrogate values cannot be written.
- Iteration order over hashed collections is not computed; it stays free. This covers `keySet()`, the pair `HashSet` and the loops' entry sets of `HashMap`s:
  - the root state order and the pair order come from `ListOf` and `Pick`, arbitrary lists of the right elements;
  - uniqueness does not depend on that order, and the selection result depends on the pair order only among equally scored pairs, as `ScanFirst` states.
- The two groups of a split map are always visited positive first, then negative, in both `buildTree` and `traverseTree`. Java visits the `HashMap` in its own order. This changes only the order of the recorded steps, except where a state lies in both branches of a split: `Paths` joins the branches with a right-biased map union, so the model keeps the negative branch's sequence for such a state, while Java keeps the one of whichever branch its `HashMap` visits last. A tree `executeAlgorithm` builds has no such state, because its leaves partition the root block (`LeavesPartition`).
- The `path` parameter of `buildTree` is only extended and passed on, so it is dropped.
- Results are returned as values rather than mutated in place: the `sequences` list of `explore`, the forbidden set and map of the assignment, the `steps` list and the sequences map of `traverseTree`. Aliasing between them is not modelled; the source creates each of them once and does not share them elsewhere.
- `findShortestSequence` throws `IllegalArgumentException` on an empty list. The model returns `None`, and the caller only reaches it with a non-empty list.
- Java `int` overflow is not modelled. `BuildTree`, `SelectPair`, `ConsiderPair` and `ExecuteAlgorithm` require at most `Integer.MAX_VALUE` states, so that a group size never exceeds the size loop's start value.
- WCore.TraverseTree: requires a node whose children form a tree of the shape `buildTree` builds (two labelled children per inner node). The shape allows shared children and states repeated across leaves; for a state under both branches of a split the model keeps the negative branch's sequence. The Java method would also walk any other acyclic node graph.
- WCore.ExtractDiscriminationSequences: requires the same shape as TraverseTree.
- WCore.ExecuteAlgorithm: states that some one order of the pair set builds the tree, not which order. That order is the unspecified iteration order of the `HashSet`; the root block's order is that of the key set. For a given order, `BuildTree` states the exact tree.
- Uio.FindStateIdentifyingSequences: states the properties of the final map rather than the map itself. The exact choice at each visit is stated by `FindUniqueSequenceForState`.
- The search bound is the constant `MAX_SEQUENCE_LENGTH = 4` of the code, giving lengths 1 to 3, and not a parameter. `getAllSequencesForState` itself takes any bound.
