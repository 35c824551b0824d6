/**
 * The discrimination-tree node of the W method: a block of states, the
 * (input, output) pair that splits it (none at a terminal node), a terminal
 * flag, and a mutable map from branch labels to child nodes.
 */
module WTree {
  import opened Wrappers
  import opened Mealy

  /** An (input, output) pair of the W method. */
  datatype IOPair = IOPair(input: char, output: char)

  /** The label of the branch whose states answer the pair's input with its output: "i/o". */
  function PosLabel(p: IOPair): (l: string)
    ensures |l| == 3
  {
    [p.input] + "/" + [p.output]
  }

  /** The label of the other branch: "not i/o". */
  function NegLabel(p: IOPair): (l: string)
    ensures |l| == 7
  {
    "not " + PosLabel(p)
  }

  /**
   * The value a node denotes when it has the shape the algorithm builds:
   * a leaf with its states, or a split with its pair and its two subtrees.
   */
  datatype DTree =
    | Leaf(states: seq<State>)
    | Split(states: seq<State>, pair: IOPair, matching: DTree, other: DTree)

  class Node {
    const states: seq<State>
    const inputOutputPair: Option<IOPair>
    const terminal: bool
    var groups: map<string, Node>
    ghost var Repr: set<object>

    /** The node owns itself and, strictly below it, every child's footprint. */
    ghost predicate Valid()
      reads this, Repr
      decreases Repr
    {
      && this in Repr
      && (forall l :: l in groups ==>
            groups[l] in Repr && groups[l].Repr <= Repr && this !in groups[l].Repr)
      && (forall l :: l in groups ==> groups[l].Valid())
    }

    /**
     * The shape buildTree produces: a terminal node has no pair and no
     * children; any other node has a pair and exactly the two children
     * labelled "i/o" and "not i/o", both of this shape.
     */
    ghost predicate Shaped()
      reads this, Repr
      requires Valid()
      decreases Repr
    {
      if terminal then inputOutputPair.None? && groups == map[]
      else
        && inputOutputPair.Some?
        && groups.Keys == {PosLabel(inputOutputPair.value), NegLabel(inputOutputPair.value)}
        && groups[PosLabel(inputOutputPair.value)].Shaped()
        && groups[NegLabel(inputOutputPair.value)].Shaped()
    }

    /** The tree this node denotes. */
    ghost function Abs(): DTree
      reads this, Repr
      requires Valid() && Shaped()
      decreases Repr
    {
      if terminal then Leaf(states)
      else
        var p := inputOutputPair.value;
        Split(states, p, groups[PosLabel(p)].Abs(), groups[NegLabel(p)].Abs())
    }

    /** A node with the given states, pair and flag, and no children yet. */
    constructor (states: seq<State>, inputOutputPair: Option<IOPair>, terminal: bool)
      ensures this.states == states && this.inputOutputPair == inputOutputPair && this.terminal == terminal
      ensures groups == map[]
      ensures Valid() && Repr == {this}
    {
      this.states := states;
      this.inputOutputPair := inputOutputPair;
      this.terminal := terminal;
      groups := map[];
      Repr := {this};
    }

    /** A node none of whose footprint changed keeps its validity, shape and tree. */
    twostate lemma Unchanged()
      requires old(Valid() && Shaped()) && unchanged(old(Repr))
      ensures Valid() && Shaped() && Repr == old(Repr) && Abs() == old(Abs())
    {
    }

    /** Puts node under groupLabel, replacing any child there; the final fields stay as they are. */
    method AddGroup(groupLabel: string, node: Node)
      requires Valid() && node.Valid() && this !in node.Repr
      modifies this
      ensures groups == old(groups)[groupLabel := node]
      ensures Repr == old(Repr) + node.Repr
      ensures Valid()
    {
      groups := groups[groupLabel := node];
      Repr := Repr + node.Repr;
    }
  }
}
