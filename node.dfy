/** The search `Node`: a position with its path-cost bookkeeping and a parent
    link, `calculateScore`, which fills these in for a newly discovered
    neighbour, and `reconstruct_path`, which walks the parent links back to
    the root. */
module Nodes {
  import opened Seqs
  import opened Grid

  /** A score that starts out as `float("inf")` and becomes an integer once set. */
  datatype Cost = Infinite | Finite(value: int)

  /** Adding an integer to a score; infinity absorbs it. */
  function Plus(c: Cost, k: int): Cost {
    match c
    case Infinite => Infinite
    case Finite(v) => Finite(v + k)
  }

  class Node {
    const position: Cell
    var parent: Node?
    var gScore: Cost
    var hScore: int
    var fScore: Cost

    /** The positions of the parent chain, root first, ending at `position`. */
    ghost var Path: seq<Cell>
    /** This node and all its ancestors. */
    ghost var Repr: set<Node>

    /** A scored node: the parent chain is finite and acyclic, `gScore` is the
        number of moves from the root and `fScore == gScore + hScore`. */
    ghost predicate Valid()
      reads this, Repr
      decreases Repr
    {
      this in Repr &&
      |Path| > 0 && Path[|Path| - 1] == position &&
      gScore == Finite(|Path| - 1) &&
      fScore == Plus(gScore, hScore) &&
      (parent == null ==> |Path| == 1) &&
      (parent != null ==>
        parent in Repr && parent.Repr <= Repr && this !in parent.Repr &&
        parent.Valid() && Path == parent.Path + [position])
    }

    /** `Node(position)`: no parent, infinite scores. */
    constructor (position: Cell)
      ensures this.position == position && parent == null
      ensures gScore == Infinite && hScore == 0 && fScore == Infinite
      ensures Path == [position] && Repr == {this}
    {
      this.position := position;
      parent := null;
      gScore := Infinite;
      hScore := 0;
      fScore := Infinite;
      Path := [position];
      Repr := {this};
    }
  }

  /** `calculateScore(node, parent, goal)`: one move further than the parent,
      the heuristic aimed at `goal`, and the parent linked. A node that is not
      already among the parent's ancestors becomes valid when its parent is. */
  method CalculateScore(node: Node, parent: Node, goal: Cell)
    modifies node
    ensures node.gScore == Plus(old(parent.gScore), 1)
    ensures node.hScore == Manhattan(node.position, goal)
    ensures node.fScore == Plus(node.gScore, node.hScore)
    ensures node.parent == parent
    ensures node.Path == old(parent.Path) + [node.position]
    ensures node.Repr == {node} + old(parent.Repr)
    ensures old(parent.Valid()) && node !in old(parent.Repr) ==> node.Valid()
  {
    node.gScore := Plus(parent.gScore, 1);
    node.hScore := Manhattan(node.position, goal);
    node.fScore := Plus(node.gScore, node.hScore);
    node.parent := parent;
    node.Path := parent.Path + [node.position];
    node.Repr := {node} + parent.Repr;
  }

  /** `reconstruct_path(node)`: the positions from the root of the parent
      chain to `node`, one more cell than the node's `gScore`. */
  method ReconstructPath(node: Node) returns (path: seq<Cell>)
    requires node.Valid()
    ensures path == node.Path
    ensures |path| == node.gScore.value + 1
    ensures path[|path| - 1] == node.position
  {
    var n: Node := node;
    var trail: seq<Cell> := [];
    while n.parent != null
      invariant n.Valid()
      invariant n.Path + Reversed(trail) == node.Path
      decreases |n.Path|
    {
      assert Reversed(trail + [n.position]) == [n.position] + Reversed(trail) by {
        assert (trail + [n.position])[..|trail|] == trail;
      }
      trail := trail + [n.position];
      n := n.parent;
    }
    assert Reversed(trail + [n.position]) == [n.position] + Reversed(trail) by {
      assert (trail + [n.position])[..|trail|] == trail;
    }
    trail := trail + [n.position];
    path := Reversed(trail);
  }
}
