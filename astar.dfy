/** `astar` and `astar_corner_helper`: best-first search over a heap of
    `(fScore, position, node)` entries with an `explored_set` dictionary of
    recorded scores, and `findNearestGoal`, the heuristic target of the
    multi-goal variant. The two searches differ only in the cell the
    heuristic aims at, so one loop, `BestFirst`, models both. */
module AStarSearch {
  import opened Seqs
  import opened Grid
  import opened Nodes

  /** `x < c` where `c` may be `float("inf")`. */
  predicate Below(x: int, c: Cost) {
    c.Infinite? || x < c.value
  }

  /** `findNearestGoal(curr, goal_dict)`: scans the goals in order, keeping the
      one with the smallest Manhattan distance to `curr`; a later goal
      replaces it only when strictly closer, so the first of equally near
      goals wins. With no goals the answer is `(0, 0)`. */
  method FindNearestGoal(curr: Node, goals: seq<Cell>) returns (pos: Cell)
    ensures goals == [] ==> pos == Cell(0, 0)
    ensures goals != [] ==> pos in goals
    ensures forall g :: g in goals ==> Manhattan(curr.position, pos) <= Manhattan(curr.position, g)
    ensures goals != [] ==>
              (exists k :: 0 <= k < |goals| && goals[k] == pos &&
                 forall j :: 0 <= j < k ==> Manhattan(curr.position, goals[j]) > Manhattan(curr.position, pos))
  {
    var min := Infinite;
    pos := Cell(0, 0);
    ghost var at: nat := 0;
    for i := 0 to |goals|
      invariant at <= i
      invariant i == 0 <==> min.Infinite?
      invariant i == 0 ==> pos == Cell(0, 0)
      invariant i > 0 ==> at < i && goals[at] == pos && min == Finite(Manhattan(curr.position, pos))
      invariant forall j :: 0 <= j < i ==> Manhattan(curr.position, pos) <= Manhattan(curr.position, goals[j])
      invariant forall j :: 0 <= j < at ==> Manhattan(curr.position, goals[j]) > Manhattan(curr.position, pos)
    {
      var heuristic := Manhattan(curr.position, goals[i]);
      if Below(heuristic, min) {
        pos := goals[i];
        min := Finite(heuristic);
        at := i;
      }
    }
  }

  /** A heap entry `(fScore, position, node)`. */
  datatype Entry = Entry(f: int, position: Cell, node: Node)

  /** Python's tuple order on the `(fScore, (row, col))` prefix. The node is
      never compared: positions on the frontier are distinct. */
  predicate KeyLeq(a: Entry, b: Entry) {
    a.f < b.f ||
    (a.f == b.f && (a.position.row < b.position.row ||
                    (a.position.row == b.position.row && a.position.col <= b.position.col)))
  }

  /** Where `heappop` takes its entry from: an entry whose key is no larger
      than any other. */
  function MinIndex(frontier: seq<Entry>): (k: nat)
    requires frontier != []
    ensures k < |frontier|
    ensures forall i :: 0 <= i < |frontier| ==> KeyLeq(frontier[k], frontier[i])
  {
    if |frontier| == 1 then 0
    else
      var k := MinIndex(frontier[1..]) + 1;
      assert forall i :: 1 <= i < |frontier| ==> frontier[i] == frontier[1..][i - 1];
      if KeyLeq(frontier[0], frontier[k]) then 0 else k
  }

  /** No two entries share a position. */
  ghost predicate DistinctPositions(frontier: seq<Entry>) {
    forall i, j :: 0 <= i < j < |frontier| ==> frontier[i].position != frontier[j].position
  }

  /** `open` lists the positions of the entries, in the same order. */
  ghost predicate Tracks(entries: seq<Entry>, open: seq<Cell>) {
    |open| == |entries| && forall i :: 0 <= i < |entries| ==> entries[i].position == open[i]
  }

  lemma TracksDistinct(entries: seq<Entry>, open: seq<Cell>)
    requires Tracks(entries, open) && Distinct(open)
    ensures DistinctPositions(entries)
  {
  }

  /** On a frontier whose positions are distinct the popped entry is the
      strict minimum, so the heap never has to compare the nodes themselves. */
  lemma PoppedIsStrictMinimum(frontier: seq<Entry>)
    requires frontier != [] && DistinctPositions(frontier)
    ensures forall i :: 0 <= i < |frontier| && i != MinIndex(frontier) ==>
              !KeyLeq(frontier[i], frontier[MinIndex(frontier)])
  {
  }

  /** `heapq.heappop(frontier)`: takes out the entry with the least key; every
      other entry's key is strictly larger. */
  method Pop(frontier: seq<Entry>) returns (entry: Entry, rest: seq<Entry>, k: nat)
    requires frontier != [] && DistinctPositions(frontier)
    ensures k < |frontier| && entry == frontier[k] && rest == RemoveAt(frontier, k)
    ensures forall i :: 0 <= i < |frontier| && i != k ==>
              KeyLeq(entry, frontier[i]) && !KeyLeq(frontier[i], entry)
  {
    k := MinIndex(frontier);
    PoppedIsStrictMinimum(frontier);
    entry := frontier[k];
    rest := RemoveAt(frontier, k);
  }

  /** What the heuristic aims at: `astar` always uses the first objective,
      `astar_corner_helper` the goal nearest to the node being scored. */
  datatype Heuristic = FirstObjective | NearestGoal

  method Target(node: Node, goals: seq<Cell>, h: Heuristic) returns (t: Cell)
    requires h == FirstObjective ==> goals != []
    ensures h == FirstObjective ==> t == goals[0]
    ensures h == NearestGoal && goals == [] ==> t == Cell(0, 0)
    ensures h == NearestGoal && goals != [] ==> t in goals
    ensures h == NearestGoal ==>
              forall g :: g in goals ==> Manhattan(node.position, t) <= Manhattan(node.position, g)
    ensures h == NearestGoal && goals != [] ==>
              (exists k :: 0 <= k < |goals| && goals[k] == t &&
                 forall j :: 0 <= j < k ==> Manhattan(node.position, goals[j]) > Manhattan(node.position, t))
  {
    if h == FirstObjective {
      t := goals[0];
    } else {
      t := FindNearestGoal(node, goals);
    }
  }

  /** A frontier entry holds a scored node whose parent chain is a path of
      the maze from `start`, keyed by the node's own position and `fScore`. */
  ghost predicate EntryOk(m: Maze, start: Cell, e: Entry)
    reads e.node, e.node.Repr
  {
    e.node.Valid() && e.position == e.node.position && e.node.fScore == Finite(e.f) &&
    IsPath(m, e.node.Path) && e.node.Path[0] == start
  }

  /** Every entry on the frontier is well formed, and its parent chain lies
      within `nodes`. */
  ghost predicate FrontierOk(m: Maze, start: Cell, frontier: seq<Entry>, nodes: set<Node>)
    reads nodes
  {
    forall i :: 0 <= i < |frontier| ==>
      frontier[i].node in nodes && frontier[i].node.Repr <= nodes && EntryOk(m, start, frontier[i])
  }

  /** Popping keeps the rest of the frontier well formed. */
  lemma FrontierPop(m: Maze, start: Cell, frontier: seq<Entry>, nodes: set<Node>, k: nat)
    requires FrontierOk(m, start, frontier, nodes) && k < |frontier|
    ensures frontier[k].node.Repr <= nodes && EntryOk(m, start, frontier[k])
    ensures FrontierOk(m, start, RemoveAt(frontier, k), nodes)
  {
  }

  /** Pushing well-formed entries keeps the frontier well formed. */
  lemma FrontierPush(m: Maze, start: Cell, frontier: seq<Entry>, nodes: set<Node>, added: seq<Entry>, nodes': set<Node>)
    requires FrontierOk(m, start, frontier, nodes) && nodes <= nodes'
    requires FrontierOk(m, start, added, nodes')
    ensures FrontierOk(m, start, frontier + added, nodes')
  {
  }

  /** One iteration of the inner `for` loop: `Node(node)` scored by
      `calculateScore` against the heuristic target, with `curr` as parent. */
  method ScoreNeighbour(m: Maze, ghost start: Cell, curr: Node, node: Cell, goals: seq<Cell>, h: Heuristic)
    returns (eachNeighbor: Node)
    requires m.NeighborsValid()
    requires h == FirstObjective ==> goals != []
    requires curr.Valid() && IsPath(m, curr.Path) && curr.Path[0] == start
    requires node in m.adjacent(curr.position)
    ensures fresh(eachNeighbor)
    ensures eachNeighbor.position == node && eachNeighbor.parent == curr
    ensures eachNeighbor.Repr == {eachNeighbor} + curr.Repr
    ensures eachNeighbor.fScore.Finite? && EntryOk(m, start, Entry(eachNeighbor.fScore.value, node, eachNeighbor))
    ensures eachNeighbor.gScore == Plus(curr.gScore, 1)
    ensures h == FirstObjective ==> eachNeighbor.hScore == Manhattan(node, goals[0])
    ensures h == NearestGoal && goals == [] ==> eachNeighbor.hScore == Manhattan(node, Cell(0, 0))
    ensures h == NearestGoal ==> forall g :: g in goals ==> eachNeighbor.hScore <= Manhattan(node, g)
    ensures h == NearestGoal && goals != [] ==> exists g :: g in goals && eachNeighbor.hScore == Manhattan(node, g)
  {
    eachNeighbor := new Node(node);
    var goal := Target(eachNeighbor, goals, h);
    CalculateScore(eachNeighbor, curr, goal);
    assert IsPath(m, eachNeighbor.Path) by {
      assert IsPath(m, [curr.position, node]);
      PathJoin(m, curr.Path, [curr.position, node]);
    }
  }

  /** The inner `for` loop of both searches: score every neighbour of `curr`;
      push the ones `explored` does not know yet, each once, and record their
      `fScore`; for known ones only lower the recorded score, never push again.
      `addedAt` lists the positions of the pushed entries, `nodes'` extends
      `nodes` with their nodes. */
  method Expand(m: Maze, ghost start: Cell, curr: Node, goals: seq<Cell>, h: Heuristic, explored: map<Cell, int>,
                ghost nodes: set<Node>)
    returns (explored': map<Cell, int>, added: seq<Entry>, ghost addedAt: seq<Cell>, ghost nodes': set<Node>)
    requires m.NeighborsValid()
    requires h == FirstObjective ==> goals != []
    requires curr.Valid() && IsPath(m, curr.Path) && curr.Path[0] == start && curr.Repr <= nodes
    ensures forall p :: p in explored ==> p in explored' && explored'[p] <= explored[p]
    ensures forall p :: p in explored' ==> p in explored || p in addedAt
    ensures forall n :: n in m.adjacent(curr.position) ==> n in explored'
    ensures Tracks(added, addedAt)
    ensures Distinct(addedAt)
    ensures forall c :: c in addedAt ==> c !in explored && c in explored' && c in m.adjacent(curr.position)
    ensures nodes <= nodes' && FrontierOk(m, start, added, nodes')
  {
    explored', added, addedAt, nodes' := explored, [], [], nodes;
    var neighbors := m.GetNeighbors(curr.position.row, curr.position.col);
    for i := 0 to |neighbors|
      invariant forall p :: p in explored ==> p in explored' && explored'[p] <= explored[p]
      invariant forall p :: p in explored' ==> p in explored || p in addedAt
      invariant forall j :: 0 <= j < i ==> neighbors[j] in explored'
      invariant Tracks(added, addedAt)
      invariant Distinct(addedAt)
      invariant forall c :: c in addedAt ==> c !in explored && c in explored' && c in neighbors
      invariant nodes <= nodes' && FrontierOk(m, start, added, nodes')
    {
      var node := neighbors[i];
      var eachNeighbor := ScoreNeighbour(m, start, curr, node, goals, h);
      if node !in explored' {
        explored' := explored'[eachNeighbor.position := eachNeighbor.fScore.value];
        DistinctConcat(addedAt, [node]);
        var entry := Entry(eachNeighbor.fScore.value, eachNeighbor.position, eachNeighbor);
        FrontierPush(m, start, added, nodes', [entry], nodes' + {eachNeighbor});
        added := added + [entry];
        addedAt := addedAt + [node];
        nodes' := nodes' + {eachNeighbor};
      } else if explored'[node] > eachNeighbor.fScore.value {
        explored' := explored'[node := eachNeighbor.fScore.value];
      }
    }
  }

  /** The bookkeeping of the search loop, with `open` the positions on the
      frontier and `closed` the positions already popped and expanded:
      `explored_set` holds exactly the pushed positions, each pushed once;
      each of them is either still open or closed; no closed position is a
      goal, and every neighbour of a closed position has been pushed. */
  ghost predicate Books(m: Maze, start: Cell, goals: seq<Cell>, open: seq<Cell>, pushed: seq<Cell>,
                        explored: map<Cell, int>, closed: set<Cell>) {
    |pushed| > 0 && pushed[0] == start && Distinct(pushed) &&
    (forall i :: 0 < i < |pushed| ==> pushed[i] in m.cells) &&
    (forall c :: c in explored <==> c in pushed) &&
    Distinct(open) &&
    (forall c :: c in open ==> c in explored && c !in closed) &&
    (forall c :: c in explored ==> c in closed || c in open) &&
    (forall c :: c in closed ==> c in explored && c !in goals) &&
    (forall c, n :: c in closed && n in m.adjacent(c) ==> n in explored)
  }

  /** Popping the open position at `k`, which is not a goal, and expanding it
      keeps the bookkeeping: the position becomes closed, the positions
      `Expand` pushed become open. */
  lemma PopAndExpand(m: Maze, start: Cell, goals: seq<Cell>, open: seq<Cell>, pushed: seq<Cell>,
                     explored: map<Cell, int>, closed: set<Cell>, k: nat,
                     explored': map<Cell, int>, addedAt: seq<Cell>)
    requires m.NeighborsValid()
    requires Books(m, start, goals, open, pushed, explored, closed)
    requires k < |open| && open[k] !in goals
    requires forall p :: p in explored ==> p in explored'
    requires forall p :: p in explored' ==> p in explored || p in addedAt
    requires forall n :: n in m.adjacent(open[k]) ==> n in explored'
    requires Distinct(addedAt)
    requires forall c :: c in addedAt ==> c !in explored && c in explored' && c in m.adjacent(open[k])
    ensures Books(m, start, goals, RemoveAt(open, k) + addedAt, pushed + addedAt, explored', closed + {open[k]})
  {
    var rest := RemoveAt(open, k);
    DistinctRemoveAt(open, k);
    forall c | c in rest ensures c in open && c != open[k] {
      var j :| 0 <= j < |rest| && rest[j] == c;
      if j < k { assert open[j] == c; } else { assert open[j + 1] == c; }
    }
    forall c | c in explored && c != open[k] && c !in closed ensures c in rest {
      RemoveAtKeeps(open, k, c);
    }
    DistinctConcat(rest, addedAt);
    DistinctConcat(pushed, addedAt);
    forall i | 0 < i < |pushed + addedAt| ensures (pushed + addedAt)[i] in m.cells {
      if i >= |pushed| {
        assert (pushed + addedAt)[i] in addedAt;
      }
    }
  }

  /** The ghost list `open` keeps pace with the frontier through a pop and
      a push. */
  lemma Aligned(frontier: seq<Entry>, open: seq<Cell>, k: nat, added: seq<Entry>, addedAt: seq<Cell>)
    requires Tracks(frontier, open) && k < |frontier| && Tracks(added, addedAt)
    ensures Tracks(RemoveAt(frontier, k) + added, RemoveAt(open, k) + addedAt)
  {
  }

  /** With nothing left open, the closed positions contain the start, hold no
      goal and are closed under moves: no goal can be reached. */
  lemma Exhausted(m: Maze, start: Cell, goals: seq<Cell>, pushed: seq<Cell>,
                  explored: map<Cell, int>, closed: set<Cell>)
    requires Books(m, start, goals, [], pushed, explored, closed)
    ensures !Reaches(m, start, goals)
  {
    assert pushed[0] in pushed;
    ExhaustedMeansUnreachable(m, start, goals, closed);
  }

  /** The search loop of `astar` / `astar_corner_helper`. It pops the entry
      with the least `(fScore, row, col)`, returns the reconstructed path as
      soon as that entry's position is a goal, and otherwise expands it. The
      result is a path of the maze from `start` to a goal, just `[start]` when
      `start` is itself a goal, and it is empty exactly when no goal can be
      reached. `pushed` lists the positions in the
      order they were pushed: no position is pushed twice. */
  method BestFirst(m: Maze, start: Cell, goals: seq<Cell>, h: Heuristic)
    returns (path: seq<Cell>, ghost pushed: seq<Cell>)
    requires m.NeighborsValid()
    requires h == FirstObjective ==> goals != []
    ensures path != [] ==> IsPath(m, path) && path[0] == start && path[|path| - 1] in goals
    ensures path == [] <==> !Reaches(m, start, goals)
    ensures start in goals ==> path == [start]
    ensures |pushed| > 0 && pushed[0] == start && Distinct(pushed)
    ensures forall i :: 0 < i < |pushed| ==> pushed[i] in m.cells
  {
    var frontier: seq<Entry> := [];
    var startNode := new Node(start);
    var explored: map<Cell, int> := map[];
    startNode.gScore := Finite(0);
    var goal := Target(startNode, goals, h);
    startNode.hScore := Manhattan(start, goal);
    startNode.fScore := Plus(startNode.gScore, startNode.hScore);
    explored := explored[start := startNode.fScore.value];
    frontier := frontier + [Entry(startNode.fScore.value, startNode.position, startNode)];
    pushed := [start];
    ghost var open := [start];
    ghost var nodes := {startNode};
    ghost var closed: set<Cell> := {};
    assert startNode.Path == [start];
    while frontier != []
      invariant FrontierOk(m, start, frontier, nodes)
      invariant Tracks(frontier, open)
      invariant Books(m, start, goals, open, pushed, explored, closed)
      invariant start in goals ==> |frontier| == 1 && frontier[0].position == start && frontier[0].node.Path == [start]
      decreases |m.cells + {start}| - |pushed|, |frontier|
    {
      DistinctBound(pushed, m.cells + {start});
      TracksDistinct(frontier, open);
      ghost var frontier0 := frontier;
      var entry;
      var k;
      entry, frontier, k := Pop(frontier);
      var currNode := entry.node;
      FrontierPop(m, start, frontier0, nodes, k);
      if currNode.position in goals {
        path := ReconstructPath(currNode);
        return;
      }
      var added;
      ghost var addedAt;
      ghost var explored0 := explored;
      ghost var nodes';
      explored, added, addedAt, nodes' := Expand(m, start, currNode, goals, h, explored, nodes);
      PopAndExpand(m, start, goals, open, pushed, explored0, closed, k, explored, addedAt);
      Aligned(frontier0, open, k, added, addedAt);
      closed := closed + {open[k]};
      open := RemoveAt(open, k) + addedAt;
      pushed := pushed + addedAt;
      FrontierPush(m, start, frontier, nodes, added, nodes');
      nodes := nodes';
      frontier := frontier + added;
      DistinctBound(pushed, m.cells + {start});
    }
    Exhausted(m, start, goals, pushed, explored, closed);
    path := [];
  }

  /** `astar(maze)`: best-first search from the maze's start towards its first
      objective; reaching any objective ends the search. */
  method AStar(m: Maze) returns (path: seq<Cell>)
    requires m.NeighborsValid()
    requires m.GetObjectives() != []
    ensures path != [] ==> IsPath(m, path) && path[0] == m.GetStart() && path[|path| - 1] in m.GetObjectives()
    ensures path == [] <==> !Reaches(m, m.GetStart(), m.GetObjectives())
    ensures m.GetStart() in m.GetObjectives() ==> path == [m.GetStart()]
  {
    ghost var pushed;
    path, pushed := BestFirst(m, m.GetStart(), m.GetObjectives(), FirstObjective);
  }

  /** `astar_corner_helper(maze, startpoint, goalset)`: the same search with
      the heuristic aimed at the goal nearest to each scored node. */
  method AStarCornerHelper(m: Maze, startpoint: Cell, goalset: seq<Cell>) returns (path: seq<Cell>)
    requires m.NeighborsValid()
    ensures path != [] ==> IsPath(m, path) && path[0] == startpoint && path[|path| - 1] in goalset
    ensures path == [] <==> !Reaches(m, startpoint, goalset)
    ensures startpoint in goalset ==> path == [startpoint]
  {
    ghost var pushed;
    path, pushed := BestFirst(m, startpoint, goalset, NearestGoal);
  }
}
