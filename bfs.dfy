/** `bfs_helper`: breadth-first search from one start to the first goal the
    FIFO queue yields, with a `visited` list, a `parent` dictionary and the
    walk back along `parent` that rebuilds the path. */
module BreadthFirst {
  import opened Seqs
  import opened Grid

  /** The bookkeeping of the search: `visited` starts at `start` and holds
      each cell once; every other visited cell has a parent that was visited
      before it (at index `up[i]`) and from which it is one move away. */
  ghost predicate ParentTree(m: Maze, start: Cell, visited: seq<Cell>, parent: map<Cell, Cell>, up: seq<nat>) {
    |visited| > 0 && visited[0] == start && Distinct(visited) && |up| == |visited| &&
    (forall c :: c in parent <==> c in visited && c != start) &&
    (forall i {:trigger up[i]} :: 0 < i < |visited| ==>
       up[i] < i && visited[i] in parent && parent[visited[i]] == visited[up[i]] &&
       Step(m, visited[up[i]], visited[i]))
  }

  /** The inner `for` loop of `bfs_helper`: every neighbour of `node` that is
      not yet visited and is a valid move is appended to `visited`, gets
      `node` as parent and joins the queue. */
  method Discover(m: Maze, ghost start: Cell, node: Cell, ghost at: nat,
                  visited: seq<Cell>, parent: map<Cell, Cell>, q: seq<Cell>, ghost up: seq<nat>)
    returns (visited': seq<Cell>, parent': map<Cell, Cell>, q': seq<Cell>, ghost up': seq<nat>)
    requires ParentTree(m, start, visited, parent, up)
    requires at < |visited| && visited[at] == node
    ensures ParentTree(m, start, visited', parent', up')
    ensures |visited'| >= |visited| && visited'[..|visited|] == visited
    ensures q' == q + visited'[|visited|..]
    ensures forall i :: |visited| <= i < |visited'| ==> visited'[i] in m.cells
    ensures forall n :: n in m.adjacent(node) && n in m.cells ==> n in visited'
    ensures forall i :: |visited| <= i < |visited'| ==> visited'[i] in m.adjacent(node) && parent'[visited'[i]] == node
    ensures forall c :: c in parent ==> c in parent' && parent'[c] == parent[c]
  {
    var neighbors := m.GetNeighbors(node.row, node.col);
    visited', parent', q', up' := visited, parent, q, up;
    for i := 0 to |neighbors|
      invariant ParentTree(m, start, visited', parent', up')
      invariant |visited'| >= |visited| && visited'[..|visited|] == visited
      invariant q' == q + visited'[|visited|..]
      invariant forall k :: |visited| <= k < |visited'| ==> visited'[k] in m.cells
      invariant forall j :: 0 <= j < i && neighbors[j] in m.cells ==> neighbors[j] in visited'
      invariant forall k :: |visited| <= k < |visited'| ==> visited'[k] in neighbors && parent'[visited'[k]] == node
      invariant forall c :: c in parent ==> c in parent' && parent'[c] == parent[c]
    {
      var eachNode := neighbors[i];
      if eachNode !in visited' && m.IsValidMove(eachNode.row, eachNode.col) {
        ghost var before, upBefore := visited', up';
        visited' := visited' + [eachNode];
        parent' := parent'[eachNode := node];
        q' := q' + [eachNode];
        up' := up' + [at];
        assert visited'[..|visited|] == visited by {
          assert visited'[..|visited|] == before[..|visited|];
        }
        assert visited'[|visited|..] == before[|visited|..] + [eachNode];
        assert visited'[at] == node by {
          assert before[..|visited|] == visited;
          assert before[at] == node;
        }
        DistinctConcat(before, [eachNode]);
        forall k | 0 < k < |visited'|
          ensures up'[k] < k && visited'[k] in parent' && parent'[visited'[k]] == visited'[up'[k]]
          ensures Step(m, visited'[up'[k]], visited'[k])
        {
          if k < |before| {
            assert up'[k] == upBefore[k] && visited'[k] == before[k] && visited'[k] != eachNode;
          }
        }
      }
    }
  }

  /** The second `while` loop of `bfs_helper` and the final reversal: follow
      `parent` from a visited cell back to `start`, then read the trail
      backwards. The result runs from `start` to `last`, one move at a time,
      and no cell repeats. */
  method WalkParents(m: Maze, start: Cell, visited: seq<Cell>, parent: map<Cell, Cell>, ghost up: seq<nat>,
                     last: Cell, ghost at: nat)
    returns (path: seq<Cell>)
    requires ParentTree(m, start, visited, parent, up)
    requires at < |visited| && visited[at] == last
    ensures IsPath(m, path) && Distinct(path)
    ensures path[0] == start && path[|path| - 1] == last
  {
    var trail := [last];
    ghost var ranks: seq<nat> := [at];
    while trail[|trail| - 1] != start
      invariant |trail| == |ranks| > 0 && trail[0] == last
      invariant forall k :: 0 <= k < |trail| ==> ranks[k] < |visited| && trail[k] == visited[ranks[k]]
      invariant forall k, l :: 0 <= k < l < |trail| ==> ranks[k] > ranks[l]
      invariant forall k :: 0 < k < |trail| ==> Step(m, trail[k], trail[k - 1])
      decreases ranks[|ranks| - 1]
    {
      ghost var r := ranks[|ranks| - 1];
      assert r != 0 && up[r] < r;
      trail := trail + [parent[trail[|trail| - 1]]];
      ranks := ranks + [up[r]];
    }
    assert Distinct(trail) by {
      forall k, l | 0 <= k < l < |trail| ensures trail[k] != trail[l] {
        assert visited[ranks[k]] != visited[ranks[l]];
      }
    }
    path := Reversed(trail);
    assert Distinct(path) by {
      forall k, l | 0 <= k < l < |path| ensures path[k] != path[l] {
        assert path[k] == trail[|trail| - 1 - k] && path[l] == trail[|trail| - 1 - l];
      }
    }
    assert IsPath(m, path) by {
      forall i | 0 < i < |path| ensures Step(m, path[i - 1], path[i]) {
        assert path[i - 1] == trail[|trail| - i] && path[i] == trail[|trail| - 1 - i];
      }
    }
  }

  /** `bfs_helper(maze, startpoint, goalList)`: breadth-first search from
      `startpoint` until a cell of `goalList` leaves the queue. The result is
      `[startpoint]` when the start is itself a goal; otherwise a path of
      distinct cells from `startpoint` to a goal, every step a listed and valid
      neighbour. It is empty exactly when no goal can be reached; the code
      would then wait forever on the empty queue. */
  method BfsHelper(m: Maze, startpoint: Cell, goalList: seq<Cell>) returns (path: seq<Cell>)
    ensures startpoint in goalList ==> path == [startpoint]
    ensures path != [] ==> IsPath(m, path) && Distinct(path)
    ensures path != [] ==> path[0] == startpoint && path[|path| - 1] in goalList
    ensures path == [] <==> !Reaches(m, startpoint, goalList)
  {
    var start := startpoint;
    var q := [start];
    var visited := [start];
    var parent: map<Cell, Cell> := map[];
    ghost var up: seq<nat> := [0];
    ghost var head := 0;
    var found := false;
    var node := start;
    while q != []
      invariant ParentTree(m, start, visited, parent, up)
      invariant 0 <= head <= |visited| && q == visited[head..]
      invariant forall c :: c in visited ==> c == start || c in m.cells
      invariant forall j :: 0 <= j < head ==> visited[j] !in goalList
      invariant forall j, n :: 0 <= j < head && n in m.adjacent(visited[j]) && n in m.cells ==> n in visited
      decreases |m.cells + {start}| - |visited|, |q|
    {
      DistinctBound(visited, m.cells + {start});
      node := q[0];
      q := q[1..];
      if node in goalList {
        found := true;
        break;
      }
      ghost var before := visited;
      assert node == visited[head];
      visited, parent, q, up := Discover(m, start, node, head, visited, parent, q, up);
      assert visited[..|before|] == before;
      forall j | 0 <= j < head + 1 ensures visited[j] == before[j] { }
      head := head + 1;
      forall c | c in visited ensures c == start || c in m.cells {
        var k :| 0 <= k < |visited| && visited[k] == c;
        if k < |before| { assert before[k] == c; }
      }
      DistinctBound(visited, m.cells + {start});
    }
    if !found {
      var closed := set c | c in visited;
      forall c, n | c in closed && n in m.adjacent(c) && n in m.cells ensures n in closed {
        var j :| 0 <= j < |visited| && visited[j] == c;
      }
      forall c | c in closed ensures c !in goalList {
        var j :| 0 <= j < |visited| && visited[j] == c;
      }
      ExhaustedMeansUnreachable(m, start, goalList, closed);
      return [];
    }
    path := WalkParents(m, start, visited, parent, up, node, head);
    if start in goalList {
      assert head == 0;
    }
  }
}
