# Maze search, modelled and verified in Dafny

This project models the search layer of a grid-maze path finder (`search.py`).
It covers:

- the `Node` record and its score bookkeeping;
- the Manhattan heuristic;
- `findNearestGoal`;
- `calculateScore` and `reconstruct_path`;
- breadth-first search (`bfs_helper`);
- the two best-first searches (`astar`, `astar_corner_helper`);
- the four multi-objective drivers that chain single searches into one tour (`bfs`, `astar_corner`, `astar_multi`, `fast`).

The maze is an abstract graph: a finite set of open cells (`isValidMove`) and a neighbour list per cell (`getNeighbors`).

Files:

- `seqs.dfy` (module `Seqs`): the list operations the searches use, and facts about sequences without repeats.
  - `path[::-1]` is `Reversed`.
  - `list.remove` and `dict.pop` are `RemoveFirst`.
  - A dictionary built from a list is `Dedup`.
  - Popping an entry out of the heap list is `RemoveAt`.
- `grid.dfy` (module `Grid`): cells, the Manhattan distance, the maze, one move (`Step`), paths (`IsPath`) and reachability (`Reaches`). It also holds the completeness argument both searches share: a set of expanded cells that contains the start, holds no goal and is closed under moves proves every goal unreachable.
- `node.dfy` (module `Nodes`): the `Node` class.
  - Its fields are `position`, `parent`, `gScore`, `hScore` and `fScore`.
  - The ghost `Path` holds the positions of the parent chain, and `Repr` holds the chain's nodes.
  - `CalculateScore` mutates a node.
  - `ReconstructPath` walks the parent links in a loop.
- `bfs.dfy` (module `BreadthFirst`): `bfs_helper`.
  - The FIFO queue is a suffix of the `visited` list.
  - The `parent` dictionary is a `map`.
  - A ghost list of parent indices proves that walking back along `parent` reaches the start.
- `astar.dfy` (module `AStarSearch`): `astar` and `astar_corner_helper`. One loop, `BestFirst`, models both; they differ only in the cell the heuristic aims at (`Heuristic`).
  - The heap is a sequence of `(fScore, position, node)` entries. `heappop` takes out the entry with the least `(fScore, row, col)`.
  - Positions on the heap are distinct, so the tuple comparison never reaches the nodes.
  - `explored_set` is a `map` from position to recorded score.
- `multigoal.dfy` (module `MultiGoal`): the drivers' shared loop, `VisitAll`.
  - Each leg runs one search from the current start to the remaining goals.
  - It appends the leg without its first cell (except on the first leg), strikes off the goal reached and continues from it.
  - `Tour` states what the resulting path is; `Stuck` is what a `None` result implies: some cell reachable from the start has a goal out of its reach.

## Model

| member | source | states |
|---|---|---|
| Grid.Manhattan | search.py:207-208 | the distance is a natural number and is zero exactly when the two cells are equal |
| Grid.ManhattanSymmetric | search.py:207-208 | `manhattan(a, b) == manhattan(b, a)` |
| Grid.ManhattanTriangle | search.py:207-208 | `manhattan(a, c) <= manhattan(a, b) + manhattan(b, c)` |
| Grid.ManhattanAdmissible | search.py:207-208 | on a 4-connected maze every path has at least as many moves as the Manhattan distance between its ends, so the heuristic never overestimates |
| Grid.PathJoin | search.py:81-84 | appending a path that starts where another ends, without its first cell, gives a path from the first start to the second end |
| Grid.ExhaustedMeansUnreachable | search.py:112-127 | once the expanded cells contain the start, hold no goal and are closed under moves, no goal is reachable from the start |
| Seqs.Reversed | search.py:197 | `path[::-1]`: same length, element `i` is element `len-1-i` of the input |
| Seqs.RemoveFirst | search.py:87 | `goal.remove(x)` on a list holding `x`: the result is the list with the element at `IndexOf(s, x)` taken out and the rest in order; one element shorter, and the multiset loses exactly one `x` |
| Seqs.IndexOf | search.py:87 | the index `remove` and `pop` act on: it holds `x` and no earlier element is `x` |
| Seqs.Dedup | search.py:143-145 | the keys of a dictionary filled from a list: no repeats, and exactly the list's elements |
| Seqs.DedupPrefix | search.py:143-145 | insertion order: the keys gathered from any prefix of the list are a prefix of the keys of the whole list |
| Nodes.Node.constructor | search.py:23-29 | a new node has no parent, infinite `gScore` and `fScore`, and `hScore` 0 |
| Nodes.CalculateScore | search.py:200-205 | `gScore` is the parent's plus one, `hScore` is the Manhattan distance to the goal, `fScore` is their sum, and the parent is linked; a node that is not among its parent's ancestors becomes a valid chain whose path is the parent's plus its own position |
| Nodes.ReconstructPath | search.py:191-197 | the result is the positions of the parent chain from root to node: exactly `gScore + 1` cells, ending at the node's position |
| BreadthFirst.Discover | search.py:61-66 | every valid neighbour not yet visited is appended to `visited` once and queued; each appended cell is a neighbour of the expanded cell and has it as its parent; earlier `parent` entries are unchanged; the parent tree stays acyclic and every parent is one move away |
| BreadthFirst.WalkParents | search.py:68-70 | following `parent` from a visited cell reaches the start; reversed, the trail is a path from the start to that cell with no repeated cell |
| BreadthFirst.BfsHelper | search.py:40-70 | `[startpoint]` when the start is a goal; otherwise a repeat-free path of valid moves from `startpoint` to a goal; empty exactly when no goal is reachable |
| AStarSearch.FindNearestGoal | search.py:210-219 | on a non-empty goal list the result is a goal at least as near as every goal, and the first such goal in order; on an empty list `(0, 0)` |
| AStarSearch.MinIndex | search.py:113 | the index of an entry whose `(fScore, row, col)` key is no larger than any other's |
| AStarSearch.PoppedIsStrictMinimum | search.py:111-113 | when heap positions are distinct, every other entry's key is strictly larger than the popped one's |
| AStarSearch.Pop | search.py:113 | `heappop` removes exactly the entry with the strictly least key and keeps the rest |
| AStarSearch.Target | search.py:181 | `astar` aims the heuristic at the first objective; `astar_corner_helper` aims it at the nearest goal, the first of equally near ones, or `(0, 0)` when none is left (the `astar` case is search.py:119) |
| AStarSearch.ScoreNeighbour | search.py:180-181 | a fresh node for the neighbour, linked to the expanded node, one move further than it (also search.py:118-119 for `astar`); its `hScore` is the distance to the first objective for `astar` and the least distance to any remaining goal for `astar_corner_helper`; its chain is a maze path from the start |
| AStarSearch.Expand | search.py:116-125 | every neighbour ends up in `explored_set`; only positions absent before are pushed, each once; recorded scores never increase |
| AStarSearch.PopAndExpand | search.py:112-125 | popping a non-goal and expanding it keeps the invariants: each position pushed once, every pushed position either on the heap or expanded, and every neighbour of an expanded position pushed |
| AStarSearch.BestFirst | search.py:101-127 | the result is a path of the maze from the start to a goal, just `[start]` when the start is itself a goal (search.py:111-115 with 192-197); it is empty exactly when no goal is reachable. That no position is pushed twice is stated by `Expand` (it pushes only positions absent from `explored_set`, each once) and kept by the loop invariant `Books`, which `PopAndExpand` preserves |
| AStarSearch.AStar | search.py:92-127 | best-first search towards the first objective: a path from the maze's start to an objective, `[start]` when the start is an objective, empty exactly when none is reachable |
| AStarSearch.AStarCornerHelper | search.py:163-189 | best-first search towards the nearest goal: a path from `startpoint` to a goal, `[startpoint]` when it is itself a goal, empty exactly when none is reachable |
| MultiGoal.Leg | search.py:79-80 | one leg search (also search.py:151, 248, 278): a maze path from the current start to a remaining goal, just the start when it is itself a remaining goal, empty exactly when no remaining goal is reachable |
| MultiGoal.GoalDict | search.py:143-145 | the dictionary's keys are `Dedup(objectives)`: each objective once, in first-occurrence order (`Seqs.DedupPrefix`) |
| MultiGoal.TourVisitsAll | search.py:79-88 | the tour's path passes through every goal |
| MultiGoal.ProgressStep | search.py:81-88 | after a successful leg the path ends at the goal reached; that goal is struck off exactly once; the earlier stops are kept |
| MultiGoal.LegOutcome | search.py:81-87 | if the extended path is empty or ends at a cell no longer listed, the drivers are stuck; otherwise the leg found a goal and the path ends at it |
| MultiGoal.VisitAll | search.py:79-88 | either a tour through all goals starting at the maze's start, or `None`, which happens only when some reachable cell has a goal out of its reach (`Stuck`; the converse is not claimed) |
| MultiGoal.Bfs | search.py:72-89 | `bfs`: a tour through every objective in the order found, or `None`, which happens only when stuck |
| MultiGoal.AStarCorner | search.py:139-287 | `astar_corner`, `astar_multi` and `fast` (the same loop three times): a tour through every distinct objective, or `None`, which happens only when stuck; that each leg's heuristic aims at the nearest remaining goal is stated by `AStarSearch.Target` and `AStarSearch.ScoreNeighbour`, not by this contract |

The maze is assumed to satisfy `NeighborsValid`: `getNeighbors` lists only cells that pass `isValidMove`. The best-first searches rely on this because they never call `isValidMove` themselves (search.py:116-122, 178-184). `ManhattanAdmissible` assumes `FourConnected`: neighbours are one row or one column apart.

Three points where the code's behaviour is easy to misread:

- A best-first search that re-opens a position whose score improves returns a path of fewest moves when its heuristic never overestimates. This code never re-opens: it only lowers the recorded score (search.py:123-125, 185-187) and never pushes the position again. The model does the same, so no optimality is claimed for `astar`.
- `astar` aims its heuristic at the first objective, but its goal test accepts any objective (search.py:114). The model keeps both.
- On an unreachable goal the code returns no failure value. `while q:` is always true for a `queue.Queue`, so `bfs_helper` blocks in `q.get()` (search.py:56-57), so `bfs` never gets a failed leg back. The dictionary drivers do: `astar_corner_helper` returns `[]`, and `astar_corner`, `astar_multi` and `fast` then fail on `path[-1]` of an empty path or on popping a goal that is no longer listed (search.py:157-158, 254-255, 284-285). In the model a failed leg returns `[]`, and the drivers return `None` at exactly the points where the code would fail.

## Left out

- `testPath`, `testMultiPath` and the start-coordinate shortcuts that call them (search.py:140-141, 233-236, 289-363): these are hard-coded fixture answers. `AStarCorner` models the drivers as if the shortcut tests fail.
- The `search` dispatch dictionary (search.py:31-38): a plain lookup of the four drivers and `astar`.
- The maze class itself (file parsing, walls, how `getNeighbors` and `isValidMove` are computed): it is not part of this model. The maze is a finite cell set with an arbitrary neighbour function.
- The internals of `heapq` and `queue.Queue`. The heap is a sequence with least-key extraction, and sifting is not modelled. The queue is a sequence with FIFO removal.
- `float("inf")` is the `Infinite` case of `Cost`. All scores the searches compute are integers.
- Python's in-place mutation of the maze's objective list by `goal.remove` in `bfs` (search.py:87): the model works on a copy of the list, so the maze is unchanged.
- The `Node` values stored in the goal dictionaries (search.py:145, 242, 272) and `goal_node` in `astar` (search.py:105): they are never read, so only the keys are modelled.
- BreadthFirst.BfsHelper: does not state that the path has the fewest moves of any path to the first goal dequeued; only validity, endpoints, absence of repeats and completeness are proved.
- BreadthFirst.BfsHelper: returns `[]` where the code blocks forever on an empty queue.
- AStarSearch.BestFirst: no optimality of the path is claimed, because the code has no re-open step.
- AStarSearch.AStar: requires at least one objective, because the code indexes `goal_maze[0]` (search.py:105).
