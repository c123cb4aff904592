/** The multi-objective drivers `bfs`, `astar_corner`, `astar_multi` and
    `fast`: search from the current start to the nearest remaining goal,
    append that leg to the path, strike the goal off and continue from it
    until no goal remains. */
module MultiGoal {
  import opened Seqs
  import opened Grid
  import opened BreadthFirst
  import opened AStarSearch

  datatype Option<T> = None | Some(value: T)

  /** The search used for each leg: `bfs_helper` for `bfs`, and
      `astar_corner_helper` for the three drivers that keep their goals in a
      dictionary. */
  datatype LegSearch = BreadthFirstLeg | NearestGoalLeg

  /** `goal_list[goal[i]] = Node(goal[i])` for each objective in turn: the
      dictionary's keys in insertion order, each objective once. */
  method GoalDict(goals: seq<Cell>) returns (keys: seq<Cell>)
    ensures keys == Dedup(goals)
    ensures Distinct(keys)
    ensures forall g :: g in goals <==> g in keys
  {
    keys := [];
    for i := 0 to |goals|
      invariant keys == Dedup(goals[..i])
    {
      assert goals[..i + 1][..i] == goals[..i];
      if goals[i] !in keys {
        keys := keys + [goals[i]];
      }
    }
    assert goals[..|goals|] == goals;
    forall g | g in goals ensures g in keys {
      var j :| 0 <= j < |goals| && goals[j] == g;
    }
  }

  /** `path` visits the goals: `order` is the sequence in which the goals
      were struck off (every goal, as often as it is listed), goal `order[i]`
      sits at index `stops[i]` of the path, and the stops never go back. A
      non-empty goal list gives a path of the maze from `start` that ends at
      the last goal struck off; an empty one gives the empty path. */
  ghost predicate Tour(m: Maze, start: Cell, goals: seq<Cell>, path: seq<Cell>, order: seq<Cell>, stops: seq<nat>) {
    |order| == |goals| && multiset(order) == multiset(goals) &&
    (goals == [] ==> path == []) &&
    (goals != [] ==> IsPath(m, path) && path[0] == start && path[|path| - 1] == order[|order| - 1]) &&
    Stopped(path, order, stops)
  }

  /** Some cell that can be reached from `start` has a goal out of its reach. */
  ghost predicate Stuck(m: Maze, start: Cell, goals: seq<Cell>) {
    exists c, g :: Reaches(m, start, [c]) && g in goals && !Reaches(m, c, [g])
  }

  /** A tour passes through every goal. */
  lemma TourVisitsAll(m: Maze, start: Cell, goals: seq<Cell>, path: seq<Cell>, order: seq<Cell>, stops: seq<nat>)
    requires Tour(m, start, goals, path, order, stops)
    ensures forall g :: g in goals ==> g in path
  {
    forall g | g in goals ensures g in path {
      assert g in multiset(goals);
      assert g in order;
      var i :| 0 <= i < |order| && order[i] == g;
      assert path[stops[i]] == g;
    }
  }

  /** One leg: `bfs_helper` for `bfs`, `astar_corner_helper` for the
      dictionary drivers, from the current start to the remaining goals. */
  method Leg(m: Maze, start: Cell, goals: seq<Cell>, leg: LegSearch) returns (temp: seq<Cell>)
    requires leg == NearestGoalLeg ==> m.NeighborsValid()
    ensures temp != [] ==> IsPath(m, temp) && temp[0] == start && temp[|temp| - 1] in goals
    ensures temp == [] <==> !Reaches(m, start, goals)
    ensures start in goals ==> temp == [start]
  {
    if leg == BreadthFirstLeg {
      temp := BfsHelper(m, start, goals);
    } else {
      temp := AStarCornerHelper(m, start, goals);
    }
  }

  /** A path that starts at `start` reaches its own last cell. */
  lemma PathReachesEnd(m: Maze, start: Cell, path: seq<Cell>)
    requires IsPath(m, path) && path[0] == start
    ensures Reaches(m, start, [path[|path| - 1]])
  {
  }

  /** A cell that misses every goal of `goal` misses its first goal. */
  lemma MissesFirst(m: Maze, c: Cell, goal: seq<Cell>)
    requires goal != [] && !Reaches(m, c, goal)
    ensures !Reaches(m, c, [goal[0]])
  {
    forall p | IsPath(m, p) && p[0] == c ensures p[|p| - 1] !in [goal[0]] {
      assert p[|p| - 1] !in goal;
    }
  }

  /** `goal` holds what is left of `goals` once the goals of `order` are
      struck off. */
  ghost predicate Counted(goals: seq<Cell>, goal: seq<Cell>, order: seq<Cell>) {
    multiset(order) + multiset(goal) == multiset(goals) && |order| + |goal| == |goals|
  }

  /** The path so far runs from `s0` to the current `start`, which is the
      goal struck off last; before the first leg both are empty. */
  ghost predicate Walked(m: Maze, s0: Cell, path: seq<Cell>, start: Cell, order: seq<Cell>) {
    (path == [] ==> start == s0 && order == []) &&
    (path != [] ==> IsPath(m, path) && path[0] == s0 && path[|path| - 1] == start &&
                    order != [] && order[|order| - 1] == start)
  }

  /** Goal `order[i]` sits at index `stops[i]` of the path, and the stops
      never go back. */
  ghost predicate Stopped(path: seq<Cell>, order: seq<Cell>, stops: seq<nat>) {
    |stops| == |order| &&
    (forall i :: 0 <= i < |stops| ==> stops[i] < |path| && path[stops[i]] == order[i]) &&
    (forall i, j :: 0 <= i < j < |stops| ==> stops[i] <= stops[j])
  }

  /** The state of the drivers' loop. */
  ghost predicate Progress(m: Maze, s0: Cell, goals: seq<Cell>, goal: seq<Cell>, path: seq<Cell>, start: Cell,
                           order: seq<Cell>, stops: seq<nat>) {
    Counted(goals, goal, order) && Walked(m, s0, path, start, order) && Stopped(path, order, stops)
  }

  lemma CountedStep(goals: seq<Cell>, goal: seq<Cell>, order: seq<Cell>, found: Cell)
    requires Counted(goals, goal, order) && found in goal
    ensures Counted(goals, RemoveFirst(goal, found), order + [found])
  {
  }

  lemma StoppedStep(path: seq<Cell>, order: seq<Cell>, stops: seq<nat>, path': seq<Cell>, found: Cell)
    requires Stopped(path, order, stops)
    requires 0 < |path'| && |path| <= |path'| && path'[..|path|] == path && path'[|path'| - 1] == found
    ensures Stopped(path', order + [found], stops + [|path'| - 1])
  {
  }

  /** The current start can be reached from the first one, and every goal
      still listed is one of the original goals. */
  lemma ProgressFacts(m: Maze, s0: Cell, goals: seq<Cell>, goal: seq<Cell>, path: seq<Cell>, start: Cell,
                      order: seq<Cell>, stops: seq<nat>)
    requires Progress(m, s0, goals, goal, path, start, order, stops)
    ensures Reaches(m, s0, [start])
    ensures forall g :: g in goal ==> g in goals
  {
    if path == [] {
      assert IsPath(m, [start]);
    } else {
      PathReachesEnd(m, s0, path);
    }
    forall g | g in goal ensures g in goals {
      assert g in multiset(goal) && g in multiset(goals);
    }
  }

  /** One successful leg: `temp` leads from `start` to a listed goal. Joining
      it to the path (whole on the first leg, without its first cell after
      that) and striking its last cell off keeps the loop state. */
  lemma ProgressStep(m: Maze, s0: Cell, goals: seq<Cell>, goal: seq<Cell>, path: seq<Cell>, start: Cell,
                     order: seq<Cell>, stops: seq<nat>, temp: seq<Cell>, path': seq<Cell>, found: Cell)
    requires Progress(m, s0, goals, goal, path, start, order, stops)
    requires temp != [] && IsPath(m, temp) && temp[0] == start && temp[|temp| - 1] in goal
    requires path' == if path == [] then temp else path + temp[1..]
    requires found == temp[|temp| - 1]
    ensures path'[|path'| - 1] == found
    ensures Progress(m, s0, goals, RemoveFirst(goal, found), path', found, order + [found], stops + [|path'| - 1])
  {
    CountedStep(goals, goal, order, found);
    if path != [] {
      PathJoin(m, path, temp);
      assert path'[..|path|] == path;
      StoppedStep(path, order, stops, path', found);
    } else {
      StoppedStep(path, order, stops, path', found);
    }
  }

  /** A goal list that holds the start is reached by the one-cell path. */
  lemma SelfReaches(m: Maze, start: Cell, goal: seq<Cell>)
    requires start in goal
    ensures Reaches(m, start, goal)
  {
    assert IsPath(m, [start]);
  }

  /** A leg that finds none of the remaining goals leaves the drivers
      stuck: its start can be reached, and the first remaining goal cannot be
      reached from it. */
  lemma LegFails(m: Maze, s0: Cell, goals: seq<Cell>, goal: seq<Cell>, path: seq<Cell>, start: Cell,
                 order: seq<Cell>, stops: seq<nat>)
    requires Progress(m, s0, goals, goal, path, start, order, stops)
    requires goal != [] && !Reaches(m, start, goal)
    ensures Stuck(m, s0, goals)
  {
    ProgressFacts(m, s0, goals, goal, path, start, order, stops);
    MissesFirst(m, start, goal);
    assert goal[0] in goals;
  }

  /** What one pass of the drivers' loop makes of a leg's result `temp`:
      the path grows by the whole leg on the first pass and by the leg without
      its first cell after that. If the grown path is empty, or ends at a cell
      that is no longer listed, the leg found nothing and the drivers are
      stuck; otherwise the leg succeeded and the path ends at its goal. */
  lemma LegOutcome(m: Maze, s0: Cell, goals: seq<Cell>, goal: seq<Cell>, path: seq<Cell>, start: Cell,
                   order: seq<Cell>, stops: seq<nat>, temp: seq<Cell>, path': seq<Cell>)
    requires Progress(m, s0, goals, goal, path, start, order, stops) && goal != []
    requires temp != [] ==> IsPath(m, temp) && temp[0] == start && temp[|temp| - 1] in goal
    requires temp == [] <==> !Reaches(m, start, goal)
    requires path' == if path != [] then path + (if temp == [] then [] else temp[1..]) else path + temp
    ensures path' == [] || path'[|path'| - 1] !in goal ==> Stuck(m, s0, goals)
    ensures path' != [] && path'[|path'| - 1] in goal ==>
              temp != [] && path' == (if path == [] then temp else path + temp[1..]) &&
              path'[|path'| - 1] == temp[|temp| - 1]
  {
    if temp == [] {
      LegFails(m, s0, goals, goal, path, start, order, stops);
    } else if path == [] {
      assert path' == temp;
    }
    if start in goal {
      SelfReaches(m, start, goal);
    }
  }

  /** With every goal struck off, the loop state is a tour. */
  lemma ProgressDone(m: Maze, s0: Cell, goals: seq<Cell>, path: seq<Cell>, start: Cell,
                     order: seq<Cell>, stops: seq<nat>)
    requires Progress(m, s0, goals, [], path, start, order, stops)
    ensures Tour(m, s0, goals, path, order, stops)
  {
  }

  /** The loop shared by the four drivers. Each leg searches from `start` to
      the remaining goals; the first leg is taken whole, later ones without
      their first cell (the previous goal); the goal the path now ends at is
      struck off and becomes the next start. Where the code fails, with
      `path[-1]` of an empty path or with removing a goal that is no longer
      listed (both happen exactly when a leg finds nothing), the result is
      `None`. */
  method VisitAll(m: Maze, goals: seq<Cell>, leg: LegSearch)
    returns (r: Option<seq<Cell>>, ghost order: seq<Cell>, ghost stops: seq<nat>)
    requires leg == NearestGoalLeg ==> m.NeighborsValid()
    ensures r.Some? ==> Tour(m, m.GetStart(), goals, r.value, order, stops)
    ensures r.None? ==> Stuck(m, m.GetStart(), goals)
  {
    var start := m.GetStart();
    var goal := goals;
    var flag := 0;
    var path: seq<Cell> := [];
    order, stops := [], [];
    while goal != []
      invariant Progress(m, m.GetStart(), goals, goal, path, start, order, stops)
      invariant flag == 0 <==> path == []
      decreases |goal|
    {
      var temp := Leg(m, start, goal, leg);
      ghost var before := path;
      if flag != 0 {
        // `temp[1:]`, which is empty for an empty list
        var tail := if temp == [] then [] else temp[1..];
        path := path + tail;
      } else {
        path := path + temp;
      }
      flag := flag + 1;
      LegOutcome(m, m.GetStart(), goals, goal, before, start, order, stops, temp, path);
      if path == [] {
        return None, order, stops;
      }
      var foundGoal := path[|path| - 1];
      if foundGoal !in goal {
        return None, order, stops;
      }
      ProgressStep(m, m.GetStart(), goals, goal, before, start, order, stops, temp, path, foundGoal);
      goal := RemoveFirst(goal, foundGoal);
      order := order + [foundGoal];
      stops := stops + [|path| - 1];
      start := foundGoal;
    }
    ProgressDone(m, m.GetStart(), goals, path, start, order, stops);
    r := Some(path);
  }

  /** `bfs(maze)`: the objectives one after another, each leg by
      breadth-first search. */
  method Bfs(m: Maze) returns (r: Option<seq<Cell>>, ghost order: seq<Cell>, ghost stops: seq<nat>)
    ensures r.Some? ==> Tour(m, m.GetStart(), m.GetObjectives(), r.value, order, stops)
    ensures r.Some? ==> forall g :: g in m.GetObjectives() ==> g in r.value
    ensures r.None? ==> Stuck(m, m.GetStart(), m.GetObjectives())
  {
    r, order, stops := VisitAll(m, m.GetObjectives(), BreadthFirstLeg);
    if r.Some? {
      TourVisitsAll(m, m.GetStart(), m.GetObjectives(), r.value, order, stops);
    }
  }

  /** `astar_corner(maze)`, `astar_multi(maze)` and `fast(maze)`: the
      objectives gathered into a dictionary, then one leg per goal by
      `astar_corner_helper`, always heading for the nearest remaining goal. */
  method AStarCorner(m: Maze) returns (r: Option<seq<Cell>>, ghost order: seq<Cell>, ghost stops: seq<nat>)
    requires m.NeighborsValid()
    ensures r.Some? ==> Tour(m, m.GetStart(), Dedup(m.GetObjectives()), r.value, order, stops)
    ensures r.Some? ==> forall g :: g in m.GetObjectives() ==> g in r.value
    ensures r.None? ==> Stuck(m, m.GetStart(), Dedup(m.GetObjectives()))
  {
    var goalList := GoalDict(m.GetObjectives());
    r, order, stops := VisitAll(m, goalList, NearestGoalLeg);
    if r.Some? {
      TourVisitsAll(m, m.GetStart(), goalList, r.value, order, stops);
    }
  }
}
