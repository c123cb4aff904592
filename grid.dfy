/** Cells, the Manhattan heuristic, and the maze as the searches see it: an
    abstract graph with a finite set of open cells, a neighbour list per cell
    (`getNeighbors`) and a validity test (`isValidMove`). */
module Grid {

  /** A `(row, col)` position. */
  datatype Cell = Cell(row: int, col: int)

  function Abs(x: int): nat {
    if x < 0 then -x else x
  }

  /** `manhattan(curr, goal)`: the 4-connected grid distance, which is zero
      exactly between a cell and itself. */
  function Manhattan(a: Cell, b: Cell): (d: nat)
    ensures d == 0 <==> a == b
  {
    Abs(a.row - b.row) + Abs(a.col - b.col)
  }

  lemma ManhattanSymmetric(a: Cell, b: Cell)
    ensures Manhattan(a, b) == Manhattan(b, a)
  {
  }

  lemma ManhattanTriangle(a: Cell, b: Cell, c: Cell)
    ensures Manhattan(a, c) <= Manhattan(a, b) + Manhattan(b, c)
  {
  }

  /** The maze collaborator. Its walls and file format are not modelled:
      `cells` is the finite set of cells `isValidMove` accepts, `adjacent`
      is what `getNeighbors` returns for a cell. */
  datatype Maze = Maze(start: Cell, objectives: seq<Cell>, cells: set<Cell>, adjacent: Cell -> seq<Cell>)
  {
    function GetStart(): Cell { start }

    function GetObjectives(): seq<Cell> { objectives }

    function GetNeighbors(row: int, col: int): seq<Cell> { adjacent(Cell(row, col)) }

    predicate IsValidMove(row: int, col: int) { Cell(row, col) in cells }

    /** `getNeighbors` hands out only valid cells. The best-first searches
        rely on this: they never call `isValidMove` themselves. */
    ghost predicate NeighborsValid() {
      forall c: Cell, n: Cell :: n in adjacent(c) ==> n in cells
    }

    /** Neighbours are the 4-adjacent cells (one row or one column away). */
    ghost predicate FourConnected() {
      forall c: Cell, n: Cell :: n in adjacent(c) ==> Manhattan(c, n) == 1
    }
  }

  /** One move: `b` is listed by `getNeighbors` at `a` and passes `isValidMove`. */
  ghost predicate Step(m: Maze, a: Cell, b: Cell) {
    b in m.GetNeighbors(a.row, a.col) && m.IsValidMove(b.row, b.col)
  }

  /** A non-empty sequence of cells, each after the first one move from its
      predecessor. */
  ghost predicate IsPath(m: Maze, p: seq<Cell>) {
    |p| > 0 && forall i :: 0 < i < |p| ==> Step(m, p[i - 1], p[i])
  }

  /** Some path leads from `a` to a cell of `goals`. */
  ghost predicate Reaches(m: Maze, a: Cell, goals: seq<Cell>) {
    exists p :: IsPath(m, p) && p[0] == a && p[|p| - 1] in goals
  }

  /** Every valid neighbour of a member of `s` is in `s`. */
  ghost predicate ClosedUnderSteps(m: Maze, s: set<Cell>) {
    forall c, n :: c in s && n in m.adjacent(c) && n in m.cells ==> n in s
  }

  /** Joining two paths at a shared cell (the junction counted once) gives a path. */
  lemma PathJoin(m: Maze, p: seq<Cell>, q: seq<Cell>)
    requires IsPath(m, p) && IsPath(m, q) && p[|p| - 1] == q[0]
    ensures IsPath(m, p + q[1..])
    ensures (p + q[1..])[0] == p[0] && (p + q[1..])[|p + q[1..]| - 1] == q[|q| - 1]
  {
  }

  /** A path that starts inside a set closed under moves never leaves it. */
  lemma {:induction false} PathStaysInside(m: Maze, s: set<Cell>, p: seq<Cell>)
    requires IsPath(m, p) && p[0] in s && ClosedUnderSteps(m, s)
    ensures forall i :: 0 <= i < |p| ==> p[i] in s
  {
    if |p| > 1 {
      var front := p[..|p| - 1];
      assert IsPath(m, front) by {
        forall i | 0 < i < |front| ensures Step(m, front[i - 1], front[i]) {
          assert Step(m, p[i - 1], p[i]);
        }
      }
      PathStaysInside(m, s, front);
      assert p[|p| - 2] in s && Step(m, p[|p| - 2], p[|p| - 1]);
    }
  }

  /** The completeness argument shared by both searches: once the cells a
      search has fully expanded contain the start, hold no goal and are closed
      under moves, no goal can be reached from the start. */
  lemma ExhaustedMeansUnreachable(m: Maze, start: Cell, goals: seq<Cell>, s: set<Cell>)
    requires start in s && ClosedUnderSteps(m, s)
    requires forall c :: c in s ==> c !in goals
    ensures !Reaches(m, start, goals)
  {
    forall p | IsPath(m, p) && p[0] == start ensures p[|p| - 1] !in goals {
      PathStaysInside(m, s, p);
    }
  }

  /** The heuristic never overestimates on a 4-connected maze: a path has at
      least as many moves as the Manhattan distance between its ends. */
  lemma {:induction false} ManhattanAdmissible(m: Maze, p: seq<Cell>)
    requires m.FourConnected() && IsPath(m, p)
    ensures Manhattan(p[0], p[|p| - 1]) <= |p| - 1
  {
    if |p| > 1 {
      var front := p[..|p| - 1];
      assert IsPath(m, front) by {
        forall i | 0 < i < |front| ensures Step(m, front[i - 1], front[i]) {
          assert Step(m, p[i - 1], p[i]);
        }
      }
      ManhattanAdmissible(m, front);
      assert Step(m, p[|p| - 2], p[|p| - 1]);
      ManhattanTriangle(p[0], p[|p| - 2], p[|p| - 1]);
    }
  }
}
