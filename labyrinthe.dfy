/**
 * The original maze generator, `buildMaze` (labyrinthe.py:19-67): the
 * depth-first carver driven by the Park-Miller seed, with candidates tested
 * in the order West, East, South, North.
 */
module Labyrinthe {
  import opened Exits
  import opened MazeSpec
  import opened MazeTree
  import ParkMiller

  /** labyrinthe.py:42-53 tests West, East, South, North. */
  const ORDER: seq<Side> := [West, East, South, North]

  function LabyrinthParams(d0: nat, d1: nat): (P: Params)
    ensures P.n0 == d0 && P.n1 == d1 && P.src == ParkMillerSeed
  {
    Params(d0, d1, ORDER, ParkMillerSeed)
  }

  /** The unvisited in-grid neighbours of `cur`, tested West, East, South, North. */
  method Neighbours(ghost P: Params, isVisited: array2<bool>, cur: Pos) returns (neighbours: seq<Side>)
    requires P.n0 == isVisited.Length0 && P.n1 == isVisited.Length1
    requires InBounds(cur, isVisited.Length0, isVisited.Length1)
    ensures neighbours == Candidates(P, ORDER, ToGrid(isVisited), cur)
  {
    var d0, d1 := isVisited.Length0, isVisited.Length1;
    ghost var vis := ToGrid(isVisited);
    neighbours := [];
    if cur.c > 0 && !isVisited[cur.r, cur.c - 1] {
      neighbours := neighbours + [West];
    }
    assert neighbours == Keep(P, vis, cur, West);
    if cur.c < d1 - 1 && !isVisited[cur.r, cur.c + 1] {
      neighbours := neighbours + [East];
    }
    assert neighbours == Keep(P, vis, cur, West) + Keep(P, vis, cur, East);
    if cur.r < d0 - 1 && !isVisited[cur.r + 1, cur.c] {
      neighbours := neighbours + [South];
    }
    assert neighbours == Keep(P, vis, cur, West) + Keep(P, vis, cur, East) + Keep(P, vis, cur, South);
    if cur.r > 0 && !isVisited[cur.r - 1, cur.c] {
      neighbours := neighbours + [North];
    }
    assert neighbours == Keep(P, vis, cur, West) + Keep(P, vis, cur, East) + Keep(P, vis, cur, South) + Keep(P, vis, cur, North);
    CandidatesOfFour(P, ORDER, vis, cur);
  }

  /** One turn of the `while` loop of `buildMaze` (labyrinthe.py:34-65): it performs `Step`. */
  method Turn(ghost P: Params, ghost st: State, maze: array2<bv8>, isVisited: array2<bool>, historic: seq<Pos>, seed: int)
    returns (historic': seq<Pos>, seed': int)
    requires P == LabyrinthParams(maze.Length0, maze.Length1)
    requires isVisited.Length0 == maze.Length0 && isVisited.Length1 == maze.Length1
    requires maze as object != isVisited as object
    requires WF(P, st) && |st.stack| > 0
    requires ToGrid(maze) == st.cells && ToGrid(isVisited) == st.visited && historic == st.stack && seed == st.rng
    modifies maze, isVisited
    ensures ToGrid(maze) == Step(P, st).cells && ToGrid(isVisited) == Step(P, st).visited
    ensures historic' == Step(P, st).stack && seed' == Step(P, st).rng
  {
    var d0, d1 := maze.Length0, maze.Length1;
    var cur := historic[|historic| - 1];
    SetCell(isVisited, cur, true);
    ghost var vis := ToGrid(isVisited);
    var neighbours := Neighbours(P, isVisited, cur);
    assert Top(st) == cur && vis == Set(st.visited, cur, true);
    if |neighbours| > 0 {
      seed' := ParkMiller.Next(seed);
      var chosenDir := seed' % |neighbours|;
      var dir := neighbours[chosenDir];
      StepCarves(P, st, vis, neighbours, dir);
      historic' := historic + [Move(cur, dir)];
      CarveArray(maze, cur, dir);
    } else {
      StepPops(P, st, vis);
      historic' := historic[..|historic| - 1];
      seed' := seed;
    }
  }

  /**
   * Builds a `d0` x `d1` maze from `seed`.  The result is the carver's
   * result for these dimensions and this seed, so equal arguments give equal
   * mazes; it is a well-formed maze, with an exit in every cell when it has
   * two or more cells, in which every cell is connected to every other one
   * through d0 * d1 - 1 open passages.
   */
  method BuildMaze(d0: nat, d1: nat, seed: int) returns (maze: array2<bv8>)
    requires d0 >= 1 && d1 >= 1
    ensures maze.Length0 == d0 && maze.Length1 == d1
    ensures ToGrid(maze) == Generate(LabyrinthParams(d0, d1), seed)
    ensures WellFormedMaze(ToGrid(maze), d0, d1)
    ensures d0 * d1 >= 2 ==> EveryCellHasExit(ToGrid(maze), d0, d1)
    ensures Perfect(ToGrid(maze), d0, d1)
  {
    ghost var P := LabyrinthParams(d0, d1);
    maze := new bv8[d0, d1]((i, j) => 0);
    var isVisited := new bool[d0, d1]((i, j) => false);
    var current := seed;
    var historic := [Pos(d0 / 2, d1 / 2)];
    ghost var st := Initial(P, seed);
    GridExt(ToGrid(maze), st.cells, d0, d1);
    GridExt(ToGrid(isVisited), st.visited, d0, d1);
    InitialInv(P, seed);
    RunInv(P, seed);
    while |historic| > 0
      invariant maze.Length0 == d0 && maze.Length1 == d1
      invariant isVisited.Length0 == d0 && isVisited.Length1 == d1
      invariant Inv(P, st) && Final(P, seed) == Run(P, st, Measure(P, st))
      invariant ToGrid(maze) == st.cells && ToGrid(isVisited) == st.visited
      invariant historic == st.stack && current == st.rng
      decreases Measure(P, st)
    {
      historic, current := Turn(P, st, maze, isVisited, historic, current);
      StepTowardsFinal(P, seed, st);
      st := Step(P, st);
    }
    EmptyIsFinal(P, seed, st);
    GenerateIsPerfect(P, seed);
  }
}
