/**
 * The rewritten maze, class `Maze` of maze.py: the constructor carves the
 * maze depth-first from the centre with the candidates tested North, South,
 * West, East and the random index taken from a stream of draws, then masks
 * the borders and allocates the pheromone grid with its one-cell margin.
 */
module Maze {
  import opened Exits
  import opened MazeSpec
  import opened MazeTree

  /** maze.py:25-43 tests North, South, West, East. */
  const ORDER: seq<Side> := [North, South, West, East]

  /** The carver of maze.py; `draws[k]` is the value drawn for the k-th carve. */
  function MazeParams(width: nat, height: nat, draws: seq<int>): (P: Params)
    ensures P.n0 == width && P.n1 == height && P.src == Draws(draws)
  {
    Params(width, height, ORDER, Draws(draws))
  }

  /** The unvisited in-grid neighbours of `cur`, tested North, South, West, East. */
  method Neighbours(ghost P: Params, isVisited: array2<bool>, cur: Pos) returns (neighbours: seq<Side>)
    requires P.n0 == isVisited.Length0 && P.n1 == isVisited.Length1
    requires InBounds(cur, isVisited.Length0, isVisited.Length1)
    ensures neighbours == Candidates(P, ORDER, ToGrid(isVisited), cur)
  {
    var width, height := isVisited.Length0, isVisited.Length1;
    ghost var vis := ToGrid(isVisited);
    neighbours := [];
    if 0 < cur.r && !isVisited[cur.r - 1, cur.c] {
      neighbours := neighbours + [North];
    }
    assert neighbours == Keep(P, vis, cur, North);
    if cur.r < width - 1 && !isVisited[cur.r + 1, cur.c] {
      neighbours := neighbours + [South];
    }
    assert neighbours == Keep(P, vis, cur, North) + Keep(P, vis, cur, South);
    if 0 < cur.c && !isVisited[cur.r, cur.c - 1] {
      neighbours := neighbours + [West];
    }
    assert neighbours == Keep(P, vis, cur, North) + Keep(P, vis, cur, South) + Keep(P, vis, cur, West);
    if cur.c < height - 1 && !isVisited[cur.r, cur.c + 1] {
      neighbours := neighbours + [East];
    }
    assert neighbours == Keep(P, vis, cur, North) + Keep(P, vis, cur, South) + Keep(P, vis, cur, West) + Keep(P, vis, cur, East);
    CandidatesOfFour(P, ORDER, vis, cur);
  }

  /** One turn of the `while` loop of the constructor (maze.py:19-58): it performs `Step`. */
  method Turn(ghost P: Params, ghost st: State, draws: seq<int>, cells: array2<bv8>, isVisited: array2<bool>, historic: seq<Pos>, drawn: int)
    returns (historic': seq<Pos>, drawn': int)
    requires P == MazeParams(cells.Length0, cells.Length1, draws)
    requires isVisited.Length0 == cells.Length0 && isVisited.Length1 == cells.Length1
    requires cells as object != isVisited as object
    requires WF(P, st) && |st.stack| > 0
    requires ToGrid(cells) == st.cells && ToGrid(isVisited) == st.visited && historic == st.stack && drawn == st.rng
    modifies cells, isVisited
    ensures ToGrid(cells) == Step(P, st).cells && ToGrid(isVisited) == Step(P, st).visited
    ensures historic' == Step(P, st).stack && drawn' == Step(P, st).rng
  {
    var curPos := historic[|historic| - 1];
    SetCell(isVisited, curPos, true);
    ghost var vis := ToGrid(isVisited);
    var neighbours := Neighbours(P, isVisited, curPos);
    assert Top(st) == curPos && vis == Set(st.visited, curPos, true);
    if |neighbours| > 0 {
      var draw := if 0 <= drawn < |draws| then draws[drawn] else 0;
      var chosen := draw % |neighbours|;
      drawn' := drawn + 1;
      var dir := neighbours[chosen];
      StepCarves(P, st, vis, neighbours, dir);
      historic' := historic + [Move(curPos, dir)];
      CarveArray(cells, curPos, dir);
    } else {
      StepPops(P, st, vis);
      historic' := historic[..|historic| - 1];
      drawn' := drawn;
    }
  }

  /** In a well-formed maze, a border column has no exit on its outer side `s`. */
  lemma ColumnClosed(g: Grid<bv8>, n0: nat, n1: nat, col: int, s: Side)
    requires WellFormedMaze(g, n0, n1) && 0 <= col < n1
    requires (s == West && col == 0) || (s == East && col == n1 - 1)
    ensures forall i :: 0 <= i < n0 ==> IsMask(g[i][col]) && !HasExit(g[i][col], s)
  {
    forall i | 0 <= i < n0 ensures IsMask(g[i][col]) && !HasExit(g[i][col], s) {
      assert !InBounds(Move(Pos(i, col), s), n0, n1);
      assert IsMask(Get(g, Pos(i, col)));
    }
  }

  /** In a well-formed maze, a border row has no exit on its outer side `s`. */
  lemma RowClosed(g: Grid<bv8>, n0: nat, n1: nat, row: int, s: Side)
    requires WellFormedMaze(g, n0, n1) && 0 <= row < n0
    requires (s == North && row == 0) || (s == South && row == n0 - 1)
    ensures forall j :: 0 <= j < n1 ==> IsMask(g[row][j]) && !HasExit(g[row][j], s)
  {
    forall j | 0 <= j < n1 ensures IsMask(g[row][j]) && !HasExit(g[row][j], s) {
      assert !InBounds(Move(Pos(row, j), s), n0, n1);
      assert IsMask(Get(g, Pos(row, j)));
    }
  }

  /** `cells[:, col] &= 15 - Mask(s)` on a column where no cell has side `s` open: nothing changes. */
  method MaskColumn(cells: array2<bv8>, col: int, s: Side)
    requires 0 <= col < cells.Length1
    requires forall i :: 0 <= i < cells.Length0 ==> IsMask(cells[i, col]) && !HasExit(cells[i, col], s)
    modifies cells
    ensures ToGrid(cells) == old(ToGrid(cells))
  {
    ghost var g := ToGrid(cells);
    forall i | 0 <= i < cells.Length0 ensures cells[i, col] & (15 - Mask(s)) == cells[i, col] {
      AndCloses(cells[i, col], s);
    }
    forall i | 0 <= i < cells.Length0 {
      cells[i, col] := cells[i, col] & (15 - Mask(s));
    }
    GridExt(ToGrid(cells), g, cells.Length0, cells.Length1);
  }

  /** `cells[row, :] &= 15 - Mask(s)` on a row where no cell has side `s` open: nothing changes. */
  method MaskRow(cells: array2<bv8>, row: int, s: Side)
    requires 0 <= row < cells.Length0
    requires forall j :: 0 <= j < cells.Length1 ==> IsMask(cells[row, j]) && !HasExit(cells[row, j], s)
    modifies cells
    ensures ToGrid(cells) == old(ToGrid(cells))
  {
    ghost var g := ToGrid(cells);
    forall j | 0 <= j < cells.Length1 ensures cells[row, j] & (15 - Mask(s)) == cells[row, j] {
      AndCloses(cells[row, j], s);
    }
    forall j | 0 <= j < cells.Length1 {
      cells[row, j] := cells[row, j] & (15 - Mask(s));
    }
    GridExt(ToGrid(cells), g, cells.Length0, cells.Length1);
  }

  /** The border pass (maze.py:61-64): on a maze without exits off the grid it changes nothing. */
  method PutBorders(cells: array2<bv8>)
    requires cells.Length0 >= 1 && cells.Length1 >= 1
    requires WellFormedMaze(ToGrid(cells), cells.Length0, cells.Length1)
    modifies cells
    ensures ToGrid(cells) == old(ToGrid(cells))
  {
    var width, height := cells.Length0, cells.Length1;
    ghost var g := ToGrid(cells);
    ColumnClosed(g, width, height, 0, West);
    MaskColumn(cells, 0, West);
    ColumnClosed(g, width, height, height - 1, East);
    MaskColumn(cells, height - 1, East);
    RowClosed(g, width, height, 0, North);
    MaskRow(cells, 0, North);
    RowClosed(g, width, height, width - 1, South);
    MaskRow(cells, width - 1, South);
  }

  /**
   * The carving loop of the constructor (maze.py:13-58): the result is the
   * carver's maze for these dimensions and draws, a well-formed maze with an
   * exit in every cell when it has two or more cells, in which every cell is
   * connected to every other one through width * height - 1 open passages.
   */
  method CarveMaze(width: nat, height: nat, draws: seq<int>) returns (m: array2<bv8>)
    requires width >= 1 && height >= 1
    ensures m.Length0 == width && m.Length1 == height
    ensures ToGrid(m) == Generate(MazeParams(width, height, draws), 0)
    ensures WellFormedMaze(ToGrid(m), width, height)
    ensures width * height >= 2 ==> EveryCellHasExit(ToGrid(m), width, height)
    ensures Perfect(ToGrid(m), width, height)
    ensures fresh(m)
  {
    ghost var P := MazeParams(width, height, draws);
    m := new bv8[width, height]((i, j) => 0);
    var isVisited := new bool[width, height]((i, j) => false);
    var historic := [Pos(width / 2, height / 2)];
    var drawn := 0;
    ghost var st := Initial(P, 0);
    GridExt(ToGrid(m), st.cells, width, height);
    GridExt(ToGrid(isVisited), st.visited, width, height);
    InitialInv(P, 0);
    RunInv(P, 0);
    while |historic| > 0
      invariant m.Length0 == width && m.Length1 == height
      invariant isVisited.Length0 == width && isVisited.Length1 == height
      invariant Inv(P, st) && Final(P, 0) == Run(P, st, Measure(P, st))
      invariant ToGrid(m) == st.cells && ToGrid(isVisited) == st.visited
      invariant historic == st.stack && drawn == st.rng
      decreases Measure(P, st)
    {
      historic, drawn := Turn(P, st, draws, m, isVisited, historic, drawn);
      StepTowardsFinal(P, 0, st);
      st := Step(P, st);
    }
    EmptyIsFinal(P, 0, st);
    GenerateIsPerfect(P, 0);
  }

  class Maze {
    var cells: array2<bv8>   // `self.map`
    var pheromones: array2<real>

    /** A carved maze of at least one cell with its ghost-margin pheromone grid. */
    ghost predicate Ready()
      reads this, cells, pheromones
    {
      && cells.Length0 >= 1 && cells.Length1 >= 1
      && pheromones.Length0 == cells.Length0 + 2 && pheromones.Length1 == cells.Length1 + 2
      && WellFormedMaze(ToGrid(cells), cells.Length0, cells.Length1)
    }

    /**
     * maze.py:10-66.  The cells is the carver's maze for these dimensions and
     * draws, a well-formed maze with an exit in every cell when it has two or
     * more cells and every cell connected to every other one through
     * width * height - 1 open passages; the pheromone grid is
     * (width + 2) x (height + 2) zeros.
     */
    constructor (width: nat, height: nat, draws: seq<int>)
      requires width >= 1 && height >= 1
      ensures cells.Length0 == width && cells.Length1 == height
      ensures ToGrid(cells) == Generate(MazeParams(width, height, draws), 0)
      ensures WellFormedMaze(ToGrid(cells), width, height)
      ensures width * height >= 2 ==> EveryCellHasExit(ToGrid(cells), width, height)
      ensures Perfect(ToGrid(cells), width, height)
      ensures pheromones.Length0 == width + 2 && pheromones.Length1 == height + 2
      ensures ToGrid(pheromones) == Fill(width + 2, height + 2, 0.0)
      ensures fresh(cells) && fresh(pheromones) && Ready()
    {
      var m := CarveMaze(width, height, draws);
      PutBorders(m);
      cells := m;
      var ph := new real[width + 2, height + 2]((i, j) => 0.0);
      GridExt(ToGrid(ph), Fill(width + 2, height + 2, 0.0), width + 2, height + 2);
      pheromones := ph;
    }
  }
}
