/**
 * The randomized depth-first carver shared by both maze generators
 * (maze.py:10-58 and labyrinthe.py:19-67), as a function on values.
 *
 * One `Step` is one turn of the source's `while` loop: the top of the
 * stack is marked visited, its in-bounds unvisited neighbours are listed in
 * the generator's own order, and either one of them is chosen, the passage
 * is opened on both sides and the neighbour is pushed, or the top is
 * popped.  The two generators differ only in the neighbour order and in
 * where the choice comes from (`Source`).  Both imperative generators are
 * proved to compute `Generate`; the maze properties are proved here, once.
 */
module MazeSpec {
  import opened Exits
  import ParkMiller

  /** Where a carve's random index comes from. */
  datatype Source =
    | Draws(draws: seq<int>)   // maze.py: the k-th carve uses the k-th draw
    | ParkMillerSeed           // labyrinthe.py: the seed, advanced before every carve

  /** Grid dimensions, candidate order and random source of one generator. */
  datatype Params = Params(n0: nat, n1: nat, order: seq<Side>, src: Source)

  predicate ValidParams(P: Params) {
    P.n0 >= 1 && P.n1 >= 1 && North in P.order && East in P.order && South in P.order && West in P.order
  }

  /** The loop state: the exit masks, the visited grid, the stack `historic`, the random state and the number of carves so far. */
  datatype State = State(cells: Grid<bv8>, visited: Grid<bool>, stack: seq<Pos>, rng: int, carves: nat)

  function Centre(P: Params): Pos {
    Pos(P.n0 / 2, P.n1 / 2)
  }

  /** The value reduced modulo the number of candidates to pick one. */
  function Raw(src: Source, rng: int): int {
    match src
    case Draws(d) => if 0 <= rng < |d| then d[rng] else 0
    case ParkMillerSeed => ParkMiller.Next(rng)
  }

  function NextRng(src: Source, rng: int): int {
    match src
    case Draws(_) => rng + 1
    case ParkMillerSeed => ParkMiller.Next(rng)
  }

  predicate Open(P: Params, visited: Grid<bool>, p: Pos, s: Side)
    requires IsGrid(visited, P.n0, P.n1)
  {
    InBounds(Move(p, s), P.n0, P.n1) && !Get(visited, Move(p, s))
  }

  /** The sides of `order` whose neighbour of `p` is in the grid and unvisited, in the order of `order`. */
  function Candidates(P: Params, order: seq<Side>, visited: Grid<bool>, p: Pos): (cs: seq<Side>)
    requires IsGrid(visited, P.n0, P.n1)
    ensures forall s :: s in cs <==> s in order && Open(P, visited, p, s)
    ensures |cs| <= |order|
  {
    if order == [] then []
    else
      var rest := Candidates(P, order[..|order| - 1], visited, p);
      var s := order[|order| - 1];
      assert order == order[..|order| - 1] + [s];
      if Open(P, visited, p, s) then rest + [s] else rest
  }

  /** `[s]` when side `s` is a candidate, `[]` otherwise: one `if ... append` of the source. */
  function Keep(P: Params, visited: Grid<bool>, p: Pos, s: Side): seq<Side>
    requires IsGrid(visited, P.n0, P.n1)
  {
    if Open(P, visited, p, s) then [s] else []
  }

  /** With four sides, the candidates are those four tests in the order given. */
  lemma CandidatesOfFour(P: Params, order: seq<Side>, visited: Grid<bool>, p: Pos)
    requires IsGrid(visited, P.n0, P.n1) && |order| == 4
    ensures Candidates(P, order, visited, p) ==
              Keep(P, visited, p, order[0]) + Keep(P, visited, p, order[1]) + Keep(P, visited, p, order[2]) + Keep(P, visited, p, order[3])
  {
    var k0, k1, k2, k3 := Keep(P, visited, p, order[0]), Keep(P, visited, p, order[1]), Keep(P, visited, p, order[2]), Keep(P, visited, p, order[3]);
    assert order[..1][..0] == [];
    assert Candidates(P, order[..1], visited, p) == k0;
    assert order[..2][..1] == order[..1];
    assert Candidates(P, order[..2], visited, p) == k0 + k1;
    assert order[..3][..2] == order[..2];
    assert Candidates(P, order[..3], visited, p) == k0 + k1 + k2;
    assert order[..4] == order;
  }

  /** One turn of the loop keeps the relation between the loop state and the final result. */
  lemma StepTowardsFinal(P: Params, rng0: int, st: State)
    requires Inv(P, st) && |st.stack| > 0
    requires Final(P, rng0) == Run(P, st, Measure(P, st))
    ensures Inv(P, Step(P, st))
    ensures Final(P, rng0) == Run(P, Step(P, st), Measure(P, Step(P, st)))
  {
    StepInv(P, st);
    assert Measure(P, st) >= |st.stack| > 0;
  }

  /** Once the stack is empty the loop state is the final one. */
  lemma EmptyIsFinal(P: Params, rng0: int, st: State)
    requires Inv(P, st) && st.stack == []
    requires Final(P, rng0) == Run(P, st, Measure(P, st))
    ensures Final(P, rng0) == st
  {
  }

  predicate WF(P: Params, st: State) {
    && IsGrid(st.cells, P.n0, P.n1)
    && IsGrid(st.visited, P.n0, P.n1)
    && forall k :: 0 <= k < |st.stack| ==> InBounds(st.stack[k], P.n0, P.n1)
  }

  function Top(st: State): Pos
    requires |st.stack| > 0
  {
    st.stack[|st.stack| - 1]
  }

  /** Opening the passage from `top` through side `s`: both ends get the exit. */
  function Carve(g: Grid<bv8>, n0: nat, n1: nat, top: Pos, s: Side): (h: Grid<bv8>)
    requires IsGrid(g, n0, n1) && InBounds(top, n0, n1) && InBounds(Move(top, s), n0, n1)
    ensures IsGrid(h, n0, n1)
  {
    var q := Move(top, s);
    var g1 := Set(g, top, Get(g, top) | Mask(s));
    Set(g1, q, Get(g1, q) | Mask(Opposite(s)))
  }

  /** The two `|=` updates of a carve, on the maze array. */
  method CarveArray(maze: array2<bv8>, top: Pos, s: Side)
    requires InBounds(top, maze.Length0, maze.Length1) && InBounds(Move(top, s), maze.Length0, maze.Length1)
    modifies maze
    ensures ToGrid(maze) == Carve(old(ToGrid(maze)), maze.Length0, maze.Length1, top, s)
  {
    var next := Move(top, s);
    SetCell(maze, top, maze[top.r, top.c] | Mask(s));
    SetCell(maze, next, maze[next.r, next.c] | Mask(Opposite(s)));
  }

  /** One turn of the carving loop. */
  function Step(P: Params, st: State): (r: State)
    requires WF(P, st) && |st.stack| > 0
    ensures WF(P, r)
  {
    var top := Top(st);
    var vis := Set(st.visited, top, true);
    var cands := Candidates(P, P.order, vis, top);
    if |cands| > 0 then
      var s := cands[Raw(P.src, st.rng) % |cands|];
      assert s in cands;
      var q := Move(top, s);
      State(Carve(st.cells, P.n0, P.n1, top, s), vis, st.stack + [q], NextRng(P.src, st.rng), st.carves + 1)
    else
      State(st.cells, vis, st.stack[..|st.stack| - 1], st.rng, st.carves)
  }

  /** At most `fuel` turns of the loop, stopping when the stack is empty. */
  function Run(P: Params, st: State, fuel: nat): (r: State)
    requires WF(P, st)
    ensures WF(P, r)
    decreases fuel
  {
    if fuel == 0 || st.stack == [] then st else Run(P, Step(P, st), fuel - 1)
  }

  function Initial(P: Params, rng0: int): State {
    State(Fill(P.n0, P.n1, 0), Fill(P.n0, P.n1, false), [Centre(P)], rng0, 0)
  }

  /** The number of turns the loop takes on an n0 x n1 grid. */
  function Turns(P: Params): nat
    requires ValidParams(P)
  {
    2 * P.n0 * P.n1 - 1
  }

  function Final(P: Params, rng0: int): State
    requires ValidParams(P)
  {
    Run(P, Initial(P, rng0), Turns(P))
  }

  /** The maze the generator builds. */
  function Generate(P: Params, rng0: int): Grid<bv8>
    requires ValidParams(P)
  {
    Final(P, rng0).cells
  }

  // ---------------------------------------------------------------------
  // Properties of a finished maze

  ghost predicate AllMasks(g: Grid<bv8>, n0: nat, n1: nat)
    requires IsGrid(g, n0, n1)
  {
    forall p :: InBounds(p, n0, n1) ==> IsMask(Get(g, p))
  }

  /** No cell has an exit leading out of the grid. */
  ghost predicate NoOffGridExits(g: Grid<bv8>, n0: nat, n1: nat)
    requires IsGrid(g, n0, n1)
  {
    forall p, s {:trigger Move(p, s)} :: InBounds(p, n0, n1) && !InBounds(Move(p, s), n0, n1) ==> !HasExit(Get(g, p), s)
  }

  /** A passage is open from one side iff it is open from the other. */
  ghost predicate Symmetric(g: Grid<bv8>, n0: nat, n1: nat)
    requires IsGrid(g, n0, n1)
  {
    forall p, s {:trigger Move(p, s)} :: InBounds(p, n0, n1) && InBounds(Move(p, s), n0, n1) ==>
      (HasExit(Get(g, p), s) <==> HasExit(Get(g, Move(p, s)), Opposite(s)))
  }

  ghost predicate EveryCellHasExit(g: Grid<bv8>, n0: nat, n1: nat)
    requires IsGrid(g, n0, n1)
  {
    forall p :: InBounds(p, n0, n1) ==> Get(g, p) != 0
  }

  ghost predicate WellFormedMaze(g: Grid<bv8>, n0: nat, n1: nat) {
    IsGrid(g, n0, n1) && AllMasks(g, n0, n1) && NoOffGridExits(g, n0, n1) && Symmetric(g, n0, n1)
  }

  // ---------------------------------------------------------------------
  // The loop invariant

  predicate Reached(st: State, p: Pos)
    requires 0 <= p.r < |st.visited| && 0 <= p.c < |st.visited[p.r]|
  {
    Get(st.visited, p) || p in st.stack
  }

  /** Cells neither visited nor on the stack: each carve takes one of them. */
  ghost function Unreached(P: Params, st: State): set<Pos>
    requires WF(P, st)
  {
    set r, c | 0 <= r < P.n0 && 0 <= c < P.n1 && !st.visited[r][c] && Pos(r, c) !in st.stack :: Pos(r, c)
  }

  lemma UnreachedMember(P: Params, st: State, x: Pos)
    requires WF(P, st)
    ensures x in Unreached(P, st) <==> InBounds(x, P.n0, P.n1) && !Get(st.visited, x) && x !in st.stack
  {
    if InBounds(x, P.n0, P.n1) && !Get(st.visited, x) && x !in st.stack {
      assert x == Pos(x.r, x.c);
    }
  }

  ghost function Measure(P: Params, st: State): nat
    requires WF(P, st)
  {
    2 * |Unreached(P, st)| + |st.stack|
  }

  predicate StackInv(P: Params, st: State)
    requires WF(P, st)
  {
    && (forall i :: 0 <= i < |st.stack| - 1 ==> Get(st.visited, st.stack[i]))
    && (|st.stack| > 0 ==> st.stack[0] == Centre(P))
    && (st.carves == 0 ==> |st.stack| <= 1)
  }

  /** A visited cell that has left the stack has no unvisited neighbour. */
  ghost predicate Finished(P: Params, st: State)
    requires WF(P, st)
  {
    forall p, s {:trigger Move(p, s)} :: InBounds(p, P.n0, P.n1) && Get(st.visited, p) && p !in st.stack && InBounds(Move(p, s), P.n0, P.n1) ==>
      Get(st.visited, Move(p, s))
  }

  ghost predicate ExitsInv(P: Params, st: State)
    requires WF(P, st)
  {
    && InBounds(Centre(P), P.n0, P.n1)
    && Reached(st, Centre(P))
    && (forall p :: InBounds(p, P.n0, P.n1) && Reached(st, p) && p != Centre(P) ==> Get(st.cells, p) != 0)
    && (st.carves > 0 ==> Get(st.cells, Centre(P)) != 0)
  }

  ghost predicate Inv(P: Params, st: State) {
    && ValidParams(P)
    && WF(P, st)
    && StackInv(P, st)
    && AllMasks(st.cells, P.n0, P.n1)
    && NoOffGridExits(st.cells, P.n0, P.n1)
    && Symmetric(st.cells, P.n0, P.n1)
    && Finished(P, st)
    && ExitsInv(P, st)
    && st.carves + |Unreached(P, st)| + 1 == |AllCells(P.n0, P.n1)|
  }

  // ---------------------------------------------------------------------
  // The invariant holds initially and is kept by every turn

  ghost function AllCells(n0: nat, n1: nat): set<Pos> {
    set r, c | 0 <= r < n0 && 0 <= c < n1 :: Pos(r, c)
  }

  ghost function Row(r: int, n1: nat): set<Pos> {
    set c | 0 <= c < n1 :: Pos(r, c)
  }

  lemma {:induction false} RowSize(r: int, n1: nat)
    ensures |Row(r, n1)| == n1
  {
    if n1 > 0 {
      RowSize(r, n1 - 1);
      assert Row(r, n1) == Row(r, n1 - 1) + {Pos(r, n1 - 1)};
    } else {
      assert Row(r, n1) == {};
    }
  }

  /** The first n0 rows are the first n0 - 1 rows and, apart from them, the last row. */
  lemma AllCellsSplit(n0: nat, n1: nat)
    requires n0 > 0
    ensures AllCells(n0, n1) == AllCells(n0 - 1, n1) + Row(n0 - 1, n1)
    ensures AllCells(n0 - 1, n1) !! Row(n0 - 1, n1)
  {
    forall p | p in AllCells(n0, n1) && p.r < n0 - 1 ensures p in AllCells(n0 - 1, n1) { }
  }

  lemma RowsTimes(n0: nat, n1: nat)
    requires n0 > 0
    ensures n0 * n1 == (n0 - 1) * n1 + n1
  {
  }

  lemma {:induction false} AllCellsSize(n0: nat, n1: nat)
    ensures |AllCells(n0, n1)| == n0 * n1
  {
    if n0 > 0 {
      AllCellsSize(n0 - 1, n1);
      RowSize(n0 - 1, n1);
      AllCellsSplit(n0, n1);
      RowsTimes(n0, n1);
    } else {
      assert AllCells(n0, n1) == {};
    }
  }

  /** At the start every cell but the centre is unreached. */
  lemma InitialUnreached(P: Params, rng0: int)
    requires ValidParams(P)
    ensures |Unreached(P, Initial(P, rng0))| == P.n0 * P.n1 - 1
  {
    var st := Initial(P, rng0);
    var U := Unreached(P, st);
    forall x ensures x in U <==> x in AllCells(P.n0, P.n1) - {Centre(P)} {
      UnreachedMember(P, st, x);
      if InBounds(x, P.n0, P.n1) {
        assert x == Pos(x.r, x.c);
      }
    }
    assert U == AllCells(P.n0, P.n1) - {Centre(P)};
    AllCellsSize(P.n0, P.n1);
    assert Centre(P) in AllCells(P.n0, P.n1);
  }

  lemma InitialInv(P: Params, rng0: int)
    requires ValidParams(P)
    ensures WF(P, Initial(P, rng0))
    ensures Inv(P, Initial(P, rng0))
    ensures Measure(P, Initial(P, rng0)) == Turns(P)
  {
    InitialUnreached(P, rng0);
    AllCellsSize(P.n0, P.n1);
  }

  /** The exits of every cell after one carve from `top` through side `s`. */
  lemma CarveExits(g: Grid<bv8>, n0: nat, n1: nat, top: Pos, s: Side, x: Pos, t: Side)
    requires IsGrid(g, n0, n1) && InBounds(top, n0, n1) && InBounds(Move(top, s), n0, n1) && InBounds(x, n0, n1)
    ensures HasExit(Get(Carve(g, n0, n1, top, s), x), t) <==>
              HasExit(Get(g, x), t) || (x == top && t == s) || (x == Move(top, s) && t == Opposite(s))
  {
    OrOpens(Get(g, top), s);
    OrOpens(Get(g, Move(top, s)), Opposite(s));
  }

  lemma CarveMasks(g: Grid<bv8>, n0: nat, n1: nat, top: Pos, s: Side)
    requires IsGrid(g, n0, n1) && InBounds(top, n0, n1) && InBounds(Move(top, s), n0, n1)
    requires AllMasks(g, n0, n1)
    ensures AllMasks(Carve(g, n0, n1, top, s), n0, n1)
    ensures Get(Carve(g, n0, n1, top, s), top) != 0 && Get(Carve(g, n0, n1, top, s), Move(top, s)) != 0
    ensures forall x :: InBounds(x, n0, n1) && Get(g, x) != 0 ==> Get(Carve(g, n0, n1, top, s), x) != 0
  {
    var h := Carve(g, n0, n1, top, s);
    forall x | InBounds(x, n0, n1) ensures IsMask(Get(h, x)) && (Get(g, x) != 0 ==> Get(h, x) != 0) {
      OrOpens(Get(g, x), s);
      OrOpens(Get(g, x), Opposite(s));
      OrOpens(Get(g, x) | Mask(s), Opposite(s));
    }
    OrOpens(Get(g, top), s);
    OrOpens(Get(g, Move(top, s)), Opposite(s));
  }

  lemma CarveNoOffGrid(g: Grid<bv8>, n0: nat, n1: nat, top: Pos, s: Side)
    requires IsGrid(g, n0, n1) && InBounds(top, n0, n1) && InBounds(Move(top, s), n0, n1)
    requires NoOffGridExits(g, n0, n1)
    ensures NoOffGridExits(Carve(g, n0, n1, top, s), n0, n1)
  {
    forall x, t | InBounds(x, n0, n1) && !InBounds(Move(x, t), n0, n1)
      ensures !HasExit(Get(Carve(g, n0, n1, top, s), x), t)
    {
      CarveExits(g, n0, n1, top, s, x, t);
      MoveBack(top, s);
    }
  }

  lemma CarveSymmetric(g: Grid<bv8>, n0: nat, n1: nat, top: Pos, s: Side)
    requires IsGrid(g, n0, n1) && InBounds(top, n0, n1) && InBounds(Move(top, s), n0, n1)
    requires Symmetric(g, n0, n1)
    ensures Symmetric(Carve(g, n0, n1, top, s), n0, n1)
  {
    var h := Carve(g, n0, n1, top, s);
    forall x, t | InBounds(x, n0, n1) && InBounds(Move(x, t), n0, n1)
      ensures HasExit(Get(h, x), t) <==> HasExit(Get(h, Move(x, t)), Opposite(t))
    {
      CarveExits(g, n0, n1, top, s, x, t);
      CarveExits(g, n0, n1, top, s, Move(x, t), Opposite(t));
      MoveBack(x, t);
      MoveBack(top, s);
      MoveBack(Move(x, t), Opposite(t));
      assert Opposite(Opposite(t)) == t;
    }
  }

  /** A carve pushes an unreached cell: `Unreached` loses exactly that cell. */
  lemma CarveUnreached(P: Params, st: State, st': State, q: Pos)
    requires WF(P, st) && WF(P, st') && StackInv(P, st) && |st.stack| > 0
    requires st'.stack == st.stack + [q] && st'.visited == Set(st.visited, Top(st), true)
    requires InBounds(q, P.n0, P.n1) && !Get(st'.visited, q)
    ensures q in Unreached(P, st) && Unreached(P, st') == Unreached(P, st) - {q}
  {
    assert q !in st.stack by {
      forall i | 0 <= i < |st.stack| ensures st.stack[i] != q {
        if i < |st.stack| - 1 {
          assert Get(st.visited, st.stack[i]);
        }
      }
    }
    UnreachedMember(P, st, q);
    forall x ensures x in Unreached(P, st') <==> x in Unreached(P, st) - {q} {
      UnreachedMember(P, st, x);
      UnreachedMember(P, st', x);
    }
  }

  /** A carve leaves every finished cell finished. */
  lemma CarveFinished(P: Params, st: State, st': State, q: Pos)
    requires WF(P, st) && WF(P, st') && Finished(P, st) && |st.stack| > 0
    requires st'.stack == st.stack + [q] && st'.visited == Set(st.visited, Top(st), true)
    ensures Finished(P, st')
  {
    forall p, t | InBounds(p, P.n0, P.n1) && Get(st'.visited, p) && p !in st'.stack && InBounds(Move(p, t), P.n0, P.n1)
      ensures Get(st'.visited, Move(p, t))
    {
      assert p != Top(st);
    }
  }

  lemma CarveStackInv(P: Params, st: State, st': State, q: Pos)
    requires WF(P, st) && WF(P, st') && StackInv(P, st) && |st.stack| > 0
    requires st'.stack == st.stack + [q] && st'.visited == Set(st.visited, Top(st), true) && st'.carves == st.carves + 1
    ensures StackInv(P, st')
  {
  }

  /** Both ends of a carve get an exit; no other reached cell loses one. */
  lemma CarveExitsInv(P: Params, st: State, st': State, q: Pos)
    requires WF(P, st) && WF(P, st') && StackInv(P, st) && ExitsInv(P, st) && |st.stack| > 0
    requires st'.stack == st.stack + [q] && st'.visited == Set(st.visited, Top(st), true) && st'.carves == st.carves + 1
    requires InBounds(q, P.n0, P.n1)
    requires Get(st'.cells, Top(st)) != 0 && Get(st'.cells, q) != 0
    requires forall x :: InBounds(x, P.n0, P.n1) && Get(st.cells, x) != 0 ==> Get(st'.cells, x) != 0
    ensures ExitsInv(P, st')
  {
    forall p | InBounds(p, P.n0, P.n1) && Reached(st', p) && p != Centre(P) ensures Get(st'.cells, p) != 0 {
      if p != q {
        assert Reached(st, p);
      }
    }
    if st.carves == 0 {
      assert Top(st) == Centre(P);
    }
  }

  /** The state after carving from the top through side `s`. */
  function CarveState(P: Params, st: State, s: Side): State
    requires WF(P, st) && |st.stack| > 0 && InBounds(Move(Top(st), s), P.n0, P.n1)
  {
    State(Carve(st.cells, P.n0, P.n1, Top(st), s), Set(st.visited, Top(st), true), st.stack + [Move(Top(st), s)],
          NextRng(P.src, st.rng), st.carves + 1)
  }

  /** The state after popping the top. */
  function PopState(P: Params, st: State): State
    requires WF(P, st) && |st.stack| > 0
  {
    State(st.cells, Set(st.visited, Top(st), true), st.stack[..|st.stack| - 1], st.rng, st.carves)
  }

  lemma CarveStep(P: Params, st: State, s: Side)
    requires Inv(P, st) && |st.stack| > 0
    requires s in Candidates(P, P.order, Set(st.visited, Top(st), true), Top(st))
    ensures WF(P, CarveState(P, st, s)) && Inv(P, CarveState(P, st, s))
    ensures Measure(P, CarveState(P, st, s)) == Measure(P, st) - 1
  {
    var top := Top(st);
    var q := Move(top, s);
    var st' := CarveState(P, st, s);
    CarveMasks(st.cells, P.n0, P.n1, top, s);
    CarveNoOffGrid(st.cells, P.n0, P.n1, top, s);
    CarveSymmetric(st.cells, P.n0, P.n1, top, s);
    CarveUnreached(P, st, st', q);
    CarveFinished(P, st, st', q);
    CarveStackInv(P, st, st', q);
    CarveExitsInv(P, st, st', q);
  }

  /** A popped cell has no unvisited neighbour left, so it is finished. */
  lemma PopFinished(P: Params, st: State, st': State)
    requires ValidParams(P) && WF(P, st) && WF(P, st') && Finished(P, st) && |st.stack| > 0
    requires st.stack == st'.stack + [Top(st)] && st'.visited == Set(st.visited, Top(st), true)
    requires |Candidates(P, P.order, st'.visited, Top(st))| == 0
    ensures Finished(P, st')
  {
    var top := Top(st);
    forall t | InBounds(Move(top, t), P.n0, P.n1) ensures Get(st'.visited, Move(top, t)) {
      assert t in P.order by {
        match t
        case North =>
        case East =>
        case South =>
        case West =>
      }
      assert !Open(P, st'.visited, top, t);
    }
    forall p, t | InBounds(p, P.n0, P.n1) && Get(st'.visited, p) && p !in st'.stack && InBounds(Move(p, t), P.n0, P.n1)
      ensures Get(st'.visited, Move(p, t))
    {
      if p != top {
        assert p !in st.stack;
      }
    }
  }

  /** A pop leaves `Unreached` as it was. */
  lemma PopUnreached(P: Params, st: State, st': State)
    requires WF(P, st) && WF(P, st') && |st.stack| > 0
    requires st.stack == st'.stack + [Top(st)] && st'.visited == Set(st.visited, Top(st), true)
    ensures Unreached(P, st') == Unreached(P, st)
  {
    forall x ensures x in Unreached(P, st') <==> x in Unreached(P, st) {
      UnreachedMember(P, st, x);
      UnreachedMember(P, st', x);
    }
  }

  lemma PopExitsInv(P: Params, st: State, st': State)
    requires WF(P, st) && WF(P, st') && ExitsInv(P, st) && |st.stack| > 0
    requires st.stack == st'.stack + [Top(st)] && st'.visited == Set(st.visited, Top(st), true)
    requires st'.cells == st.cells && st'.carves == st.carves
    ensures ExitsInv(P, st')
  {
    forall p | InBounds(p, P.n0, P.n1) && Reached(st', p) && p != Centre(P) ensures Get(st'.cells, p) != 0 {
      assert Reached(st, p);
    }
  }

  lemma PopStackInv(P: Params, st: State, st': State)
    requires WF(P, st) && WF(P, st') && StackInv(P, st) && |st.stack| > 0
    requires st'.stack == st.stack[..|st.stack| - 1] && st'.visited == Set(st.visited, Top(st), true) && st'.carves == st.carves
    ensures StackInv(P, st') && st.stack == st'.stack + [Top(st)]
  {
  }

  lemma PopStep(P: Params, st: State)
    requires Inv(P, st) && |st.stack| > 0
    requires Candidates(P, P.order, Set(st.visited, Top(st), true), Top(st)) == []
    ensures WF(P, PopState(P, st)) && Inv(P, PopState(P, st))
    ensures Measure(P, PopState(P, st)) == Measure(P, st) - 1
  {
    var st' := PopState(P, st);
    PopStackInv(P, st, st');
    PopFinished(P, st, st');
    PopUnreached(P, st, st');
    PopExitsInv(P, st, st');
  }

  /** `Step` when the top has candidates: the chosen side is carved and its cell pushed. */
  lemma StepCarves(P: Params, st: State, vis: Grid<bool>, cands: seq<Side>, s: Side)
    requires WF(P, st) && |st.stack| > 0
    requires vis == Set(st.visited, Top(st), true) && cands == Candidates(P, P.order, vis, Top(st))
    requires |cands| > 0 && s == cands[Raw(P.src, st.rng) % |cands|]
    ensures s in cands && InBounds(Move(Top(st), s), P.n0, P.n1)
    ensures Step(P, st) == CarveState(P, st, s)
  {
    assert s in cands;
  }

  /** `Step` when the top has no candidates: the top is popped. */
  lemma StepPops(P: Params, st: State, vis: Grid<bool>)
    requires WF(P, st) && |st.stack| > 0
    requires vis == Set(st.visited, Top(st), true) && Candidates(P, P.order, vis, Top(st)) == []
    ensures Step(P, st) == PopState(P, st)
  {
  }

  lemma StepInv(P: Params, st: State)
    requires Inv(P, st) && |st.stack| > 0
    ensures Inv(P, Step(P, st)) && Measure(P, Step(P, st)) == Measure(P, st) - 1
  {
    var vis := Set(st.visited, Top(st), true);
    var cands := Candidates(P, P.order, vis, Top(st));
    if |cands| > 0 {
      var s := cands[Raw(P.src, st.rng) % |cands|];
      StepCarves(P, st, vis, cands, s);
      CarveStep(P, st, s);
    } else {
      StepPops(P, st, vis);
      PopStep(P, st);
    }
  }


  /** Any invariant kept by every turn holds after the loop. */
  lemma {:induction false} RunKeeps(P: Params, st: State, fuel: nat, inv: State -> bool)
    requires forall s :: WF(P, s) && inv(s) && |s.stack| > 0 ==> inv(Step(P, s))
    requires WF(P, st) && inv(st)
    ensures inv(Run(P, st, fuel))
    decreases fuel
  {
    if fuel > 0 && st.stack != [] {
      RunKeeps(P, Step(P, st), fuel - 1, inv);
    }
  }

  /** When every turn lowers `Measure` by one, `Measure` turns empty the stack. */
  lemma {:induction false} RunEmpties(P: Params, st: State, fuel: nat, inv: State -> bool)
    requires forall s :: WF(P, s) && inv(s) && |s.stack| > 0 ==> inv(Step(P, s)) && Measure(P, Step(P, s)) == Measure(P, s) - 1
    requires WF(P, st) && inv(st) && fuel >= Measure(P, st)
    ensures Run(P, st, fuel).stack == []
    decreases fuel
  {
    if fuel > 0 && st.stack != [] {
      RunEmpties(P, Step(P, st), fuel - 1, inv);
    } else if fuel == 0 {
      assert |st.stack| <= Measure(P, st);
    }
  }

  /** The loop keeps `Inv` and ends with an empty stack. */
  lemma RunInv(P: Params, rng0: int)
    requires ValidParams(P)
    ensures Inv(P, Final(P, rng0)) && Final(P, rng0).stack == []
  {
    forall s | Inv(P, s) && |s.stack| > 0
      ensures Inv(P, Step(P, s)) && Measure(P, Step(P, s)) == Measure(P, s) - 1
    {
      StepInv(P, s);
    }
    InitialInv(P, rng0);
    RunKeeps(P, Initial(P, rng0), Turns(P), s => Inv(P, s));
    RunEmpties(P, Initial(P, rng0), Turns(P), s => Inv(P, s));
  }

  // ---------------------------------------------------------------------
  // Full coverage

  /** A cell set closed under moves to in-grid neighbours that contains one cell contains the whole grid. */
  lemma {:induction false} WalkRows(P: Params, vis: Grid<bool>, from: Pos, r: int)
    requires IsGrid(vis, P.n0, P.n1) && InBounds(from, P.n0, P.n1) && Get(vis, from) && 0 <= r < P.n0
    requires forall p, s {:trigger Move(p, s)} :: InBounds(p, P.n0, P.n1) && Get(vis, p) && InBounds(Move(p, s), P.n0, P.n1) ==> Get(vis, Move(p, s))
    ensures Get(vis, Pos(r, from.c))
    decreases if r < from.r then from.r - r else r - from.r
  {
    if r < from.r {
      assert InBounds(Move(from, North), P.n0, P.n1);
      WalkRows(P, vis, Move(from, North), r);
    } else if r > from.r {
      assert InBounds(Move(from, South), P.n0, P.n1);
      WalkRows(P, vis, Move(from, South), r);
    }
  }

  lemma {:induction false} WalkCols(P: Params, vis: Grid<bool>, from: Pos, c: int)
    requires IsGrid(vis, P.n0, P.n1) && InBounds(from, P.n0, P.n1) && Get(vis, from) && 0 <= c < P.n1
    requires forall p, s {:trigger Move(p, s)} :: InBounds(p, P.n0, P.n1) && Get(vis, p) && InBounds(Move(p, s), P.n0, P.n1) ==> Get(vis, Move(p, s))
    ensures Get(vis, Pos(from.r, c))
    decreases if c < from.c then from.c - c else c - from.c
  {
    if c < from.c {
      assert InBounds(Move(from, West), P.n0, P.n1);
      WalkCols(P, vis, Move(from, West), c);
    } else if c > from.c {
      assert InBounds(Move(from, East), P.n0, P.n1);
      WalkCols(P, vis, Move(from, East), c);
    }
  }

  /** When the stack is empty every cell has been visited and exactly n0 * n1 - 1 carves were made. */
  lemma EmptyStackCoversGrid(P: Params, st: State)
    requires Inv(P, st) && st.stack == []
    ensures forall p :: InBounds(p, P.n0, P.n1) ==> Get(st.visited, p)
    ensures st.carves == P.n0 * P.n1 - 1
    ensures P.n0 * P.n1 >= 2 ==> EveryCellHasExit(st.cells, P.n0, P.n1)
  {
    AllCellsSize(P.n0, P.n1);
    var start := Centre(P);
    forall p | InBounds(p, P.n0, P.n1) ensures Get(st.visited, p) {
      WalkRows(P, st.visited, start, p.r);
      WalkCols(P, st.visited, Pos(p.r, start.c), p.c);
    }
    forall x ensures x !in Unreached(P, st) {
      UnreachedMember(P, st, x);
    }
    assert Unreached(P, st) == {};
    forall p | InBounds(p, P.n0, P.n1) ensures p == Centre(P) || Get(st.cells, p) != 0 {
      assert Reached(st, p);
    }
  }

  // ---------------------------------------------------------------------
  // What the generators promise

  /** The loop ends with an empty stack, every cell visited and exactly n0 * n1 - 1 carves. */
  lemma FinalState(P: Params, rng0: int)
    requires ValidParams(P)
    ensures Final(P, rng0).stack == []
    ensures forall p :: InBounds(p, P.n0, P.n1) ==> Get(Final(P, rng0).visited, p)
    ensures Final(P, rng0).carves == P.n0 * P.n1 - 1
  {
    RunInv(P, rng0);
    EmptyStackCoversGrid(P, Final(P, rng0));
  }

  /** The generated maze: masks in 0..15, no exit off the grid, symmetric passages, and an exit in every cell of a grid with two or more cells. */
  lemma GenerateIsWellFormed(P: Params, rng0: int)
    requires ValidParams(P)
    ensures WellFormedMaze(Generate(P, rng0), P.n0, P.n1)
    ensures P.n0 * P.n1 >= 2 ==> EveryCellHasExit(Generate(P, rng0), P.n0, P.n1)
  {
    RunInv(P, rng0);
    EmptyStackCoversGrid(P, Final(P, rng0));
  }

  /** One unrolled turn, for the imperative generators. */
  lemma {:induction false} RunUnfold(P: Params, st: State, fuel: nat)
    requires WF(P, st) && |st.stack| > 0 && fuel > 0
    ensures Run(P, st, fuel) == Run(P, Step(P, st), fuel - 1)
  {
  }
}
