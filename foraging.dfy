/**
 * The decisions one ant takes in a tick, shared by both colonies
 * (colony.py:45-139, fourmi.py:97-290): what it smells on each side, where
 * an exploring move takes it and whether that move is accepted, where a
 * following ant steps, and the per-slot state both colonies keep.
 */
module Foraging {
  import opened Exits
  import opened MazeSpec
  import opened Pheromone

  // ---------------------------------------------------------------------
  // Smelling the neighbours

  /** The pheromone an ant reads on each side of its cell. */
  datatype Scent = Scent(north: real, east: real, west: real, south: real)

  function Level(x: Scent, s: Side): real {
    match s
    case North => x.north
    case East => x.east
    case West => x.west
    case South => x.south
  }

  /** A maze of n0 x n1 cells with its (n0 + 2) x (n1 + 2) ghost-margin pheromone grid. */
  predicate Layout(cells: Grid<bv8>, ph: Grid<real>, n0: nat, n1: nat) {
    IsGrid(cells, n0, n1) && IsGrid(ph, n0 + 2, n1 + 2)
  }

  /** The neighbour's pheromone when the cell has an exit on that side, else 0. */
  function Masked(ph: Grid<real>, n0: nat, n1: nat, p: Pos, cell: bv8, s: Side): real
    requires IsGrid(ph, n0 + 2, n1 + 2) && InBounds(p, n0, n1)
  {
    if HasExit(cell, s) then Get(ph, Beside(p, s)) else 0.0
  }

  /**
   * What an ant on `p` smells (colony.py:49-62, fourmi.py:133-155): on a
   * side without an exit it reads 0, whatever is stored there.
   */
  function Smell(cells: Grid<bv8>, ph: Grid<real>, n0: nat, n1: nat, p: Pos): (x: Scent)
    requires Layout(cells, ph, n0, n1) && InBounds(p, n0, n1)
    ensures forall s :: Level(x, s) == if HasExit(Get(cells, p), s) then Get(ph, Beside(p, s)) else 0.0
  {
    var cell := Get(cells, p);
    var x := Scent(Masked(ph, n0, n1, p, cell, North), Masked(ph, n0, n1, p, cell, East),
                   Masked(ph, n0, n1, p, cell, West), Masked(ph, n0, n1, p, cell, South));
    assert forall s :: Level(x, s) == Masked(ph, n0, n1, p, cell, s);
    x
  }

  /** The strongest scent (colony.py:64-66, fourmi.py:157-159): an upper bound that is reached on some side. */
  function Strongest(x: Scent): (m: real)
    ensures forall s :: Level(x, s) <= m
    ensures m == x.north || m == x.east || m == x.west || m == x.south
  {
    Max(Max(x.north, x.south), Max(x.east, x.west))
  }

  /** On a non-negative pheromone field the strongest scent is non-negative. */
  lemma StrongestNonNegative(cells: Grid<bv8>, ph: Grid<real>, n0: nat, n1: nat, p: Pos)
    requires Layout(cells, ph, n0, n1) && InBounds(p, n0, n1)
    requires forall i, j :: 0 <= i < n0 + 2 && 0 <= j < n1 + 2 ==> ph[i][j] >= 0.0
    ensures Strongest(Smell(cells, ph, n0, n1, p)) >= 0.0
  {
    var x := Smell(cells, ph, n0, n1, p);
    var q := Beside(p, North);
    assert Level(x, North) >= 0.0 by {
      if HasExit(Get(cells, p), North) {
        assert ph[q.r][q.c] >= 0.0;
      }
    }
  }

  // ---------------------------------------------------------------------
  // Exploring

  function Bit(b: bool): int {
    if b then 1 else 0
  }

  /**
   * The position an exploring ant on `p` reaches with direction code `dir`
   * (colony.py:88-91, fourmi.py:193-208): it moves one cell towards the
   * side whose code is `dir` if its cell has an exit there, and stays put
   * otherwise.
   */
  function ExploreMove(p: Pos, dir: int, codes: DirCodes, cell: bv8): Pos {
    Pos(p.r - Bit(dir == codes.north && HasExit(cell, North)) + Bit(dir == codes.south && HasExit(cell, South)),
        p.c + Bit(dir == codes.east && HasExit(cell, East)) - Bit(dir == codes.west && HasExit(cell, West)))
  }

  /**
   * The acceptance test (colony.py:93-98, fourmi.py:211-222): the ant moved,
   * and it is not turning back where it came from unless its cell has a
   * single exit.
   */
  predicate Accepts(p: Pos, dir: int, prev: int, codes: DirCodes, cell: bv8) {
    ExploreMove(p, dir, codes, cell) != p && (ExitCount(cell) == 1 || dir + prev != 3)
  }

  /** With valid codes, a draw of side `s`'s code moves through that side's exit, if any; any other draw stays. */
  lemma ExploreMoveIsOneStep(p: Pos, codes: DirCodes, cell: bv8)
    requires ValidCodes(codes)
    ensures forall s :: ExploreMove(p, Code(codes, s), codes, cell) == if HasExit(cell, s) then Move(p, s) else p
    ensures forall dir :: (forall s :: dir != Code(codes, s)) ==> ExploreMove(p, dir, codes, cell) == p
  {
  }

  /**
   * A draw is accepted exactly when it is the code of a side with an exit
   * that is not the way back (the reverse of `prev`), or the cell is a dead
   * end; the accepted move is then one step through that exit.
   */
  lemma AcceptsExactly(p: Pos, prev: int, codes: DirCodes, cell: bv8)
    requires ValidCodes(codes)
    ensures forall s :: Accepts(p, Code(codes, s), prev, codes, cell) <==>
      HasExit(cell, s) && (ExitCount(cell) == 1 || prev != Code(codes, Opposite(s)))
    ensures forall dir :: (forall s :: dir != Code(codes, s)) ==> !Accepts(p, dir, prev, codes, cell)
  {
    ExploreMoveIsOneStep(p, codes, cell);
    forall s ensures Accepts(p, Code(codes, s), prev, codes, cell) <==>
      HasExit(cell, s) && (ExitCount(cell) == 1 || prev != Code(codes, Opposite(s)))
    {
      assert Code(codes, s) + Code(codes, Opposite(s)) == 3;
    }
  }

  /**
   * A cell with at least one exit always has an accepted draw, whatever the
   * previous direction: a dead end accepts its one exit, and of two exits
   * at most one is the way back.  A cell without exits (the single cell of
   * a 1 x 1 maze) has none, and the rejection loop never ends there.
   */
  lemma SomeDrawAccepted(p: Pos, prev: int, codes: DirCodes, cell: bv8)
    requires ValidCodes(codes) && IsMask(cell)
    ensures cell != 0 <==> exists s :: Accepts(p, Code(codes, s), prev, codes, cell)
  {
    AcceptsExactly(p, prev, codes, cell);
    MaskIsSumOfExits(cell);
    if cell != 0 {
      var s :| HasExit(cell, s);
      if ExitCount(cell) != 1 && prev == Code(codes, Opposite(s)) {
        var t :| t != s && HasExit(cell, t);
        SumThreeIsReverse(codes, s, Opposite(t));
        assert Accepts(p, Code(codes, t), prev, codes, cell);
      } else {
        assert Accepts(p, Code(codes, s), prev, codes, cell);
      }
    }
  }

  /** The side whose code is `dir`, for a draw that is one of the four codes. */
  function SideOf(codes: DirCodes, dir: int): (s: Side)
    requires ValidCodes(codes) && exists t :: dir == Code(codes, t)
    ensures Code(codes, s) == dir
  {
    if dir == codes.north then North else if dir == codes.east then East else if dir == codes.west then West else South
  }

  /** In a maze without exits off the grid, an accepted move is one orthogonal step that stays on the grid. */
  lemma AcceptedMoveStaysOnGrid(cells: Grid<bv8>, n0: nat, n1: nat, p: Pos, dir: int, prev: int, codes: DirCodes)
    requires IsGrid(cells, n0, n1) && NoOffGridExits(cells, n0, n1) && InBounds(p, n0, n1) && ValidCodes(codes)
    requires Accepts(p, dir, prev, codes, Get(cells, p))
    ensures exists s :: dir == Code(codes, s)
    ensures ExploreMove(p, dir, codes, Get(cells, p)) == Move(p, SideOf(codes, dir))
    ensures HasExit(Get(cells, p), SideOf(codes, dir))
    ensures InBounds(ExploreMove(p, dir, codes, Get(cells, p)), n0, n1)
  {
    var cell := Get(cells, p);
    ExploreMoveIsOneStep(p, codes, cell);
    AcceptsExactly(p, prev, codes, cell);
    if forall s :: dir != Code(codes, s) {
      assert false;
    }
    var s := SideOf(codes, dir);
    assert HasExit(cell, s);
    assert Move(p, s) == ExploreMove(p, dir, codes, cell);
  }

  /** The first accepted draw of a sequence of draws, if any. */
  function FirstAccepted(p: Pos, prev: int, codes: DirCodes, cell: bv8, draws: seq<int>): (d: Option<int>)
    ensures d.Some? ==> d.value in draws && Accepts(p, d.value, prev, codes, cell)
    ensures d.None? <==> forall k :: 0 <= k < |draws| ==> !Accepts(p, draws[k], prev, codes, cell)
  {
    if |draws| == 0 then None
    else if Accepts(p, draws[0], prev, codes, cell) then Some(draws[0])
    else FirstAccepted(p, prev, codes, cell, draws[1..])
  }

  datatype Option<T> = None | Some(value: T)

  /** One more round of draws changes the outcome only for an ant that has not been accepted yet. */
  lemma {:induction false} FirstAcceptedSnoc(p: Pos, prev: int, codes: DirCodes, cell: bv8, draws: seq<int>, d: int)
    ensures FirstAccepted(p, prev, codes, cell, draws + [d]) ==
      if FirstAccepted(p, prev, codes, cell, draws).Some? then FirstAccepted(p, prev, codes, cell, draws)
      else if Accepts(p, d, prev, codes, cell) then Some(d) else None
  {
    if |draws| > 0 {
      assert (draws + [d])[1..] == draws[1..] + [d];
      FirstAcceptedSnoc(p, prev, codes, cell, draws[1..], d);
    }
  }

  /** Once an ant is accepted, later draws do not change its move. */
  lemma {:induction false} FirstAcceptedPrefix(p: Pos, prev: int, codes: DirCodes, cell: bv8, draws: seq<int>, more: seq<int>)
    requires FirstAccepted(p, prev, codes, cell, draws).Some?
    ensures FirstAccepted(p, prev, codes, cell, draws + more) == FirstAccepted(p, prev, codes, cell, draws)
  {
    if !Accepts(p, draws[0], prev, codes, cell) {
      assert (draws + more)[1..] == draws[1..] + more;
      FirstAcceptedPrefix(p, prev, codes, cell, draws[1..], more);
    }
  }

  // ---------------------------------------------------------------------
  // Following

  /**
   * The following step (colony.py:110-122, fourmi.py:242-265): the ant
   * adds the offset of every side whose scent equals the strongest, so two
   * tied sides at right angles give a diagonal step and opposite ones cancel.
   */
  function FollowStep(p: Pos, x: Scent): Pos {
    var m := Strongest(x);
    Pos(p.r - Bit(x.north == m) + Bit(x.south == m), p.c + Bit(x.east == m) - Bit(x.west == m))
  }

  /** A unique strongest side gives one step towards it. */
  lemma FollowUniqueMaximum(p: Pos, x: Scent, s: Side)
    requires forall t :: t != s ==> Level(x, t) < Level(x, s)
    ensures FollowStep(p, x) == Move(p, s)
  {
    var m := Strongest(x);
    assert m == Level(x, North) || m == Level(x, East) || m == Level(x, West) || m == Level(x, South);
    assert m == Level(x, s);
    assert Level(x, North) == x.north && Level(x, South) == x.south && Level(x, East) == x.east && Level(x, West) == x.west;
    assert (x.north == m <==> s == North) && (x.south == m <==> s == South);
    assert (x.east == m <==> s == East) && (x.west == m <==> s == West);
  }

  /** Ties at right angles step diagonally: equal scent North and East, less elsewhere. */
  lemma FollowTieIsDiagonal(p: Pos, v: real, w: real)
    requires w < v
    ensures FollowStep(p, Scent(v, v, w, w)) == Pos(p.r - 1, p.c + 1)
    ensures forall s :: FollowStep(p, Scent(v, v, w, w)) != Move(p, s)
  {
  }

  /**
   * A following ant sees a strongest scent other than 0; every tied side
   * then has an exit, so in a maze without exits off the grid the step
   * (even a diagonal one) stays on the grid.
   */
  lemma FollowStaysOnGrid(cells: Grid<bv8>, ph: Grid<real>, n0: nat, n1: nat, p: Pos)
    requires Layout(cells, ph, n0, n1) && NoOffGridExits(cells, n0, n1) && InBounds(p, n0, n1)
    requires Strongest(Smell(cells, ph, n0, n1, p)) != 0.0
    ensures InBounds(FollowStep(p, Smell(cells, ph, n0, n1, p)), n0, n1)
  {
    var x := Smell(cells, ph, n0, n1, p);
    var m := Strongest(x);
    forall s | Level(x, s) == m ensures InBounds(Move(p, s), n0, n1) {
      assert HasExit(Get(cells, p), s);
    }
    assert x.north == m ==> InBounds(Move(p, North), n0, n1);
    assert x.south == m ==> InBounds(Move(p, South), n0, n1);
    assert x.east == m ==> InBounds(Move(p, East), n0, n1);
    assert x.west == m ==> InBounds(Move(p, West), n0, n1);
  }

  // ---------------------------------------------------------------------
  // The state of one ant slot

  /**
   * One slot of the structure-of-arrays colony: loaded flag, age, age of
   * death, path history (the position at index `age` is the current one)
   * and the last direction code.
   */
  datatype Ant = Ant(loaded: bool, age: int, life: int, path: seq<Pos>, dir: int)

  /**
   * The initial path of every slot: the nest at index 0 and zeros after it
   * (colony.py:19-21, fourmi.py:50-52).
   */
  function StartPath(nest: Pos, span: nat): (path: seq<Pos>)
    ensures |path| == span + 1 && path[0] == nest
    ensures forall k :: 1 <= k <= span ==> path[k] == Pos(0, 0)
  {
    [nest] + seq(span, _ => Pos(0, 0))
  }

  /** Every recorded position lies on the grid. */
  ghost predicate OnGrid(path: seq<Pos>, n0: nat, n1: nat) {
    forall k :: 0 <= k < |path| ==> InBounds(path[k], n0, n1)
  }

  /**
   * The slot invariant: a path of `span + 1` entries starting at the nest,
   * a lifetime in 1..span, an age below it, a loaded ant away from index 0,
   * and every recorded position on the grid.
   */
  ghost predicate AntOk(a: Ant, span: nat, nest: Pos, n0: nat, n1: nat) {
    && |a.path| == span + 1 && a.path[0] == nest
    && 1 <= a.life <= span && 0 <= a.age < a.life
    && (a.loaded ==> a.age >= 1)
    && OnGrid(a.path, n0, n1)
  }

  /** The ant's current position. */
  function Here(a: Ant): Pos
    requires 0 <= a.age < |a.path|
  {
    a.path[a.age]
  }

  /** An accepted exploring move: the new position goes one entry past the age and the direction becomes the draw. */
  function Stepped(a: Ant, q: Pos, dir: int): (b: Ant)
    requires 0 <= a.age && a.age + 1 < |a.path|
    ensures b.loaded == a.loaded && b.age == a.age && b.life == a.life && |b.path| == |a.path|
    ensures b.path[a.age + 1] == q && b.dir == dir
    ensures forall k :: 0 <= k < |a.path| && k != a.age + 1 ==> b.path[k] == a.path[k]
  {
    a.(path := a.path[a.age + 1 := q], dir := dir)
  }

  /** The exploring phase of one ant: the first accepted draw, if any, is recorded; otherwise nothing changes. */
  function Explored(a: Ant, codes: DirCodes, cell: bv8, draws: seq<int>): (b: Ant)
    requires 0 <= a.age && a.age + 1 < |a.path|
    ensures b.loaded == a.loaded && b.age == a.age && b.life == a.life && |b.path| == |a.path|
    ensures forall k :: 0 <= k < |a.path| && k != a.age + 1 ==> b.path[k] == a.path[k]
  {
    match FirstAccepted(Here(a), a.dir, codes, cell, draws)
    case None => a
    case Some(d) => Stepped(a, ExploreMove(Here(a), d, codes, cell), d)
  }

  /** Death (colony.py:125-129, fourmi.py:272-277): an ant whose age reached its lifetime restarts at the nest. */
  function Respawned(a: Ant, nest: Pos, none: int): (b: Ant)
    requires |a.path| > 0
    ensures a.age == a.life ==> b == Ant(a.loaded, 0, a.life, a.path[0 := nest], none)
    ensures a.age != a.life ==> b == a
  {
    if a.age == a.life then a.(age := 0, path := a.path[0 := nest], dir := none) else a
  }

  /**
   * Food pickup (colony.py:131-139, fourmi.py:281-290): an ant standing on
   * the food becomes loaded, a loaded ant stays loaded.
   */
  function PickedUp(a: Ant, food: Pos): (b: Ant)
    requires 0 <= a.age < |a.path|
    ensures b == a.(loaded := a.loaded || Here(a) == food)
  {
    a.(loaded := a.loaded || Here(a) == food)
  }

  /** Writing one recorded position that lies on the grid keeps the whole path on the grid. */
  lemma OnGridUpdate(path: seq<Pos>, n0: nat, n1: nat, k: int, q: Pos)
    requires OnGrid(path, n0, n1) && 0 <= k < |path| && InBounds(q, n0, n1)
    ensures OnGrid(path[k := q], n0, n1)
  {
  }

  /** Ageing (colony.py:107, fourmi.py:268-269): an unloaded ant grows one step older. */
  function Aged(a: Ant): (b: Ant)
    ensures b == if a.loaded then a else a.(age := a.age + 1)
  {
    if a.loaded then a else a.(age := a.age + 1)
  }

  /**
   * Return to the nest (colony.py:35-41, fourmi.py:82-93): a loaded ant
   * steps one entry back along its path; if that entry is the nest it
   * unloads and its age restarts at 0.
   */
  function Returned(a: Ant, nest: Pos): Ant
    requires a.loaded ==> 1 <= a.age <= |a.path|
  {
    if !a.loaded then a
    else if a.path[a.age - 1] == nest then a.(loaded := false, age := 0)
    else a.(age := a.age - 1)
  }

  /**
   * A loaded ant always ends on the entry before its current one, and it is
   * unloaded exactly when that entry is the nest; the slot invariant is kept
   * and an unloaded ant is untouched.
   */
  lemma ReturnedWalksBack(a: Ant, span: nat, nest: Pos, n0: nat, n1: nat)
    requires AntOk(a, span, nest, n0, n1)
    ensures AntOk(Returned(a, nest), span, nest, n0, n1)
    ensures !a.loaded ==> Returned(a, nest) == a
    ensures a.loaded ==> Here(Returned(a, nest)) == a.path[a.age - 1]
    ensures a.loaded ==> (Returned(a, nest).loaded <==> a.path[a.age - 1] != nest)
    ensures Returned(a, nest).path == a.path && Returned(a, nest).dir == a.dir
  {
  }

  /** Round `j`'s draw for slot `i`, over all rounds. */
  function Column(rounds: seq<seq<int>>, i: int): (c: seq<int>)
    requires 0 <= i && forall j :: 0 <= j < |rounds| ==> i < |rounds[j]|
    ensures |c| == |rounds| && forall j :: 0 <= j < |rounds| ==> c[j] == rounds[j][i]
  {
    seq(|rounds|, j requires 0 <= j < |rounds| => rounds[j][i])
  }
  /**
   * One more round of draws: an ant already accepted keeps its move; an ant
   * not yet accepted moves along the new draw if it accepts it, and stays
   * as it was otherwise.
   */
  lemma ExploredSnoc(a: Ant, codes: DirCodes, cell: bv8, draws: seq<int>, d: int)
    requires 0 <= a.age && a.age + 1 < |a.path|
    ensures Explored(a, codes, cell, draws + [d]) ==
      if FirstAccepted(Here(a), a.dir, codes, cell, draws).Some? then Explored(a, codes, cell, draws)
      else if Accepts(Here(a), d, a.dir, codes, cell) then Stepped(a, ExploreMove(Here(a), d, codes, cell), d)
      else a
  {
    FirstAcceptedSnoc(Here(a), a.dir, codes, cell, draws, d);
  }

  /** Later rounds of draws do not change the move of an ant accepted within the first ones. */
  lemma ExploredPrefix(a: Ant, codes: DirCodes, cell: bv8, draws: seq<int>, more: seq<int>)
    requires 0 <= a.age && a.age + 1 < |a.path|
    requires FirstAccepted(Here(a), a.dir, codes, cell, draws).Some?
    ensures Explored(a, codes, cell, draws + more) == Explored(a, codes, cell, draws)
  {
    FirstAcceptedPrefix(Here(a), a.dir, codes, cell, draws, more);
  }

  /**
   * One round of the rejection loop for one ant: `mid` is the ant after the
   * earlier rounds, `pending` says whether it is still unaccepted, and `b`
   * is the ant after draw `d`.  Then `b` is the ant explored over the draws
   * so far plus `d`, and it is still pending exactly when none was accepted.
   */
  lemma ExploreRoundStep(a: Ant, mid: Ant, b: Ant, codes: DirCodes, cell: bv8, draws: seq<int>, d: int,
                         pending: bool, pending': bool)
    requires 0 <= a.age && a.age + 1 < |a.path|
    requires mid == Explored(a, codes, cell, draws)
    requires pending <==> FirstAccepted(Here(a), a.dir, codes, cell, draws).None?
    requires b == if pending && Accepts(Here(mid), d, mid.dir, codes, cell)
      then Stepped(mid, ExploreMove(Here(mid), d, codes, cell), d) else mid
    requires pending' <==> pending && !Accepts(Here(mid), d, mid.dir, codes, cell)
    ensures b == Explored(a, codes, cell, draws + [d])
    ensures pending' <==> FirstAccepted(Here(a), a.dir, codes, cell, draws + [d]).None?
  {
    FirstAcceptedSnoc(Here(a), a.dir, codes, cell, draws, d);
  }
}
