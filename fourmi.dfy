/**
 * The original colony, class `Colony` of fourmi.py: the same structure of
 * arrays as the rewrite, plus one Park-Miller seed per ant that drives every
 * random choice.  `advance` fixes the loaded and unloaded ants, walks the
 * loaded ones back, lets the unloaded ones explore or follow, and then
 * marks every ant's cell in the pheromone array in place, in slot order.
 */
module Fourmi {
  import opened Exits
  import opened MazeSpec
  import opened Pheromone
  import opened Foraging
  import ParkMiller

  // ---------------------------------------------------------------------
  // Lifetimes and seeds

  /**
   * The age of death of an ant whose seed is `seed` (fourmi.py:44-45):
   * `maxLife` minus a quarter of `maxLife * seed / (2^31 - 1)`, both
   * truncated, so it lies between three quarters of `maxLife` and `maxLife`.
   */
  function LifeSpan(maxLife: nat, seed: int): (life: int)
    requires 0 <= seed < ParkMiller.MODULUS
    ensures life <= maxLife
    ensures maxLife >= 1 ==> 1 <= maxLife - (maxLife - 1) / 4 <= life
  {
    QuotientBelow(maxLife, seed);
    maxLife - ((maxLife * seed) / ParkMiller.MODULUS) / 4
  }

  /** `maxLife * seed / M` is below `maxLife` for a seed below `M`, and so is its quarter. */
  lemma QuotientBelow(maxLife: nat, seed: int)
    requires 0 <= seed < ParkMiller.MODULUS
    ensures 0 <= ((maxLife * seed) / ParkMiller.MODULUS) / 4
    ensures maxLife >= 1 ==> ((maxLife * seed) / ParkMiller.MODULUS) / 4 <= (maxLife - 1) / 4
  {
    var M := ParkMiller.MODULUS;
    var P := maxLife * seed;
    MulBelow(maxLife, seed, M);
    var q := P / M;
    assert P == q * M + P % M && 0 <= P % M;
    if maxLife >= 1 {
      if q >= maxLife {
        MulAtLeast(q, maxLife, M);
        assert false;
      }
      assert q / 4 <= (maxLife - 1) / 4;
    }
  }

  /** `a * s` lies in [0, a * m - a] for `0 <= s < m`. */
  lemma MulBelow(a: nat, s: int, m: int)
    requires 0 <= s < m
    ensures 0 <= a * s <= a * m - a
  {
    MulNonNegative(a, s);
    MulNonNegative(a, m - 1 - s);
    assert a * m - a - a * s == a * (m - 1 - s);
  }

  lemma MulNonNegative(x: nat, y: nat)
    ensures x * y >= 0
  {
  }

  lemma MulAtLeast(q: int, a: nat, m: int)
    requires q >= a && m > 0
    ensures q * m >= a * m
  {
    assert q * m - a * m == (q - a) * m;
  }

  /** The decision value of an ant: its seed divided by `2^31 - 1` (fourmi.py:163). */
  function Choice(seed: int): real {
    (seed as real) / (ParkMiller.MODULUS as real)
  }

  /**
   * The direction draws of the exploration rounds 1 to `n` (fourmi.py:186-188):
   * each round advances the seed and takes it modulo 4.
   */
  function SeedDraws(seed: int, n: nat): (d: seq<int>)
    ensures |d| == n
    ensures forall j :: 0 <= j < n ==> d[j] == ParkMiller.Iterate(seed, j + 1) % 4 && 0 <= d[j] < 4
  {
    seq(n, j requires 0 <= j => ParkMiller.Iterate(seed, j + 1) % 4)
  }

  /** Fewer rounds draw a prefix of the same directions. */
  lemma SeedDrawsPrefix(seed: int, j: nat, m: nat)
    requires j <= m
    ensures SeedDraws(seed, m) == SeedDraws(seed, j) + SeedDraws(seed, m)[j..]
  {
    assert SeedDraws(seed, m)[..j] == SeedDraws(seed, j);
  }

  // ---------------------------------------------------------------------
  // One unloaded ant's tick

  /** An unloaded ant explores when its decision value is at most the coefficient or it smells nothing (fourmi.py:167-172). */
  predicate Explores(x: Scent, seed: int, coefs: real) {
    Choice(seed) <= coefs || Strongest(x) == 0.0
  }

  /** An unloaded ant follows when its decision value exceeds the coefficient and it smells something (fourmi.py:236-239). */
  predicate Follows(x: Scent, seed: int, coefs: real) {
    Choice(seed) > coefs && Strongest(x) > 0.0
  }

  /**
   * On a field without negative values every unloaded ant either explores
   * or follows, never both; with a strongest scent below 0 it would do
   * neither.
   */
  lemma ExploresOrFollows(x: Scent, seed: int, coefs: real)
    ensures !(Explores(x, seed, coefs) && Follows(x, seed, coefs))
    ensures Strongest(x) >= 0.0 ==> (Follows(x, seed, coefs) <==> !Explores(x, seed, coefs))
    ensures Strongest(x) < 0.0 && Choice(seed) > coefs ==> !Explores(x, seed, coefs) && !Follows(x, seed, coefs)
  {
  }

  /** The following write (fourmi.py:242-265), made before ageing: the entry after the current one is the following step. */
  function FollowedNext(a: Ant, x: Scent): (b: Ant)
    requires 0 <= a.age && a.age + 1 < |a.path|
    ensures b.loaded == a.loaded && b.age == a.age && b.life == a.life && b.dir == a.dir
    ensures b.path == a.path[a.age + 1 := FollowStep(Here(a), x)]
  {
    a.(path := a.path[a.age + 1 := FollowStep(Here(a), x)])
  }

  /**
   * One unloaded ant through `explore` (fourmi.py:127-290): `seed` is its
   * seed after the advance of fourmi.py:129, `x` and `cell` what it smells
   * and the maze cell under it.  It explores along the draws of its seed
   * (at most `fuel` rounds), or follows, or does neither; then it ages,
   * dies at its lifetime and picks up the food.
   */
  function ExploreAnt(a: Ant, seed: int, x: Scent, cell: bv8, fuel: nat, food: Pos, nest: Pos, codes: DirCodes, coefs: real): Ant
    requires 0 <= a.age && a.age + 1 < |a.path|
  {
    var a1 :=
      if Explores(x, seed, coefs) then Explored(a, codes, cell, SeedDraws(seed, fuel))
      else if Follows(x, seed, coefs) then FollowedNext(a, x)
      else a;
    PickedUp(Respawned(a1.(age := a1.age + 1), nest, codes.none), food)
  }

  /**
   * The slot invariant survives the explore tick of an unloaded ant in a
   * maze without exits off the grid, as long as the food is not on the
   * nest.
   */
  lemma ExploreAntKeepsOk(a: Ant, seed: int, cells: Grid<bv8>, ph: Grid<real>, n0: nat, n1: nat, span: nat, fuel: nat,
                          food: Pos, nest: Pos, codes: DirCodes, coefs: real)
    requires AntOk(a, span, nest, n0, n1) && !a.loaded && ValidCodes(codes)
    requires Layout(cells, ph, n0, n1) && NoOffGridExits(cells, n0, n1) && food != nest
    ensures AntOk(ExploreAnt(a, seed, Smell(cells, ph, n0, n1, Here(a)), Get(cells, Here(a)), fuel, food, nest, codes, coefs),
                  span, nest, n0, n1)
  {
    var x, cell := Smell(cells, ph, n0, n1, Here(a)), Get(cells, Here(a));
    var a1 :=
      if Explores(x, seed, coefs) then Explored(a, codes, cell, SeedDraws(seed, fuel))
      else if Follows(x, seed, coefs) then FollowedNext(a, x)
      else a;
    if Explores(x, seed, coefs) {
      match FirstAccepted(Here(a), a.dir, codes, cell, SeedDraws(seed, fuel))
      case None =>
      case Some(d) =>
        AcceptedMoveStaysOnGrid(cells, n0, n1, Here(a), d, a.dir, codes);
        OnGridUpdate(a.path, n0, n1, a.age + 1, ExploreMove(Here(a), d, codes, cell));
    } else if Follows(x, seed, coefs) {
      FollowStaysOnGrid(cells, ph, n0, n1, Here(a));
      OnGridUpdate(a.path, n0, n1, a.age + 1, FollowStep(Here(a), x));
    }
    assert OnGrid(a1.path, n0, n1) && a1.path[0] == nest && !a1.loaded;
    var a2 := a1.(age := a1.age + 1);
    var a3 := Respawned(a2, nest, codes.none);
    if a2.age == a2.life {
      OnGridUpdate(a2.path, n0, n1, 0, nest);
    }
    assert OnGrid(a3.path, n0, n1) && a3.path[0] == nest && 0 <= a3.age < a3.life && !a3.loaded;
  }

  /**
   * Where an unloaded ant ends its explore tick: at the nest with age 0 and
   * no direction if it reached its lifetime; otherwise one step older,
   * after one step through an exit along its first accepted draw (or on the
   * stale next entry if none was accepted), or on the following step, or
   * on the stale next entry if it neither explored nor followed.  It is
   * loaded exactly when it stands on the food.
   */
  lemma ExploreAntMoves(a: Ant, seed: int, cells: Grid<bv8>, ph: Grid<real>, n0: nat, n1: nat, span: nat, fuel: nat,
                        food: Pos, nest: Pos, codes: DirCodes, coefs: real)
    requires AntOk(a, span, nest, n0, n1) && !a.loaded && ValidCodes(codes)
    requires Layout(cells, ph, n0, n1) && NoOffGridExits(cells, n0, n1)
    ensures var x, cell := Smell(cells, ph, n0, n1, Here(a)), Get(cells, Here(a));
      var b := ExploreAnt(a, seed, x, cell, fuel, food, nest, codes, coefs);
      && (b.loaded <==> Here(b) == food)
      && (a.age + 1 == a.life ==> b.age == 0 && Here(b) == nest && b.dir == codes.none)
      && (a.age + 1 < a.life ==>
            && b.age == a.age + 1 && b.path[0] == a.path[0]
            && (Follows(x, seed, coefs) ==> Here(b) == FollowStep(Here(a), x) && b.dir == a.dir)
            && (!Explores(x, seed, coefs) && !Follows(x, seed, coefs) ==> Here(b) == a.path[a.age + 1] && b.dir == a.dir)
            && (Explores(x, seed, coefs) ==>
                  match FirstAccepted(Here(a), a.dir, codes, cell, SeedDraws(seed, fuel))
                  case None => Here(b) == a.path[a.age + 1] && b.dir == a.dir
                  case Some(d) =>
                    && (exists t :: d == Code(codes, t))
                    && b.dir == d && HasExit(cell, SideOf(codes, d)) && Here(b) == Move(Here(a), SideOf(codes, d))
                    && (ExitCount(cell) == 1 || d + a.dir != 3)))
  {
    var x, cell := Smell(cells, ph, n0, n1, Here(a)), Get(cells, Here(a));
    if Explores(x, seed, coefs) {
      match FirstAccepted(Here(a), a.dir, codes, cell, SeedDraws(seed, fuel))
      case None =>
      case Some(d) =>
        AcceptedMoveStaysOnGrid(cells, n0, n1, Here(a), d, a.dir, codes);
    }
  }

  /**
   * One ant through `advance` before the marking (fourmi.py:293-299): a
   * loaded ant only walks back to the nest, even if it unloads there; an
   * unloaded ant explores from what it smells on its cell.  `seed` is the
   * ant's seed before the tick.
   */
  function AdvanceAnt(a: Ant, seed: int, cells: Grid<bv8>, ph: Grid<real>, n0: nat, n1: nat, span: nat, fuel: nat,
                      food: Pos, nest: Pos, codes: DirCodes, coefs: real): Ant
    requires AntOk(a, span, nest, n0, n1) && Layout(cells, ph, n0, n1)
  {
    if a.loaded then Returned(a, nest)
    else ExploreAnt(a, ParkMiller.Next(seed), Smell(cells, ph, n0, n1, Here(a)), Get(cells, Here(a)), fuel, food, nest, codes, coefs)
  }

  /** The walk back of the loaded ants followed by `explore` on the unloaded ones is `AdvanceAnt`. */
  lemma AdvancePhases(a: Ant, m: Ant, b: Ant, seed: int, cells: Grid<bv8>, ph: Grid<real>, n0: nat, n1: nat, span: nat, fuel: nat,
                      food: Pos, nest: Pos, codes: DirCodes, coefs: real)
    requires AntOk(a, span, nest, n0, n1) && Layout(cells, ph, n0, n1)
    requires m == Returned(a, nest)
    requires b == if a.loaded then m
                  else ExploreAnt(m, ParkMiller.Next(seed), Smell(cells, ph, n0, n1, Here(m)), Get(cells, Here(m)), fuel, food, nest, codes, coefs)
    ensures b == AdvanceAnt(a, seed, cells, ph, n0, n1, span, fuel, food, nest, codes, coefs)
  {
  }

  /**
   * `advance` keeps the slot invariant, and an ant loaded at the start of
   * the tick does not move forward in it: it steps back one entry and, if
   * that entry is the nest, it unloads and rests there with age 0 until
   * the next tick.
   */
  lemma AdvanceAntKeepsOk(a: Ant, seed: int, cells: Grid<bv8>, ph: Grid<real>, n0: nat, n1: nat, span: nat, fuel: nat,
                          food: Pos, nest: Pos, codes: DirCodes, coefs: real)
    requires AntOk(a, span, nest, n0, n1) && ValidCodes(codes)
    requires Layout(cells, ph, n0, n1) && NoOffGridExits(cells, n0, n1) && food != nest
    ensures AntOk(AdvanceAnt(a, seed, cells, ph, n0, n1, span, fuel, food, nest, codes, coefs), span, nest, n0, n1)
    ensures a.loaded ==> AdvanceAnt(a, seed, cells, ph, n0, n1, span, fuel, food, nest, codes, coefs) == Returned(a, nest)
    ensures a.loaded && a.path[a.age - 1] == nest ==>
      var b := AdvanceAnt(a, seed, cells, ph, n0, n1, span, fuel, food, nest, codes, coefs);
      !b.loaded && b.age == 0 && Here(b) == nest && b.path == a.path && b.dir == a.dir
  {
    if a.loaded {
      ReturnedWalksBack(a, span, nest, n0, n1);
    } else {
      ExploreAntKeepsOk(a, ParkMiller.Next(seed), cells, ph, n0, n1, span, fuel, food, nest, codes, coefs);
    }
  }

  // ---------------------------------------------------------------------
  // The marking of `advance`

  /** The flag list `advance` hands to `mark`: North, East, West, South (fourmi.py:316-318). */
  function FlagsAt(cell: bv8): (flags: seq<bool>)
    ensures |flags| == 4
    ensures flags[0] == HasExit(cell, North) && flags[1] == HasExit(cell, East)
    ensures flags[2] == HasExit(cell, West) && flags[3] == HasExit(cell, South)
  {
    [HasExit(cell, North), HasExit(cell, East), HasExit(cell, West), HasExit(cell, South)]
  }

  /**
   * The field after marking the ants on `pos` one after the other
   * (fourmi.py:316-319): each `mark` reads the field the earlier ones left.
   */
  function MarkedAll(g: Grid<real>, cells: Grid<bv8>, n0: nat, n1: nat, pos: seq<Pos>, codes: DirCodes, alpha: real): (h: Grid<real>)
    requires IsGrid(g, n0 + 2, n1 + 2) && IsGrid(cells, n0, n1) && ValidCodes(codes)
    requires forall t :: 0 <= t < |pos| ==> InBounds(pos[t], n0, n1)
    ensures IsGrid(h, n0 + 2, n1 + 2)
    decreases |pos|
  {
    if pos == [] then g
    else
      var q := pos[|pos| - 1];
      assert InBounds(q, n0, n1);
      var h := MarkedAll(g, cells, n0, n1, pos[..|pos| - 1], codes, alpha);
      assert |h| == n0 + 2 && |h[0]| == n1 + 2;
      Marked(h, q, FlagsAt(Get(cells, q)), codes, alpha)
  }

  /** With `alpha` in [0, 1], marking any sequence of ants keeps a field inside [0, 1]. */
  lemma {:induction false} MarkedAllKeepsUnit(g: Grid<real>, cells: Grid<bv8>, n0: nat, n1: nat, pos: seq<Pos>, codes: DirCodes, alpha: real)
    requires IsGrid(g, n0 + 2, n1 + 2) && IsGrid(cells, n0, n1) && ValidCodes(codes)
    requires forall t :: 0 <= t < |pos| ==> InBounds(pos[t], n0, n1)
    requires 0.0 <= alpha <= 1.0 && InUnit(g)
    ensures InUnit(MarkedAll(g, cells, n0, n1, pos, codes, alpha))
    decreases |pos|
  {
    if pos != [] {
      var q := pos[|pos| - 1];
      MarkedAllKeepsUnit(g, cells, n0, n1, pos[..|pos| - 1], codes, alpha);
      MarkKeepsUnit(MarkedAll(g, cells, n0, n1, pos[..|pos| - 1], codes, alpha), q, FlagsAt(Get(cells, q)), codes, alpha);
    }
  }

  /**
   * Only occupied cells change: a cell of the field that is no ant's cell
   * keeps its value, and the last ant's cell holds the deposit computed on
   * the field the earlier marks left.
   */
  lemma {:induction false} MarkedAllFrame(g: Grid<real>, cells: Grid<bv8>, n0: nat, n1: nat, pos: seq<Pos>, codes: DirCodes, alpha: real, p: Pos)
    requires IsGrid(g, n0 + 2, n1 + 2) && IsGrid(cells, n0, n1) && ValidCodes(codes)
    requires forall t :: 0 <= t < |pos| ==> InBounds(pos[t], n0, n1)
    requires InBounds(p, n0 + 2, n1 + 2)
    ensures (forall t :: 0 <= t < |pos| ==> Inner(pos[t]) != p) ==> Get(MarkedAll(g, cells, n0, n1, pos, codes, alpha), p) == Get(g, p)
    ensures pos != [] && p == Inner(pos[|pos| - 1]) ==>
      Get(MarkedAll(g, cells, n0, n1, pos, codes, alpha), p) ==
        Deposit(MarkedAll(g, cells, n0, n1, pos[..|pos| - 1], codes, alpha), pos[|pos| - 1], FlagsAt(Get(cells, pos[|pos| - 1])), codes, alpha)
    decreases |pos|
  {
    if pos != [] {
      var front, q := pos[..|pos| - 1], pos[|pos| - 1];
      var r := MarkedAll(g, cells, n0, n1, front, codes, alpha);
      var v := Deposit(r, q, FlagsAt(Get(cells, q)), codes, alpha);
      assert MarkedAll(g, cells, n0, n1, pos, codes, alpha) == Set(r, Inner(q), v);
      assert Get(Set(r, Inner(q), v), p) == if p == Inner(q) then v else Get(r, p);
      MarkedAllFrame(g, cells, n0, n1, front, codes, alpha, p);
      assert forall t :: 0 <= t < |front| ==> front[t] == pos[t];
    }
  }

  /**
   * The marking loop of `advance` (fourmi.py:301-319): `mark` on every
   * ant's current cell, in slot order, with the flags of the maze cell.
   */
  method MarkAll(maze: array2<bv8>, pheromones: array2<real>, pos: seq<Pos>, codes: DirCodes, alpha: real)
    requires pheromones.Length0 == maze.Length0 + 2 && pheromones.Length1 == maze.Length1 + 2 && ValidCodes(codes)
    requires forall t :: 0 <= t < |pos| ==> InBounds(pos[t], maze.Length0, maze.Length1)
    modifies pheromones
    ensures ToGrid(pheromones) == MarkedAll(old(ToGrid(pheromones)), ToGrid(maze), maze.Length0, maze.Length1, pos, codes, alpha)
  {
    var n0, n1 := maze.Length0, maze.Length1;
    ghost var g, cells := ToGrid(pheromones), ToGrid(maze);
    for t := 0 to |pos|
      invariant ToGrid(pheromones) == MarkedAll(g, cells, n0, n1, pos[..t], codes, alpha)
    {
      assert pos[..t + 1][..t] == pos[..t];
      var p := pos[t];
      var cell := maze[p.r, p.c];
      Mark(pheromones, p, [HasExit(cell, North), HasExit(cell, East), HasExit(cell, West), HasExit(cell, South)], codes, alpha);
    }
    assert pos[..|pos|] == pos;
  }

  // ---------------------------------------------------------------------
  // The exploration rounds

  /** After `r` rounds every explorer has had a draw accepted. */
  ghost predicate AllAccepted(origin: seq<Ant>, explorers: set<int>, base: seq<int>, cellAt: seq<bv8>, codes: DirCodes, r: nat)
    requires |base| == |origin| && |cellAt| == |origin|
    requires forall i :: i in explorers ==> 0 <= i < |origin| && 0 <= origin[i].age < |origin[i].path|
  {
    forall i :: i in explorers ==> FirstAccepted(Here(origin[i]), origin[i].dir, codes, cellAt[i], SeedDraws(base[i], r)).Some?
  }

  /**
   * After `r` exploration rounds, every ant of `unloaded` that explores has
   * had a draw accepted; `drawn` are the seeds after the advance of
   * fourmi.py:129, on which the choice to explore is made.
   */
  ghost predicate AllDrawnAccepted(ants: seq<Ant>, drawn: seq<int>, unloaded: set<int>, cells: Grid<bv8>, ph: Grid<real>,
                                   n0: nat, n1: nat, codes: DirCodes, coefs: real, r: nat)
    requires Layout(cells, ph, n0, n1) && |drawn| == |ants|
    requires forall i :: 0 <= i < |ants| ==> 0 <= ants[i].age < |ants[i].path| && InBounds(Here(ants[i]), n0, n1)
  {
    forall i :: i in unloaded && 0 <= i < |ants| && Explores(Smell(cells, ph, n0, n1, Here(ants[i])), drawn[i], coefs) ==>
      FirstAccepted(Here(ants[i]), ants[i].dir, codes, Get(cells, Here(ants[i])), SeedDraws(drawn[i], r)).Some?
  }

  /** The stopping test of the rejection loop, stated on the explorers, is `AllDrawnAccepted`. */
  lemma DrawnAcceptedIff(ants: seq<Ant>, drawn: seq<int>, unloaded: set<int>, cells: Grid<bv8>, ph: Grid<real>, n0: nat, n1: nat,
                         codes: DirCodes, coefs: real, explorers: set<int>, cellAt: seq<bv8>, r: nat)
    requires Layout(cells, ph, n0, n1) && |drawn| == |ants| && |cellAt| == |ants|
    requires forall i :: 0 <= i < |ants| ==>
      0 <= ants[i].age < |ants[i].path| && InBounds(Here(ants[i]), n0, n1) && cellAt[i] == Get(cells, Here(ants[i]))
    requires forall i :: i in unloaded ==> 0 <= i < |ants|
    requires forall i :: i in explorers <==> i in unloaded && Explores(Smell(cells, ph, n0, n1, Here(ants[i])), drawn[i], coefs)
    ensures AllAccepted(ants, explorers, drawn, cellAt, codes, r) <==> AllDrawnAccepted(ants, drawn, unloaded, cells, ph, n0, n1, codes, coefs, r)
  {
  }

  /**
   * After `r` exploration rounds, every ant of `unloaded` that explores has
   * had a draw accepted; `ants` and `seeds` are the slots and the seeds at
   * the start of `explore`, before the advance of fourmi.py:129.
   */
  ghost predicate Settled(ants: seq<Ant>, seeds: seq<int>, unloaded: set<int>, cells: Grid<bv8>, ph: Grid<real>, n0: nat, n1: nat,
                          codes: DirCodes, coefs: real, r: nat)
    requires Layout(cells, ph, n0, n1) && |seeds| == |ants|
    requires forall i :: i in unloaded && 0 <= i < |ants| ==> 0 <= ants[i].age < |ants[i].path| && InBounds(Here(ants[i]), n0, n1)
  {
    forall i :: i in unloaded && 0 <= i < |ants| && Explores(Smell(cells, ph, n0, n1, Here(ants[i])), ParkMiller.Next(seeds[i]), coefs) ==>
      FirstAccepted(Here(ants[i]), ants[i].dir, codes, Get(cells, Here(ants[i])), SeedDraws(ParkMiller.Next(seeds[i]), r)).Some?
  }

  /** `Settled` on the seeds before the advance is `AllDrawnAccepted` on the advanced ones. */
  lemma SettledIffDrawn(ants: seq<Ant>, seeds: seq<int>, drawn: seq<int>, unloaded: set<int>, cells: Grid<bv8>, ph: Grid<real>,
                        n0: nat, n1: nat, codes: DirCodes, coefs: real, r: nat)
    requires Layout(cells, ph, n0, n1) && |seeds| == |ants| && |drawn| == |ants|
    requires forall i :: 0 <= i < |ants| ==> 0 <= ants[i].age < |ants[i].path| && InBounds(Here(ants[i]), n0, n1)
    requires forall i :: i in unloaded && 0 <= i < |ants| ==> drawn[i] == ParkMiller.Next(seeds[i])
    ensures Settled(ants, seeds, unloaded, cells, ph, n0, n1, codes, coefs, r) <==>
            AllDrawnAccepted(ants, drawn, unloaded, cells, ph, n0, n1, codes, coefs, r)
  {
  }

  /** `Settled` only looks at the ants of `unloaded`. */
  lemma SettledOnUnloaded(ants: seq<Ant>, others: seq<Ant>, seeds: seq<int>, unloaded: set<int>, cells: Grid<bv8>, ph: Grid<real>,
                          n0: nat, n1: nat, codes: DirCodes, coefs: real, r: nat)
    requires Layout(cells, ph, n0, n1) && |seeds| == |ants| && |others| == |ants|
    requires forall i :: i in unloaded && 0 <= i < |ants| ==>
      0 <= ants[i].age < |ants[i].path| && InBounds(Here(ants[i]), n0, n1) && others[i] == ants[i]
    ensures Settled(ants, seeds, unloaded, cells, ph, n0, n1, codes, coefs, r) <==>
            Settled(others, seeds, unloaded, cells, ph, n0, n1, codes, coefs, r)
  {
  }

  /**
   * One ant through the end of `explore` (fourmi.py:236-290): the
   * following write if it follows; then, if it was unloaded, one step
   * older, the death test and the pickup on the food; any other ant goes
   * through the death test only.
   */
  function TickEnd(m: Ant, x: Scent, unloaded: bool, follows: bool, food: Pos, nest: Pos, none: int): Ant
    requires 0 <= m.age && m.age + 1 < |m.path|
  {
    var a1 := if follows then FollowedNext(m, x) else m;
    if unloaded then PickedUp(Respawned(a1.(age := a1.age + 1), nest, none), food) else Respawned(a1, nest, none)
  }

  /**
   * The phases of `explore` compose to `ExploreAnt`: an ant `m` after the
   * rejection loop, then following, ageing, death and pickup, is `a`
   * through `ExploreAnt` if it was unloaded, and only through death if not.
   */
  lemma TickAfterRounds(a: Ant, m: Ant, b: Ant, seed: int, x: Scent, cell: bv8, unloaded: bool, explores: bool, follows: bool,
                        fuel: nat, food: Pos, nest: Pos, codes: DirCodes, coefs: real)
    requires 0 <= a.age && a.age + 1 < |a.path|
    requires explores <==> unloaded && Explores(x, seed, coefs)
    requires follows <==> unloaded && Follows(x, seed, coefs)
    requires m == if explores then Explored(a, codes, cell, SeedDraws(seed, fuel)) else a
    requires b == TickEnd(m, x, unloaded, follows, food, nest, codes.none)
    ensures b == if unloaded then ExploreAnt(a, seed, x, cell, fuel, food, nest, codes, coefs) else Respawned(a, nest, codes.none)
  {
    ExploresOrFollows(x, seed, coefs);
  }

  /** `TickAfterRounds` on every slot. */
  lemma TicksAfterRounds(ants: seq<Ant>, moved: seq<Ant>, after: seq<Ant>, seeds: seq<int>, scent: seq<Scent>, cellAt: seq<bv8>,
                         unloaded: set<int>, explorers: set<int>, following: set<int>,
                         fuel: nat, food: Pos, nest: Pos, codes: DirCodes, coefs: real)
    requires |moved| == |ants| && |after| == |ants| && |seeds| == |ants| && |scent| == |ants| && |cellAt| == |ants|
    requires explorers <= unloaded && following <= unloaded
    requires forall i :: 0 <= i < |ants| ==>
      && 0 <= ants[i].age && ants[i].age + 1 < |ants[i].path|
      && (i in unloaded ==> (i in explorers <==> Explores(scent[i], seeds[i], coefs)) && (i in following <==> Follows(scent[i], seeds[i], coefs)))
      && moved[i] == (if i in explorers then Explored(ants[i], codes, cellAt[i], SeedDraws(seeds[i], fuel)) else ants[i])
      && after[i] == TickEnd(moved[i], scent[i], i in unloaded, i in following, food, nest, codes.none)
    ensures forall i :: 0 <= i < |ants| ==>
      after[i] == if i in unloaded then ExploreAnt(ants[i], seeds[i], scent[i], cellAt[i], fuel, food, nest, codes, coefs)
                  else Respawned(ants[i], nest, codes.none)
  {
    forall i | 0 <= i < |ants|
      ensures after[i] == if i in unloaded then ExploreAnt(ants[i], seeds[i], scent[i], cellAt[i], fuel, food, nest, codes, coefs)
                          else Respawned(ants[i], nest, codes.none)
    {
      TickAfterRounds(ants[i], moved[i], after[i], seeds[i], scent[i], cellAt[i], i in unloaded, i in explorers, i in following,
                      fuel, food, nest, codes, coefs);
    }
  }

  /** Every slot keeps the slot invariant through `explore`. */
  lemma ExploreKeepsOk(ants: seq<Ant>, after: seq<Ant>, drawn: seq<int>, unloaded: set<int>, cells: Grid<bv8>, ph: Grid<real>,
                       n0: nat, n1: nat, span: nat, fuel: nat, food: Pos, nest: Pos, codes: DirCodes, coefs: real)
    requires Layout(cells, ph, n0, n1) && NoOffGridExits(cells, n0, n1) && food != nest && ValidCodes(codes)
    requires |after| == |ants| && |drawn| == |ants|
    requires forall i :: i in unloaded ==> 0 <= i < |ants| && !ants[i].loaded
    requires forall i :: 0 <= i < |ants| ==>
      && AntOk(ants[i], span, nest, n0, n1) && ants[i].age + 1 < |ants[i].path| && InBounds(Here(ants[i]), n0, n1)
      && after[i] == if i in unloaded
           then ExploreAnt(ants[i], drawn[i], Smell(cells, ph, n0, n1, Here(ants[i])), Get(cells, Here(ants[i])), fuel, food, nest, codes, coefs)
           else ants[i]
    ensures forall i :: 0 <= i < |after| ==> AntOk(after[i], span, nest, n0, n1)
  {
    forall i | 0 <= i < |after| ensures AntOk(after[i], span, nest, n0, n1) {
      if i in unloaded {
        ExploreAntKeepsOk(ants[i], drawn[i], cells, ph, n0, n1, span, fuel, food, nest, codes, coefs);
      }
    }
  }

  class Colony {
    const numAnts: nat
    /** The `maxLife` argument: every path holds `span + 1` entries. */
    const span: nat
    /** The codes of direction.py (direction.py is not part of this model). */
    const codes: DirCodes
    var seeds: seq<int>
    var isLoaded: seq<bool>
    var maxLife: seq<int>
    var age: seq<int>
    var historicPath: seq<seq<Pos>>
    var directions: seq<int>

    ghost predicate Sized()
      reads this
    {
      && |seeds| == numAnts && |isLoaded| == numAnts && |maxLife| == numAnts && |age| == numAnts
      && |historicPath| == numAnts && |directions| == numAnts
    }

    /** Slot `i` of the arrays, as one ant. */
    function Slot(i: int): Ant
      reads this
      requires Sized() && 0 <= i < numAnts
    {
      Ant(isLoaded[i], age[i], maxLife[i], historicPath[i], directions[i])
    }

    /** All slots, as ants. */
    function Ants(): (ants: seq<Ant>)
      reads this
      requires Sized()
      ensures |ants| == numAnts && forall i :: 0 <= i < numAnts ==> ants[i] == Slot(i)
    {
      var l, a, m, p, d := isLoaded, age, maxLife, historicPath, directions;
      seq(numAnts, i requires 0 <= i < numAnts => Ant(l[i], a[i], m[i], p[i], d[i]))
    }

    /** Every ant's age indexes its path. */
    ghost predicate Placed()
      reads this
    {
      Sized() && forall i :: 0 <= i < numAnts ==> 0 <= age[i] < |historicPath[i]|
    }

    /** Every slot keeps the slot invariant for an n0 x n1 maze whose nest is `nest`. */
    ghost predicate Valid(nest: Pos, n0: nat, n1: nat)
      reads this
    {
      Placed() && ValidCodes(codes) && forall i :: 0 <= i < numAnts ==> AntOk(Slot(i), span, nest, n0, n1)
    }

    /**
     * fourmi.py:33-55: the seeds are 1 to `nbAnts` advanced once; every ant
     * is unloaded, of age 0, with direction DIR_NONE and a path holding
     * `posInit` at index 0; its age of death is `LifeSpan` of its seed, in
     * [maxLife - (maxLife - 1) / 4, maxLife].  With `maxLife` >= 1 the slot
     * invariant holds for any maze containing `posInit`.
     */
    constructor (nbAnts: nat, posInit: Pos, maxLife: nat, codes: DirCodes)
      ensures numAnts == nbAnts && span == maxLife && this.codes == codes && Sized()
      ensures forall i :: 0 <= i < nbAnts ==> seeds[i] == ParkMiller.Next(i + 1) && 0 <= seeds[i] < ParkMiller.MODULUS
      ensures forall i :: 0 <= i < nbAnts ==>
        Slot(i) == Ant(false, 0, LifeSpan(maxLife, seeds[i]), StartPath(posInit, maxLife), codes.none)
      ensures maxLife >= 1 ==> forall i :: 0 <= i < nbAnts ==> maxLife - (maxLife - 1) / 4 <= this.maxLife[i] <= maxLife
      ensures maxLife >= 1 && ValidCodes(codes) ==>
        forall n0: nat, n1: nat :: InBounds(posInit, n0, n1) ==> Valid(posInit, n0, n1)
    {
      numAnts := nbAnts;
      span := maxLife;
      this.codes := codes;
      var s := seq(nbAnts, i => ParkMiller.Next(i + 1));
      seeds := s;
      isLoaded := seq(nbAnts, _ => false);
      this.maxLife := seq(nbAnts, i requires 0 <= i < nbAnts => LifeSpan(maxLife, s[i]));
      age := seq(nbAnts, _ => 0);
      historicPath := seq(nbAnts, _ => StartPath(posInit, maxLife));
      directions := seq(nbAnts, _ => codes.none);
      new;
      if maxLife >= 1 && ValidCodes(codes) {
        forall n0: nat, n1: nat | InBounds(posInit, n0, n1) ensures Valid(posInit, n0, n1) {
          assert OnGrid(StartPath(posInit, maxLife), n0, n1);
        }
      }
    }

    /** Each ant's position at its age. */
    function PosAnts(): (pos: seq<Pos>)
      reads this
      requires Placed()
      ensures |pos| == numAnts && forall i :: 0 <= i < numAnts ==> pos[i] == Here(Slot(i))
    {
      var ages, paths := age, historicPath;
      seq(numAnts, i requires 0 <= i < numAnts => paths[i][ages[i]])
    }

    /** The loaded ants (fourmi.py:293). */
    function Loaded(): (s: set<int>)
      reads this
      requires Sized()
      ensures forall i :: i in s <==> 0 <= i < numAnts && isLoaded[i]
    {
      set i | 0 <= i < numAnts && isLoaded[i]
    }

    /** The unloaded ants (fourmi.py:294). */
    function Unloaded(): (s: set<int>)
      reads this
      requires Sized()
      ensures forall i :: i in s <==> 0 <= i < numAnts && !isLoaded[i]
    {
      set i | 0 <= i < numAnts && !isLoaded[i]
    }

    /** The ants among `loadedAnts` whose previous path entry is the nest: those that unload in `returnToNest`. */
    function Arriving(loadedAnts: set<int>, posNest: Pos): set<int>
      reads this
      requires Sized()
    {
      set i | i in loadedAnts && 0 <= i < numAnts && 1 <= age[i] <= |historicPath[i]| && historicPath[i][age[i] - 1] == posNest
    }

    /**
     * returnToNest (fourmi.py:61-95): every ant of `loadedAnts` steps back
     * one entry; those now on the nest unload with age 0; the result is
     * the food counter plus their number.  Nothing else changes.
     */
    method ReturnToNest(loadedAnts: set<int>, posNest: Pos, foodCounter: int) returns (counter: int)
      requires Sized()
      requires forall i :: i in loadedAnts ==> 0 <= i < numAnts && isLoaded[i] && 1 <= age[i] <= |historicPath[i]|
      modifies this
      ensures Sized() && seeds == old(seeds)
      ensures forall i :: 0 <= i < numAnts ==> Slot(i) == if i in loadedAnts then Returned(old(Slot(i)), posNest) else old(Slot(i))
      ensures forall i :: 0 <= i < numAnts ==> (i in old(Arriving(loadedAnts, posNest)) <==> old(isLoaded[i]) && !isLoaded[i])
      ensures counter == foodCounter + |old(Arriving(loadedAnts, posNest))|
    {
      var ages, loaded := age, isLoaded;
      var inNest := Arriving(loadedAnts, posNest);
      age := seq(numAnts, i requires 0 <= i < numAnts => if i in inNest then 0 else if i in loadedAnts then ages[i] - 1 else ages[i]);
      isLoaded := seq(numAnts, i requires 0 <= i < numAnts => if i in inNest then false else loaded[i]);
      counter := foodCounter + |inNest|;
    }

    /**
     * One round of the rejection loop (fourmi.py:183-234): every seed
     * advances; each ant in `pending` whose draw (its seed modulo 4) is
     * accepted writes its move at age + 1 and takes the draw as its
     * direction; the ants that reject it are returned.
     */
    method ExploreRound(pending: set<int>, cellAt: seq<bv8>) returns (rejected: set<int>)
      requires Sized() && |cellAt| == numAnts
      requires forall i :: i in pending ==> 0 <= i < numAnts && 0 <= age[i] && age[i] + 1 < |historicPath[i]|
      modifies this
      ensures Sized() && isLoaded == old(isLoaded) && age == old(age) && maxLife == old(maxLife)
      ensures forall i :: 0 <= i < numAnts ==> seeds[i] == ParkMiller.Next(old(seeds[i]))
      ensures forall i :: 0 <= i < numAnts ==> |historicPath[i]| == old(|historicPath[i]|)
      ensures forall i :: 0 <= i < numAnts ==>
        Slot(i) == if i in pending && Accepts(Here(old(Slot(i))), seeds[i] % 4, old(Slot(i)).dir, codes, cellAt[i])
          then Stepped(old(Slot(i)), ExploreMove(Here(old(Slot(i))), seeds[i] % 4, codes, cellAt[i]), seeds[i] % 4)
          else old(Slot(i))
      ensures rejected <= pending
      ensures forall i :: i in rejected <==> i in pending && !Accepts(Here(old(Slot(i))), seeds[i] % 4, old(Slot(i)).dir, codes, cellAt[i])
    {
      var s := seeds;
      seeds := seq(numAnts, i requires 0 <= i < numAnts => ParkMiller.Next(s[i]));
      rejected := MoveOnDraws(pending, cellAt);
    }

    /**
     * The moves of one round (fourmi.py:188-234), on the seeds as they
     * are: each ant in `pending` whose draw is accepted writes its move at
     * age + 1 and takes the draw as its direction.
     */
    method MoveOnDraws(pending: set<int>, cellAt: seq<bv8>) returns (rejected: set<int>)
      requires Sized() && |cellAt| == numAnts
      requires forall i :: i in pending ==> 0 <= i < numAnts && 0 <= age[i] && age[i] + 1 < |historicPath[i]|
      modifies this
      ensures Sized() && seeds == old(seeds) && isLoaded == old(isLoaded) && age == old(age) && maxLife == old(maxLife)
      ensures forall i :: 0 <= i < numAnts ==> |historicPath[i]| == old(|historicPath[i]|)
      ensures forall i :: 0 <= i < numAnts ==>
        Slot(i) == if i in pending && Accepts(Here(old(Slot(i))), seeds[i] % 4, old(Slot(i)).dir, codes, cellAt[i])
          then Stepped(old(Slot(i)), ExploreMove(Here(old(Slot(i))), seeds[i] % 4, codes, cellAt[i]), seeds[i] % 4)
          else old(Slot(i))
      ensures rejected <= pending
      ensures forall i :: i in rejected <==> i in pending && !Accepts(Here(old(Slot(i))), seeds[i] % 4, old(Slot(i)).dir, codes, cellAt[i])
    {
      var dirs := seeds;
      var prev, ages, paths := directions, age, historicPath;
      var valid := set i | i in pending && Accepts(paths[i][ages[i]], dirs[i] % 4, prev[i], codes, cellAt[i]);
      historicPath := seq(numAnts, i requires 0 <= i < numAnts =>
        if i in valid then paths[i][ages[i] + 1 := ExploreMove(paths[i][ages[i]], dirs[i] % 4, codes, cellAt[i])] else paths[i]);
      directions := seq(numAnts, i requires 0 <= i < numAnts => if i in valid then dirs[i] % 4 else prev[i]);
      rejected := pending - valid;
    }

    /**
     * The state of the rejection loop after `j` rounds from the seeds
     * `base`: every exploring slot is its original ant `origin[i]` explored
     * over the draws of its seed, the other slots are untouched, and the ants still `pending`
     * are the exploring ones no draw has been accepted for.
     */
    ghost predicate Exploring(origin: seq<Ant>, explorers: set<int>, pending: set<int>, cellAt: seq<bv8>, base: seq<int>, j: nat)
      reads this
    {
      && Sized() && |origin| == numAnts && |cellAt| == numAnts && |base| == numAnts && pending <= explorers
      && (forall i :: i in explorers ==> 0 <= i < numAnts)
      && (forall i :: 0 <= i < numAnts ==> 0 <= origin[i].age && origin[i].age + 1 < |origin[i].path|)
      && (forall i :: 0 <= i < numAnts ==>
            Slot(i) == if i in explorers then Explored(origin[i], codes, cellAt[i], SeedDraws(base[i], j)) else origin[i])
      && (forall i :: i in explorers ==>
            (i in pending <==> FirstAccepted(Here(origin[i]), origin[i].dir, codes, cellAt[i], SeedDraws(base[i], j)).None?))
    }

    /** One round keeps `Exploring`, with every seed one step further and its draw appended. */
    method ExploreStep(ghost origin: seq<Ant>, explorers: set<int>, pending: set<int>, cellAt: seq<bv8>,
                       ghost base: seq<int>, ghost j: nat) returns (rejected: set<int>)
      requires Exploring(origin, explorers, pending, cellAt, base, j) && |base| == numAnts
      requires forall i :: 0 <= i < numAnts ==> seeds[i] == ParkMiller.Iterate(base[i], j)
      modifies this
      ensures isLoaded == old(isLoaded) && age == old(age) && maxLife == old(maxLife)
      ensures Exploring(origin, explorers, rejected, cellAt, base, j + 1)
      ensures forall i :: 0 <= i < numAnts ==> seeds[i] == ParkMiller.Iterate(base[i], j + 1)
    {
      ghost var mid := Ants();
      forall i | i in pending ensures 0 <= age[i] && age[i] + 1 < |historicPath[i]| {
        assert Slot(i) == Explored(origin[i], codes, cellAt[i], SeedDraws(base[i], j));
      }
      rejected := ExploreRound(pending, cellAt);
      forall i | 0 <= i < numAnts
        ensures Slot(i) == if i in explorers then Explored(origin[i], codes, cellAt[i], SeedDraws(base[i], j + 1)) else origin[i]
        ensures i in explorers ==>
          (i in rejected <==> FirstAccepted(Here(origin[i]), origin[i].dir, codes, cellAt[i], SeedDraws(base[i], j + 1)).None?)
      {
        assert SeedDraws(base[i], j + 1) == SeedDraws(base[i], j) + [seeds[i] % 4];
        if i in explorers {
          ExploreRoundStep(origin[i], mid[i], Slot(i), codes, cellAt[i], SeedDraws(base[i], j), seeds[i] % 4, i in pending, i in rejected);
        }
      }
    }

    /**
     * The rejection loop of `explore` (fourmi.py:173-234), cut after `fuel`
     * rounds: it runs until every explorer has had a draw accepted, each
     * round advancing every seed.  The number of rounds is the first at
     * which all explorers are accepted, or `fuel`; each explorer ends as
     * `Explored` over the draws of `fuel` rounds of its seed says.
     */
    method ExploreLoop(ghost origin: seq<Ant>, ghost base: seq<int>, explorers: set<int>, cellAt: seq<bv8>, fuel: nat)
      returns (rounds: nat)
      requires Sized() && origin == Ants() && base == seeds && |cellAt| == numAnts
      requires forall i :: 0 <= i < numAnts ==> 0 <= age[i] && age[i] + 1 < |historicPath[i]|
      requires forall i :: i in explorers ==> 0 <= i < numAnts
      modifies this
      ensures Sized() && isLoaded == old(isLoaded) && age == old(age) && maxLife == old(maxLife)
      ensures forall i :: 0 <= i < numAnts ==> |historicPath[i]| == old(|historicPath[i]|)
      ensures forall i :: 0 <= i < numAnts ==> seeds[i] == ParkMiller.Iterate(base[i], rounds)
      ensures forall i :: 0 <= i < numAnts ==>
        Slot(i) == if i in explorers then Explored(origin[i], codes, cellAt[i], SeedDraws(base[i], fuel)) else origin[i]
      ensures rounds <= fuel
      ensures rounds < fuel ==> AllAccepted(origin, explorers, base, cellAt, codes, rounds)
      ensures rounds > 0 ==> !AllAccepted(origin, explorers, base, cellAt, codes, rounds - 1)
    {
      var pending := explorers;
      rounds := 0;
      ExploringInitially(origin, explorers, cellAt, base);
      while pending != {} && rounds < fuel
        invariant rounds <= fuel
        invariant isLoaded == old(isLoaded) && age == old(age) && maxLife == old(maxLife)
        invariant Exploring(origin, explorers, pending, cellAt, base, rounds)
        invariant forall i :: 0 <= i < numAnts ==> seeds[i] == ParkMiller.Iterate(base[i], rounds)
        invariant rounds > 0 ==> !AllAccepted(origin, explorers, base, cellAt, codes, rounds - 1)
        decreases fuel - rounds
      {
        PendingIffAccepted(origin, explorers, pending, cellAt, base, rounds);
        pending := ExploreStep(origin, explorers, pending, cellAt, base, rounds);
        rounds := rounds + 1;
      }
      ExploringDone(origin, explorers, pending, cellAt, base, rounds, fuel);
    }

    /** Before any round, `Exploring` holds with no draws. */
    lemma ExploringInitially(origin: seq<Ant>, explorers: set<int>, cellAt: seq<bv8>, base: seq<int>)
      requires Sized() && origin == Ants() && |cellAt| == numAnts && base == seeds
      requires forall i :: 0 <= i < numAnts ==> 0 <= age[i] && age[i] + 1 < |historicPath[i]|
      requires forall i :: i in explorers ==> 0 <= i < numAnts
      ensures Exploring(origin, explorers, explorers, cellAt, base, 0)
      ensures forall i :: 0 <= i < numAnts ==> seeds[i] == ParkMiller.Iterate(base[i], 0)
    {
      forall i | 0 <= i < numAnts ensures SeedDraws(base[i], 0) == [] {
      }
    }

    /** No explorer is pending exactly when every explorer has had a draw accepted. */
    lemma PendingIffAccepted(origin: seq<Ant>, explorers: set<int>, pending: set<int>, cellAt: seq<bv8>, base: seq<int>, j: nat)
      requires Exploring(origin, explorers, pending, cellAt, base, j) && |base| == numAnts
      ensures pending == {} <==> AllAccepted(origin, explorers, base, cellAt, codes, j)
    {
      forall i | i in explorers
        ensures i in pending <==> FirstAccepted(Here(origin[i]), origin[i].dir, codes, cellAt[i], SeedDraws(base[i], j)).None?
      {
      }
      if AllAccepted(origin, explorers, base, cellAt, codes, j) {
        assert forall i :: i in explorers ==> i !in pending;
        assert pending == {};
      }
    }

    /**
     * When the loop stops, every explorer is explored over the draws of
     * `fuel` rounds: either all rounds were drawn, or every explorer was
     * accepted and later draws would not change it.
     */
    lemma ExploringDone(origin: seq<Ant>, explorers: set<int>, pending: set<int>, cellAt: seq<bv8>, base: seq<int>, j: nat, fuel: nat)
      requires j <= fuel && |base| == numAnts
      requires Exploring(origin, explorers, pending, cellAt, base, j)
      requires pending == {} || j == fuel
      ensures forall i :: 0 <= i < numAnts ==>
        Slot(i) == if i in explorers then Explored(origin[i], codes, cellAt[i], SeedDraws(base[i], fuel)) else origin[i]
      ensures forall i :: 0 <= i < numAnts ==> |historicPath[i]| == |origin[i].path|
      ensures j < fuel ==> AllAccepted(origin, explorers, base, cellAt, codes, j)
    {
      var cols := seq(numAnts, i requires 0 <= i < numAnts => SeedDraws(base[i], j));
      forall i | 0 <= i < numAnts
        ensures Slot(i) == if i in explorers then Explored(origin[i], codes, cellAt[i], SeedDraws(base[i], fuel)) else origin[i]
        ensures |historicPath[i]| == |origin[i].path|
        ensures i in explorers && j < fuel ==> FirstAccepted(Here(origin[i]), origin[i].dir, codes, cellAt[i], SeedDraws(base[i], j)).Some?
      {
        assert Slot(i) == if i in explorers then Explored(origin[i], codes, cellAt[i], cols[i]) else origin[i];
        if i in explorers {
          if j < fuel {
            assert i !in pending;
            SeedDrawsPrefix(base[i], j, fuel);
            ExploredPrefix(origin[i], codes, cellAt[i], cols[i], SeedDraws(base[i], fuel)[j..]);
          }
        }
      }
    }

    /** The seed advance of fourmi.py:129: the seed of every ant of `unloaded` takes one Park-Miller step. */
    method AdvanceSeeds(unloaded: set<int>)
      requires Sized()
      modifies this
      ensures Sized() && isLoaded == old(isLoaded) && age == old(age) && maxLife == old(maxLife)
      ensures historicPath == old(historicPath) && directions == old(directions)
      ensures forall i :: 0 <= i < numAnts ==> seeds[i] == if i in unloaded then ParkMiller.Next(old(seeds[i])) else old(seeds[i])
    {
      var s := seeds;
      seeds := seq(numAnts, i requires 0 <= i < numAnts => if i in unloaded then ParkMiller.Next(s[i]) else s[i]);
    }

    /** Following (fourmi.py:236-265): the entry after each following ant's current one becomes its following step. */
    method FollowNext(following: set<int>, scent: seq<Scent>)
      requires Sized() && |scent| == numAnts
      requires forall i :: i in following ==> 0 <= i < numAnts && 0 <= age[i] && age[i] + 1 < |historicPath[i]|
      modifies this
      ensures Sized() && seeds == old(seeds) && age == old(age)
      ensures forall i :: 0 <= i < numAnts ==> |historicPath[i]| == old(|historicPath[i]|)
      ensures forall i :: 0 <= i < numAnts ==>
        Slot(i) == if i in following then FollowedNext(old(Slot(i)), scent[i]) else old(Slot(i))
    {
      var ages, paths := age, historicPath;
      historicPath := seq(numAnts, i requires 0 <= i < numAnts =>
        if i in following then paths[i][ages[i] + 1 := FollowStep(paths[i][ages[i]], scent[i])] else paths[i]);
    }

    /** Ageing (fourmi.py:268-269): every ant of `unloaded` grows one step older. */
    method AgeUnloaded(unloaded: set<int>)
      requires Sized()
      modifies this
      ensures Sized() && seeds == old(seeds) && historicPath == old(historicPath)
      ensures forall i :: 0 <= i < numAnts ==>
        Slot(i) == if i in unloaded then old(Slot(i)).(age := old(age[i]) + 1) else old(Slot(i))
    {
      var ages := age;
      age := seq(numAnts, i requires 0 <= i < numAnts => if i in unloaded then ages[i] + 1 else ages[i]);
    }

    /**
     * Death (fourmi.py:271-277): every ant, loaded or not, whose age equals
     * its lifetime restarts at the nest with age 0 and direction DIR_NONE.
     */
    method Respawn(nest: Pos)
      requires Sized() && forall i :: 0 <= i < numAnts ==> |historicPath[i]| > 0
      modifies this
      ensures Sized() && seeds == old(seeds)
      ensures forall i :: 0 <= i < numAnts ==> |historicPath[i]| == old(|historicPath[i]|) && (age[i] == 0 || age[i] == old(age[i]))
      ensures forall i :: 0 <= i < numAnts ==> Slot(i) == Respawned(old(Slot(i)), nest, codes.none)
    {
      var ages, lives, paths, dirs := age, maxLife, historicPath, directions;
      var dying := set i | 0 <= i < numAnts && ages[i] == lives[i];
      age := seq(numAnts, i requires 0 <= i < numAnts => if i in dying then 0 else ages[i]);
      historicPath := seq(numAnts, i requires 0 <= i < numAnts => if i in dying then paths[i][0 := nest] else paths[i]);
      directions := seq(numAnts, i requires 0 <= i < numAnts => if i in dying then codes.none else dirs[i]);
    }

    /** Food pickup (fourmi.py:279-290): only the ants of `unloaded` that stand on the food become loaded. */
    method PickUp(unloaded: set<int>, food: Pos)
      requires Placed()
      modifies this
      ensures Sized() && seeds == old(seeds)
      ensures forall i :: 0 <= i < numAnts ==> Slot(i) == if i in unloaded then PickedUp(old(Slot(i)), food) else old(Slot(i))
    {
      var pos, loaded := PosAnts(), isLoaded;
      isLoaded := seq(numAnts, i requires 0 <= i < numAnts => if i in unloaded && pos[i] == food then true else loaded[i]);
    }

    /**
     * The end of `explore` (fourmi.py:236-290): following, ageing of the
     * ants of `unloaded`, death of every ant at its lifetime, and pickup by
     * the ants of `unloaded`, in this order.
     */
    method Settle(unloaded: set<int>, following: set<int>, scent: seq<Scent>, food: Pos, nest: Pos)
      requires Sized() && |scent| == numAnts
      requires forall i :: 0 <= i < numAnts ==> 0 <= age[i] && age[i] + 1 < |historicPath[i]|
      requires forall i :: i in unloaded ==> 0 <= i < numAnts
      requires forall i :: i in following ==> 0 <= i < numAnts
      modifies this
      ensures Sized() && seeds == old(seeds)
      ensures forall i :: 0 <= i < numAnts ==>
        Slot(i) == TickEnd(old(Slot(i)), scent[i], i in unloaded, i in following, food, nest, codes.none)
    {
      FollowNext(following, scent);
      if unloaded != {} {
        AgeUnloaded(unloaded);
      }
      forall i | 0 <= i < numAnts ensures |historicPath[i]| > 0 {
      }
      Respawn(nest);
      PickUp(unloaded, food);
    }

    /**
     * The moving part of `explore` (fourmi.py:173-290) once the explorers
     * and the followers are known: the rejection loop, if there is any
     * explorer, then `Settle`.  `ants` are the slots and `seeds` the seeds
     * after the advance of fourmi.py:129.
     */
    method ExplorePhases(ghost ants: seq<Ant>, unloaded: set<int>, explorers: set<int>, following: set<int>,
                         cellAt: seq<bv8>, scent: seq<Scent>, food: Pos, nest: Pos, coefs: real, fuel: nat) returns (rounds: nat)
      requires Sized() && ants == Ants() && |cellAt| == numAnts && |scent| == numAnts
      requires forall i :: 0 <= i < numAnts ==> 0 <= age[i] && age[i] + 1 < |historicPath[i]|
      requires forall i :: i in unloaded ==> 0 <= i < numAnts
      requires explorers <= unloaded && following <= unloaded
      requires forall i :: i in unloaded ==>
        (i in explorers <==> Explores(scent[i], seeds[i], coefs)) && (i in following <==> Follows(scent[i], seeds[i], coefs))
      modifies this
      ensures Sized()
      ensures forall i :: 0 <= i < numAnts ==>
        Slot(i) == if i in unloaded then ExploreAnt(ants[i], old(seeds[i]), scent[i], cellAt[i], fuel, food, nest, codes, coefs)
                   else Respawned(ants[i], nest, codes.none)
      ensures forall i :: 0 <= i < numAnts ==> seeds[i] == ParkMiller.Iterate(old(seeds[i]), rounds)
      ensures rounds <= fuel
      ensures rounds < fuel ==> AllAccepted(ants, explorers, old(seeds), cellAt, codes, rounds)
      ensures rounds > 0 ==> !AllAccepted(ants, explorers, old(seeds), cellAt, codes, rounds - 1)
    {
      ghost var base := seeds;
      // With no explorer the loop of fourmi.py:178 is skipped, as the guard of fourmi.py:172 does.
      rounds := ExploreLoop(ants, base, explorers, cellAt, fuel);
      forall i | 0 <= i < numAnts ensures 0 <= age[i] && age[i] + 1 < |historicPath[i]| {
        assert Slot(i).age == ants[i].age && |Slot(i).path| == |ants[i].path|;
      }
      ghost var moved := Ants();
      Settle(unloaded, following, scent, food, nest);
      TicksAfterRounds(ants, moved, Ants(), base, scent, cellAt, unloaded, explorers, following, fuel, food, nest, codes, coefs);
    }

    /**
     * explore (fourmi.py:97-290) on the maze's cells and field: the seeds
     * of `unloaded` advance; every ant of `unloaded` ends as `ExploreAnt`
     * says, from what it smells on its cell before moving; the other slots
     * keep their ants.  The rejection loop runs `rounds` rounds, the first
     * after which every explorer has had a draw accepted (or `fuel`), and
     * advances every seed that many times.
     */
    method Explore(unloaded: set<int>, maze: array2<bv8>, food: Pos, nest: Pos, pheromones: array2<real>, coefs: real, fuel: nat)
      returns (rounds: nat)
      requires Valid(nest, maze.Length0, maze.Length1) && food != nest
      requires Layout(ToGrid(maze), ToGrid(pheromones), maze.Length0, maze.Length1) && NoOffGridExits(ToGrid(maze), maze.Length0, maze.Length1)
      requires forall i :: i in unloaded ==> 0 <= i < numAnts && !isLoaded[i]
      modifies this
      ensures Valid(nest, maze.Length0, maze.Length1)
      ensures forall i :: 0 <= i < numAnts ==>
        var cells, here := ToGrid(maze), Here(old(Slot(i)));
        Slot(i) == if i in unloaded
          then ExploreAnt(old(Slot(i)), ParkMiller.Next(old(seeds[i])), Smell(cells, ToGrid(pheromones), maze.Length0, maze.Length1, here),
                          Get(cells, here), fuel, food, nest, codes, coefs)
          else old(Slot(i))
      ensures forall i :: 0 <= i < numAnts ==>
        seeds[i] == ParkMiller.Iterate(if i in unloaded then ParkMiller.Next(old(seeds[i])) else old(seeds[i]), rounds)
      ensures rounds <= fuel
      ensures rounds < fuel ==>
        Settled(old(Ants()), old(seeds), unloaded, ToGrid(maze), ToGrid(pheromones), maze.Length0, maze.Length1, codes, coefs, rounds)
      ensures rounds > 0 ==>
        !Settled(old(Ants()), old(seeds), unloaded, ToGrid(maze), ToGrid(pheromones), maze.Length0, maze.Length1, codes, coefs, rounds - 1)
    {
      rounds := ExploreOn(unloaded, ToGrid(maze), ToGrid(pheromones), maze.Length0, maze.Length1, food, nest, coefs, fuel);
    }

    /** `explore` on a snapshot of the maze's cells and field. */
    method ExploreOn(unloaded: set<int>, cells: Grid<bv8>, ph: Grid<real>, n0: nat, n1: nat, food: Pos, nest: Pos, coefs: real, fuel: nat)
      returns (rounds: nat)
      requires Valid(nest, n0, n1) && food != nest
      requires Layout(cells, ph, n0, n1) && NoOffGridExits(cells, n0, n1)
      requires forall i :: i in unloaded ==> 0 <= i < numAnts && !isLoaded[i]
      modifies this
      ensures Valid(nest, n0, n1)
      ensures forall i :: 0 <= i < numAnts ==>
        Slot(i) == if i in unloaded
          then ExploreAnt(old(Slot(i)), ParkMiller.Next(old(seeds[i])), Smell(cells, ph, n0, n1, Here(old(Slot(i)))),
                          Get(cells, Here(old(Slot(i)))), fuel, food, nest, codes, coefs)
          else old(Slot(i))
      ensures forall i :: 0 <= i < numAnts ==>
        seeds[i] == ParkMiller.Iterate(if i in unloaded then ParkMiller.Next(old(seeds[i])) else old(seeds[i]), rounds)
      ensures rounds <= fuel
      ensures rounds < fuel ==> Settled(old(Ants()), old(seeds), unloaded, cells, ph, n0, n1, codes, coefs, rounds)
      ensures rounds > 0 ==> !Settled(old(Ants()), old(seeds), unloaded, cells, ph, n0, n1, codes, coefs, rounds - 1)
    {
      ghost var ants, s0 := Ants(), seeds;
      AdvanceSeeds(unloaded);
      forall i | 0 <= i < numAnts
        ensures AntOk(Slot(i), span, nest, n0, n1)
        ensures 0 <= age[i] < maxLife[i] && age[i] + 1 < |historicPath[i]| && InBounds(historicPath[i][age[i]], n0, n1)
      {
        assert Slot(i) == ants[i];
      }
      OkIsValid(nest, n0, n1);
      ghost var drawn := seeds;
      rounds := ExploreDrawn(unloaded, cells, ph, n0, n1, food, nest, coefs, fuel);
      ExploreKeepsOk(ants, Ants(), drawn, unloaded, cells, ph, n0, n1, span, fuel, food, nest, codes, coefs);
      OkIsValid(nest, n0, n1);
      SettledIffDrawn(ants, s0, drawn, unloaded, cells, ph, n0, n1, codes, coefs, rounds);
      if rounds > 0 {
        SettledIffDrawn(ants, s0, drawn, unloaded, cells, ph, n0, n1, codes, coefs, rounds - 1);
      }
    }

    /**
     * `explore` after the seed advance of fourmi.py:129: the explorers and
     * the followers are chosen on the advanced seeds, which the rejection
     * loop then advances `rounds` more times.
     */
    method ExploreDrawn(unloaded: set<int>, cells: Grid<bv8>, ph: Grid<real>, n0: nat, n1: nat, food: Pos, nest: Pos, coefs: real, fuel: nat)
      returns (rounds: nat)
      requires Sized() && Layout(cells, ph, n0, n1)
      requires forall i :: 0 <= i < numAnts ==>
        0 <= age[i] < maxLife[i] && age[i] + 1 < |historicPath[i]| && InBounds(historicPath[i][age[i]], n0, n1)
      requires forall i :: i in unloaded ==> 0 <= i < numAnts
      modifies this
      ensures Sized()
      ensures forall i :: 0 <= i < numAnts ==>
        Slot(i) == if i in unloaded
          then ExploreAnt(old(Slot(i)), old(seeds[i]), Smell(cells, ph, n0, n1, Here(old(Slot(i)))),
                          Get(cells, Here(old(Slot(i)))), fuel, food, nest, codes, coefs)
          else old(Slot(i))
      ensures forall i :: 0 <= i < numAnts ==> seeds[i] == ParkMiller.Iterate(old(seeds[i]), rounds)
      ensures rounds <= fuel
      ensures rounds < fuel ==> AllDrawnAccepted(old(Ants()), old(seeds), unloaded, cells, ph, n0, n1, codes, coefs, rounds)
      ensures rounds > 0 ==> !AllDrawnAccepted(old(Ants()), old(seeds), unloaded, cells, ph, n0, n1, codes, coefs, rounds - 1)
    {
      ghost var ants := Ants();
      var pos := PosAnts();
      var cellAt := seq(numAnts, i requires 0 <= i < numAnts => Get(cells, pos[i]));
      var scent := seq(numAnts, i requires 0 <= i < numAnts => Smell(cells, ph, n0, n1, pos[i]));
      forall i | 0 <= i < numAnts
        ensures 0 <= ants[i].age < ants[i].life && ants[i].age + 1 < |ants[i].path| && InBounds(Here(ants[i]), n0, n1)
        ensures scent[i] == Smell(cells, ph, n0, n1, Here(ants[i])) && cellAt[i] == Get(cells, Here(ants[i]))
      {
      }
      rounds := ExploreChosen(ants, unloaded, cellAt, scent, cells, ph, n0, n1, food, nest, coefs, fuel);
      forall i | 0 <= i < numAnts
        ensures Slot(i) == if i in unloaded
          then ExploreAnt(ants[i], old(seeds[i]), Smell(cells, ph, n0, n1, Here(ants[i])), Get(cells, Here(ants[i])), fuel, food, nest, codes, coefs)
          else ants[i]
      {
      }
    }

    /**
     * The choice of fourmi.py:162-172 on the seeds as they are, then the
     * rejection loop and the rest of `explore`, given each slot's cell and
     * scent.
     */
    method ExploreChosen(ghost ants: seq<Ant>, unloaded: set<int>, cellAt: seq<bv8>, scent: seq<Scent>,
                         ghost cells: Grid<bv8>, ghost ph: Grid<real>, n0: nat, n1: nat, food: Pos, nest: Pos, coefs: real, fuel: nat)
      returns (rounds: nat)
      requires Sized() && ants == Ants() && |cellAt| == numAnts && |scent| == numAnts && Layout(cells, ph, n0, n1)
      requires forall i :: 0 <= i < numAnts ==>
        && 0 <= ants[i].age && ants[i].age + 1 < |ants[i].path| && InBounds(Here(ants[i]), n0, n1)
        && scent[i] == Smell(cells, ph, n0, n1, Here(ants[i])) && cellAt[i] == Get(cells, Here(ants[i]))
      requires forall i :: i in unloaded ==> 0 <= i < numAnts
      modifies this
      ensures Sized()
      ensures forall i :: 0 <= i < numAnts ==>
        Slot(i) == if i in unloaded then ExploreAnt(ants[i], old(seeds[i]), scent[i], cellAt[i], fuel, food, nest, codes, coefs)
                   else Respawned(ants[i], nest, codes.none)
      ensures forall i :: 0 <= i < numAnts ==> seeds[i] == ParkMiller.Iterate(old(seeds[i]), rounds)
      ensures rounds <= fuel
      ensures rounds < fuel ==> AllDrawnAccepted(ants, old(seeds), unloaded, cells, ph, n0, n1, codes, coefs, rounds)
      ensures rounds > 0 ==> !AllDrawnAccepted(ants, old(seeds), unloaded, cells, ph, n0, n1, codes, coefs, rounds - 1)
    {
      forall i | 0 <= i < numAnts ensures 0 <= age[i] && age[i] + 1 < |historicPath[i]| {
        assert Slot(i) == ants[i];
      }
      var drawn := seeds;
      var explorers := set i | i in unloaded && Explores(scent[i], drawn[i], coefs);
      var following := set i | i in unloaded && Follows(scent[i], drawn[i], coefs);
      rounds := ExplorePhases(ants, unloaded, explorers, following, cellAt, scent, food, nest, coefs, fuel);
      DrawnAcceptedIff(ants, drawn, unloaded, cells, ph, n0, n1, codes, coefs, explorers, cellAt, rounds);
      if rounds > 0 {
        DrawnAcceptedIff(ants, drawn, unloaded, cells, ph, n0, n1, codes, coefs, explorers, cellAt, rounds - 1);
      }
    }

    /** The slot invariant on every slot is `Valid`. */
    lemma OkIsValid(nest: Pos, n0: nat, n1: nat)
      requires Sized() && ValidCodes(codes) && forall i :: 0 <= i < numAnts ==> AntOk(Slot(i), span, nest, n0, n1)
      ensures Valid(nest, n0, n1)
    {
      forall i | 0 <= i < numAnts ensures 0 <= age[i] < |historicPath[i]| {
        assert AntOk(Slot(i), span, nest, n0, n1);
      }
    }

    /**
     * advance (fourmi.py:292-320): the loaded and the unloaded ants are
     * fixed first; the loaded ones walk back and the unloaded ones explore,
     * so that every slot ends as `AdvanceAnt` says; the counter grows by
     * the ants that unloaded at the nest.  Then every ant marks its cell,
     * in slot order, starting from the field `explore` read.
     */
    method Advance(maze: array2<bv8>, food: Pos, nest: Pos, pheromones: array2<real>, foodCounter: int,
                   coefs: real, alpha: real, fuel: nat) returns (counter: int, ghost rounds: nat)
      requires Valid(nest, maze.Length0, maze.Length1) && food != nest
      requires pheromones.Length0 == maze.Length0 + 2 && pheromones.Length1 == maze.Length1 + 2
      requires NoOffGridExits(ToGrid(maze), maze.Length0, maze.Length1)
      modifies this, pheromones
      ensures Valid(nest, maze.Length0, maze.Length1)
      ensures forall i :: 0 <= i < numAnts ==>
        Slot(i) == AdvanceAnt(old(Slot(i)), old(seeds[i]), ToGrid(maze), old(ToGrid(pheromones)), maze.Length0, maze.Length1,
                              span, fuel, food, nest, codes, coefs)
      ensures counter == foodCounter + |old(Arriving(Loaded(), nest))|
      ensures forall i :: 0 <= i < numAnts ==>
        seeds[i] == ParkMiller.Iterate(if old(isLoaded[i]) then old(seeds[i]) else ParkMiller.Next(old(seeds[i])), rounds)
      ensures rounds <= fuel
      ensures rounds < fuel ==>
        Settled(old(Ants()), old(seeds), old(Unloaded()), ToGrid(maze), old(ToGrid(pheromones)), maze.Length0, maze.Length1, codes, coefs, rounds)
      ensures rounds > 0 ==>
        !Settled(old(Ants()), old(seeds), old(Unloaded()), ToGrid(maze), old(ToGrid(pheromones)), maze.Length0, maze.Length1, codes, coefs, rounds - 1)
      ensures ToGrid(pheromones) == MarkedAll(old(ToGrid(pheromones)), ToGrid(maze), maze.Length0, maze.Length1, PosAnts(), codes, alpha)
    {
      var n0, n1 := maze.Length0, maze.Length1;
      counter, rounds := MoveAnts(ToGrid(maze), ToGrid(pheromones), n0, n1, food, nest, foodCounter, coefs, fuel);
      var pos := PosAnts();
      forall t | 0 <= t < |pos| ensures InBounds(pos[t], n0, n1) {
        assert AntOk(Slot(t), span, nest, n0, n1);
      }
      MarkAll(maze, pheromones, pos, codes, alpha);
    }

    /**
     * The first step of `advance` (fourmi.py:293-297): `returnToNest` on
     * the loaded ants, if there is any; unloaded ants keep their slots.
     */
    method ReturnLoaded(nest: Pos, n0: nat, n1: nat, foodCounter: int) returns (counter: int)
      requires Valid(nest, n0, n1)
      modifies this
      ensures Valid(nest, n0, n1) && seeds == old(seeds)
      ensures forall i :: 0 <= i < numAnts ==> Slot(i) == Returned(old(Slot(i)), nest)
      ensures forall i :: 0 <= i < numAnts && !old(isLoaded[i]) ==> Slot(i) == old(Slot(i)) && !isLoaded[i]
      ensures counter == foodCounter + |old(Arriving(Loaded(), nest))|
    {
      ghost var ants := Ants();
      var loaded := Loaded();
      counter := foodCounter;
      if loaded != {} {
        forall i | i in loaded ensures 1 <= age[i] <= |historicPath[i]| {
          assert AntOk(Slot(i), span, nest, n0, n1);
        }
        counter := ReturnToNest(loaded, nest, foodCounter);
      }
      forall i | 0 <= i < numAnts
        ensures Slot(i) == Returned(ants[i], nest) && AntOk(Slot(i), span, nest, n0, n1)
      {
        ReturnedWalksBack(ants[i], span, nest, n0, n1);
      }
      OkIsValid(nest, n0, n1);
    }

    /**
     * The moving part of `advance` (fourmi.py:293-299) on a snapshot of the
     * maze's cells and field: `returnToNest` on the loaded ants, then
     * `explore` on the unloaded ones.
     */
    method MoveAnts(cells: Grid<bv8>, ph: Grid<real>, n0: nat, n1: nat, food: Pos, nest: Pos, foodCounter: int, coefs: real, fuel: nat)
      returns (counter: int, ghost rounds: nat)
      requires Valid(nest, n0, n1) && food != nest
      requires Layout(cells, ph, n0, n1) && NoOffGridExits(cells, n0, n1)
      modifies this
      ensures Valid(nest, n0, n1)
      ensures forall i :: 0 <= i < numAnts ==>
        Slot(i) == AdvanceAnt(old(Slot(i)), old(seeds[i]), cells, ph, n0, n1, span, fuel, food, nest, codes, coefs)
      ensures counter == foodCounter + |old(Arriving(Loaded(), nest))|
      ensures forall i :: 0 <= i < numAnts ==>
        seeds[i] == ParkMiller.Iterate(if old(isLoaded[i]) then old(seeds[i]) else ParkMiller.Next(old(seeds[i])), rounds)
      ensures rounds <= fuel
      ensures rounds < fuel ==> Settled(old(Ants()), old(seeds), old(Unloaded()), cells, ph, n0, n1, codes, coefs, rounds)
      ensures rounds > 0 ==> !Settled(old(Ants()), old(seeds), old(Unloaded()), cells, ph, n0, n1, codes, coefs, rounds - 1)
    {
      ghost var ants, s0 := Ants(), seeds;
      forall i | 0 <= i < numAnts ensures AntOk(ants[i], span, nest, n0, n1) {
      }
      var unloaded := Unloaded();
      counter := ReturnLoaded(nest, n0, n1, foodCounter);
      ghost var mid := Ants();
      rounds := ExploreUnloaded(unloaded, cells, ph, n0, n1, food, nest, coefs, fuel);
      SettledOnUnloaded(ants, mid, s0, unloaded, cells, ph, n0, n1, codes, coefs, rounds);
      if rounds > 0 {
        SettledOnUnloaded(ants, mid, s0, unloaded, cells, ph, n0, n1, codes, coefs, rounds - 1);
      }
      forall i | 0 <= i < numAnts
        ensures Slot(i) == AdvanceAnt(ants[i], s0[i], cells, ph, n0, n1, span, fuel, food, nest, codes, coefs)
      {
        AdvancePhases(ants[i], mid[i], Slot(i), s0[i], cells, ph, n0, n1, span, fuel, food, nest, codes, coefs);
      }
    }

    /** fourmi.py:297-299: `explore` runs only when some ant is unloaded. */
    method ExploreUnloaded(unloaded: set<int>, cells: Grid<bv8>, ph: Grid<real>, n0: nat, n1: nat, food: Pos, nest: Pos, coefs: real, fuel: nat)
      returns (rounds: nat)
      requires Valid(nest, n0, n1) && food != nest
      requires Layout(cells, ph, n0, n1) && NoOffGridExits(cells, n0, n1)
      requires forall i :: i in unloaded ==> 0 <= i < numAnts && !isLoaded[i]
      modifies this
      ensures Valid(nest, n0, n1)
      ensures forall i :: 0 <= i < numAnts ==>
        Slot(i) == if i in unloaded
          then ExploreAnt(old(Slot(i)), ParkMiller.Next(old(seeds[i])), Smell(cells, ph, n0, n1, Here(old(Slot(i)))),
                          Get(cells, Here(old(Slot(i)))), fuel, food, nest, codes, coefs)
          else old(Slot(i))
      ensures forall i :: 0 <= i < numAnts ==>
        seeds[i] == ParkMiller.Iterate(if i in unloaded then ParkMiller.Next(old(seeds[i])) else old(seeds[i]), rounds)
      ensures rounds <= fuel
      ensures rounds < fuel ==> Settled(old(Ants()), old(seeds), unloaded, cells, ph, n0, n1, codes, coefs, rounds)
      ensures rounds > 0 ==> !Settled(old(Ants()), old(seeds), unloaded, cells, ph, n0, n1, codes, coefs, rounds - 1)
    {
      rounds := 0;
      if unloaded != {} {
        rounds := ExploreOn(unloaded, cells, ph, n0, n1, food, nest, coefs, fuel);
      }
    }
  }
}
